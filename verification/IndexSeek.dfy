/** Reading the chunk index through its sparse checkpoints gives what reading all of it gives. */
module IndexSeek {
  import opened Bytes
  import opened Lines
  import opened ChunkIndex

  // ----- choosing a checkpoint -----

  /** The newest usable checkpoint after one more line of the checkpoint file. */
  function PickLine(json: Json, after: int, indexSize: int, candidate: Option<Checkpoint>, line: seq<byte>): Option<Checkpoint> {
    var c := json.checkpoint(line);
    if c.None? || !SafeInteger(c.value.sequence) || c.value.sequence < 0 || c.value.sequence > after
       || !SafeInteger(c.value.byteOffset) || c.value.byteOffset < 0 || c.value.byteOffset > indexSize
       || (candidate.Some? && c.value.sequence <= candidate.value.sequence)
    then candidate
    else c
  }

  function PickLines(json: Json, after: int, indexSize: int, candidate: Option<Checkpoint>, lines: seq<seq<byte>>): Option<Checkpoint>
    decreases |lines|
  {
    if lines == [] then candidate
    else PickLines(json, after, indexSize, PickLine(json, after, indexSize, candidate, lines[0]), lines[1..])
  }

  /** Text that has outgrown the bound loses its first line, or all of it when it has no newline. */
  function Trim(pending: seq<byte>): seq<byte> {
    if |pending| > MAX_CHECKPOINT_LINE_BYTES then DropLine(pending) else pending
  }

  function PickBlocks(json: Json, after: int, indexSize: int, candidate: Option<Checkpoint>, pending: seq<byte>, blocks: seq<seq<byte>>)
    : Option<Checkpoint>
    decreases |blocks|
  {
    if blocks == [] then candidate
    else
      var lines := SplitLines(Trim(pending + blocks[0]));
      PickBlocks(json, after, indexSize, PickLines(json, after, indexSize, candidate, ButLast(lines)), Last(lines), blocks[1..])
  }

  function Take(s: seq<byte>, n: nat): seq<byte> {
    if n <= |s| then s[..n] else s
  }

  /** The record at the offset must be the one the checkpoint says comes next. */
  predicate Confirmed(json: Json, index: seq<byte>, c: Checkpoint) {
    0 <= c.byteOffset <= |index|
    && json.sequenceOf(SplitLines(Take(index[c.byteOffset..], PROBE_BYTES))[0]) == Some(c.sequence + 1)
  }

  /** The checkpoint a read may start from; a newest candidate that fails the probe means none. */
  function Chosen(json: Json, files: LogFiles, after: int, blocks: seq<seq<byte>>): Option<Checkpoint> {
    var c := PickBlocks(json, after, |files.index|, None, [], blocks);
    if c.Some? && Confirmed(json, files.index, c.value) then c else None
  }

  method ReadCheckpointLines(json: Json, after: int, indexSize: int, before: Option<Checkpoint>, lines: seq<seq<byte>>)
    returns (candidate: Option<Checkpoint>)
    ensures candidate == PickLines(json, after, indexSize, before, lines)
  {
    hide PickLine;
    candidate := before;
    assert lines[0..] == lines;
    for k := 0 to |lines|
      invariant PickLines(json, after, indexSize, before, lines) == PickLines(json, after, indexSize, candidate, lines[k..])
    {
      assert lines[k..][1..] == lines[k + 1..];
      candidate := PickLine(json, after, indexSize, candidate, lines[k]);
    }
  }

  method FindChunkCheckpoint(json: Json, files: LogFiles, after: int, blocks: seq<seq<byte>>) returns (found: Option<Checkpoint>)
    ensures found == Chosen(json, files, after, blocks)
  {
    hide *;
    var candidate: Option<Checkpoint> := None;
    var pending: seq<byte> := [];
    assert blocks[0..] == blocks;
    for i := 0 to |blocks|
      invariant PickBlocks(json, after, |files.index|, None, [], blocks)
                == PickBlocks(json, after, |files.index|, candidate, pending, blocks[i..])
    {
      PickBlocksStep(json, after, |files.index|, candidate, pending, blocks, i);
      pending := pending + blocks[i];
      TrimIs(pending);
      if |pending| > MAX_CHECKPOINT_LINE_BYTES {
        var newline := LineLength(pending);
        if newline == |pending| {
          pending := [];
          EmptySplits();
          PickNoLines(json, after, |files.index|, candidate);
          continue;
        }
        pending := pending[newline + 1..];
      }
      var lines := SplitLines(pending);
      pending := Last(lines);
      candidate := ReadCheckpointLines(json, after, |files.index|, candidate, ButLast(lines));
    }
    ChosenIs(json, files, after, blocks, candidate, pending);
    if candidate.Some? && 0 <= candidate.value.byteOffset <= |files.index| {
      var probe := Take(files.index[candidate.value.byteOffset..], PROBE_BYTES);
      var line := SplitLines(probe)[0];
      if json.sequenceOf(line) == Some(candidate.value.sequence + 1) {
        return candidate;
      }
    }
    return None;
  }

  lemma PickBlocksStep(json: Json, after: int, indexSize: int, candidate: Option<Checkpoint>, pending: seq<byte>,
                       blocks: seq<seq<byte>>, i: nat)
    requires i < |blocks|
    ensures var lines := SplitLines(Trim(pending + blocks[i]));
            && lines != []
            && PickBlocks(json, after, indexSize, candidate, pending, blocks[i..])
               == PickBlocks(json, after, indexSize, PickLines(json, after, indexSize, candidate, ButLast(lines)), Last(lines), blocks[i + 1..])
  {
    hide PickLines, Trim, SplitLines;
    assert blocks[i..][1..] == blocks[i + 1..];
    SplitNonEmpty(Trim(pending + blocks[i]));
  }

  lemma TrimIs(pending: seq<byte>)
    ensures Trim(pending) ==
            if |pending| <= MAX_CHECKPOINT_LINE_BYTES then pending
            else if LineLength(pending) == |pending| then [] else pending[LineLength(pending) + 1..]
  {
    hide LineLength;
  }

  lemma PickNoLines(json: Json, after: int, indexSize: int, candidate: Option<Checkpoint>)
    ensures PickLines(json, after, indexSize, candidate, []) == candidate
  {
  }

  lemma ChosenIs(json: Json, files: LogFiles, after: int, blocks: seq<seq<byte>>, candidate: Option<Checkpoint>, pending: seq<byte>)
    requires PickBlocks(json, after, |files.index|, None, [], blocks)
             == PickBlocks(json, after, |files.index|, candidate, pending, blocks[|blocks|..])
    ensures Chosen(json, files, after, blocks) ==
            if candidate.Some? && 0 <= candidate.value.byteOffset <= |files.index|
               && json.sequenceOf(SplitLines(Take(files.index[candidate.value.byteOffset..], PROBE_BYTES))[0]) == Some(candidate.value.sequence + 1)
            then candidate else None
  {
    hide PickLines, Trim, SplitLines;
    SplitNonEmpty(if candidate.Some? && 0 <= candidate.value.byteOffset <= |files.index|
                  then Take(files.index[candidate.value.byteOffset..], PROBE_BYTES) else []);
  }

  lemma EmptySplits()
    ensures SplitLines([]) == [[]] && ButLast(SplitLines([])) == [] && Last(SplitLines([])) == []
  {
  }

  // ----- reading from a checkpoint -----

  function Bound(after: int, checkpointSequence: int): int {
    if checkpointSequence > 0 then checkpointSequence else after
  }

  function StartOf(json: Json, files: LogFiles, after: int, checkpointSequence: int, blocks: seq<seq<byte>>): Option<Checkpoint> {
    if Bound(after, checkpointSequence) > 0 then Chosen(json, files, Bound(after, checkpointSequence), blocks) else None
  }

  /** What a read from a start point hands out. */
  function SeekScan(json: Json, files: LogFiles, start: Option<Checkpoint>, after: int): seq<Entry>
    requires start.Some? ==> 0 <= start.value.byteOffset <= |files.index|
  {
    var offset := if start.Some? then start.value.byteOffset else 0;
    var previous := if start.Some? then start.value.sequence else 0;
    ChunkIndex.After(Scan(json, files, WholeLines(files.index[offset..]), previous), after)
  }

  /** How file bytes arrive: in blocks, cut anywhere. */
  ghost predicate Cuts(cut: seq<byte> -> seq<seq<byte>>) {
    forall s :: Flatten(cut(s)) == s
  }

  method IterChunkIndexEntriesFrom(json: Json, files: LogFiles, after: int, checkpointSequence: int, cut: seq<byte> -> seq<seq<byte>>)
    returns (entries: seq<Entry>)
    requires Cuts(cut)
    ensures var start := StartOf(json, files, after, checkpointSequence, cut(files.checkpoints));
            && (start.Some? ==> 0 <= start.value.byteOffset <= |files.index|)
            && var rest := files.index[if start.Some? then start.value.byteOffset else 0..];
               var previous := if start.Some? then start.value.sequence else 0;
               && entries == ChunkIndex.After(Scan(json, files, ShownLines(cut(rest), 0), previous), after)
               && (LongLinesAreJunk(json, files, WholeLines(rest)) ==> entries == SeekScan(json, files, start, after))
  {
    hide Scan, LongLinesAreJunk, PickBlocks, WholeLines, ChunkIndex.After, ShownLines;
    var checkpointBound := if checkpointSequence > 0 then checkpointSequence else after;
    var checkpoint: Option<Checkpoint> := None;
    if checkpointBound > 0 {
      checkpoint := FindChunkCheckpoint(json, files, checkpointBound, cut(files.checkpoints));
    }
    var start := if checkpoint.Some? then checkpoint.value.byteOffset else 0;
    var previous := if checkpoint.Some? then checkpoint.value.sequence else 0;
    var blocks := cut(files.index[start..]);
    entries := ScanIndex(json, files, blocks, after, previous);
    assert Flatten(blocks)[0..] == files.index[start..];
    if LongLinesAreJunk(json, files, WholeLines(files.index[start..])) {
      ShownScans(json, files, blocks, 0, previous);
    }
  }

  /** `iterChunkIndexEntriesAfter`: records strictly after a sequence. */
  method IterChunkIndexEntriesAfter(json: Json, files: LogFiles, after: int, cut: seq<byte> -> seq<seq<byte>>, ghost es: seq<Entry>)
    returns (entries: seq<Entry>)
    requires Cuts(cut) && Faithful(json) && WellFormed(json, files, es)
    ensures entries == ChunkIndex.After(es, after)
  {
    hide Scan, LongLinesAreJunk, PickBlocks, WholeLines, ChunkIndex.After, WellFormed, Faithful, SeekScan, StartOf, Cuts;
    entries := IterChunkIndexEntriesFrom(json, files, after, after, cut);
    SeekRefinesScan(json, files, es, after, after, cut(files.checkpoints));
  }

  method ReadLastChunkSequence(json: Json, files: LogFiles, cut: seq<byte> -> seq<seq<byte>>, ghost es: seq<Entry>)
    returns (previous: int)
    requires Cuts(cut) && Faithful(json) && WellFormed(json, files, es)
    ensures previous == LastSequence(es, 0)
  {
    hide Scan, LongLinesAreJunk, PickBlocks, WholeLines, ChunkIndex.After, WellFormed, Faithful, SeekScan, StartOf, Cuts;
    var entries := IterChunkIndexEntriesFrom(json, files, 0, MAX_SAFE_INTEGER, cut);
    SeekRefinesScan(json, files, es, 0, MAX_SAFE_INTEGER, cut(files.checkpoints));
    previous := 0;
    for i := 0 to |entries|
      invariant previous == LastSequence(entries[..i], 0)
    {
      previous := entries[i].sequence;
    }
    assert entries[..|entries|] == entries;
  }

  // ----- a well-formed index -----

  function PrintAll(json: Json, es: seq<Entry>): seq<byte> {
    if es == [] then [] else json.printEntry(es[0]) + [NEWLINE] + PrintAll(json, es[1..])
  }

  predicate Increasing(es: seq<Entry>, previous: int) {
    es == [] || (es[0].sequence > previous && Increasing(es[1..], es[0].sequence))
  }

  /** The index holds exactly these records, one printed line each, in increasing order, all within their streams. */
  predicate WellFormed(json: Json, files: LogFiles, es: seq<Entry>) {
    && files.index == PrintAll(json, es)
    && Increasing(es, 0)
    && forall i :: 0 <= i < |es| ==> Acceptable(es[i], files)
  }

  lemma WholeLinesPrinted(json: Json, e: Entry, rest: seq<byte>)
    requires NEWLINE !in json.printEntry(e)
    ensures WholeLines(json.printEntry(e) + [NEWLINE] + rest) == [json.printEntry(e)] + WholeLines(rest)
  {
    SplitTerminated(json.printEntry(e), rest);
    SplitConsLast(json.printEntry(e), SplitLines(rest));
    hide SplitLines;
  }

  /** Scanning printed records gives them back, and none of their lines is too long to read. */
  lemma {:induction false} ScanPrinted(json: Json, files: LogFiles, es: seq<Entry>, previous: int)
    requires Faithful(json) && Increasing(es, previous) && forall i :: 0 <= i < |es| ==> Acceptable(es[i], files)
    ensures Scan(json, files, WholeLines(PrintAll(json, es)), previous) == es
    ensures LongLinesAreJunk(json, files, WholeLines(PrintAll(json, es)))
    decreases |es|
  {
    hide WholeLines;
    if es == [] {
      NoLines();
    } else {
      var rest := PrintAll(json, es[1..]);
      ScanPrinted(json, files, es[1..], es[0].sequence);
      WholeLinesPrinted(json, es[0], rest);
      ConsTail(json.printEntry(es[0]), WholeLines(rest));
      assert json.entry(json.printEntry(es[0])) == Some(es[0]);
      assert |json.printEntry(es[0])| < PROBE_BYTES;
      assert [es[0]] + es[1..] == es;
      var lines := [json.printEntry(es[0])] + WholeLines(rest);
      forall i | 0 <= i < |lines| && |lines[i]| > MAX_INDEX_LINE_BYTES
        ensures Accept(json, files, lines[i]).None?
      {
        assert lines[i] == WholeLines(rest)[i - 1];
      }
    }
  }

  lemma NoLines()
    ensures WholeLines([]) == []
  {
  }

  lemma FirstPiece(s: seq<byte>)
    ensures SplitLines(s)[0] == s[..LineLength(s)]
  {
    assert s[..|s|] == s;
  }

  /** What the probe reads when it starts inside a printed line: part of that line. */
  lemma ProbeInLine(json: Json, e: Entry, rest: seq<byte>, offset: nat)
    requires Faithful(json) && offset <= |json.printEntry(e)|
    ensures var text := json.printEntry(e) + [NEWLINE] + rest;
            var found := json.sequenceOf(SplitLines(Take(text[offset..], PROBE_BYTES))[0]);
            found.Some? ==> offset == 0 && found == Some(e.sequence)
  {
    var line := json.printEntry(e);
    var text := line + [NEWLINE] + rest;
    var seen := Take(text[offset..], PROBE_BYTES);
    var tail := line[offset..];
    assert text[offset..] == tail + ([NEWLINE] + rest);
    PieceOfLine(tail, rest);
    var k := if |tail| < PROBE_BYTES then |tail| else PROBE_BYTES;
    FirstPiece(seen);
    assert seen[..LineLength(seen)] == tail[..k] == line[offset..offset + k];
    assert json.sequenceOf(line) == Some(e.sequence);
    assert line[0..|line|] == line;
  }

  lemma PieceOfLine(tail: seq<byte>, rest: seq<byte>)
    requires NEWLINE !in tail
    ensures var seen := Take(tail + ([NEWLINE] + rest), PROBE_BYTES);
            var k := if |tail| < PROBE_BYTES then |tail| else PROBE_BYTES;
            LineLength(seen) == k && seen[..k] == tail[..k]
  {
    var whole := tail + ([NEWLINE] + rest);
    var seen := Take(whole, PROBE_BYTES);
    if |tail| < PROBE_BYTES {
      assert seen == tail + Take([NEWLINE] + rest, PROBE_BYTES - |tail|);
      LineLengthNone(tail);
      LineLengthAppend(tail, Take([NEWLINE] + rest, PROBE_BYTES - |tail|));
    } else {
      assert seen == tail[..PROBE_BYTES];
      LineLengthNone(seen);
    }
  }

  /** A confirmed checkpoint points at the start of the record it names. */
  lemma {:induction false} ConfirmedIsLineStart(json: Json, es: seq<Entry>, c: Checkpoint) returns (j: nat)
    requires Faithful(json) && Confirmed(json, PrintAll(json, es), c)
    ensures j < |es| && es[j].sequence == c.sequence + 1
    ensures PrintAll(json, es)[c.byteOffset..] == PrintAll(json, es[j..])
    decreases |es|
  {
    j := 0;
    if es == [] {
      EmptyProbe();
      assert false;
    } else {
      var line, rest := json.printEntry(es[0]), PrintAll(json, es[1..]);
      if c.byteOffset <= |line| {
        ProbeInLine(json, es[0], rest, c.byteOffset);
        assert es[0..] == es;
        assert PrintAll(json, es)[0..] == PrintAll(json, es);
      } else {
        var inner := Checkpoint(c.sequence, c.byteOffset - |line| - 1);
        assert PrintAll(json, es)[c.byteOffset..] == rest[inner.byteOffset..];
        j := ConfirmedIsLineStart(json, es[1..], inner);
        assert es[1..][j..] == es[j + 1..];
        j := j + 1;
      }
    }
  }

  lemma EmptyProbe()
    ensures Take([], PROBE_BYTES) == [] && SplitLines([])[0] == []
  {
  }

  lemma {:induction false} IncreasingFrom(es: seq<Entry>, previous: int, j: nat)
    requires Increasing(es, previous) && j < |es|
    ensures es[j].sequence > previous
    ensures forall p :: p < es[j].sequence ==> Increasing(es[j..], p)
    ensures forall k :: k >= es[j].sequence - 1 ==> ChunkIndex.After(es[..j], k) == []
    decreases |es|
  {
    if j == 0 {
      assert es[0..] == es;
    } else {
      IncreasingFrom(es[1..], es[0].sequence, j - 1);
      assert es[1..][j - 1..] == es[j..];
      assert es[..j][0] == es[0] && es[..j][1..] == es[1..][..j - 1];
    }
  }

  /** The first record of an increasing index that a filter keeps is kept along with all after it. */
  lemma {:induction false} AfterZero(es: seq<Entry>, previous: int)
    requires Increasing(es, previous) && previous >= 0
    ensures ChunkIndex.After(es, 0) == es
  {
    if es != [] {
      AfterZero(es[1..], es[0].sequence);
    }
  }

  lemma LastOfSuffix(es: seq<Entry>, j: nat)
    requires j < |es|
    ensures LastSequence(es[j..], 0) == LastSequence(es, 0)
  {
  }

  predicate InRange(c: Option<Checkpoint>, after: int) {
    c.Some? ==> 0 <= c.value.sequence <= after
  }

  lemma {:induction false} PickLinesInRange(json: Json, after: int, indexSize: int, candidate: Option<Checkpoint>, lines: seq<seq<byte>>)
    requires InRange(candidate, after)
    ensures InRange(PickLines(json, after, indexSize, candidate, lines), after)
    decreases |lines|
  {
    if lines != [] {
      PickLinesInRange(json, after, indexSize, PickLine(json, after, indexSize, candidate, lines[0]), lines[1..]);
    }
  }

  lemma {:induction false} PickBlocksInRange(json: Json, after: int, indexSize: int, candidate: Option<Checkpoint>,
                                             pending: seq<byte>, blocks: seq<seq<byte>>)
    requires InRange(candidate, after)
    ensures InRange(PickBlocks(json, after, indexSize, candidate, pending, blocks), after)
    decreases |blocks|
  {
    if blocks != [] {
      var lines := SplitLines(Trim(pending + blocks[0]));
      PickLinesInRange(json, after, indexSize, candidate, ButLast(lines));
      PickBlocksInRange(json, after, indexSize, PickLines(json, after, indexSize, candidate, ButLast(lines)), Last(lines), blocks[1..]);
    }
  }

  /**
   * Whatever the checkpoint file holds, missing, stale or corrupt, and however it arrives: reading
   * after a sequence through it is filtering the full scan, and its last record is the full scan's last.
   */
  lemma SeekRefinesScan(json: Json, files: LogFiles, es: seq<Entry>, after: int, checkpointSequence: int, blocks: seq<seq<byte>>)
    requires Faithful(json) && WellFormed(json, files, es)
    ensures FullScan(json, files) == es
    ensures var start := StartOf(json, files, after, checkpointSequence, blocks);
            && (start.Some? ==> 0 <= start.value.byteOffset <= |files.index|)
            && LongLinesAreJunk(json, files, WholeLines(files.index[if start.Some? then start.value.byteOffset else 0..]))
            && (checkpointSequence <= after ==> SeekScan(json, files, start, after) == ChunkIndex.After(es, after))
            && (after == 0 ==> LastSequence(SeekScan(json, files, start, 0), 0) == LastSequence(es, 0))
  {
    ScanPrinted(json, files, es, 0);
    assert files.index[0..] == files.index;
    AfterZero(es, 0);
    var start := StartOf(json, files, after, checkpointSequence, blocks);
    if start.Some? {
      var bound := Bound(after, checkpointSequence);
      PickBlocksInRange(json, bound, |files.index|, None, [], blocks);
      SeekFrom(json, files, es, start.value, after, bound);
    }
    hide Scan, Faithful, PickBlocks, WholeLines, Confirmed, LongLinesAreJunk, Increasing;
  }

  lemma SeekFrom(json: Json, files: LogFiles, es: seq<Entry>, c: Checkpoint, after: int, bound: int)
    requires Faithful(json) && WellFormed(json, files, es)
    requires Confirmed(json, files.index, c) && 0 <= c.sequence <= bound
    ensures 0 <= c.byteOffset <= |files.index|
    ensures LongLinesAreJunk(json, files, WholeLines(files.index[c.byteOffset..]))
    ensures bound <= after ==> SeekScan(json, files, Some(c), after) == ChunkIndex.After(es, after)
    ensures LastSequence(SeekScan(json, files, Some(c), 0), 0) == LastSequence(es, 0)
  {
    var j := ConfirmedIsLineStart(json, es, c);
    IncreasingFrom(es, 0, j);
    ScanPrinted(json, files, es[j..], c.sequence);
    assert es[..j] + es[j..] == es;
    AfterAppend(es[..j], es[j..], after);
    AfterZero(es[j..], c.sequence);
    LastOfSuffix(es, j);
    assert bound <= after ==> [] + ChunkIndex.After(es[j..], after) == ChunkIndex.After(es[j..], after);
    hide Scan, Faithful, PrintAll, WholeLines, Confirmed, LongLinesAreJunk;
  }
}
