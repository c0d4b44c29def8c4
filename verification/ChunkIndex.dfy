/** The durable chunk index beside the log streams, its sparse checkpoints, and the three ways of reading it. */
module ChunkIndex {
  import opened Bytes
  import opened Lines

  datatype Stream = Stdout | Stderr

  datatype Entry = Entry(sequence: int, stream: Stream, byteOffset: int, byteLength: int)

  datatype Checkpoint = Checkpoint(sequence: int, byteOffset: int)

  datatype LogFiles = LogFiles(stdout: seq<byte>, stderr: seq<byte>, index: seq<byte>, checkpoints: seq<byte>) {
    function Of(stream: Stream): seq<byte> {
      match stream case Stdout => stdout case Stderr => stderr
    }
  }

  const CHUNK_CHECKPOINT_INTERVAL := 128
  const MAX_CHECKPOINT_LINE_BYTES: nat := 64 * 1024
  const MAX_INDEX_LINE_BYTES := 1024 * 1024
  const PROBE_BYTES: nat := 4096
  const TAIL_BLOCK_BYTES: nat := 64 * 1024
  const MAX_SAFE_INTEGER := 0x1F_FFFF_FFFF_FFFF

  /**
   * JSON text is kept abstract. `entry` and `checkpoint` read a line as `JSON.parse` does, `sequenceOf`
   * reads only the field the checkpoint probe looks at, and the print functions are `JSON.stringify`.
   */
  datatype Json = Json(
    printEntry: Entry -> seq<byte>, entry: seq<byte> -> Option<Entry>, sequenceOf: seq<byte> -> Option<int>,
    printCheckpoint: Checkpoint -> seq<byte>, checkpoint: seq<byte> -> Option<Checkpoint>)

  /**
   * What is used of JSON: a printed record is one line, reads back, reads as nothing unless it is
   * whole, and is short.
   */
  ghost predicate Faithful(json: Json) {
    && (forall e :: json.printEntry(e) != [] && NEWLINE !in json.printEntry(e) && json.entry(json.printEntry(e)) == Some(e)
                    && json.sequenceOf(json.printEntry(e)) == Some(e.sequence))
    && (forall e, i, j :: 0 <= i <= j <= |json.printEntry(e)| && j - i < |json.printEntry(e)|
                          ==> json.sequenceOf(json.printEntry(e)[i..j]) == None)
    && (forall e: Entry :: SafeInteger(e.sequence) && SafeInteger(e.byteOffset) && SafeInteger(e.byteLength)
                    ==> |json.printEntry(e)| < PROBE_BYTES)
    && json.sequenceOf([]) == None
  }

  predicate SafeInteger(x: int) {
    -MAX_SAFE_INTEGER <= x <= MAX_SAFE_INTEGER
  }

  /** The checks a record must pass against the sizes of the stream files. */
  predicate Acceptable(e: Entry, files: LogFiles) {
    && SafeInteger(e.sequence) && e.sequence >= 1
    && SafeInteger(e.byteOffset) && e.byteOffset >= 0
    && SafeInteger(e.byteLength) && e.byteLength >= 0
    && e.byteOffset <= MAX_SAFE_INTEGER - e.byteLength
    && e.byteOffset + e.byteLength <= |files.Of(e.stream)|
  }

  /** The record on a line, if it is one the readers accept. An empty line is never one. */
  function Accept(json: Json, files: LogFiles, line: seq<byte>): Option<Entry> {
    var e := json.entry(line);
    if line != [] && e.Some? && Acceptable(e.value, files) then e else None
  }

  // ----- the canonical scan -----

  /** The accepted records of some lines, in order, skipping any that does not exceed the one before. */
  function Scan(json: Json, files: LogFiles, lines: seq<seq<byte>>, previous: int): seq<Entry> {
    if lines == [] then []
    else
      var e := Accept(json, files, lines[0]);
      if e.Some? && e.value.sequence > previous then [e.value] + Scan(json, files, lines[1..], e.value.sequence)
      else Scan(json, files, lines[1..], previous)
  }

  function LastSequence(entries: seq<Entry>, previous: int): int {
    if entries == [] then previous else entries[|entries| - 1].sequence
  }

  function After(entries: seq<Entry>, sequence: int): seq<Entry> {
    if entries == [] then []
    else (if entries[0].sequence > sequence then [entries[0]] else []) + After(entries[1..], sequence)
  }

  /** Every record of the index, as a reader without checkpoints sees it. */
  function FullScan(json: Json, files: LogFiles): seq<Entry> {
    Scan(json, files, WholeLines(files.index), 0)
  }

  /** No line longer than the bound holds a record, so dropping such a line loses nothing. */
  predicate LongLinesAreJunk(json: Json, files: LogFiles, lines: seq<seq<byte>>) {
    forall i :: 0 <= i < |lines| && |lines[i]| > 1048576 ==> Accept(json, files, lines[i]).None?
  }

  lemma {:induction false} ScanAppend(json: Json, files: LogFiles, a: seq<seq<byte>>, b: seq<seq<byte>>, previous: int)
    ensures Scan(json, files, a + b, previous)
            == Scan(json, files, a, previous) + Scan(json, files, b, LastSequence(Scan(json, files, a, previous), previous))
    decreases |a|
  {
    if a == [] {
      assert a + b == b;
    } else {
      AppendTail(a, b);
      var e := Accept(json, files, a[0]);
      if e.Some? && e.value.sequence > previous {
        ScanAppend(json, files, a[1..], b, e.value.sequence);
        var s := Scan(json, files, a[1..], e.value.sequence);
        LastSequenceCons(e.value, s, previous);
        Assoc([e.value], s, Scan(json, files, b, LastSequence(s, e.value.sequence)));
      } else {
        ScanAppend(json, files, a[1..], b, previous);
      }
    }
  }

  lemma LastSequenceCons(e: Entry, s: seq<Entry>, previous: int)
    ensures LastSequence([e] + s, previous) == LastSequence(s, e.sequence)
  {
  }

  lemma {:induction false} AfterAppend(a: seq<Entry>, b: seq<Entry>, sequence: int)
    ensures After(a + b, sequence) == After(a, sequence) + After(b, sequence)
  {
    if a == [] {
      assert a + b == b;
    } else {
      AppendTail(a, b);
      AfterAppend(a[1..], b, sequence);
      Assoc(if a[0].sequence > sequence then [a[0]] else [], After(a[1..], sequence), After(b, sequence));
    }
  }

  /** The lines of one block, in order. */
  method ScanLines(json: Json, files: LogFiles, lines: seq<seq<byte>>, after: int, before: int)
    returns (entries: seq<Entry>, previous: int)
    ensures entries == After(Scan(json, files, lines, before), after)
    ensures previous == LastSequence(Scan(json, files, lines, before), before)
  {
    entries, previous := [], before;
    for i := 0 to |lines|
      invariant entries == After(Scan(json, files, lines[..i], before), after)
      invariant previous == LastSequence(Scan(json, files, lines[..i], before), before)
    {
      ghost var done := Scan(json, files, lines[..i], before);
      assert lines[..i + 1] == lines[..i] + [lines[i]];
      ScanAppend(json, files, lines[..i], [lines[i]], before);
      ScanOne(json, files, lines[i], previous);
      var e := Accept(json, files, lines[i]);
      if e.None? || e.value.sequence <= previous {
        assert done + [] == done;
        continue;
      }
      AfterAppend(done, [e.value], after);
      AfterOne(e.value, after);
      previous := e.value.sequence;
      if e.value.sequence > after {
        entries := entries + [e.value];
      } else {
        assert After(done, after) + [] == After(done, after);
      }
    }
    assert lines[..|lines|] == lines;
  }

  lemma ScanOne(json: Json, files: LogFiles, line: seq<byte>, previous: int)
    ensures var e := Accept(json, files, line);
            Scan(json, files, [line], previous) == if e.Some? && e.value.sequence > previous then [e.value] else []
  {
    assert [line][1..] == [];
    hide Accept;
  }

  lemma AfterOne(e: Entry, after: int)
    ensures After([e], after) == if e.sequence > after then [e] else []
  {
    assert [e][1..] == [];
  }

  /** Everything after the first newline, or nothing when there is none. */
  function DropLine(s: seq<byte>): seq<byte> {
    var n := LineLength(s);
    if n == |s| then [] else s[n + 1..]
  }

  lemma FlattenAt(blocks: seq<seq<byte>>, i: nat)
    requires i < |blocks|
    ensures Flatten(blocks[i..]) == blocks[i] + Flatten(blocks[i + 1..])
  {
    assert blocks[i..][0] == blocks[i] && blocks[i..][1..] == blocks[i + 1..];
  }

  lemma SplitNonEmpty(s: seq<byte>)
    ensures SplitLines(s) != []
  {
  }

  // ----- lines as a reader meets them, block by block -----

  /** How many bytes the first `i` blocks hold. */
  function EndOf(blocks: seq<seq<byte>>, i: nat): nat
    requires i <= |blocks|
  {
    |Flatten(blocks[..i])|
  }

  /** Some block ends in the line between two positions, more than the bound into it: the reader gives the line up. */
  ghost predicate Dropped(blocks: seq<seq<byte>>, from: nat, to: nat) {
    exists i :: 0 < i <= |blocks| && from + 1048576 < EndOf(blocks, i) <= to
  }

  /** The whole lines from a position on, without those the reader gives up. */
  ghost function ShownLines(blocks: seq<seq<byte>>, from: nat): seq<seq<byte>>
    requires from <= |Flatten(blocks)|
    decreases |Flatten(blocks)| - from
  {
    var text := Flatten(blocks);
    var n := LineLength(text[from..]);
    if from + n == |text| then []
    else (if Dropped(blocks, from, from + n) then [] else [text[from..from + n]]) + ShownLines(blocks, from + n + 1)
  }

  lemma BlockAt(blocks: seq<seq<byte>>, i: nat)
    requires i < |blocks|
    ensures EndOf(blocks, i + 1) == EndOf(blocks, i) + |blocks[i]| <= |Flatten(blocks)|
    ensures Flatten(blocks)[EndOf(blocks, i)..EndOf(blocks, i + 1)] == blocks[i]
  {
    hide Flatten;
    var lead, later := Flatten(blocks[..i]), Flatten(blocks[i + 1..]);
    assert blocks[..i + 1] == blocks[..i] + [blocks[i]];
    FlattenSnoc(blocks[..i], blocks[i]);
    assert blocks == blocks[..i + 1] + blocks[i + 1..];
    FlattenAppend(blocks[..i + 1], blocks[i + 1..]);
    assert (lead + blocks[i] + later)[|lead|..|lead + blocks[i]|] == blocks[i];
  }

  lemma {:induction false} EndsRise(blocks: seq<seq<byte>>, i: nat, j: nat)
    requires i <= j <= |blocks|
    ensures EndOf(blocks, i) <= EndOf(blocks, j)
    decreases j - i
  {
    if i < j {
      BlockAt(blocks, i);
      EndsRise(blocks, i + 1, j);
    }
  }

  lemma EndOfAll(blocks: seq<seq<byte>>)
    ensures EndOf(blocks, 0) == 0 && EndOf(blocks, |blocks|) == |Flatten(blocks)|
  {
    assert blocks[..|blocks|] == blocks;
  }

  /** The lines of a stretch in which no block ends too far into a line are all shown. */
  lemma {:induction false} ShownPieces(blocks: seq<seq<byte>>, from: nat, upto: nat)
    requires from <= upto <= |Flatten(blocks)|
    requires forall i :: 0 < i <= |blocks| ==> EndOf(blocks, i) <= from + MAX_INDEX_LINE_BYTES || EndOf(blocks, i) >= upto
    ensures var pieces := SplitLines(Flatten(blocks)[from..upto]);
            |Last(pieces)| <= upto - from
            && ShownLines(blocks, from) == ButLast(pieces) + ShownLines(blocks, upto - |Last(pieces)|)
    decreases upto - from
  {
    hide EndOf, Flatten, ShownLines, SplitLines, ButLast, Last;
    var text := Flatten(blocks);
    var n := LineLength(text[from..upto]);
    SplitsAt(text, from, upto);
    if n < upto - from {
      var next := from + n + 1;
      LineLengthSlice(text, from, upto);
      NotGivenUp(blocks, from, n);
      ShownPieces(blocks, next, upto);
      SplitConsLast(text[from..from + n], SplitLines(text[next..upto]));
      Assoc([text[from..from + n]], ButLast(SplitLines(text[next..upto])), ShownLines(blocks, upto - |Last(SplitLines(text[next..upto]))|));
    } else {
      OnePiece(text[from..upto], ShownLines(blocks, from));
    }
  }

  lemma OnePiece(piece: seq<byte>, later: seq<seq<byte>>)
    ensures Last([piece]) == piece && ButLast([piece]) + later == later
  {
  }

  lemma SliceSlice(text: seq<byte>, from: nat, upto: nat, n: nat)
    requires from <= upto <= |text| && n < upto - from
    ensures text[from..upto][..n] == text[from..from + n] && text[from..upto][n + 1..] == text[from + n + 1..upto]
  {
  }

  lemma SplitsAt(text: seq<byte>, from: nat, upto: nat)
    requires from <= upto <= |text|
    ensures var n := LineLength(text[from..upto]);
            SplitLines(text[from..upto])
            == if n == upto - from then [text[from..upto]] else [text[from..from + n]] + SplitLines(text[from + n + 1..upto])
  {
    hide LineLength;
    var n := LineLength(text[from..upto]);
    if n < upto - from {
      SliceSlice(text, from, upto, n);
    }
  }

  /** A line in which no block ends too far is shown. */
  lemma NotGivenUp(blocks: seq<seq<byte>>, from: nat, n: nat)
    requires from <= |Flatten(blocks)| && n == LineLength(Flatten(blocks)[from..]) && from + n < |Flatten(blocks)|
    requires forall i :: 0 < i <= |blocks| ==> EndOf(blocks, i) <= from + MAX_INDEX_LINE_BYTES || EndOf(blocks, i) > from + n
    ensures ShownLines(blocks, from) == [Flatten(blocks)[from..from + n]] + ShownLines(blocks, from + n + 1)
  {
    hide EndOf, Flatten, LineLength;
  }

  lemma LineLengthSlice(text: seq<byte>, from: nat, to: nat)
    requires from <= to <= |text|
    ensures LineLength(text[from..to]) < to - from ==> LineLength(text[from..]) == LineLength(text[from..to])
    ensures LineLength(text[from..to]) == to - from ==> LineLength(text[from..]) == to - from + LineLength(text[to..])
  {
    assert text[from..] == text[from..to] + text[to..];
    LineLengthAppend(text[from..to], text[to..]);
  }

  /** The line a reader gave up ends at the first newline that follows. */
  lemma GivenUp(blocks: seq<seq<byte>>, i: nat, from: nat, n: nat)
    requires 0 < i <= |blocks| && from + MAX_INDEX_LINE_BYTES < EndOf(blocks, i) <= |Flatten(blocks)|
    requires NEWLINE !in Flatten(blocks)[from..EndOf(blocks, i)]
    requires n == LineLength(Flatten(blocks)[EndOf(blocks, i)..]) && EndOf(blocks, i) + n < |Flatten(blocks)|
    ensures ShownLines(blocks, from) == ShownLines(blocks, EndOf(blocks, i) + n + 1)
  {
    hide Flatten, EndOf, ShownLines;
    var at := EndOf(blocks, i);
    LineLengthNone(Flatten(blocks)[from..at]);
    LineLengthSlice(Flatten(blocks), from, at);
    assert Dropped(blocks, from, at + n);
    hide Dropped, LineLength;
    DroppedIsSkipped(blocks, from, at + n - from);
  }

  lemma DroppedIsSkipped(blocks: seq<seq<byte>>, from: nat, n: nat)
    requires from <= |Flatten(blocks)| && n == LineLength(Flatten(blocks)[from..]) && from + n < |Flatten(blocks)|
    requires Dropped(blocks, from, from + n)
    ensures ShownLines(blocks, from) == ShownLines(blocks, from + n + 1)
  {
    hide EndOf, Flatten, LineLength, Dropped;
    var later := ShownLines(blocks, from + n + 1);
    assert [] + later == later;
  }

  // ----- the streaming reader -----

  /** What the reader still has to hand out, with the line it is in begun at `from`. */
  ghost predicate Reading(json: Json, files: LogFiles, blocks: seq<seq<byte>>, goal: seq<Entry>, done: seq<Entry>, from: nat,
                          previous: int, after: int)
  {
    from <= |Flatten(blocks)| && goal == done + After(Scan(json, files, ShownLines(blocks, from), previous), after)
  }

  /** The reader has read up to the end of block `i`: what it holds of the line begun at `from`. */
  ghost predicate Holding(blocks: seq<seq<byte>>, i: nat, from: nat, pending: seq<byte>, discarding: bool) {
    && i <= |blocks| && from <= EndOf(blocks, i) <= |Flatten(blocks)|
    && NEWLINE !in Flatten(blocks)[from..EndOf(blocks, i)]
    && (if discarding then pending == [] && from + MAX_INDEX_LINE_BYTES < EndOf(blocks, i)
        else pending == Flatten(blocks)[from..EndOf(blocks, i)] && |pending| <= MAX_INDEX_LINE_BYTES)
  }

  ghost predicate NoEndBetween(blocks: seq<seq<byte>>, from: nat, to: nat) {
    forall i :: 0 < i <= |blocks| ==> EndOf(blocks, i) <= from + MAX_INDEX_LINE_BYTES || EndOf(blocks, i) >= to
  }

  lemma ReaderStarts(json: Json, files: LogFiles, blocks: seq<seq<byte>>, before: int, after: int)
    ensures Holding(blocks, 0, 0, [], false)
    ensures Reading(json, files, blocks, After(Scan(json, files, ShownLines(blocks, 0), before), after), [], 0, before, after)
  {
    hide Scan, After, ShownLines;
    EndOfAll(blocks);
    var goal := After(Scan(json, files, ShownLines(blocks, 0), before), after);
    assert [] + goal == goal;
  }

  lemma OnlyEndsBehind(blocks: seq<seq<byte>>, i: nat, from: nat)
    requires i < |blocks| && EndOf(blocks, i) <= from + MAX_INDEX_LINE_BYTES
    ensures NoEndBetween(blocks, from, EndOf(blocks, i + 1))
  {
    hide EndOf;
    forall k | 0 < k <= |blocks|
      ensures EndOf(blocks, k) <= from + MAX_INDEX_LINE_BYTES || EndOf(blocks, k) >= EndOf(blocks, i + 1)
    {
      if k <= i {
        EndsRise(blocks, k, i);
      } else {
        EndsRise(blocks, i + 1, k);
      }
    }
  }

  lemma Slices(text: seq<byte>, a: nat, b: nat, c: nat)
    requires a <= b <= c <= |text|
    ensures text[a..b] + text[b..c] == text[a..c]
  {
  }

  lemma TakeBlock(blocks: seq<seq<byte>>, i: nat, from: nat, pending: seq<byte>)
    requires i < |blocks| && Holding(blocks, i, from, pending, false)
    ensures from <= EndOf(blocks, i + 1) <= |Flatten(blocks)|
    ensures pending + blocks[i] == Flatten(blocks)[from..EndOf(blocks, i + 1)]
    ensures NoEndBetween(blocks, from, EndOf(blocks, i + 1))
  {
    hide Flatten, EndOf, NoEndBetween;
    BlockAt(blocks, i);
    Slices(Flatten(blocks), from, EndOf(blocks, i), EndOf(blocks, i + 1));
    OnlyEndsBehind(blocks, i, from);
  }

  lemma StillGivenUp(blocks: seq<seq<byte>>, i: nat, from: nat, pending: seq<byte>)
    requires i < |blocks| && Holding(blocks, i, from, pending, true) && LineLength(blocks[i]) == |blocks[i]|
    ensures Holding(blocks, i + 1, from, pending, true)
  {
    hide Flatten, EndOf;
    BlockAt(blocks, i);
    Slices(Flatten(blocks), from, EndOf(blocks, i), EndOf(blocks, i + 1));
    assert NEWLINE !in blocks[i];
  }

  lemma DiscardEnds(json: Json, files: LogFiles, blocks: seq<seq<byte>>, goal: seq<Entry>, done: seq<Entry>, i: nat, from: nat,
                    pending: seq<byte>, previous: int, after: int)
    requires i < |blocks| && Holding(blocks, i, from, pending, true) && LineLength(blocks[i]) < |blocks[i]|
    requires Reading(json, files, blocks, goal, done, from, previous, after)
    ensures var next := EndOf(blocks, i) + LineLength(blocks[i]) + 1;
            && next <= EndOf(blocks, i + 1) <= |Flatten(blocks)|
            && blocks[i][LineLength(blocks[i]) + 1..] == Flatten(blocks)[next..EndOf(blocks, i + 1)]
            && NoEndBetween(blocks, next, EndOf(blocks, i + 1))
            && Reading(json, files, blocks, goal, done, next, previous, after)
  {
    hide Flatten, EndOf, NoEndBetween, Scan, After, ShownLines;
    var text, at := Flatten(blocks), EndOf(blocks, i);
    var n := LineLength(blocks[i]);
    BlockAt(blocks, i);
    LineLengthSlice(text, at, EndOf(blocks, i + 1));
    EndOfAll(blocks);
    GivenUp(blocks, i, from, n);
    assert text[at..EndOf(blocks, i + 1)][n + 1..] == text[at + n + 1..EndOf(blocks, i + 1)];
    OnlyEndsBehind(blocks, i, at + n + 1);
  }

  lemma TakeLines(json: Json, files: LogFiles, blocks: seq<seq<byte>>, goal: seq<Entry>, done: seq<Entry>, i: nat, from: nat,
                  previous: int, after: int)
    requires i <= |blocks| && from <= EndOf(blocks, i) <= |Flatten(blocks)| && NoEndBetween(blocks, from, EndOf(blocks, i))
    requires Reading(json, files, blocks, goal, done, from, previous, after)
    ensures var lines := SplitLines(Flatten(blocks)[from..EndOf(blocks, i)]);
            var scanned := Scan(json, files, ButLast(lines), previous);
            && |Last(lines)| <= EndOf(blocks, i) - from
            && Last(lines) == Flatten(blocks)[EndOf(blocks, i) - |Last(lines)|..EndOf(blocks, i)]
            && Reading(json, files, blocks, goal, done + After(scanned, after), EndOf(blocks, i) - |Last(lines)|,
                       LastSequence(scanned, previous), after)
  {
    hide Flatten, EndOf, Scan, After, ShownLines, SplitLines, LastSequence;
    var here := Flatten(blocks)[from..EndOf(blocks, i)];
    var lines := SplitLines(here);
    ShownPieces(blocks, from, EndOf(blocks, i));
    LastPieceIsEnd(here);
    var shown := ShownLines(blocks, EndOf(blocks, i) - |Last(lines)|);
    var scanned := Scan(json, files, ButLast(lines), previous);
    ScanAppend(json, files, ButLast(lines), shown, previous);
    var next := Scan(json, files, shown, LastSequence(scanned, previous));
    AfterAppend(scanned, next, after);
    Assoc(done, After(scanned, after), After(next, after));
  }

  lemma {:induction false} LastPieceIsEnd(s: seq<byte>)
    ensures var last := Last(SplitLines(s)); |last| <= |s| && last == s[|s| - |last|..]
    decreases |s|
  {
    hide LineLength, SplitLines;
    var n := LineLength(s);
    SplitsAt(s, 0, |s|);
    assert s[0..|s|] == s;
    if n < |s| {
      var rest := s[n + 1..];
      assert s[0 + n + 1..|s|] == rest;
      LastPieceIsEnd(rest);
      SplitConsLast(s[0..0 + n], SplitLines(rest));
      EndOfEnd(s, n + 1, |Last(SplitLines(rest))|);
    } else {
      OnePiece(s, []);
    }
  }

  lemma EndOfEnd(s: seq<byte>, cut: nat, k: nat)
    requires cut <= |s| && k <= |s| - cut
    ensures s[cut..][|s| - cut - k..] == s[|s| - k..]
  {
  }

  lemma HoldingIs(blocks: seq<seq<byte>>, i: nat, from: nat, piece: seq<byte>)
    requires i <= |blocks| && from <= EndOf(blocks, i) <= |Flatten(blocks)|
    requires piece == Flatten(blocks)[from..EndOf(blocks, i)] && NEWLINE !in piece
    ensures if |piece| > MAX_INDEX_LINE_BYTES then Holding(blocks, i, from, [], true) else Holding(blocks, i, from, piece, false)
  {
    hide Flatten, EndOf;
  }

  lemma ReaderEnds(json: Json, files: LogFiles, blocks: seq<seq<byte>>, goal: seq<Entry>, done: seq<Entry>, from: nat,
                   pending: seq<byte>, discarding: bool, previous: int, after: int)
    requires Holding(blocks, |blocks|, from, pending, discarding) && Reading(json, files, blocks, goal, done, from, previous, after)
    ensures goal == done
  {
    hide Flatten, EndOf;
    EndOfAll(blocks);
    assert Flatten(blocks)[from..] == Flatten(blocks)[from..|Flatten(blocks)|];
    LineLengthNone(Flatten(blocks)[from..]);
    assert done + [] == done;
  }

  // ----- nothing is lost when no overlong line holds a record -----

  lemma JunkTail(json: Json, files: LogFiles, a: seq<seq<byte>>, b: seq<seq<byte>>)
    requires LongLinesAreJunk(json, files, a + b)
    ensures LongLinesAreJunk(json, files, b)
  {
    forall i | 0 <= i < |b| && |b[i]| > MAX_INDEX_LINE_BYTES
      ensures Accept(json, files, b[i]).None?
    {
      assert (a + b)[|a| + i] == b[i];
    }
    hide Accept;
  }

  lemma {:induction false} ShownScans(json: Json, files: LogFiles, blocks: seq<seq<byte>>, from: nat, previous: int)
    requires from <= |Flatten(blocks)| && LongLinesAreJunk(json, files, WholeLines(Flatten(blocks)[from..]))
    ensures Scan(json, files, ShownLines(blocks, from), previous) == Scan(json, files, WholeLines(Flatten(blocks)[from..]), previous)
    decreases |Flatten(blocks)| - from
  {
    hide Flatten, EndOf, Accept, SplitLines, Scan, LongLinesAreJunk;
    var text := Flatten(blocks);
    var n := LineLength(text[from..]);
    FirstLineApart(text, from);
    if from + n < |text| {
      var line, next := text[from..from + n], from + n + 1;
      var rest, shown := WholeLines(text[next..]), ShownLines(blocks, next);
      JunkTail(json, files, [line], rest);
      ScanFirst(json, files, line, rest, previous);
      ScanFirst(json, files, line, shown, previous);
      ShownScans(json, files, blocks, next, Exceeded(json, files, line, previous));
      assert [] + shown == shown;
      if Dropped(blocks, from, from + n) {
        DroppedIsLong(blocks, from, from + n);
        LongFirstIsJunk(json, files, line, rest);
      }
    }
  }

  lemma FirstLineApart(text: seq<byte>, from: nat)
    requires from <= |text|
    ensures var n := LineLength(text[from..]);
            if from + n == |text| then WholeLines(text[from..]) == []
            else WholeLines(text[from..]) == [text[from..from + n]] + WholeLines(text[from + n + 1..])
  {
    hide LineLength, SplitLines;
    var n := LineLength(text[from..]);
    assert text[from..|text|] == text[from..];
    SplitsAt(text, from, |text|);
    if from + n < |text| {
      assert text[from + n + 1..|text|] == text[from + n + 1..];
      SplitConsLast(text[from..from + n], SplitLines(text[from + n + 1..]));
    } else {
      OnePiece(text[from..], []);
    }
  }

  function Exceeded(json: Json, files: LogFiles, line: seq<byte>, previous: int): int {
    var e := Accept(json, files, line);
    if e.Some? && e.value.sequence > previous then e.value.sequence else previous
  }

  lemma ScanFirst(json: Json, files: LogFiles, line: seq<byte>, rest: seq<seq<byte>>, previous: int)
    ensures var e := Accept(json, files, line);
            Scan(json, files, [line] + rest, previous)
            == (if e.Some? && e.value.sequence > previous then [e.value] else [])
               + Scan(json, files, rest, Exceeded(json, files, line, previous))
  {
    ConsTail(line, rest);
    var later := Scan(json, files, rest, previous);
    assert [] + later == later;
  }

  lemma LongFirstIsJunk(json: Json, files: LogFiles, line: seq<byte>, rest: seq<seq<byte>>)
    requires LongLinesAreJunk(json, files, [line] + rest) && |line| > MAX_INDEX_LINE_BYTES
    ensures Accept(json, files, line).None?
  {
    assert ([line] + rest)[0] == line;
  }

  lemma DroppedIsLong(blocks: seq<seq<byte>>, from: nat, to: nat)
    requires Dropped(blocks, from, to)
    ensures to - from > MAX_INDEX_LINE_BYTES
  {
    hide EndOf;
  }

  /** The streaming reader: lines straddle blocks, and a line that some block leaves unterminated over the bound is given up. */
  method ScanIndex(json: Json, files: LogFiles, blocks: seq<seq<byte>>, after: int, before: int) returns (entries: seq<Entry>)
    ensures entries == After(Scan(json, files, ShownLines(blocks, 0), before), after)
  {
    hide *;
    entries := [];
    var pending: seq<byte> := [];
    var discarding := false;
    var previous := before;
    ghost var from: nat := 0;
    ghost var goal := After(Scan(json, files, ShownLines(blocks, 0), before), after);
    ReaderStarts(json, files, blocks, before, after);
    for i := 0 to |blocks|
      invariant Holding(blocks, i, from, pending, discarding)
      invariant Reading(json, files, blocks, goal, entries, from, previous, after)
    {
      var block := blocks[i];
      if discarding {
        var newline := LineLength(block);
        if newline == |block| {
          StillGivenUp(blocks, i, from, pending);
          continue;
        }
        DiscardEnds(json, files, blocks, goal, entries, i, from, pending, previous, after);
        from := EndOf(blocks, i) + newline + 1;
        discarding := false;
        pending := block[newline + 1..];
      } else {
        TakeBlock(blocks, i, from, pending);
        pending := pending + block;
      }
      var lines := SplitLines(pending);
      TakeLines(json, files, blocks, goal, entries, i + 1, from, previous, after);
      SplitPieces(pending);
      LastIs(lines);
      from := EndOf(blocks, i + 1) - |Last(lines)|;
      pending := Last(lines);
      var more;
      more, previous := ScanLines(json, files, ButLast(lines), after, previous);
      entries := entries + more;
      HoldingIs(blocks, i + 1, from, pending);
      if |pending| > MAX_INDEX_LINE_BYTES {
        pending := [];
        discarding := true;
      }
    }
    ReaderEnds(json, files, blocks, goal, entries, from, pending, discarding, previous, after);
  }

  lemma LastIs(pieces: seq<seq<byte>>)
    requires pieces != []
    ensures Last(pieces) == pieces[|pieces| - 1]
  {
  }

  /** The same overlong line: in one block with its newline it is read, with the newline in a second block it is given up. */
  lemma BlocksDecide(line: seq<byte>)
    requires 0x0a !in line && |line| > 1048576
    ensures ShownLines([line + [0x0a]], 0) == [line] && ShownLines([line, [0x0a]], 0) == []
  {
    hide LineLength, ShownLines;
    var text := line + [NEWLINE];
    var one: seq<seq<byte>>, two: seq<seq<byte>> := [text], [line, [NEWLINE]];
    assert one[1..] == [] && two[1..] == [[NEWLINE]] && two[1..][1..] == [];
    assert Flatten(two[1..]) == [NEWLINE] + Flatten(two[1..][1..]);
    assert Flatten(one) == text && Flatten(two) == text;
    EndOfAll(one);
    EndOfAll(two);
    BlockAt(two, 0);
    assert EndOf(two, 1) == |line|;
    assert Dropped(two, 0, 0 + |line|);
    assert !Dropped(one, 0, 0 + |line|);
    OnlyLine(one, line);
    OnlyLine(two, line);
  }

  lemma OnlyLine(blocks: seq<seq<byte>>, line: seq<byte>)
    requires Flatten(blocks) == line + [NEWLINE] && NEWLINE !in line
    ensures ShownLines(blocks, 0) == if Dropped(blocks, 0, |line|) then [] else [line]
  {
    hide Flatten, EndOf, Dropped;
    var text := line + [NEWLINE];
    assert text[|line| + 1..] == [] && text[0..|line|] == line && text[0..] == text;
    LineLengthNone(line);
    LineLengthAppend(line, [NEWLINE]);
    assert LineLength([NEWLINE]) == 0;
    hide LineLength;
    LineLengthNone([]);
    assert ShownLines(blocks, |line| + 1) == [];
  }
}
