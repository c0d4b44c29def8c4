/**
 * The crash-safe attempt spool: streams, index and checkpoints appended in order by one writer, and
 * reopened after a crash that may have come between any two bytes of an append.
 */
module Spool {
  import opened Bytes
  import opened Lines
  import opened ChunkIndex
  import opened IndexSeek

  /** What the spool object keeps in memory: the next sequence and the ends of the two streams. */
  datatype Position = Position(nextSequence: int, stdoutOffset: int, stderrOffset: int) {
    function Of(stream: Stream): int {
      match stream case Stdout => stdoutOffset case Stderr => stderrOffset
    }
  }

  /** A chunk as a caller hands it over, with the sequence it was given. */
  datatype Chunk = Chunk(sequence: int, stream: Stream, bytes: seq<byte>)

  // ----- opening -----

  /** The index up to and including its last newline. */
  function WholePrefix(s: seq<byte>): seq<byte> {
    s[..|s| - LastLength(s)]
  }

  function LastLength(s: seq<byte>): (n: nat)
    ensures n <= |s|
    decreases |s|
  {
    var n := LineLength(s);
    if n == |s| then n else LastLength(s[n + 1..])
  }

  function Truncated(files: LogFiles): LogFiles {
    files.(index := WholePrefix(files.index))
  }

  function MaxInt(a: int, b: int): int {
    if a >= b then a else b
  }

  function NextSequence(es: seq<Entry>, next: int): int {
    if es == [] then next
    else NextSequence(es[1..], if es[0].sequence >= next then es[0].sequence + 1 else next)
  }

  function IndexedEnd(es: seq<Entry>, stream: Stream, end: int): int {
    if es == [] then end
    else
      var e := es[0].byteOffset + es[0].byteLength;
      IndexedEnd(es[1..], stream, if es[0].stream == stream && e > end then e else end)
  }

  /** Where a spool opened on these files stands. The live file size wins over the indexed end. */
  function PositionOf(json: Json, files: LogFiles): Position {
    PositionAfter(FullScan(json, files), files)
  }

  /** Where it stands after these records. */
  function PositionAfter(es: seq<Entry>, files: LogFiles): Position {
    Position(NextSequence(es, 1), MaxInt(IndexedEnd(es, Stdout, 0), |files.stdout|), MaxInt(IndexedEnd(es, Stderr, 0), |files.stderr|))
  }

  // ----- appending -----

  function EntryFor(at: Position, stream: Stream, bytes: seq<byte>): Entry {
    Entry(at.nextSequence, stream, at.Of(stream), |bytes|)
  }

  function IndexLine(json: Json, at: Position, stream: Stream, bytes: seq<byte>): seq<byte> {
    json.printEntry(EntryFor(at, stream, bytes)) + [NEWLINE]
  }

  function CheckpointLine(json: Json, files: LogFiles, at: Position): seq<byte> {
    if at.nextSequence % CHUNK_CHECKPOINT_INTERVAL == 0
    then json.printCheckpoint(Checkpoint(at.nextSequence - 1, |files.index|)) + [NEWLINE] else []
  }

  function AppendTo(files: LogFiles, stream: Stream, bytes: seq<byte>): LogFiles {
    match stream
    case Stdout => files.(stdout := files.stdout + bytes)
    case Stderr => files.(stderr := files.stderr + bytes)
  }

  /** The first `n` bytes of a write, or all of it. */
  function Cut(s: seq<byte>, n: int): seq<byte> {
    if n <= 0 then [] else if n >= |s| then s else s[..n]
  }

  /** The files after the first `cut` bytes of the three appends, made in the order stream, index, checkpoint. */
  function Written(json: Json, files: LogFiles, at: Position, stream: Stream, bytes: seq<byte>, cut: int): LogFiles {
    var line := IndexLine(json, at, stream, bytes);
    var grown := AppendTo(files, stream, Cut(bytes, cut));
    grown.(index := files.index + Cut(line, cut - |bytes|),
           checkpoints := files.checkpoints + Cut(CheckpointLine(json, files, at), cut - |bytes| - |line|))
  }

  function AppendBytes(json: Json, files: LogFiles, at: Position, stream: Stream, bytes: seq<byte>): int {
    |bytes| + |IndexLine(json, at, stream, bytes)| + |CheckpointLine(json, files, at)|
  }

  function Advanced(at: Position, stream: Stream, bytes: seq<byte>): Position {
    match stream
    case Stdout => Position(at.nextSequence + 1, at.stdoutOffset + |bytes|, at.stderrOffset)
    case Stderr => Position(at.nextSequence + 1, at.stdoutOffset, at.stderrOffset + |bytes|)
  }

  // ----- the directory and the spool object -----

  class SpoolDir {
    var stdout: seq<byte>
    var stderr: seq<byte>
    var index: seq<byte>
    var checkpoints: seq<byte>

    function Files(): LogFiles
      reads this
    {
      LogFiles(stdout, stderr, index, checkpoints)
    }

    constructor ()
      ensures Files() == LogFiles([], [], [], [])
    {
      stdout, stderr, index, checkpoints := [], [], [], [];
    }
  }

  class AttemptSpool {
    const dir: SpoolDir
    var nextSequence: int
    var stdoutOffset: int
    var stderrOffset: int

    function At(): Position
      reads this
    {
      Position(nextSequence, stdoutOffset, stderrOffset)
    }

    constructor (dir: SpoolDir, at: Position)
      ensures this.dir == dir && At() == at
    {
      this.dir := dir;
      nextSequence, stdoutOffset, stderrOffset := at.nextSequence, at.stdoutOffset, at.stderrOffset;
    }

    /** The three appends of one chunk, then the in-memory position. */
    method AppendChunk(json: Json, stream: Stream, bytes: seq<byte>) returns (sequence: int)
      modifies this, dir
      ensures sequence == old(nextSequence)
      ensures dir.Files() == Written(json, old(dir.Files()), old(At()), stream, bytes, AppendBytes(json, old(dir.Files()), old(At()), stream, bytes))
      ensures At() == Advanced(old(At()), stream, bytes)
    {
      sequence := nextSequence;
      var byteOffset := if stream == Stdout then stdoutOffset else stderrOffset;
      if stream == Stdout {
        dir.stdout := dir.stdout + bytes;
      } else {
        dir.stderr := dir.stderr + bytes;
      }
      var entry := Entry(sequence, stream, byteOffset, |bytes|);
      var indexOffset := |dir.index|;
      dir.index := dir.index + (json.printEntry(entry) + [NEWLINE]);
      if sequence % CHUNK_CHECKPOINT_INTERVAL == 0 {
        dir.checkpoints := dir.checkpoints + (json.printCheckpoint(Checkpoint(sequence - 1, indexOffset)) + [NEWLINE]);
      } else {
        assert dir.checkpoints + [] == dir.checkpoints;
      }
      nextSequence := sequence + 1;
      if stream == Stdout {
        stdoutOffset := byteOffset + |bytes|;
      } else {
        stderrOffset := byteOffset + |bytes|;
      }
    }
  }

  /** `lastIndexOf(0x0a)`, -1 when there is none. */
  function LastNewline(s: seq<byte>): (n: int)
    ensures -1 <= n < |s|
    ensures n >= 0 ==> s[n] == NEWLINE
    ensures forall i :: n < i < |s| ==> s[i] != NEWLINE
  {
    if s == [] then -1 else if s[|s| - 1] == NEWLINE then |s| - 1 else LastNewline(s[..|s| - 1])
  }

  /** The next sequence, and how far the records reach into each stream. */
  method MeasureIndex(entries: seq<Entry>) returns (next: int, stdoutEnd: int, stderrEnd: int)
    ensures next == NextSequence(entries, 1)
    ensures stdoutEnd == IndexedEnd(entries, Stdout, 0) && stderrEnd == IndexedEnd(entries, Stderr, 0)
  {
    next, stdoutEnd, stderrEnd := 1, 0, 0;
    assert entries[0..] == entries;
    for i := 0 to |entries|
      invariant NextSequence(entries, 1) == NextSequence(entries[i..], next)
      invariant IndexedEnd(entries, Stdout, 0) == IndexedEnd(entries[i..], Stdout, stdoutEnd)
      invariant IndexedEnd(entries, Stderr, 0) == IndexedEnd(entries[i..], Stderr, stderrEnd)
    {
      assert entries[i..][1..] == entries[i + 1..];
      if entries[i].sequence >= next {
        next := entries[i].sequence + 1;
      }
      var end := entries[i].byteOffset + entries[i].byteLength;
      if entries[i].stream == Stdout {
        if end > stdoutEnd {
          stdoutEnd := end;
        }
      } else if end > stderrEnd {
        stderrEnd := end;
      }
    }
  }

  /**
   * Reopen a spool: drop an unterminated index tail, then stand after the last record the reader meets and the
   * live stream ends. On a tidy index those are the records of the full scan.
   */
  method OpenAttemptSpool(json: Json, dir: SpoolDir, cut: seq<byte> -> seq<seq<byte>>) returns (spool: AttemptSpool)
    requires Cuts(cut)
    modifies dir
    ensures spool.dir == dir && fresh(spool)
    ensures dir.Files() == Truncated(old(dir.Files()))
    ensures var files := dir.Files(); spool.At() == PositionAfter(Scan(json, files, ShownLines(cut(files.index), 0), 0), files)
    ensures Tidy(json, dir.Files()) ==> spool.At() == PositionOf(json, dir.Files())
  {
    hide Scan, StartOf, SeekScan, WholePrefix, Tidy, LongLinesAreJunk, NextSequence, IndexedEnd, ChunkIndex.After, WholeLines, FullScan, ShownLines;
    CutsWhole(cut, dir.index);
    var keep := WholeLength(dir.index, cut(dir.index));
    WholePrefixIs(dir.index, keep);
    dir.index := dir.index[..keep];
    var files := dir.Files();
    var entries := IterChunkIndexEntriesFrom(json, files, 0, 0, cut);
    ReopenScan(json, files, cut);
    var next, stdoutEnd, stderrEnd := MeasureIndex(entries);
    if |dir.stdout| > stdoutEnd {
      stdoutEnd := |dir.stdout|;
    }
    if |dir.stderr| > stderrEnd {
      stderrEnd := |dir.stderr|;
    }
    spool := new AttemptSpool(dir, Position(next, stdoutEnd, stderrEnd));
  }

  lemma CutsWhole(cut: seq<byte> -> seq<seq<byte>>, s: seq<byte>)
    requires Cuts(cut)
    ensures Flatten(cut(s)) == s
  {
  }

  /** No overlong index line hides a record: true of every index the spool writes. */
  predicate Tidy(json: Json, files: LogFiles) {
    LongLinesAreJunk(json, files, WholeLines(files.index))
  }

  /** A spool reads its index from the beginning, and takes every record it meets. */
  lemma ReopenScan(json: Json, files: LogFiles, cut: seq<byte> -> seq<seq<byte>>)
    requires Cuts(cut)
    ensures StartOf(json, files, 0, 0, cut(files.checkpoints)) == None
    ensures files.index[0..] == files.index
    ensures var met := Scan(json, files, ShownLines(cut(files.index), 0), 0);
            ChunkIndex.After(met, 0) == met && (Tidy(json, files) ==> met == FullScan(json, files))
  {
    hide Scan, ShownLines, ChunkIndex.After, LongLinesAreJunk, WholeLines;
    ScanAbove(json, files, ShownLines(cut(files.index), 0), 0);
    CutsWhole(cut, files.index);
    assert files.index[0..] == files.index;
    if Tidy(json, files) {
      ShownScans(json, files, cut(files.index), 0, 0);
    }
  }

  lemma {:induction false} ScanAbove(json: Json, files: LogFiles, lines: seq<seq<byte>>, previous: int)
    requires previous >= 0
    ensures ChunkIndex.After(Scan(json, files, lines, previous), 0) == Scan(json, files, lines, previous)
    decreases |lines|
  {
    hide Accept;
    if lines != [] {
      var e := Accept(json, files, lines[0]);
      if e.Some? && e.value.sequence > previous {
        ScanAbove(json, files, lines[1..], e.value.sequence);
      } else {
        ScanAbove(json, files, lines[1..], previous);
      }
    }
  }

  /** How much of the index to keep, found in one pass over its blocks. */
  method WholeLength(ghost index: seq<byte>, blocks: seq<seq<byte>>) returns (keep: nat)
    requires Flatten(blocks) == index
    ensures keep <= |index| && (keep == 0 || index[keep - 1] == NEWLINE)
    ensures forall i :: keep <= i < |index| ==> index[i] != NEWLINE
  {
    var bytesRead := 0;
    var lastNewline := -1;
    var lastByte: int := -1;
    ghost var seen: seq<byte> := [];
    assert blocks[0..] == blocks;
    for i := 0 to |blocks|
      invariant index == seen + Flatten(blocks[i..]) && bytesRead == |seen|
      invariant lastNewline == LastNewline(seen)
      invariant lastByte == if seen == [] then -1 else seen[|seen| - 1]
    {
      var data := blocks[i];
      FlattenAt(blocks, i);
      Assoc(seen, data, Flatten(blocks[i + 1..]));
      LastNewlineAppend(seen, data);
      var newline := LastNewline(data);
      if newline >= 0 {
        lastNewline := bytesRead + newline;
      }
      bytesRead := bytesRead + |data|;
      if |data| > 0 {
        lastByte := data[|data| - 1];
      }
      seen := seen + data;
    }
    assert seen + [] == seen;
    if bytesRead > 0 && lastByte != NEWLINE as int {
      keep := if lastNewline < 0 then 0 else lastNewline + 1;
    } else {
      keep := bytesRead;
    }
  }

  lemma LastNewlineAppend(a: seq<byte>, b: seq<byte>)
    ensures LastNewline(a + b) == if LastNewline(b) >= 0 then |a| + LastNewline(b) else LastNewline(a)
  {
    var n := LastNewline(a + b);
    if LastNewline(b) >= 0 {
      var k := |a| + LastNewline(b);
      assert (a + b)[k] == NEWLINE;
      assert n < |a + b| && (forall i :: k < i < |a + b| ==> (a + b)[i] == b[i - |a|]);
    } else {
      assert forall i :: |a| <= i < |a + b| ==> (a + b)[i] == b[i - |a|];
      assert forall i :: 0 <= i < |a| ==> (a + b)[i] == a[i];
    }
  }

  /** The kept length is that of the newline-terminated prefix. */
  lemma {:induction false} WholePrefixIs(s: seq<byte>, keep: nat)
    requires keep <= |s| && (keep == 0 || s[keep - 1] == NEWLINE)
    requires forall i :: keep <= i < |s| ==> s[i] != NEWLINE
    ensures s[..keep] == WholePrefix(s) && LastLength(s) == |s| - keep
    decreases |s|
  {
    var n := LineLength(s);
    if n < |s| {
      var rest := s[n + 1..];
      assert keep >= n + 1;
      assert forall i :: keep - (n + 1) <= i < |rest| ==> rest[i] == s[i + n + 1];
      assert keep > n + 1 ==> rest[keep - (n + 1) - 1] == s[keep - 1];
      WholePrefixIs(rest, keep - (n + 1));
    }
  }
}
