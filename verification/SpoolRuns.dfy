/** Whole lives of a spool: any appends, crashes at any byte of an append, and reopenings. */
module SpoolRuns {
  import opened Bytes
  import opened Lines
  import opened ChunkIndex
  import opened IndexSeek
  import opened Spool

  /** One thing that happens to a spool. A crash stops an append after `cut` of its bytes; the spool is then reopened. */
  datatype Event = Append(stream: Stream, bytes: seq<byte>) | Crash(stream: Stream, bytes: seq<byte>, cut: nat) | Reopen

  /** The files, the open spool, and every chunk whose index record was written in full. */
  datatype Life = Life(files: LogFiles, at: Position, recorded: seq<Chunk>)

  function Opened(json: Json, files: LogFiles, recorded: seq<Chunk>): Life {
    var kept := Truncated(files);
    Life(kept, PositionOf(json, kept), recorded)
  }

  function ChunkOf(at: Position, stream: Stream, bytes: seq<byte>): Chunk {
    Chunk(at.nextSequence, stream, bytes)
  }

  function Next(json: Json, life: Life, event: Event): Life {
    match event
    case Append(stream, bytes) =>
      Life(Written(json, life.files, life.at, stream, bytes, AppendBytes(json, life.files, life.at, stream, bytes)),
           Advanced(life.at, stream, bytes), life.recorded + [ChunkOf(life.at, stream, bytes)])
    case Crash(stream, bytes, cut) =>
      var indexed := cut >= |bytes| + |IndexLine(json, life.at, stream, bytes)|;
      Opened(json, Written(json, life.files, life.at, stream, bytes, cut),
             life.recorded + if indexed then [ChunkOf(life.at, stream, bytes)] else [])
    case Reopen => Opened(json, life.files, life.recorded)
  }

  function After(json: Json, events: seq<Event>): Life {
    if events == [] then Opened(json, LogFiles([], [], [], []), [])
    else Next(json, After(json, events[..|events| - 1]), events[|events| - 1])
  }

  /** Room the events may take: JavaScript keeps offsets and sequences exact only up to 2^53 - 1. */
  function Room(events: seq<Event>): nat {
    if events == [] then 0
    else
      var e := events[|events| - 1];
      1 + (if e.Reopen? then 0 else |e.bytes|) + Room(events[..|events| - 1])
  }

  // ----- the invariant -----

  /** The record names exactly the bytes of the call that made it. */
  predicate Names(files: LogFiles, e: Entry, c: Chunk) {
    && e.sequence == c.sequence && e.stream == c.stream && e.byteLength == |c.bytes|
    && 0 <= e.byteOffset && e.byteOffset + |c.bytes| <= |files.Of(e.stream)|
    && files.Of(e.stream)[e.byteOffset..e.byteOffset + |c.bytes|] == c.bytes
  }

  /** Records and calls agree one to one, numbered from 1 with no gap. */
  predicate Agree(files: LogFiles, es: seq<Entry>, recorded: seq<Chunk>) {
    && |es| == |recorded|
    && forall i :: 0 <= i < |es| ==> es[i].sequence == i + 1 && Names(files, es[i], recorded[i])
  }

  predicate Fits(files: LogFiles, count: nat, room: nat) {
    |files.stdout| + |files.stderr| + count <= room
  }

  predicate Kept(json: Json, files: LogFiles, recorded: seq<Chunk>, room: nat) {
    && Agree(files, FullScan(json, files), recorded)
    && files.index == PrintAll(json, FullScan(json, files))
    && Fits(files, |recorded|, room)
  }

  predicate Standing(files: LogFiles, at: Position, recorded: seq<Chunk>) {
    at == Position(|recorded| + 1, |files.stdout|, |files.stderr|)
  }

  predicate Inv(json: Json, life: Life, room: nat) {
    Kept(json, life.files, life.recorded, room) && Standing(life.files, life.at, life.recorded)
  }

  lemma {:induction false} AgreeIncreases(files: LogFiles, es: seq<Entry>, from: nat)
    requires from <= |es| && forall i :: 0 <= i < |es| ==> es[i].sequence == i + 1
    ensures Increasing(es[from..], from)
    decreases |es| - from
  {
    if from < |es| {
      AgreeIncreases(files, es, from + 1);
      assert es[from..][1..] == es[from + 1..];
    }
  }

  /** Records that agree with their calls are a well-formed index, and scanning it gives them back. */
  lemma AgreeIsWellFormed(json: Json, files: LogFiles, es: seq<Entry>, recorded: seq<Chunk>, room: nat)
    requires Faithful(json) && Agree(files, es, recorded) && files.index == PrintAll(json, es)
    requires Fits(files, |recorded|, room) && room <= MAX_SAFE_INTEGER
    ensures WellFormed(json, files, es) && FullScan(json, files) == es && Kept(json, files, recorded, room)
  {
    hide Faithful, PrintAll, FullScan, Increasing;
    AgreeIncreases(files, es, 0);
    assert es[0..] == es;
    assert forall i :: 0 <= i < |es| ==> Acceptable(es[i], files);
    ScannedBack(json, files, es);
  }

  lemma ScannedBack(json: Json, files: LogFiles, es: seq<Entry>)
    requires Faithful(json) && files.index == PrintAll(json, es) && Increasing(es, 0)
    requires forall i :: 0 <= i < |es| ==> Acceptable(es[i], files)
    ensures FullScan(json, files) == es && WellFormed(json, files, es)
  {
    ScanPrinted(json, files, es, 0);
    hide Faithful, Scan, PrintAll, WholeLines, Acceptable;
  }

  /** Growing a stream leaves every record naming the same bytes. */
  lemma NamesGrow(files: LogFiles, more: LogFiles, e: Entry, c: Chunk)
    requires Names(files, e, c) && files.stdout <= more.stdout && files.stderr <= more.stderr
    ensures Names(more, e, c)
  {
    var a, b := files.Of(e.stream), more.Of(e.stream);
    assert a == b[..|a|];
  }

  lemma AgreeGrow(files: LogFiles, more: LogFiles, es: seq<Entry>, recorded: seq<Chunk>)
    requires Agree(files, es, recorded) && files.stdout <= more.stdout && files.stderr <= more.stderr
    ensures Agree(more, es, recorded)
  {
    hide Names;
    forall i | 0 <= i < |es|
      ensures Names(more, es[i], recorded[i])
    {
      NamesGrow(files, more, es[i], recorded[i]);
    }
  }

  lemma {:induction false} PrintSnoc(json: Json, es: seq<Entry>, e: Entry)
    ensures PrintAll(json, es + [e]) == PrintAll(json, es) + (json.printEntry(e) + [NEWLINE])
    decreases |es|
  {
    if es == [] {
      assert [e][1..] == [] && [] + [e] == [e];
      assert PrintAll(json, []) + (json.printEntry(e) + [NEWLINE]) == json.printEntry(e) + [NEWLINE] + [];
    } else {
      PrintSnoc(json, es[1..], e);
      AppendTail(es, [e]);
      Assoc(json.printEntry(es[0]) + [NEWLINE], PrintAll(json, es[1..]), json.printEntry(e) + [NEWLINE]);
    }
  }

  // ----- what an append, whole or cut, does to the files -----

  /** The new record against the grown files. */
  lemma NewRecordNames(json: Json, files: LogFiles, at: Position, recorded: seq<Chunk>, stream: Stream, bytes: seq<byte>, cut: int)
    requires Standing(files, at, recorded) && cut >= |bytes|
    ensures Names(Written(json, files, at, stream, bytes, cut), EntryFor(at, stream, bytes), ChunkOf(at, stream, bytes))
  {
    hide IndexLine, CheckpointLine;
    var old' := files.Of(stream);
    assert (old' + bytes)[|old'|..|old'| + |bytes|] == bytes;
  }

  lemma WrittenGrows(json: Json, files: LogFiles, at: Position, stream: Stream, bytes: seq<byte>, cut: int)
    ensures var w := Written(json, files, at, stream, bytes, cut);
            && files.stdout <= w.stdout && files.stderr <= w.stderr
            && |w.stdout| + |w.stderr| <= |files.stdout| + |files.stderr| + |bytes|
            && w.index == files.index + Cut(IndexLine(json, at, stream, bytes), cut - |bytes|)
  {
    hide IndexLine, CheckpointLine;
  }

  /** An append whose index line is complete adds exactly its record. */
  lemma RecordAdded(json: Json, files: LogFiles, at: Position, recorded: seq<Chunk>, room: nat, stream: Stream, bytes: seq<byte>, cut: int)
    requires Faithful(json) && Kept(json, files, recorded, room) && Standing(files, at, recorded)
    requires cut >= |bytes| + |IndexLine(json, at, stream, bytes)| && room + 1 + |bytes| <= MAX_SAFE_INTEGER
    ensures Kept(json, Written(json, files, at, stream, bytes, cut), recorded + [ChunkOf(at, stream, bytes)], room + 1 + |bytes|)
    ensures FullScan(json, Written(json, files, at, stream, bytes, cut)) == FullScan(json, files) + [EntryFor(at, stream, bytes)]
  {
    hide Faithful, PrintAll, FullScan, Written, Names;
    var es := FullScan(json, files);
    var more := Written(json, files, at, stream, bytes, cut);
    var e, c := EntryFor(at, stream, bytes), ChunkOf(at, stream, bytes);
    WrittenGrows(json, files, at, stream, bytes, cut);
    NewRecordNames(json, files, at, recorded, stream, bytes, cut);
    AgreeGrow(files, more, es, recorded);
    PrintSnoc(json, es, e);
    assert Agree(more, es + [e], recorded + [c]);
    AgreeIsWellFormed(json, more, es + [e], recorded + [c], room + 1 + |bytes|);
  }

  /** An append cut short of its index line adds no record, only an unterminated tail. */
  lemma RecordMissing(json: Json, files: LogFiles, at: Position, recorded: seq<Chunk>, room: nat, stream: Stream, bytes: seq<byte>, cut: int)
    requires Faithful(json) && Kept(json, files, recorded, room)
    requires cut < |bytes| + |IndexLine(json, at, stream, bytes)| && room + 1 + |bytes| <= MAX_SAFE_INTEGER
    ensures Kept(json, Truncated(Written(json, files, at, stream, bytes, cut)), recorded, room + 1 + |bytes|)
    ensures FullScan(json, Truncated(Written(json, files, at, stream, bytes, cut))) == FullScan(json, files)
  {
    hide Faithful, PrintAll, FullScan, Written, Names, WholePrefix, IndexLine;
    var es := FullScan(json, files);
    var more := Written(json, files, at, stream, bytes, cut);
    WrittenGrows(json, files, at, stream, bytes, cut);
    CutLineHasNoNewline(json, at, stream, bytes, cut - |bytes|);
    PrintedIsWhole(json, es, Cut(IndexLine(json, at, stream, bytes), cut - |bytes|));
    var kept := Truncated(more);
    AgreeGrow(files, kept, es, recorded);
    AgreeIsWellFormed(json, kept, es, recorded, room + 1 + |bytes|);
  }

  lemma CutLineHasNoNewline(json: Json, at: Position, stream: Stream, bytes: seq<byte>, n: int)
    requires Faithful(json) && n < |IndexLine(json, at, stream, bytes)|
    ensures NEWLINE !in Cut(IndexLine(json, at, stream, bytes), n)
  {
    var line := json.printEntry(EntryFor(at, stream, bytes));
    assert NEWLINE !in line;
    assert forall i :: 0 <= i < n ==> (line + [NEWLINE])[i] == line[i];
  }

  /** Truncation takes off exactly what follows the last printed record. */
  lemma {:induction false} PrintedIsWhole(json: Json, es: seq<Entry>, tail: seq<byte>)
    requires Faithful(json) && NEWLINE !in tail
    ensures WholePrefix(PrintAll(json, es) + tail) == PrintAll(json, es)
    decreases |es|
  {
    PrintedTail(json, es, tail);
    assert (PrintAll(json, es) + tail)[..|PrintAll(json, es)|] == PrintAll(json, es);
  }

  lemma {:induction false} PrintedTail(json: Json, es: seq<Entry>, tail: seq<byte>)
    requires Faithful(json) && NEWLINE !in tail
    ensures LastLength(PrintAll(json, es) + tail) == |tail|
    decreases |es|
  {
    if es == [] {
      assert PrintAll(json, es) + tail == tail;
      LineLengthNone(tail);
    } else {
      var line, rest := json.printEntry(es[0]), PrintAll(json, es[1..]) + tail;
      PrintedTail(json, es[1..], tail);
      assert NEWLINE !in line;
      Assoc(line + [NEWLINE], PrintAll(json, es[1..]), tail);
      FirstLine(line, rest);
    }
  }

  lemma FirstLine(line: seq<byte>, rest: seq<byte>)
    requires NEWLINE !in line
    ensures LastLength(line + [NEWLINE] + rest) == LastLength(rest)
  {
    Assoc(line, [NEWLINE], rest);
    LineLengthNone(line);
    LineLengthAppend(line, [NEWLINE] + rest);
    CutTerminated(line, rest);
  }

  /** Opening on kept files stands just after the last record and at the ends of the streams. */
  lemma OpenStands(json: Json, files: LogFiles, recorded: seq<Chunk>, room: nat)
    requires Faithful(json) && Kept(json, files, recorded, room)
    ensures Truncated(files) == files && Standing(files, PositionOf(json, files), recorded)
  {
    hide Faithful, PrintAll, FullScan, WholePrefix, Names;
    var es := FullScan(json, files);
    PrintedIsWhole(json, es, []);
    assert files.index + [] == files.index;
    CountsOn(es, 0);
    assert es[0..] == es;
    EndsWithin(files, es, recorded, Stdout, 0);
    EndsWithin(files, es, recorded, Stderr, 0);
  }

  lemma {:induction false} CountsOn(es: seq<Entry>, from: nat)
    requires from <= |es| && forall i :: 0 <= i < |es| ==> es[i].sequence == i + 1
    ensures NextSequence(es[from..], from + 1) == |es| + 1
    decreases |es| - from
  {
    if from < |es| {
      CountsOn(es, from + 1);
      assert es[from..][1..] == es[from + 1..];
    }
  }

  lemma EndsWithin(files: LogFiles, es: seq<Entry>, recorded: seq<Chunk>, stream: Stream, end: int)
    requires Agree(files, es, recorded) && end <= |files.Of(stream)|
    ensures IndexedEnd(es, stream, end) <= |files.Of(stream)|
  {
    assert forall i :: 0 <= i < |es| ==> es[i].byteOffset + es[i].byteLength <= |files.Of(es[i].stream)|;
    EndBounded(es, files, stream, end);
  }

  lemma {:induction false} EndBounded(es: seq<Entry>, files: LogFiles, stream: Stream, end: int)
    requires end <= |files.Of(stream)|
    requires forall i :: 0 <= i < |es| ==> es[i].byteOffset + es[i].byteLength <= |files.Of(es[i].stream)|
    ensures IndexedEnd(es, stream, end) <= |files.Of(stream)|
    decreases |es|
  {
    if es != [] {
      var e := es[0].byteOffset + es[0].byteLength;
      EndBounded(es[1..], files, stream, if es[0].stream == stream && e > end then e else end);
    }
  }

  /** Every event keeps the invariant. */
  lemma NextKeeps(json: Json, life: Life, event: Event, room: nat)
    requires Faithful(json) && Inv(json, life, room)
    requires room + 1 + (if event.Reopen? then 0 else |event.bytes|) <= MAX_SAFE_INTEGER
    ensures Inv(json, Next(json, life, event), room + 1 + (if event.Reopen? then 0 else |event.bytes|))
  {
    hide Faithful, Written, Kept, Truncated, PositionOf, IndexLine, CheckpointLine;
    match event
    case Append(stream, bytes) =>
      var all := AppendBytes(json, life.files, life.at, stream, bytes);
      RecordAdded(json, life.files, life.at, life.recorded, room, stream, bytes, all);
      AppendStands(json, life, stream, bytes);
    case Crash(stream, bytes, cut) =>
      var more := Written(json, life.files, life.at, stream, bytes, cut);
      var room' := room + 1 + |bytes|;
      if cut >= |bytes| + |IndexLine(json, life.at, stream, bytes)| {
        var recorded := life.recorded + [ChunkOf(life.at, stream, bytes)];
        RecordAdded(json, life.files, life.at, life.recorded, room, stream, bytes, cut);
        OpenStands(json, more, recorded, room');
      } else {
        RecordMissing(json, life.files, life.at, life.recorded, room, stream, bytes, cut);
        OpenStands(json, Truncated(more), life.recorded, room');
        assert life.recorded + [] == life.recorded;
      }
    case Reopen =>
      OpenStands(json, life.files, life.recorded, room);
      KeptRoom(json, life.files, life.recorded, room);
  }

  lemma KeptRoom(json: Json, files: LogFiles, recorded: seq<Chunk>, room: nat)
    requires Kept(json, files, recorded, room)
    ensures Kept(json, files, recorded, room + 1)
  {
    hide FullScan, Names;
  }

  lemma AppendStands(json: Json, life: Life, stream: Stream, bytes: seq<byte>)
    requires Standing(life.files, life.at, life.recorded)
    ensures var next := Next(json, life, Append(stream, bytes)); Standing(next.files, next.at, next.recorded)
  {
    hide IndexLine, CheckpointLine;
  }

  /** Every life of a spool, whatever its appends, crashes and reopenings, keeps the invariant. */
  lemma {:induction false} EveryLifeKeeps(json: Json, events: seq<Event>)
    requires Faithful(json) && Room(events) <= MAX_SAFE_INTEGER
    ensures Inv(json, After(json, events), Room(events))
    decreases |events|
  {
    hide Faithful, Inv, Next, Opened;
    if events == [] {
      EmptyLife(json);
    } else {
      var before := events[..|events| - 1];
      EveryLifeKeeps(json, before);
      NextKeeps(json, After(json, before), events[|events| - 1], Room(before));
    }
  }

  lemma EmptyLife(json: Json)
    ensures Inv(json, Opened(json, LogFiles([], [], [], []), []), 0)
  {
    NoLines();
  }

  // ----- replay -----

  /** `readIndexedBytes`: the bytes a record names, if they are all there. */
  function ReadIndexedBytes(files: LogFiles, e: Entry): Option<seq<byte>> {
    var file := files.Of(e.stream);
    if e.byteLength == 0 then Some([])
    else if e.byteOffset < 0 || e.byteLength < 0 || e.byteOffset + e.byteLength > |file| then None
    else Some(file[e.byteOffset..e.byteOffset + e.byteLength])
  }

  /** The chunks some records replay as. */
  function Replay(files: LogFiles, es: seq<Entry>): seq<Chunk> {
    if es == [] then []
    else
      var bytes := ReadIndexedBytes(files, es[0]);
      (if bytes.Some? then [Chunk(es[0].sequence, es[0].stream, bytes.value)] else []) + Replay(files, es[1..])
  }

  /** `iterIndexedChunkBytesAfter`: the read that feeds replay after a reconnect. */
  method IterIndexedChunkBytesAfter(json: Json, files: LogFiles, after: int, cut: seq<byte> -> seq<seq<byte>>, ghost es: seq<Entry>)
    returns (chunks: seq<Chunk>)
    requires Cuts(cut) && Faithful(json) && WellFormed(json, files, es)
    ensures chunks == Replay(files, ChunkIndex.After(es, after))
  {
    hide Cuts, Faithful, WellFormed, ReadIndexedBytes, ChunkIndex.After;
    var entries := IterChunkIndexEntriesAfter(json, files, after, cut, es);
    chunks := [];
    assert entries[0..] == entries;
    for i := 0 to |entries|
      invariant Replay(files, entries) == chunks + Replay(files, entries[i..])
    {
      assert entries[i..][1..] == entries[i + 1..];
      var bytes := ReadIndexedBytes(files, entries[i]);
      Assoc(chunks, if bytes.Some? then [Chunk(entries[i].sequence, entries[i].stream, bytes.value)] else [], Replay(files, entries[i + 1..]));
      if bytes.Some? {
        chunks := chunks + [Chunk(entries[i].sequence, entries[i].stream, bytes.value)];
      } else {
        assert chunks + [] == chunks;
      }
    }
  }

  lemma {:induction false} AfterIsSuffix(es: seq<Entry>, k: nat, from: nat)
    requires from <= |es| && k <= |es| && forall i :: 0 <= i < |es| ==> es[i].sequence == i + 1
    ensures ChunkIndex.After(es[from..], k) == if k >= from then es[k..] else es[from..]
    decreases |es| - from
  {
    if from < |es| {
      AfterIsSuffix(es, k, from + 1);
      assert es[from..][1..] == es[from + 1..];
      assert [es[from]] + es[from + 1..] == es[from..];
      if k >= from + 1 {
        assert [] + es[k..] == es[k..];
      }
    }
  }

  lemma {:induction false} ReplaySuffix(files: LogFiles, es: seq<Entry>, recorded: seq<Chunk>, from: nat)
    requires Agree(files, es, recorded) && from <= |es|
    ensures Replay(files, es[from..]) == recorded[from..]
    decreases |es| - from
  {
    hide Names, ReadIndexedBytes;
    if from < |es| {
      ReplaySuffix(files, es, recorded, from + 1);
      assert es[from..][1..] == es[from + 1..];
      NamedBytesRead(files, es[from], recorded[from]);
      assert [recorded[from]] + recorded[from + 1..] == recorded[from..];
    }
  }

  lemma NamedBytesRead(files: LogFiles, e: Entry, c: Chunk)
    requires Names(files, e, c)
    ensures ReadIndexedBytes(files, e) == Some(c.bytes) && c == Chunk(e.sequence, e.stream, c.bytes)
  {
  }

  /** Every index a spool comes to have is tidy, so reopening it stands where a full scan says. */
  lemma EveryLifeIsTidy(json: Json, events: seq<Event>)
    requires Faithful(json) && Room(events) <= MAX_SAFE_INTEGER
    ensures Tidy(json, After(json, events).files)
  {
    hide Faithful, After, Room, Scan, LongLinesAreJunk, WholeLines, PrintAll, Agree;
    EveryLifeKeeps(json, events);
    var life := After(json, events);
    var es := FullScan(json, life.files);
    AgreeIsWellFormed(json, life.files, es, life.recorded, Room(events));
    ScanPrinted(json, life.files, es, 0);
  }

  /**
   * After any life of the spool: sequences are 1, 2, 3, ... with no gap or repeat, every record
   * names the bytes of its own call, and replay after k is exactly the recorded chunks above k, in order.
   */
  lemma ReplayIsWhatWasRecorded(json: Json, events: seq<Event>, k: nat)
    requires Faithful(json) && Room(events) <= MAX_SAFE_INTEGER
    ensures var life := After(json, events);
            var es := FullScan(json, life.files);
            && WellFormed(json, life.files, es)
            && Agree(life.files, es, life.recorded)
            && (forall i :: 0 <= i < |life.recorded| ==> life.recorded[i].sequence == i + 1)
            && life.at.nextSequence == |life.recorded| + 1
            && Replay(life.files, ChunkIndex.After(es, k)) == if k <= |life.recorded| then life.recorded[k..] else []
  {
    hide Faithful, After, Room, Names;
    EveryLifeKeeps(json, events);
    var life := After(json, events);
    var es := FullScan(json, life.files);
    AgreeIsWellFormed(json, life.files, es, life.recorded, Room(events));
    assert es[0..] == es;
    RecordedNumbers(life.files, es, life.recorded);
    if k <= |life.recorded| {
      AfterIsSuffix(es, k, 0);
      ReplaySuffix(life.files, es, life.recorded, k);
    } else {
      NothingAfter(es, k);
    }
  }

  /** An event records its own chunk, or nothing. */
  lemma OneRecords(json: Json, life: Life, event: Event)
    ensures var recorded := Next(json, life, event).recorded;
            || recorded == life.recorded
            || (!event.Reopen? && recorded == life.recorded + [Chunk(life.at.nextSequence, event.stream, event.bytes)])
    ensures event.Append? ==> Next(json, life, event).recorded != life.recorded
    ensures event.Crash? && event.cut <= |event.bytes| ==> Next(json, life, event).recorded == life.recorded
  {
    hide Written, AppendBytes, CheckpointLine, Truncated, PositionOf;
    assert life.recorded + [] == life.recorded;
  }

  /**
   * What a life records are the chunks of its calls, in order, numbered from 1: of every append that was made, and of
   * crashed ones only past their stream bytes.
   */
  lemma {:induction false} RecordedAreTheCalls(json: Json, events: seq<Event>) returns (kept: seq<nat>)
    requires Faithful(json) && Room(events) <= MAX_SAFE_INTEGER
    ensures var recorded := After(json, events).recorded;
            && |kept| == |recorded|
            && (forall i :: 0 <= i < |kept| ==>
                  kept[i] < |events| && !events[kept[i]].Reopen? && recorded[i] == Chunk(i + 1, events[kept[i]].stream, events[kept[i]].bytes))
    ensures forall i, j :: 0 <= i < j < |kept| ==> kept[i] < kept[j]
    ensures forall k: nat :: k < |events| && events[k].Append? ==> k in kept
    ensures forall k :: k in kept && events[k].Crash? ==> events[k].cut > |events[k].bytes|
    decreases |events|
  {
    hide Faithful, Kept, Next, PositionOf, Truncated;
    kept := [];
    if events != [] {
      var n: nat := |events| - 1;
      var before := events[..n];
      kept := RecordedAreTheCalls(json, before);
      EveryLifeKeeps(json, before);
      assert forall i :: 0 <= i < |kept| ==> before[kept[i]] == events[kept[i]];
      OneRecords(json, After(json, before), events[n]);
      if After(json, events).recorded != After(json, before).recorded {
        kept := kept + [n];
      }
    }
  }

  lemma {:induction false} NothingAfter(es: seq<Entry>, k: int)
    requires forall i :: 0 <= i < |es| ==> es[i].sequence <= k
    ensures ChunkIndex.After(es, k) == []
  {
    if es != [] {
      NothingAfter(es[1..], k);
    }
  }

  lemma RecordedNumbers(files: LogFiles, es: seq<Entry>, recorded: seq<Chunk>)
    requires Agree(files, es, recorded)
    ensures |es| == |recorded|
    ensures forall i :: 0 <= i < |recorded| ==> recorded[i].sequence == i + 1 && es[i].sequence == i + 1
  {
  }
}
