/** What the index and its checkpoints say, in plain terms: the records read, the checkpoint found, the checkpoints written. */
module IndexCheckpoints {
  import opened Bytes
  import opened Lines
  import opened ChunkIndex
  import opened IndexSeek
  import opened Spool
  import opened SpoolRuns

  // ----- the records a reader takes -----

  /** Numbered from 1, exact in a double, and within its own stream file. */
  predicate Sound(e: Entry, files: LogFiles) {
    && 1 <= e.sequence <= 9007199254740991
    && 0 <= e.byteOffset && 0 <= e.byteLength && e.byteOffset + e.byteLength <= 9007199254740991
    && e.byteOffset + e.byteLength <= if e.stream == Stdout then |files.stdout| else |files.stderr|
  }

  predicate HoldsRecord(json: Json, files: LogFiles, line: seq<byte>) {
    line != [] && json.entry(line).Some? && Sound(json.entry(line).value, files)
  }

  /** The line holds a record numbered above every record on an earlier line. */
  predicate Rises(json: Json, files: LogFiles, lines: seq<seq<byte>>, i: nat) {
    && i < |lines| && HoldsRecord(json, files, lines[i])
    && forall j :: 0 <= j < i && HoldsRecord(json, files, lines[j]) ==> json.entry(lines[j]).value.sequence < json.entry(lines[i]).value.sequence
  }

  /** The places of the rising lines, in order. */
  ghost predicate ArePlaces(json: Json, files: LogFiles, lines: seq<seq<byte>>, at: seq<nat>) {
    && (forall i: nat :: Rises(json, files, lines, i) <==> i in at)
    && forall k :: 0 < k < |at| ==> at[k - 1] < at[k]
  }

  /** Nothing read so far is numbered above `last`, which is 0 or the number of a record. */
  predicate IsHighest(json: Json, files: LogFiles, lines: seq<seq<byte>>, last: int) {
    && (forall j :: 0 <= j < |lines| && HoldsRecord(json, files, lines[j]) ==> json.entry(lines[j]).value.sequence <= last)
    && (last == 0 || exists j :: 0 <= j < |lines| && HoldsRecord(json, files, lines[j]) && json.entry(lines[j]).value.sequence == last)
  }

  lemma AcceptHolds(json: Json, files: LogFiles, line: seq<byte>)
    ensures HoldsRecord(json, files, line) <==> Accept(json, files, line).Some?
    ensures HoldsRecord(json, files, line) ==> Accept(json, files, line) == json.entry(line)
  {
  }

  lemma LastRises(json: Json, files: LogFiles, before: seq<seq<byte>>, line: seq<byte>, last: int)
    requires IsHighest(json, files, before, last)
    ensures Rises(json, files, before + [line], |before|) <==> HoldsRecord(json, files, line) && json.entry(line).value.sequence > last
    ensures IsHighest(json, files, before + [line],
                      if HoldsRecord(json, files, line) && json.entry(line).value.sequence > last then json.entry(line).value.sequence else last)
  {
    hide Sound;
    var lines := before + [line];
    assert lines[|before|] == line && forall j :: 0 <= j < |before| ==> lines[j] == before[j];
    assert HoldsRecord(json, files, line) ==> json.entry(line).value.sequence >= 1 by {
      PositiveRecord(json, files, line);
    }
    if last != 0 {
      var j :| 0 <= j < |before| && HoldsRecord(json, files, before[j]) && json.entry(before[j]).value.sequence == last;
      assert lines[j] == before[j];
    }
  }

  lemma PositiveRecord(json: Json, files: LogFiles, line: seq<byte>)
    ensures HoldsRecord(json, files, line) ==> json.entry(line).value.sequence >= 1
  {
  }

  lemma PlacesGrow(json: Json, files: LogFiles, before: seq<seq<byte>>, line: seq<byte>, at: seq<nat>)
    requires ArePlaces(json, files, before, at)
    ensures var lines := before + [line];
            ArePlaces(json, files, lines, at + if Rises(json, files, lines, |before|) then [|before|] else [])
  {
    hide HoldsRecord;
    var lines := before + [line];
    var more := at + if Rises(json, files, lines, |before|) then [|before|] else [];
    assert forall j :: 0 <= j < |before| ==> lines[j] == before[j];
    forall i: nat
      ensures Rises(json, files, lines, i) <==> i in more
    {
      assert i < |before| ==> (Rises(json, files, lines, i) <==> Rises(json, files, before, i));
    }
    if at != [] {
      assert Rises(json, files, before, at[|at| - 1]);
    }
  }

  /** The canonical scan reads exactly the rising records, in order: each within its stream file, none left out. */
  lemma {:induction false} ScanIsTheRisingRecords(json: Json, files: LogFiles, lines: seq<seq<byte>>) returns (at: seq<nat>)
    ensures ArePlaces(json, files, lines, at)
    ensures var es := Scan(json, files, lines, 0);
            && |es| == |at| && (forall k :: 0 <= k < |es| ==> at[k] < |lines| && json.entry(lines[at[k]]) == Some(es[k]) && Sound(es[k], files))
            && IsHighest(json, files, lines, LastSequence(es, 0))
    decreases |lines|
  {
    hide Accept, Sound, HoldsRecord, Rises, Scan, IsHighest, ArePlaces;
    at := [];
    if lines == [] {
      NoRise(json, files);
    } else {
      var before, line := lines[..|lines| - 1], lines[|lines| - 1];
      assert lines == before + [line];
      at := ScanIsTheRisingRecords(json, files, before);
      var es := Scan(json, files, before, 0);
      ScanAppend(json, files, before, [line], 0);
      ScanOne(json, files, line, LastSequence(es, 0));
      AcceptHolds(json, files, line);
      LastRises(json, files, before, line, LastSequence(es, 0));
      PlacesGrow(json, files, before, line, at);
      if Rises(json, files, lines, |before|) {
        at := at + [|before|];
        SoundRecord(json, files, line);
      } else {
        assert es + [] == es && at + [] == at;
      }
    }
  }

  lemma SoundRecord(json: Json, files: LogFiles, line: seq<byte>)
    requires HoldsRecord(json, files, line)
    ensures json.entry(line).Some? && Sound(json.entry(line).value, files)
  {
  }

  lemma NoRise(json: Json, files: LogFiles)
    ensures forall i: nat :: !Rises(json, files, [], i)
    ensures ArePlaces(json, files, [], []) && IsHighest(json, files, [], 0) && Scan(json, files, [], 0) == []
  {
  }

  // ----- the checkpoint a reader starts from -----

  predicate Usable(json: Json, after: int, indexSize: int, line: seq<byte>) {
    var c := json.checkpoint(line);
    c.Some? && 0 <= c.value.sequence <= after && c.value.sequence <= 9007199254740991
    && 0 <= c.value.byteOffset <= indexSize && c.value.byteOffset <= 9007199254740991
  }

  /** The usable checkpoint of the highest sequence, the first of its kind; none only when no line holds a usable one. */
  predicate IsNewest(json: Json, after: int, indexSize: int, lines: seq<seq<byte>>, c: Option<Checkpoint>) {
    if c.None? then forall j :: 0 <= j < |lines| ==> !Usable(json, after, indexSize, lines[j])
    else
      exists i :: 0 <= i < |lines| && Usable(json, after, indexSize, lines[i]) && json.checkpoint(lines[i]) == c
        && (forall j :: 0 <= j < |lines| && Usable(json, after, indexSize, lines[j]) ==> json.checkpoint(lines[j]).value.sequence <= c.value.sequence)
        && (forall j :: 0 <= j < i && Usable(json, after, indexSize, lines[j]) ==> json.checkpoint(lines[j]).value.sequence < c.value.sequence)
  }

  lemma {:induction false} PickLinesSnoc(json: Json, after: int, indexSize: int, c: Option<Checkpoint>, lines: seq<seq<byte>>, line: seq<byte>)
    ensures PickLines(json, after, indexSize, c, lines + [line])
            == PickLine(json, after, indexSize, PickLines(json, after, indexSize, c, lines), line)
    decreases |lines|
  {
    hide PickLine;
    if lines == [] {
      assert [] + [line] == [line] && [line][1..] == [];
    } else {
      AppendTail(lines, [line]);
      PickLinesSnoc(json, after, indexSize, PickLine(json, after, indexSize, c, lines[0]), lines[1..], line);
    }
  }

  lemma NewestGrows(json: Json, after: int, indexSize: int, lines: seq<seq<byte>>, c: Option<Checkpoint>, line: seq<byte>)
    requires IsNewest(json, after, indexSize, lines, c)
    ensures IsNewest(json, after, indexSize, lines + [line], PickLine(json, after, indexSize, c, line))
  {
    var more, next := lines + [line], PickLine(json, after, indexSize, c, line);
    assert more[|lines|] == line && forall j :: 0 <= j < |lines| ==> more[j] == lines[j];
    assert next != c ==> next == json.checkpoint(line);
    assert next != c ==> Usable(json, after, indexSize, line);
    assert Usable(json, after, indexSize, line) ==> next.Some? && json.checkpoint(line).value.sequence <= next.value.sequence;
    StillNewest(json, after, indexSize, lines, c, line, next);
  }

  lemma StillNewest(json: Json, after: int, indexSize: int, lines: seq<seq<byte>>, c: Option<Checkpoint>, line: seq<byte>, next: Option<Checkpoint>)
    requires IsNewest(json, after, indexSize, lines, c)
    requires next == if Usable(json, after, indexSize, line) && (c.None? || json.checkpoint(line).value.sequence > c.value.sequence) then json.checkpoint(line) else c
    ensures IsNewest(json, after, indexSize, lines + [line], next)
  {
    var more := lines + [line];
    assert more[|lines|] == line && forall j :: 0 <= j < |lines| ==> more[j] == lines[j];
    if c.Some? {
      var i :| 0 <= i < |lines| && Usable(json, after, indexSize, lines[i]) && json.checkpoint(lines[i]) == c
        && (forall j :: 0 <= j < |lines| && Usable(json, after, indexSize, lines[j]) ==> json.checkpoint(lines[j]).value.sequence <= c.value.sequence)
        && (forall j :: 0 <= j < i && Usable(json, after, indexSize, lines[j]) ==> json.checkpoint(lines[j]).value.sequence < c.value.sequence);
      assert Usable(json, after, indexSize, more[i]) && json.checkpoint(more[i]) == c;
      assert forall j :: 0 <= j < i && Usable(json, after, indexSize, more[j]) ==> json.checkpoint(more[j]).value.sequence < c.value.sequence;
    }
    assert next != c ==> Usable(json, after, indexSize, more[|lines|]);
  }

  lemma {:induction false} PickedIsNewest(json: Json, after: int, indexSize: int, lines: seq<seq<byte>>)
    ensures IsNewest(json, after, indexSize, lines, PickLines(json, after, indexSize, None, lines))
    decreases |lines|
  {
    hide PickLine, Usable, IsNewest;
    if lines == [] {
      NothingNewest(json, after, indexSize);
    } else {
      var before, line := lines[..|lines| - 1], lines[|lines| - 1];
      assert lines == before + [line];
      PickedIsNewest(json, after, indexSize, before);
      PickLinesSnoc(json, after, indexSize, None, before, line);
      NewestGrows(json, after, indexSize, before, PickLines(json, after, indexSize, None, before), line);
    }
  }

  lemma NothingNewest(json: Json, after: int, indexSize: int)
    ensures IsNewest(json, after, indexSize, [], None)
  {
  }

  /** The lines read from the blocks of the checkpoint file: text that outgrows 64 KiB loses its first line. */
  function Met(pending: seq<byte>, blocks: seq<seq<byte>>): seq<seq<byte>>
    decreases |blocks|
  {
    if blocks == [] then []
    else
      var text := pending + blocks[0];
      var pieces := SplitLines(if |text| <= 65536 then text else if LineLength(text) == |text| then [] else text[LineLength(text) + 1..]);
      ButLast(pieces) + Met(Last(pieces), blocks[1..])
  }

  lemma {:induction false} PickLinesJoin(json: Json, after: int, indexSize: int, c: Option<Checkpoint>, a: seq<seq<byte>>, b: seq<seq<byte>>)
    ensures PickLines(json, after, indexSize, c, a + b)
            == PickLines(json, after, indexSize, PickLines(json, after, indexSize, c, a), b)
    decreases |a|
  {
    hide PickLine;
    if a == [] {
      assert [] + b == b;
    } else {
      AppendTail(a, b);
      PickLinesJoin(json, after, indexSize, PickLine(json, after, indexSize, c, a[0]), a[1..], b);
    }
  }

  lemma {:induction false} BlocksPickWhatTheyMeet(json: Json, after: int, indexSize: int, c: Option<Checkpoint>, pending: seq<byte>, blocks: seq<seq<byte>>)
    ensures PickBlocks(json, after, indexSize, c, pending, blocks) == PickLines(json, after, indexSize, c, Met(pending, blocks))
    decreases |blocks|
  {
    hide PickLine, PickLines, SplitLines;
    if blocks == [] {
      PickNoLines(json, after, indexSize, c);
    } else {
      var pieces := SplitLines(Trim(pending + blocks[0]));
      TrimIs(pending + blocks[0]);
      BlocksPickWhatTheyMeet(json, after, indexSize, PickLines(json, after, indexSize, c, ButLast(pieces)), Last(pieces), blocks[1..]);
      PickLinesJoin(json, after, indexSize, c, ButLast(pieces), Met(Last(pieces), blocks[1..]));
    }
  }

  /** Of a checkpoint file up to 64 KiB every terminated line is met, however the file is cut into blocks. */
  lemma {:induction false} SmallFileIsMetWhole(pending: seq<byte>, blocks: seq<seq<byte>>)
    requires NEWLINE !in pending && |pending| + |Flatten(blocks)| <= 65536
    ensures Met(pending, blocks) == WholeLines(pending + Flatten(blocks))
    decreases |blocks|
  {
    hide SplitLines;
    if blocks == [] {
      SplitOne(pending);
      assert pending + [] == pending;
    } else {
      var text, rest := pending + blocks[0], Flatten(blocks[1..]);
      Assoc(pending, blocks[0], rest);
      SplitAppend(text, rest);
      SplitPieces(text);
      LastIsShort(text);
      var pieces := SplitLines(text);
      SmallFileIsMetWhole(Last(pieces), blocks[1..]);
      ButLastJoins(ButLast(pieces), SplitLines(Last(pieces) + rest));
    }
  }

  lemma ButLastJoins<T>(a: seq<T>, b: seq<T>)
    requires b != []
    ensures ButLast(a + b) == a + ButLast(b)
  {
  }

  lemma {:induction false} LastIsShort(s: seq<byte>)
    ensures |Last(SplitLines(s))| <= |s|
    decreases |s|
  {
    if LineLength(s) < |s| {
      LastIsShort(s[LineLength(s) + 1..]);
    }
  }

  /** The line at the checkpoint's offset, read up to 4096 bytes, is numbered one above it. */
  predicate NamesNext(json: Json, index: seq<byte>, c: Checkpoint) {
    && 0 <= c.byteOffset <= |index|
    && var rest := index[c.byteOffset..];
       json.sequenceOf(SplitLines(if |rest| < 4096 then rest else rest[..4096])[0]) == Some(c.sequence + 1)
  }

  /** A search finds the newest usable checkpoint it meets, if the record there is the next one; otherwise none. */
  lemma FindsTheNewest(json: Json, files: LogFiles, after: int, blocks: seq<seq<byte>>) returns (newest: Option<Checkpoint>)
    ensures IsNewest(json, after, |files.index|, Met([], blocks), newest)
    ensures Chosen(json, files, after, blocks) == if newest.Some? && NamesNext(json, files.index, newest.value) then newest else None
    ensures |Flatten(blocks)| <= 65536 ==> Met([], blocks) == WholeLines(Flatten(blocks))
  {
    hide PickLines, PickBlocks, Met, IsNewest, SplitLines;
    newest := PickBlocks(json, after, |files.index|, None, [], blocks);
    BlocksPickWhatTheyMeet(json, after, |files.index|, None, [], blocks);
    PickedIsNewest(json, after, |files.index|, Met([], blocks));
    if |Flatten(blocks)| <= 65536 {
      var none: seq<byte> := [];
      SmallFileIsMetWhole(none, blocks);
      assert none + Flatten(blocks) == Flatten(blocks);
    }
  }

  // ----- the checkpoints a spool writes -----

  /** With every 128th record goes a line that gives the number and the index offset before it. */
  function MarkLine(json: Json, es: seq<Entry>, i: nat): seq<byte>
    requires i < |es|
  {
    if (i + 1) % 128 == 0 then json.printCheckpoint(Checkpoint(i, |PrintAll(json, es[..i])|)) + [0x0a] else []
  }

  /** The mark lines of the records, each cut where a crash cut it. */
  function Marks(json: Json, es: seq<Entry>, cuts: seq<nat>): seq<byte>
    requires |cuts| <= |es|
  {
    if cuts == [] then []
    else
      var n := |cuts| - 1;
      Marks(json, es, cuts[..n]) + Take(MarkLine(json, es, n), cuts[n])
  }

  predicate Whole(json: Json, es: seq<Entry>, cuts: seq<nat>)
    requires |cuts| <= |es|
  {
    forall i :: 0 <= i < |cuts| ==> cuts[i] >= |MarkLine(json, es, i)|
  }

  lemma {:induction false} MarksOfMore(json: Json, es: seq<Entry>, e: Entry, cuts: seq<nat>)
    requires |cuts| <= |es|
    ensures Marks(json, es + [e], cuts) == Marks(json, es, cuts)
    ensures Whole(json, es + [e], cuts) <==> Whole(json, es, cuts)
    decreases |cuts|
  {
    forall i | 0 <= i < |cuts|
      ensures MarkLine(json, es + [e], i) == MarkLine(json, es, i)
    {
      assert (es + [e])[..i] == es[..i];
    }
    hide MarkLine, PrintAll;
    if cuts != [] {
      MarksOfMore(json, es, e, cuts[..|cuts| - 1]);
    }
  }

  lemma MarkAdded(json: Json, es: seq<Entry>, e: Entry, cuts: seq<nat>, cut: nat)
    requires |cuts| == |es|
    ensures Marks(json, es + [e], cuts + [cut]) == Marks(json, es, cuts) + Take(MarkLine(json, es + [e], |es|), cut)
    ensures Whole(json, es, cuts) && cut >= |MarkLine(json, es + [e], |es|)| ==> Whole(json, es + [e], cuts + [cut])
  {
    hide MarkLine;
    MarksOfMore(json, es, e, cuts);
    assert (cuts + [cut])[..|cuts|] == cuts;
  }

  /** What an append writes to the checkpoint file is the mark of its record. */
  lemma MarkWritten(json: Json, files: LogFiles, at: Position, recorded: seq<Chunk>, room: nat, e: Entry)
    requires Kept(json, files, recorded, room) && Standing(files, at, recorded)
    ensures var es := FullScan(json, files);
            |es| == |recorded| && CheckpointLine(json, files, at) == MarkLine(json, es + [e], |es|)
  {
    hide FullScan, PrintAll, Names;
    var es := FullScan(json, files);
    assert (es + [e])[..|es|] == es;
  }

  lemma MarksOnDisk(json: Json, files: LogFiles, at: Position, stream: Stream, bytes: seq<byte>, cut: int)
    ensures var n := cut - |bytes| - |IndexLine(json, at, stream, bytes)|;
            Written(json, files, at, stream, bytes, cut).checkpoints
            == files.checkpoints + Take(CheckpointLine(json, files, at), if n < 0 then 0 else n)
  {
    hide IndexLine, CheckpointLine;
  }

  /** How far the mark of one more event's record was written, when it made a record. */
  function MarkCut(json: Json, life: Life, event: Event): nat {
    match event
    case Append(_, _) => |CheckpointLine(json, life.files, life.at)|
    case Crash(stream, bytes, cut) =>
      var n := cut - |bytes| - |IndexLine(json, life.at, stream, bytes)|;
      if n < 0 then 0 else n
    case Reopen => 0
  }

  lemma MarkStep(json: Json, life: Life, event: Event, room: nat, cuts: seq<nat>) returns (more: seq<nat>)
    requires Faithful(json) && Inv(json, life, room)
    requires room + 1 + (if event.Reopen? then 0 else |event.bytes|) <= MAX_SAFE_INTEGER
    requires var es := FullScan(json, life.files);
             |cuts| == |es| && life.files.checkpoints == Marks(json, es, cuts)
    ensures var es, next := FullScan(json, life.files), Next(json, life, event);
            var es' := FullScan(json, next.files);
            && |more| == |es'| && next.files.checkpoints == Marks(json, es', more)
            && (Whole(json, es, cuts) && !event.Crash? ==> Whole(json, es', more))
  {
    hide Faithful, Written, Kept, Truncated, PositionOf, IndexLine, CheckpointLine, FullScan, Marks, MarkLine, Whole;
    var es := FullScan(json, life.files);
    more := cuts;
    if event.Reopen? {
      OpenStands(json, life.files, life.recorded, room);
      return;
    }
    var stream, bytes := event.stream, event.bytes;
    var e := EntryFor(life.at, stream, bytes);
    var cut: int := if event.Append? then AppendBytes(json, life.files, life.at, stream, bytes) else event.cut;
    var written := Written(json, life.files, life.at, stream, bytes, cut);
    MarksOnDisk(json, life.files, life.at, stream, bytes, cut);
    TruncatedKeepsMarks(written);
    if cut >= |bytes| + |IndexLine(json, life.at, stream, bytes)| {
      RecordAdded(json, life.files, life.at, life.recorded, room, stream, bytes, cut);
      MarkWritten(json, life.files, life.at, life.recorded, room, e);
      more := cuts + [MarkCut(json, life, event)];
      MarkAdded(json, es, e, cuts, MarkCut(json, life, event));
      if event.Crash? {
        OpenStands(json, written, life.recorded + [ChunkOf(life.at, stream, bytes)], room + 1 + |bytes|);
      }
    } else {
      RecordMissing(json, life.files, life.at, life.recorded, room, stream, bytes, cut);
      OpenStands(json, Truncated(written), life.recorded, room + 1 + |bytes|);
    }
  }

  lemma TruncatedKeepsMarks(files: LogFiles)
    ensures Truncated(files).checkpoints == files.checkpoints
  {
    hide WholePrefix;
  }

  /**
   * After any life of a spool the checkpoint file holds the marks of its records, in order, nothing else; only a crash
   * cuts one short.
   */
  lemma {:induction false} CheckpointsAreMarks(json: Json, events: seq<Event>) returns (cuts: seq<nat>)
    requires Faithful(json) && Room(events) <= MAX_SAFE_INTEGER
    ensures var life := SpoolRuns.After(json, events);
            var es := FullScan(json, life.files);
            && |cuts| == |es| && life.files.checkpoints == Marks(json, es, cuts)
            && ((forall k :: 0 <= k < |events| ==> !events[k].Crash?) ==> Whole(json, es, cuts))
    decreases |events|
  {
    hide Faithful, Inv, Next, Opened, FullScan, Marks, Whole;
    if events == [] {
      NoMarks(json);
      cuts := [];
    } else {
      var before, last := events[..|events| - 1], events[|events| - 1];
      cuts := CheckpointsAreMarks(json, before);
      EveryLifeKeeps(json, before);
      assert (forall k :: 0 <= k < |events| ==> !events[k].Crash?) ==> !last.Crash? && forall k :: 0 <= k < |before| ==> !before[k].Crash?;
      cuts := MarkStep(json, SpoolRuns.After(json, before), last, Room(before), cuts);
    }
  }

  lemma NoMarks(json: Json)
    ensures var life := Opened(json, LogFiles([], [], [], []), []);
            FullScan(json, life.files) == [] && life.files.checkpoints == [] && Marks(json, [], []) == [] && Whole(json, [], [])
  {
    NoLines();
  }

  lemma {:induction false} PrintSplit(json: Json, a: seq<Entry>, b: seq<Entry>)
    ensures PrintAll(json, a + b) == PrintAll(json, a) + PrintAll(json, b)
    decreases |a|
  {
    if a == [] {
      assert [] + b == b;
    } else {
      AppendTail(a, b);
      PrintSplit(json, a[1..], b);
      Assoc(json.printEntry(a[0]) + [NEWLINE], PrintAll(json, a[1..]), PrintAll(json, b));
    }
  }

  /** After any life of a spool, the offset a mark gives is where the record numbered one above it starts, and a probe there confirms it. */
  lemma MarksNameTheNextRecord(json: Json, events: seq<Event>, i: nat)
    requires Faithful(json) && Room(events) <= MAX_SAFE_INTEGER && i < |FullScan(json, SpoolRuns.After(json, events).files)|
    ensures var files := SpoolRuns.After(json, events).files;
            var es := FullScan(json, files);
            var offset := |PrintAll(json, es[..i])|;
            && es[i].sequence == i + 1
            && offset <= |files.index| && json.printEntry(es[i]) + [0x0a] <= files.index[offset..]
            && NamesNext(json, files.index, Checkpoint(i, offset))
  {
    hide Faithful, SpoolRuns.After, Room, PrintAll, FullScan, NamesNext;
    EveryLifeKeeps(json, events);
    var life := SpoolRuns.After(json, events);
    var es := FullScan(json, life.files);
    AgreeIsWellFormed(json, life.files, es, life.recorded, Room(events));
    assert es == es[..i] + es[i..];
    PrintSplit(json, es[..i], es[i..]);
    FirstPrinted(json, es[i..]);
    assert es[i..][0] == es[i];
    NextConfirmed(json, life.files, es[i], life.files.index, |PrintAll(json, es[..i])|, PrintAll(json, es[i..][1..]));
  }

  lemma FirstPrinted(json: Json, es: seq<Entry>)
    requires es != []
    ensures PrintAll(json, es) == json.printEntry(es[0]) + [NEWLINE] + PrintAll(json, es[1..])
  {
  }

  lemma NextConfirmed(json: Json, files: LogFiles, e: Entry, index: seq<byte>, offset: nat, rest: seq<byte>)
    requires Faithful(json) && Acceptable(e, files) && offset <= |index|
    requires index[offset..] == json.printEntry(e) + [NEWLINE] + rest
    ensures NamesNext(json, index, Checkpoint(e.sequence - 1, offset))
  {
    hide SplitLines;
    var line := json.printEntry(e);
    Assoc(line, [NEWLINE], rest);
    PieceOfLine(line, rest);
    var seen := Take(line + ([NEWLINE] + rest), 4096);
    FirstPiece(seen);
    assert line[..|line|] == line;
    assert index[offset..] == line + ([NEWLINE] + rest);
    assert |line| < 4096;
    assert SplitLines(seen)[0] == line;
    assert json.sequenceOf(line) == Some(e.sequence);
  }
}
