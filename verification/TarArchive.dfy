/** Whole archives: the in-memory writer, the streaming writer, the reader, and the size estimate. */
module TarArchive {
  import opened Bytes
  import opened Sorting
  import opened TarHeader

  /** A file on disk as the streaming writer meets it: what `stat` says, what the stream yields, what a second `stat` says. */
  datatype DiskFile = DiskFile(regular: bool, size: nat, chunks: seq<seq<byte>>, stayed: bool)

  datatype Entry = Entry(path: Path, mode: nat, kind: Kind, content: Option<seq<byte>>, disk: Option<DiskFile>, target: Option<Path>)

  datatype Parsed = Parsed(path: Path, kind: Kind, mode: nat, content: seq<byte>, target: Option<Path>)

  function Padding(size: nat): seq<byte> {
    if size % BLOCK == 0 then [] else Repeat(NUL, BLOCK - size % BLOCK)
  }

  /** The fields of an entry's header, or why it has none. */
  function HeadOf(e: Entry, fileSize: nat): (r: Result<Head>)
    ensures r.Ok? ==> Fits(r.value)
  {
    match Splitting(Normalize(e.path))
    case Err(error) => Err(error)
    case Ok(split) =>
      SplitThenJoin(Normalize(e.path));
      var target := if e.kind == Symlink && e.target.Some? then e.target.value else [];
      if |target| > NAME_BYTES then Err(TargetTooLong)
      else Ok(Head(split, e.mode, if e.kind == File then fileSize else 0, e.kind, target))
  }

  method WriteEntryHeader(e: Entry, fileSize: nat) returns (r: Result<seq<byte>>)
    ensures r == match HeadOf(e, fileSize) { case Err(error) => Err(error) case Ok(h) => Ok(HeaderBytes(h)) }
  {
    var split := SplitUstarPath(e.path);
    if split.Err? {
      return Err(split.error);
    }
    var target := [];
    if e.kind == Symlink && e.target.Some? {
      if |e.target.value| > NAME_BYTES {
        return Err(TargetTooLong);
      }
      target := e.target.value;
    }
    SplitThenJoin(Normalize(e.path));
    var header := WriteTarHeader(Head(split.value, e.mode, if e.kind == File then fileSize else 0, e.kind, target));
    return Ok(header[..]);
  }

  // ----- the in-memory writer -----

  function MemoryContent(e: Entry): seq<byte> {
    if e.kind == File && e.content.Some? then e.content.value else []
  }

  function MemoryEntry(e: Entry): Result<seq<byte>> {
    if e.kind == File && e.disk.Some? && e.content.None? then Err(NeedsMemory)
    else
      var content := MemoryContent(e);
      match HeadOf(e, |content|)
      case Err(error) => Err(error)
      case Ok(h) => Ok(HeaderBytes(h) + content + Padding(|content|))
  }

  function MemoryEntries(entries: seq<Entry>): Result<seq<byte>> {
    if entries == [] then Ok(Repeat(NUL, 2 * BLOCK))
    else match MemoryEntry(entries[0])
      case Err(error) => Err(error)
      case Ok(bytes) =>
        match MemoryEntries(entries[1..])
        case Err(error) => Err(error)
        case Ok(rest) => Ok(bytes + rest)
  }

  function ByPath(locale: (Path, Path) -> bool): (Entry, Entry) -> bool {
    (a: Entry, b: Entry) => locale(a.path, b.path)
  }

  function CreateTarArchive(entries: seq<Entry>, locale: (Path, Path) -> bool): Result<seq<byte>> {
    MemoryEntries(Sort(ByPath(locale), entries))
  }

  /** The writer's loop, growing its list of chunks. */
  method CreateTarChunks(entries: seq<Entry>, locale: (Path, Path) -> bool) returns (r: Result<seq<seq<byte>>>)
    ensures r.Ok? == CreateTarArchive(entries, locale).Ok?
    ensures r.Ok? ==> Flatten(r.value) == CreateTarArchive(entries, locale).value
    ensures r.Err? ==> r.error == CreateTarArchive(entries, locale).error
  {
    hide HeaderBytes, HeadOf, Sort, Padding, Repeat;
    var chunks: seq<seq<byte>> := [];
    var sorted := Sort(ByPath(locale), entries);
    ghost var goal := MemoryEntries(sorted);
    assert sorted[0..] == sorted;
    ghost var rest := goal;
    FlattenNothing(goal);
    for i := 0 to |sorted|
      invariant rest == MemoryEntries(sorted[i..])
      invariant rest.Ok? ==> goal.Ok? && Flatten(chunks) + rest.value == goal.value
      invariant rest.Err? ==> goal == Err(rest.error)
    {
      var entry := sorted[i];
      assert sorted[i..][0] == entry && sorted[i..][1..] == sorted[i + 1..];
      if entry.kind == File && entry.disk.Some? && entry.content.None? {
        return Err(NeedsMemory);
      }
      var content := MemoryContent(entry);
      var header := WriteEntryHeader(entry, |content|);
      if header.Err? {
        return Err(header.error);
      }
      ghost var before := Flatten(chunks);
      chunks := chunks + [header.value];
      FlattenSnoc(chunks[..|chunks| - 1], header.value);
      assert chunks[..|chunks| - 1] + [header.value] == chunks;
      ghost var more := Padding(|content|);
      if entry.kind == File && entry.content.Some? {
        FlattenSnoc(chunks, content);
        chunks := chunks + [content];
        if |content| % BLOCK != 0 {
          FlattenSnoc(chunks, Padding(|content|));
          chunks := chunks + [Padding(|content|)];
        }
      }
      PaddingOfWhole(|content|);
      assert Flatten(chunks) == before + (header.value + content + more) by {
        Regroup(before, header.value, content, more);
      }
      rest := MemoryEntries(sorted[i + 1..]);
      if rest.Ok? {
        Assoc(before, header.value + content + more, rest.value);
      }
    }
    assert sorted[|sorted|..] == [];
    FlattenSnoc(chunks, Repeat(NUL, 2 * BLOCK));
    chunks := chunks + [Repeat(NUL, 2 * BLOCK)];
    return Ok(chunks);
  }

  lemma FlattenNothing(goal: Result<seq<byte>>)
    ensures goal.Ok? ==> Flatten<byte>([]) + goal.value == goal.value
  {
  }

  lemma PaddingOfWhole(size: nat)
    ensures size % BLOCK == 0 ==> Padding(size) == []
    ensures |Padding(size)| < BLOCK && (size + |Padding(size)|) % BLOCK == 0
  {
  }

  lemma Regroup(a: seq<byte>, b: seq<byte>, c: seq<byte>, d: seq<byte>)
    ensures a + b + c + d == a + (b + c + d)
    ensures a + b + c + [] == a + (b + c + []) == a + b + c
    ensures a + b + [] + [] == a + b
  {
  }

  // ----- the streaming writer -----

  /** The chunks the generator yields for one entry, or the error it throws. */
  function StreamEntry(e: Entry): Result<seq<seq<byte>>> {
    if e.kind == File && e.content.None? && e.disk.Some? then
      var file := e.disk.value;
      if !file.regular then Err(NotRegular)
      else match HeadOf(e, file.size)
        case Err(error) => Err(error)
        case Ok(h) =>
          var streamed := if file.size > 0 then file.chunks else [];
          if |Flatten(streamed)| != file.size || !file.stayed then Err(SourceChanged)
          else Ok([HeaderBytes(h)] + streamed + (if file.size % BLOCK != 0 then [Padding(file.size)] else []))
    else
      var content := MemoryContent(e);
      match HeadOf(e, |content|)
      case Err(error) => Err(error)
      case Ok(h) =>
        if |content| == 0 then Ok([HeaderBytes(h)])
        else Ok([HeaderBytes(h), content] + (if |content| % BLOCK != 0 then [Padding(|content|)] else []))
  }

  function StreamEntries(entries: seq<Entry>): Result<seq<seq<byte>>> {
    if entries == [] then Ok([Repeat(NUL, 2 * BLOCK)])
    else match StreamEntry(entries[0])
      case Err(error) => Err(error)
      case Ok(chunks) =>
        match StreamEntries(entries[1..])
        case Err(error) => Err(error)
        case Ok(rest) => Ok(chunks + rest)
  }

  /** `tarChunks`: what reaches the compressor when nothing throws. */
  function TarChunks(entries: seq<Entry>, locale: (Path, Path) -> bool): Result<seq<seq<byte>>> {
    StreamEntries(Sort(ByPath(locale), entries))
  }

  /** The entry with its file read into memory. */
  function Loaded(e: Entry): Entry {
    if e.kind == File && e.content.None? && e.disk.Some?
    then e.(content := Some(if e.disk.value.size > 0 then Flatten(e.disk.value.chunks) else []))
    else e
  }

  function LoadedAll(entries: seq<Entry>): (r: seq<Entry>)
    ensures |r| == |entries| && forall i :: 0 <= i < |r| ==> r[i] == Loaded(entries[i])
  {
    if entries == [] then [] else [Loaded(entries[0])] + LoadedAll(entries[1..])
  }

  /** A file read from disk is regular, stays the same, and yields as many bytes as its size. */
  predicate Steady(e: Entry) {
    e.kind == File && e.content.None? && e.disk.Some? ==>
      e.disk.value.regular && e.disk.value.stayed && |Loaded(e).content.value| == e.disk.value.size
  }

  lemma StreamEntryAgrees(e: Entry)
    ensures StreamEntry(e).Ok? <==> Steady(e) && MemoryEntry(Loaded(e)).Ok?
    ensures StreamEntry(e).Ok? ==> Flatten(StreamEntry(e).value) == MemoryEntry(Loaded(e)).value
  {
    hide HeaderBytes, Flatten, Padding, Splitting, Normalize;
    FlattenNil();
    if StreamEntry(e).Ok? {
      var content := MemoryContent(Loaded(e));
      var header := HeaderBytes(HeadOf(e, |content|).value);
      PaddingOfWhole(|content|);
      var body := if e.kind == File && e.content.None? && e.disk.Some?
                  then (if e.disk.value.size > 0 then e.disk.value.chunks else [])
                  else if |content| == 0 then [] else [content];
      FlattenOne(content);
      assert Flatten(body) == content;
      var tail := if |content| % BLOCK != 0 then [Padding(|content|)] else [];
      FlattenOne(Padding(|content|));
      assert StreamEntry(e).value == [header] + body + tail;
      FlattenThree(header, body, tail);
    }
  }

  lemma FlattenNil()
    ensures Flatten<byte>([]) == []
  {
  }

  lemma FlattenOne(x: seq<byte>)
    ensures Flatten([x]) == x
  {
    assert [x][1..] == [];
    assert x + [] == x;
  }

  lemma FlattenThree(header: seq<byte>, body: seq<seq<byte>>, tail: seq<seq<byte>>)
    ensures Flatten([header] + body + tail) == header + Flatten(body) + Flatten(tail)
  {
    hide Flatten;
    FlattenAppend([header] + body, tail);
    FlattenAppend([header], body);
    FlattenOne(header);
  }

  lemma {:induction false} StreamEntriesAgree(entries: seq<Entry>)
    ensures StreamEntries(entries).Ok? <==> (forall e :: e in entries ==> Steady(e)) && MemoryEntries(LoadedAll(entries)).Ok?
    ensures StreamEntries(entries).Ok? ==> Flatten(StreamEntries(entries).value) == MemoryEntries(LoadedAll(entries)).value
  {
    hide StreamEntry, MemoryEntry, Flatten, Steady, Repeat;
    if entries == [] {
      FlattenOne(Repeat(NUL, 2 * BLOCK));
    } else {
      StreamEntryAgrees(entries[0]);
      StreamEntriesAgree(entries[1..]);
      assert LoadedAll(entries)[0] == Loaded(entries[0]) && LoadedAll(entries)[1..] == LoadedAll(entries[1..]);
      assert forall e :: e in entries <==> e == entries[0] || e in entries[1..];
      if StreamEntries(entries).Ok? {
        FlattenAppend(StreamEntry(entries[0]).value, StreamEntries(entries[1..]).value);
      }
    }
  }

  lemma {:induction false} InsertLoads(locale: (Path, Path) -> bool, x: Entry, s: seq<Entry>)
    ensures LoadedAll(Insert(ByPath(locale), x, s)) == Insert(ByPath(locale), Loaded(x), LoadedAll(s))
  {
    if s != [] && !locale(x.path, s[0].path) {
      InsertLoads(locale, x, s[1..]);
    }
  }

  lemma {:induction false} SortLoads(locale: (Path, Path) -> bool, entries: seq<Entry>)
    ensures LoadedAll(Sort(ByPath(locale), entries)) == Sort(ByPath(locale), LoadedAll(entries))
  {
    if entries != [] {
      SortLoads(locale, entries[1..]);
      InsertLoads(locale, entries[0], Sort(ByPath(locale), entries[1..]));
    }
  }

  /** The streaming writer succeeds exactly when its files hold still and the in-memory writer would, and then writes the same bytes. */
  lemma StreamingWritesTheSameArchive(entries: seq<Entry>, locale: (Path, Path) -> bool)
    ensures TarChunks(entries, locale).Ok? <==>
              (forall e :: e in entries ==> Steady(e)) && CreateTarArchive(LoadedAll(entries), locale).Ok?
    ensures TarChunks(entries, locale).Ok? ==>
              Flatten(TarChunks(entries, locale).value) == CreateTarArchive(LoadedAll(entries), locale).value
  {
    hide StreamEntries, MemoryEntries, Sort, Flatten, LoadedAll, Steady;
    SortMembers(ByPath(locale), entries);
    SortLoads(locale, entries);
    StreamEntriesAgree(Sort(ByPath(locale), entries));
  }

  // ----- independence of order, and the size -----

  predicate DistinctEntryPaths(entries: seq<Entry>) {
    forall i, j :: 0 <= i < j < |entries| ==> entries[i].path != entries[j].path
  }

  /** Entries with distinct paths give one archive, whatever order they come in. */
  lemma ArchiveIgnoresOrder(a: seq<Entry>, b: seq<Entry>, locale: (Path, Path) -> bool)
    requires TotalPreorder(locale) && (forall p, q :: locale(p, q) && locale(q, p) ==> p == q)
    requires multiset(a) == multiset(b) && DistinctEntryPaths(a)
    ensures CreateTarArchive(a, locale) == CreateTarArchive(b, locale)
    ensures TarChunks(a, locale) == TarChunks(b, locale)
  {
    hide MemoryEntries, StreamEntries, Sort;
    var leq := ByPath(locale);
    ByPathIsTotal(locale);
    assert NoTies(leq, a);
    SortIgnoresOrder(leq, a, b);
  }

  lemma ByPathIsTotal(locale: (Path, Path) -> bool)
    requires TotalPreorder(locale)
    ensures TotalPreorder(ByPath(locale))
  {
    forall a: Entry, b: Entry
      ensures ByPath(locale)(a, b) || ByPath(locale)(b, a)
    {
      assert locale(a.path, b.path) || locale(b.path, a.path);
    }
    forall a: Entry, b: Entry, c: Entry | ByPath(locale)(a, b) && ByPath(locale)(b, c)
      ensures ByPath(locale)(a, c)
    {
      assert locale(a.path, b.path) && locale(b.path, c.path) ==> locale(a.path, c.path);
    }
  }

  /** What one entry adds to the archive. */
  function Cost(e: Entry): nat {
    BLOCK + (|MemoryContent(e)| + BLOCK - 1) / BLOCK * BLOCK
  }

  function TotalCost(entries: seq<Entry>): nat {
    if entries == [] then 0 else Cost(entries[0]) + TotalCost(entries[1..])
  }

  /** `estimateTemporarySnapshotBytes`, before anything is written: from file sizes and a count of empty directories. */
  function Estimate(sizes: seq<nat>, emptyDirectories: nat): nat {
    if sizes == [] then emptyDirectories * BLOCK + 2 * BLOCK
    else BLOCK + (sizes[0] + BLOCK - 1) / BLOCK * BLOCK + Estimate(sizes[1..], emptyDirectories)
  }

  lemma PaddedSize(size: nat)
    ensures size + |Padding(size)| == (size + BLOCK - 1) / BLOCK * BLOCK
  {
  }

  lemma {:induction false} EntriesCost(entries: seq<Entry>)
    ensures MemoryEntries(entries).Ok? ==> |MemoryEntries(entries).value| == TotalCost(entries) + 2 * BLOCK
  {
    hide HeaderBytes, HeadOf, Padding, MemoryContent;
    if entries != [] && MemoryEntries(entries).Ok? {
      EntriesCost(entries[1..]);
      var content := MemoryContent(entries[0]);
      PaddedSize(|content|);
      HeaderSize(HeadOf(entries[0], |content|).value);
    }
  }

  lemma {:induction false} InsertCost(locale: (Path, Path) -> bool, x: Entry, s: seq<Entry>)
    ensures TotalCost(Insert(ByPath(locale), x, s)) == Cost(x) + TotalCost(s)
  {
    if s != [] && !locale(x.path, s[0].path) {
      InsertCost(locale, x, s[1..]);
    }
  }

  lemma {:induction false} SortCost(locale: (Path, Path) -> bool, entries: seq<Entry>)
    ensures TotalCost(Sort(ByPath(locale), entries)) == TotalCost(entries)
  {
    if entries != [] {
      SortCost(locale, entries[1..]);
      InsertCost(locale, entries[0], Sort(ByPath(locale), entries[1..]));
    }
  }

  function Sizes(entries: seq<Entry>): seq<nat> {
    if entries == [] then [] else [|MemoryContent(entries[0])|] + Sizes(entries[1..])
  }

  lemma {:induction false} EstimateIsCost(files: seq<Entry>, directories: seq<Entry>)
    requires forall i :: 0 <= i < |directories| ==> directories[i].kind == Directory
    ensures Estimate(Sizes(files), |directories|) == TotalCost(files + directories) + 2 * BLOCK
    decreases |files| + |directories|
  {
    if files != [] {
      EstimateIsCost(files[1..], directories);
      AppendTail(files, directories);
    } else if directories != [] {
      EstimateIsCost([], directories[1..]);
      assert files + directories == directories && [] + directories[1..] == directories[1..];
      assert Sizes(files) == [] && |MemoryContent(directories[0])| == 0;
    } else {
      assert files + directories == [];
    }
  }

  /** The estimate made before capture is the exact length of the archive written, in memory or streamed. */
  lemma EstimateIsExact(files: seq<Entry>, directories: seq<Entry>, locale: (Path, Path) -> bool)
    requires forall i :: 0 <= i < |directories| ==> directories[i].kind == Directory
    ensures var archive := CreateTarArchive(files + directories, locale);
            archive.Ok? ==> |archive.value| == Estimate(Sizes(files), |directories|)
    ensures var chunks := TarChunks(files + directories, locale);
            chunks.Ok? ==> |Flatten(chunks.value)| == Estimate(Sizes(LoadedAll(files)), |directories|)
  {
    hide MemoryEntries, Sort, TotalCost, Sizes, Estimate, TarChunks, Flatten, Loaded;
    EstimateIsCost(files, directories);
    SortCost(locale, files + directories);
    EntriesCost(Sort(ByPath(locale), files + directories));
    StreamingWritesTheSameArchive(files + directories, locale);
    DirectoriesLoad(directories);
    assert LoadedAll(files + directories) == LoadedAll(files) + directories;
    EstimateIsCost(LoadedAll(files), directories);
    SortCost(locale, LoadedAll(files) + directories);
    EntriesCost(Sort(ByPath(locale), LoadedAll(files) + directories));
  }

  lemma DirectoriesLoad(directories: seq<Entry>)
    requires forall i :: 0 <= i < |directories| ==> directories[i].kind == Directory
    ensures forall i :: 0 <= i < |directories| ==> Loaded(directories[i]) == directories[i]
  {
  }

  // ----- the reader -----

  function From(data: seq<byte>, offset: nat): seq<byte> {
    if offset <= |data| then data[offset..] else []
  }

  /** `subarray(0, n)`, which stops at the end of the data. */
  function Upto(data: seq<byte>, n: nat): seq<byte> {
    if n <= |data| then data[..n] else data
  }

  /** One header and what follows it: the entry read, and how many bytes it took after the header. */
  function ReadEntry(head: Head, body: seq<byte>): (Parsed, nat) {
    var path := Join(head.split);
    var mode := if head.mode == 0 then 0x1a4 else head.mode;
    match head.kind
    case Directory => (Parsed(path, Directory, mode, [], None), 0)
    case Symlink => (Parsed(path, Symlink, mode, [], Some(head.target)), 0)
    case File => (Parsed(path, File, mode, Upto(body, head.size), None), head.size + |Padding(head.size)|)
  }

  function ParseTar(data: seq<byte>): seq<Parsed>
    decreases |data|
  {
    if |data| < BLOCK || AllZero(data[..BLOCK]) then []
    else
      var body := data[BLOCK..];
      var (entry, taken) := ReadEntry(ReadHead(data[..BLOCK]), body);
      [entry] + ParseTar(From(body, taken))
  }

  method ParseTarArchive(data: seq<byte>) returns (entries: seq<Parsed>)
    ensures entries == ParseTar(data)
  {
    hide ReadHead, AllZero, ReadEntry, Padding;
    entries := [];
    var offset := 0;
    FromStart(data);
    while offset + BLOCK <= |data|
      invariant entries + ParseTar(From(data, offset)) == ParseTar(data)
      decreases |data| - offset
    {
      var rest := From(data, offset);
      assert rest == data[offset..];
      if AllZero(data[offset..offset + BLOCK]) {
        assert rest[..BLOCK] == data[offset..offset + BLOCK];
        assert entries + [] == entries;
        return;
      }
      assert rest[..BLOCK] == data[offset..offset + BLOCK];
      offset := offset + BLOCK;
      assert rest[BLOCK..] == data[offset..];
      var (entry, taken) := ReadEntry(ReadHead(data[offset - BLOCK..offset]), data[offset..]);
      FromFrom(data, offset, taken);
      Assoc(entries, [entry], ParseTar(From(data, offset + taken)));
      entries := entries + [entry];
      offset := offset + taken;
    }
    assert entries + [] == entries;
  }

  lemma FromStart(data: seq<byte>)
    ensures From(data, 0) == data && [] + ParseTar(data) == ParseTar(data)
  {
  }

  lemma FromFrom(data: seq<byte>, offset: nat, taken: nat)
    requires offset <= |data|
    ensures From(data[offset..], taken) == From(data, offset + taken)
  {
  }

  // ----- round trip -----

  /** An entry as the reader should give it back. */
  function Expected(e: Entry): Parsed {
    Parsed(e.path, e.kind, e.mode, MemoryContent(e),
           if e.kind != Symlink then None else if e.target.Some? then e.target else Some([]))
  }

  function ExpectedAll(entries: seq<Entry>): (r: seq<Parsed>)
    ensures |r| == |entries|
  {
    if entries == [] then [] else [Expected(entries[0])] + ExpectedAll(entries[1..])
  }

  /** Paths and targets without NUL, as operating systems have them. */
  predicate NulFreeEntry(e: Entry) {
    NulFree(e.path) && (e.target.Some? ==> NulFree(e.target.value))
  }

  /** A mode and a size that fit their fields, a mode that is not zero, and a path without backslashes that does not lose its slash. */
  predicate Intact(e: Entry) {
    0 < e.mode < Pow8(8) && |MemoryContent(e)| < Pow8(12) && BACKSLASH !in e.path && !LosesSlash(e.path)
  }

  lemma NormalizeKeeps(p: Path)
    ensures Normalize(p) == p <==> BACKSLASH !in p
  {
    if BACKSLASH in p {
      var i :| 0 <= i < |p| && p[i] == BACKSLASH;
      assert Normalize(p)[i] == SLASH;
    } else {
      assert Normalize(p) == p;
    }
  }

  lemma SplitIsNulFree(p: Path)
    requires NulFree(p) && Splitting(p).Ok?
    ensures NulFree(Splitting(p).value.name) && NulFree(Splitting(p).value.prefix)
  {
  }

  /** The reader gives the path back as it was before its backslashes were turned, or not at all. */
  lemma JoinBack(p: Path)
    requires Splitting(Normalize(p)).Ok?
    ensures Join(Splitting(Normalize(p)).value) == p <==> BACKSLASH !in p && !LosesSlash(p)
  {
    hide Splitting, LosesSlash, Join;
    var s := Splitting(Normalize(p)).value;
    SplitThenJoin(Normalize(p));
    NormalizeKeeps(p);
    if LosesSlash(Normalize(p)) {
      LostSlashIsShorter(Normalize(p));
    }
  }

  lemma LostSlashIsShorter(p: Path)
    requires Splitting(p).Ok? && LosesSlash(p)
    ensures |Join(Splitting(p).value)| < |p|
  {
    SplittingSplits(p);
  }

  /** The header of an entry, read back. */
  lemma HeadReadsBack(e: Entry)
    requires HeadOf(e, |MemoryContent(e)|).Ok? && NulFreeEntry(e)
    ensures var h := HeadOf(e, |MemoryContent(e)|).value;
            var r := ReadHead(HeaderBytes(h));
            && |HeaderBytes(h)| == BLOCK && !AllZero(HeaderBytes(h))
            && r.kind == e.kind && (e.kind == Symlink ==> Some(r.target) == Expected(e).target)
            && (Join(r.split) == e.path <==> BACKSLASH !in e.path && !LosesSlash(e.path))
            && (r.mode == e.mode <==> e.mode < Pow8(8)) && r.mode < Pow8(8)
            && (e.kind == File ==> (r.size == |MemoryContent(e)| <==> |MemoryContent(e)| < Pow8(12)) && r.size < Pow8(12))
  {
    hide HeaderBytes, ReadHead, Pow8, LosesSlash, Join, Splitting, AllZero;
    assert NulFree(Normalize(e.path));
    NormalizeKeeps(e.path);
    JoinBack(e.path);
    SplitThenJoin(Normalize(e.path));
    SplitIsNulFree(Normalize(e.path));
    HeaderRoundTrip(HeadOf(e, |MemoryContent(e)|).value);
  }

  lemma CutFront(a: seq<byte>, b: seq<byte>)
    ensures (a + b)[..|a|] == a && (a + b)[|a|..] == b
  {
  }

  /** The reader at the front of an entry's bytes: it reads an entry, and the right one exactly when nothing was out of range. */
  lemma EntryReadsBack(e: Entry, rest: seq<byte>)
    requires MemoryEntry(e).Ok? && NulFreeEntry(e)
    ensures var read := ParseTar(MemoryEntry(e).value + rest);
            && read != []
            && (Intact(e) ==> read == [Expected(e)] + ParseTar(rest))
            && (!Intact(e) ==> read[0] != Expected(e))
  {
    hide HeadOf, HeaderBytes, ReadHead, Pow8, LosesSlash, Join, AllZero, Padding, Normalize, NulFreeEntry;
    var content := MemoryContent(e);
    var header := HeaderBytes(HeadOf(e, |content|).value);
    var tail := Padding(|content|);
    var data := MemoryEntry(e).value + rest;
    HeadReadsBack(e);
    var body := content + tail + rest;
    assert data == header + body by {
      Assoc(header, content, tail);
      Assoc(header, content + tail, rest);
    }
    CutFront(header, body);
    Pow8Of6();
    var head := ReadHead(header);
    var (entry, taken) := ReadEntry(head, body);
    assert ParseTar(data) == [entry] + ParseTar(From(body, taken));
    if Intact(e) {
      assert body == content + (tail + rest) by {
        Assoc(content, tail, rest);
      }
      CutFront(content, tail + rest);
      CutFront(content + tail, rest);
      PaddingOfWhole(0);
      assert taken == |content + tail|;
      assert entry == Expected(e);
    }
  }

  /**
   * Reading back a written archive gives the entries, in path order, with path, type, mode, content and
   * target intact, exactly when every entry is in range.
   */
  lemma {:induction false} EntriesReadBack(entries: seq<Entry>)
    requires MemoryEntries(entries).Ok? && forall i :: 0 <= i < |entries| ==> NulFreeEntry(entries[i])
    ensures ParseTar(MemoryEntries(entries).value) == ExpectedAll(entries) <==>
              forall i :: 0 <= i < |entries| ==> Intact(entries[i])
  {
    hide MemoryEntry, Expected, Intact, NulFreeEntry, ParseTar;
    if entries == [] {
      EndReadsAsNothing();
    } else {
      var rest := MemoryEntries(entries[1..]).value;
      EntryReadsBack(entries[0], rest);
      EntriesReadBack(entries[1..]);
      var read := ParseTar(MemoryEntries(entries).value);
      ConsTail(Expected(entries[0]), ParseTar(rest));
      ConsTail(Expected(entries[0]), ExpectedAll(entries[1..]));
      AllFromTail(entries);
    }
  }

  lemma AllFromTail(entries: seq<Entry>)
    requires entries != []
    ensures (forall i :: 0 <= i < |entries| ==> Intact(entries[i])) <==>
              Intact(entries[0]) && forall i :: 0 <= i < |entries[1..]| ==> Intact(entries[1..][i])
  {
    hide Intact;
    assert forall i :: 0 < i < |entries| ==> entries[i] == entries[1..][i - 1];
  }

  lemma EndReadsAsNothing()
    ensures ParseTar(Repeat(NUL, 2 * BLOCK)) == []
  {
    var data := Repeat(NUL, 2 * BLOCK);
    assert AllZero(data[..BLOCK]);
  }

  lemma TarRoundTrip(entries: seq<Entry>, locale: (Path, Path) -> bool)
    requires CreateTarArchive(entries, locale).Ok? && forall i :: 0 <= i < |entries| ==> NulFreeEntry(entries[i])
    ensures ParseTar(CreateTarArchive(entries, locale).value) == ExpectedAll(Sort(ByPath(locale), entries)) <==>
              forall e :: e in entries ==> Intact(e)
  {
    hide MemoryEntries, ParseTar, ExpectedAll, Sort, Intact, NulFreeEntry;
    var sorted := Sort(ByPath(locale), entries);
    SortMembers(ByPath(locale), entries);
    assert forall i :: 0 <= i < |sorted| ==> sorted[i] in entries;
    EntriesReadBack(sorted);
  }

  /** When the in-memory writer succeeds: every path has a legal split, every target fits, and no file is left on disk. */
  lemma {:induction false} WritableExactly(entries: seq<Entry>)
    ensures MemoryEntries(entries).Ok? <==> forall i :: 0 <= i < |entries| ==> Writable(entries[i])
  {
    hide HeaderBytes, Normalize, LegalSplit, Padding, MemoryContent;
    if entries != [] {
      WritableExactly(entries[1..]);
      SplitThenJoin(Normalize(entries[0].path));
      assert MemoryEntry(entries[0]).Ok? <==> Writable(entries[0]);
      assert forall i :: 0 < i < |entries| ==> entries[i] == entries[1..][i - 1];
    }
  }

  ghost predicate Writable(e: Entry) {
    var p := Normalize(e.path);
    && |p| <= 255 && (|p| <= NAME_BYTES || exists i: nat :: LegalSplit(p, i))
    && (e.kind == Symlink && e.target.Some? ==> |e.target.value| <= NAME_BYTES)
    && (e.kind == File && e.disk.Some? ==> e.content.Some?)
  }

  lemma ArchiveIsWrittenExactlyWhenWritable(entries: seq<Entry>, locale: (Path, Path) -> bool)
    ensures CreateTarArchive(entries, locale).Ok? <==> forall e :: e in entries ==> Writable(e)
  {
    hide MemoryEntries, Sort, Writable;
    var sorted := Sort(ByPath(locale), entries);
    SortMembers(ByPath(locale), entries);
    WritableExactly(sorted);
    assert forall i :: 0 <= i < |sorted| ==> sorted[i] in entries;
  }

  // ----- what is lost, on small entries -----

  lemma FirstComesBack(e: Entry, rest: seq<byte>)
    requires MemoryEntry(e).Ok? && NulFreeEntry(e) && e.mode < Pow8(8)
    ensures var read := ParseTar(MemoryEntry(e).value + rest);
            && read != [] && read[0].kind == e.kind
            && read[0].mode == (if e.mode == 0 then 0x1a4 else e.mode)
            && Splitting(Normalize(e.path)).Ok? && read[0].path == Join(Splitting(Normalize(e.path)).value)
  {
    hide HeaderBytes, ReadHead, Pow8, LosesSlash, Join, AllZero, Padding, Normalize, Splitting;
    var content := MemoryContent(e);
    var h := HeadOf(e, |content|).value;
    var header := HeaderBytes(h);
    HeadReadsBack(e);
    HeadSplit(e);
    Assoc(header, content, Padding(|content|));
    Assoc(header, content + Padding(|content|), rest);
    CutFront(header, content + Padding(|content|) + rest);
  }

  lemma HeadSplit(e: Entry)
    requires HeadOf(e, |MemoryContent(e)|).Ok? && NulFreeEntry(e)
    ensures var h := HeadOf(e, |MemoryContent(e)|).value;
            Splitting(Normalize(e.path)).Ok? && ReadHead(HeaderBytes(h)).split == Splitting(Normalize(e.path)).value
  {
    hide HeaderBytes, ReadHead, Pow8, Join, Splitting, AllZero;
    assert NulFree(Normalize(e.path));
    SplitIsNulFree(Normalize(e.path));
    HeaderRoundTrip(HeadOf(e, |MemoryContent(e)|).value);
  }

  /** An empty file without permissions comes back readable. */
  lemma ModeZeroComesBackAs0644(rest: seq<byte>)
    ensures var e := Entry([0x61], 0, File, Some([]), None, None);
            MemoryEntry(e).Ok? && ParseTar(MemoryEntry(e).value + rest) != []
            && ParseTar(MemoryEntry(e).value + rest)[0] != Expected(e) && ParseTar(MemoryEntry(e).value + rest)[0].mode == 0x1a4
  {
    hide ParseTar, HeaderBytes;
    var e := Entry([0x61], 0, File, Some([]), None, None);
    Pow8Of6();
    FirstComesBack(e, rest);
  }

  /** A file with a backslash in its name comes back in a directory. */
  lemma BackslashComesBackAsSlash(rest: seq<byte>)
    ensures var e := Entry([0x61, BACKSLASH, 0x62], 1, File, Some([]), None, None);
            MemoryEntry(e).Ok? && ParseTar(MemoryEntry(e).value + rest) != []
            && ParseTar(MemoryEntry(e).value + rest)[0].path == [0x61, SLASH, 0x62]
  {
    hide ParseTar, HeaderBytes;
    var e := Entry([0x61, BACKSLASH, 0x62], 1, File, Some([]), None, None);
    assert Normalize(e.path) == [0x61, SLASH, 0x62];
    Pow8Of6();
    FirstComesBack(e, rest);
  }
}
