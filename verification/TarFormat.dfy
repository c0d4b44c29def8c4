/** The very bytes of an archive: ustar blocks as IEEE Std 1003.1 lays them out. */
module TarFormat {
  import opened Bytes
  import opened Sorting
  import opened TarHeader
  import opened TarArchive

  // ----- octal fields -----

  /** The number some octal digits spell. */
  function Spelled(d: seq<byte>): int {
    if d == [] then 0 else 8 * Spelled(d[..|d| - 1]) + d[|d| - 1] - 48
  }

  /** The shortest octal numeral of the number. */
  predicate IsNumeral(d: seq<byte>, v: nat) {
    d != [] && (forall i :: 0 <= i < |d| ==> 48 <= d[i] <= 55) && (|d| > 1 ==> d[0] != 48) && Spelled(d) == v
  }

  /** The numeral behind zeros and before a NUL, or as much of it as there is room for. */
  ghost predicate OctalField(b: seq<byte>, v: nat) {
    exists d: seq<byte> :: IsNumeral(d, v) && FillsWith(b, d)
  }

  predicate FillsWith(b: seq<byte>, d: seq<byte>) {
    if |d| >= |b| then b == d[..|b|]
    else
      var zeros := |b| - 1 - |d|;
      (forall i :: 0 <= i < zeros ==> b[i] == 48) && b[zeros..|b| - 1] == d && b[|b| - 1] == 0
  }

  lemma {:induction false} OctalIsNumeral(n: nat)
    ensures IsNumeral(Octal(n), n) && (n > 0 ==> Octal(n)[0] != 48)
  {
    if n >= 8 {
      OctalIsNumeral(n / 8);
      var d := Octal(n);
      assert d[..|d| - 1] == Octal(n / 8) && d[|d| - 1] == 48 + n % 8;
      assert forall i :: 0 <= i < |d| - 1 ==> d[i] == Octal(n / 8)[i];
    } else {
      var d := Octal(n);
      assert d[..0] == [];
    }
  }

  lemma PadIsField(v: nat, n: nat)
    requires n > 0
    ensures OctalField(PadOctal(v, n), v)
  {
    OctalIsNumeral(v);
    var d := Octal(v);
    hide Octal, IsNumeral;
    if |d| < n {
      var b := Repeat(ZERO, n - 1 - |d|) + d + [NUL];
      assert b[n - 1 - |d|..n - 1] == d;
    }
    assert FillsWith(PadOctal(v, n), d);
  }

  // ----- text fields -----

  /** The text, then zeros. */
  predicate TextField(b: seq<byte>, t: seq<byte>) {
    |t| <= |b| && forall i :: 0 <= i < |b| ==> b[i] == if i < |t| then t[i] else 0
  }

  lemma FieldIsText(t: seq<byte>, n: nat)
    requires |t| <= n
    ensures TextField(Field(t, n), t)
  {
  }

  // ----- the header -----

  /** The sum of the first `n` bytes, those of the checksum field taken as blanks. */
  function BlankSum(b: seq<byte>, n: nat): nat
    requires n <= |b|
  {
    if n == 0 then 0 else BlankSum(b, n - 1) + if 148 <= n - 1 < 156 then 32 else b[n - 1]
  }

  ghost predicate HeaderText(b: seq<byte>, name: seq<byte>, prefix: seq<byte>, mode: nat, size: nat, kind: Kind, target: seq<byte>) {
    && |b| == 512
    && TextField(b[0..100], name)
    && OctalField(b[100..108], mode)
    && OctalField(b[108..116], 0) && OctalField(b[116..124], 0)
    && OctalField(b[124..136], size)
    && OctalField(b[136..148], 0)
    && OctalField(b[148..156], BlankSum(b, 512))
    && b[156] == (match kind case File => 0x30 case Symlink => 0x32 case Directory => 0x35)
    && TextField(b[157..257], target)
    && b[257..263] == [0x75, 0x73, 0x74, 0x61, 0x72, 0x00]
    && b[263..265] == [0x30, 0x30]
    && TextField(b[265..345], [])
    && TextField(b[345..500], prefix)
    && TextField(b[500..512], [])
  }

  lemma {:induction false} SumIsBlankSum(b: seq<byte>, c: seq<byte>, n: nat)
    requires |b| == |c| == 512 && n <= 512
    requires forall i :: 0 <= i < 512 ==> c[i] == if 148 <= i < 156 then 32 else b[i]
    ensures Sum(c[..n]) == BlankSum(b, n)
  {
    if n > 0 {
      SumIsBlankSum(b, c, n - 1);
      assert c[..n][..n - 1] == c[..n - 1];
    }
  }

  lemma HeaderIsText(h: Head)
    requires Fits(h)
    ensures HeaderText(HeaderBytes(h), h.split.name, h.split.prefix, h.mode, h.size, h.kind, h.target)
  {
    hide Field, PadOctal, Repeat, OctalField, TextField, HeaderWith, Sum, BlankSum;
    var blanks := Repeat(BLANK, 8);
    var plain := HeaderWith(h, blanks);
    var checksum := PadOctal(Sum(plain), 8);
    var b := HeaderBytes(h);
    HeaderHasLayout(h, checksum);
    HeaderHasLayout(h, blanks);
    PatchAgain(b, h, checksum, blanks);
    BlanksPatched(b, plain);
    SumIsBlankSum(b, plain, 512);
    assert plain[..512] == plain;
    FieldIsText(h.split.name, 100);
    FieldIsText(h.split.prefix, 155);
    FieldIsText(h.target, 100);
    PadIsField(h.mode, 8);
    PadIsField(h.size, 12);
    PadIsField(0, 8);
    PadIsField(0, 12);
    PadIsField(Sum(plain), 8);
    ZerosAreText(80);
    ZerosAreText(12);
    assert b[156] == b[156..157][0];
  }

  lemma ZerosAreText(n: nat)
    ensures TextField(Repeat(NUL, n), [])
  {
  }

  lemma BlanksPatched(b: seq<byte>, plain: seq<byte>)
    requires |b| == 512 && plain == Patch(b, 148, Repeat(BLANK, 8))
    ensures |plain| == 512 && forall i :: 0 <= i < 512 ==> plain[i] == if 148 <= i < 156 then 32 else b[i]
  {
  }

  // ----- the path -----

  /** Every backslash turned into a slash. */
  predicate Turned(path: seq<byte>, p: seq<byte>) {
    |p| == |path| && forall i :: 0 <= i < |p| ==> p[i] == if path[i] == 0x5c then 0x2f else path[i]
  }

  predicate CutsAt(p: seq<byte>, i: nat) {
    i < |p| && p[i] == 0x2f && 1 <= |p| - i - 1 <= 100 && i <= 155
  }

  /** Up to a hundred bytes the path is the name; a longer one is cut at the last slash that leaves both parts room. */
  ghost predicate Parts(p: seq<byte>, name: seq<byte>, prefix: seq<byte>) {
    && |p| <= 255
    && if |p| <= 100 then name == p && prefix == []
       else exists i: nat :: CutsAt(p, i) && name == p[i + 1..] && prefix == p[..i] && forall j: nat :: i < j < |p| ==> !CutsAt(p, j)
  }

  lemma SplitIsParts(path: seq<byte>)
    requires Splitting(Normalize(path)).Ok?
    ensures var s := Splitting(Normalize(path)).value;
            Turned(path, Normalize(path)) && Parts(Normalize(path), s.name, s.prefix)
  {
    hide Splitting;
    var p := Normalize(path);
    SplittingSplits(p);
    assert forall i: nat :: CutsAt(p, i) <==> LegalSplit(p, i);
  }

  // ----- entries and archives -----

  function Contents(e: Entry): seq<byte> {
    if e.kind.File? && e.content.Some? then e.content.value else []
  }

  function LinkText(e: Entry): seq<byte> {
    if e.kind.Symlink? && e.target.Some? then e.target.value else []
  }

  /** The bytes, and zeros up to the next multiple of 512. */
  predicate Padded(b: seq<byte>, content: seq<byte>) {
    && |b| % 512 == 0 && |content| <= |b| < |content| + 512
    && forall i :: 0 <= i < |b| ==> b[i] == if i < |content| then content[i] else 0
  }

  ghost predicate EntryText(e: Entry, b: seq<byte>) {
    && |b| >= 512 && Padded(b[512..], Contents(e))
    && exists p: seq<byte>, name: seq<byte>, prefix: seq<byte> ::
         && Turned(e.path, p) && Parts(p, name, prefix)
         && HeaderText(b[..512], name, prefix, e.mode, |Contents(e)|, e.kind, LinkText(e))
  }

  /** The entries one after the other, and two blocks of zeros. */
  ghost predicate ArchiveText(entries: seq<Entry>, b: seq<byte>) {
    if entries == [] then |b| == 1024 && forall i :: 0 <= i < 1024 ==> b[i] == 0
    else exists n: nat :: n <= |b| && EntryText(entries[0], b[..n]) && ArchiveText(entries[1..], b[n..])
  }

  lemma PaddingPads(content: seq<byte>)
    ensures Padded(content + Padding(|content|), content)
  {
    PaddingOfWhole(|content|);
  }

  lemma EntryIsText(e: Entry)
    requires MemoryEntry(e).Ok?
    ensures EntryText(e, MemoryEntry(e).value)
  {
    hide HeaderText, HeaderBytes, Padding, Padded, Normalize, Splitting, Turned, Parts;
    var content := MemoryContent(e);
    var h := HeadOf(e, |content|).value;
    var header := HeaderBytes(h);
    HeaderSize(h);
    HeaderIsText(h);
    SplitIsParts(e.path);
    PaddingPads(content);
    Assoc(header, content, Padding(|content|));
    CutFront(header, content + Padding(|content|));
    assert HeaderText(header, h.split.name, h.split.prefix, e.mode, |Contents(e)|, e.kind, LinkText(e));
  }

  lemma {:induction false} EntriesAreText(entries: seq<Entry>)
    requires MemoryEntries(entries).Ok?
    ensures ArchiveText(entries, MemoryEntries(entries).value)
  {
    hide MemoryEntry, EntryText;
    if entries != [] {
      EntryIsText(entries[0]);
      EntriesAreText(entries[1..]);
      var first, rest := MemoryEntry(entries[0]).value, MemoryEntries(entries[1..]).value;
      CutFront(first, rest);
      assert EntryText(entries[0], (first + rest)[..|first|]) && ArchiveText(entries[1..], (first + rest)[|first|..]);
    }
  }

  /** The paths ascend, and entries of equal paths stay as they came. */
  ghost predicate PathsAscend(entries: seq<Entry>, order: seq<nat>, locale: (Path, Path) -> bool) {
    && Rearranges(order, |entries|)
    && forall i, j :: 0 <= i < j < |entries| ==>
         && locale(entries[order[i]].path, entries[order[j]].path)
         && (locale(entries[order[j]].path, entries[order[i]].path) ==> order[i] < order[j])
  }

  /** An archive is the ustar text of the entries in ascending order of their paths. */
  lemma ArchiveIsText(entries: seq<Entry>, locale: (Path, Path) -> bool) returns (order: seq<nat>)
    requires TotalPreorder(locale) && CreateTarArchive(entries, locale).Ok?
    ensures PathsAscend(entries, order, locale)
    ensures ArchiveText(seq(|entries|, i requires 0 <= i < |entries| => entries[order[i]]), CreateTarArchive(entries, locale).value)
  {
    hide MemoryEntries, ArchiveText, Sort, Rearranges;
    var leq := ByPath(locale);
    ByPathIsTotal(locale);
    order := SortOrder(leq, entries);
    forall i, j | 0 <= i < j < |entries|
      ensures locale(entries[order[i]].path, entries[order[j]].path)
      ensures locale(entries[order[j]].path, entries[order[i]].path) ==> order[i] < order[j]
    {
      assert leq(entries[order[i]], entries[order[j]]) <==> locale(entries[order[i]].path, entries[order[j]].path);
      assert leq(entries[order[j]], entries[order[i]]) <==> locale(entries[order[j]].path, entries[order[i]].path);
    }
    EntriesAreText(Sort(leq, entries));
    assert Sort(leq, entries) == seq(|entries|, i requires 0 <= i < |entries| => entries[order[i]]);
  }
}
