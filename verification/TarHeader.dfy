/** One ustar header: octal fields, the split of a long path, the checksum, and what a reader gets back. */
module TarHeader {
  import opened Bytes

  const BLOCK: nat := 512
  const NUL: byte := 0
  const ZERO: byte := 0x30
  const SLASH: byte := 0x2f
  const BACKSLASH: byte := 0x5c
  const BLANK: byte := 0x20
  const NAME_BYTES: nat := 100
  const PREFIX_BYTES: nat := 155

  type Path = seq<byte>

  datatype Kind = File | Directory | Symlink

  datatype TarError = PathTooLong | PathUnsplittable | TargetTooLong | NeedsMemory | NotRegular | SourceChanged

  datatype Result<+T> = Ok(value: T) | Err(error: TarError)

  function Repeat(b: byte, n: nat): (r: seq<byte>)
    ensures |r| == n && forall i :: 0 <= i < n ==> r[i] == b
  {
    seq(n, i => b)
  }

  /** A field of `n` bytes: the text, then zeros. */
  function Field(text: seq<byte>, n: nat): (r: seq<byte>)
    requires |text| <= n
    ensures |r| == n
  {
    text + Repeat(NUL, n - |text|)
  }

  // ----- octal numbers -----

  /** `toString(8)`. */
  function Octal(n: nat): (r: seq<byte>)
    ensures r != [] && forall i :: 0 <= i < |r| ==> IsOctal(r[i])
  {
    if n < 8 then [ZERO + n] else Octal(n / 8) + [ZERO + n % 8]
  }

  predicate IsOctal(b: byte) {
    ZERO <= b < ZERO + 8
  }

  function PadOctal(value: nat, length: nat): (r: seq<byte>)
    requires length > 0
    ensures |r| == length
  {
    var str := Octal(value);
    if |str| >= length then str[..length]
    else Repeat(ZERO, length - 1 - |str|) + str + [NUL]
  }

  function Pow8(k: nat): (r: nat)
    ensures r > 0
  {
    if k == 0 then 1 else 8 * Pow8(k - 1)
  }

  /** The value of a run of octal digits. */
  function Value(digits: seq<byte>): (r: nat)
    requires forall i :: 0 <= i < |digits| ==> IsOctal(digits[i])
  {
    if digits == [] then 0
    else
      assert IsOctal(digits[|digits| - 1]);
      8 * Value(digits[..|digits| - 1]) + (digits[|digits| - 1] - ZERO)
  }

  predicate IsSpace(b: byte) {
    b == 0x20 || 0x09 <= b <= 0x0d
  }

  function SkipSpace(s: seq<byte>): seq<byte> {
    if s != [] && IsSpace(s[0]) then SkipSpace(s[1..]) else s
  }

  function DigitRun(s: seq<byte>): (r: seq<byte>)
    ensures |r| <= |s| && r == s[..|r|]
    ensures forall i :: 0 <= i < |r| ==> IsOctal(r[i])
    ensures |r| < |s| ==> !IsOctal(s[|r|])
  {
    if s != [] && IsOctal(s[0]) then [s[0]] + DigitRun(s[1..]) else []
  }

  /** `parseInt(text.trim(), 8)`, with 0 for no number at all. */
  function ParseOctal(field: seq<byte>): nat {
    Value(DigitRun(SkipSpace(field)))
  }

  lemma {:induction false} OctalValue(n: nat)
    ensures Value(Octal(n)) == n
    ensures forall k: nat :: k > 0 ==> (|Octal(n)| <= k <==> n < Pow8(k))
  {
    if n >= 8 {
      OctalValue(n / 8);
      assert Octal(n)[..|Octal(n)| - 1] == Octal(n / 8);
      forall k: nat | k > 0
        ensures |Octal(n)| <= k <==> n < Pow8(k)
      {
        if k > 1 {
          assert |Octal(n / 8)| <= k - 1 <==> n / 8 < Pow8(k - 1);
        } else {
          assert Pow8(1) == 8;
        }
      }
    } else {
      forall k: nat | k > 0
        ensures n < Pow8(k)
      {
        PowAtLeast(k);
      }
    }
  }

  lemma {:induction false} PowAtLeast(k: nat)
    requires k > 0
    ensures Pow8(k) >= 8
  {
    if k > 1 {
      PowAtLeast(k - 1);
    }
  }

  lemma {:induction false} LeadingZeros(z: nat, digits: seq<byte>)
    requires forall i :: 0 <= i < |digits| ==> IsOctal(digits[i])
    ensures forall i :: 0 <= i < |Repeat(ZERO, z) + digits| ==> IsOctal((Repeat(ZERO, z) + digits)[i])
    ensures Value(Repeat(ZERO, z) + digits) == Value(digits)
    decreases z + |digits|
  {
    var all := Repeat(ZERO, z) + digits;
    if digits != [] {
      assert all[..|all| - 1] == Repeat(ZERO, z) + digits[..|digits| - 1];
      LeadingZeros(z, digits[..|digits| - 1]);
    } else if z > 0 {
      assert all[..|all| - 1] == Repeat(ZERO, z - 1) + digits;
      LeadingZeros(z - 1, digits);
    }
  }

  lemma {:induction false} RunStops(digits: seq<byte>, rest: seq<byte>)
    requires (forall i :: 0 <= i < |digits| ==> IsOctal(digits[i])) && (rest == [] || !IsOctal(rest[0]))
    ensures DigitRun(digits + rest) == digits
  {
    if digits == [] {
      assert digits + rest == rest;
    } else {
      AppendTail(digits, rest);
      RunStops(digits[1..], rest);
    }
  }

  lemma {:induction false} ValueBelow(digits: seq<byte>)
    requires forall i :: 0 <= i < |digits| ==> IsOctal(digits[i])
    ensures Value(digits) < Pow8(|digits|)
  {
    if digits != [] {
      ValueBelow(digits[..|digits| - 1]);
    }
  }

  lemma {:induction false} SkipShortens(s: seq<byte>)
    ensures |SkipSpace(s)| <= |s|
  {
    if s != [] && IsSpace(s[0]) {
      SkipShortens(s[1..]);
    }
  }

  lemma {:induction false} PowGrows(a: nat, b: nat)
    requires a <= b
    ensures Pow8(a) <= Pow8(b)
  {
    if a < b {
      PowGrows(a, b - 1);
    }
  }

  /** Whatever the field holds, it reads as less than its width allows. */
  lemma ParseBelow(field: seq<byte>)
    ensures ParseOctal(field) < Pow8(|field|)
  {
    SkipShortens(field);
    var run := DigitRun(SkipSpace(field));
    ValueBelow(run);
    PowGrows(|run|, |field|);
  }

  /** A number survives its field exactly when it has no more octal digits than the field has bytes. */
  lemma OctalSurvives(value: nat, length: nat)
    requires length > 0
    ensures ParseOctal(PadOctal(value, length)) == value <==> value < Pow8(length)
  {
    ParseBelow(PadOctal(value, length));
    OctalValue(value);
    if value < Pow8(length) {
      var str := Octal(value);
      if |str| >= length {
        assert str[..length] == str && str + [] == str;
        RunStops(str, []);
        assert SkipSpace(str) == str;
      } else {
        var digits := Repeat(ZERO, length - 1 - |str|) + str;
        LeadingZeros(length - 1 - |str|, str);
        RunStops(digits, [NUL]);
        assert IsOctal(digits[0]) && SkipSpace(digits + [NUL]) == digits + [NUL];
      }
    }
  }

  // ----- splitting a path -----

  function Normalize(path: Path): (r: Path)
    ensures |r| == |path|
    ensures forall i :: 0 <= i < |r| ==> r[i] == if path[i] == BACKSLASH then SLASH else path[i]
  {
    seq(|path|, i requires 0 <= i < |path| => if path[i] == BACKSLASH then SLASH else path[i])
  }

  datatype Split = Split(name: seq<byte>, prefix: seq<byte>)

  /** A slash with a non-empty name that fits after it and a prefix that fits before it. */
  predicate LegalSplit(p: Path, i: nat) {
    i < |p| && p[i] == SLASH && 1 <= |p| - i - 1 <= NAME_BYTES && i <= PREFIX_BYTES
  }

  /** What the reader makes of the two fields. */
  function Join(s: Split): Path {
    if s.prefix != [] then s.prefix + [SLASH] + s.name else s.name
  }

  ghost predicate SplitsTo(p: Path, r: Result<Split>) {
    if |p| > 255 then r == Err(PathTooLong)
    else if |p| <= NAME_BYTES then r == Ok(Split(p, []))
    else match r
      case Err(e) => e == PathUnsplittable && forall i: nat :: i < |p| ==> !LegalSplit(p, i)
      case Ok(s) => exists i: nat :: i < |p| && LegalSplit(p, i) && s == Split(p[i + 1..], p[..i])
                                    && forall j: nat :: i < j < |p| ==> !LegalSplit(p, j)
  }

  method SplitUstarPath(path: Path) returns (r: Result<Split>)
    ensures SplitsTo(Normalize(path), r)
    ensures r == Splitting(Normalize(path))
  {
    hide Normalize, SplitsTo;
    var normalized := Normalize(path);
    SplittingSplits(normalized);
    if |normalized| > 255 {
      return Err(PathTooLong);
    }
    if |normalized| <= NAME_BYTES {
      return Ok(Split(normalized, []));
    }
    var i := |normalized|;
    while i > 0
      invariant 0 <= i <= |normalized|
      invariant LastLegal(normalized, |normalized|) == LastLegal(normalized, i)
    {
      i := i - 1;
      if normalized[i] == SLASH {
        var prefix, name := normalized[..i], normalized[i + 1..];
        if |name| > 0 && |name| <= NAME_BYTES && |prefix| <= PREFIX_BYTES {
          assert LegalSplit(normalized, i);
          return Ok(Split(name, prefix));
        }
      }
    }
    return Err(PathUnsplittable);
  }

  /** The last legal split before `i`. */
  function LastLegal(p: Path, i: nat): (r: Option<nat>)
    requires i <= |p|
    ensures r.Some? ==> r.value < i && LegalSplit(p, r.value) && forall j: nat :: r.value < j < i ==> !LegalSplit(p, j)
    ensures r.None? ==> forall j: nat :: j < i ==> !LegalSplit(p, j)
  {
    if i == 0 then None
    else if LegalSplit(p, i - 1) then Some(i - 1)
    else LastLegal(p, i - 1)
  }

  /** The split of an already normalized path, as a value. */
  function Splitting(p: Path): Result<Split> {
    if |p| > 255 then Err(PathTooLong)
    else if |p| <= NAME_BYTES then Ok(Split(p, []))
    else match LastLegal(p, |p|)
      case None => Err(PathUnsplittable)
      case Some(i) => Ok(Split(p[i + 1..], p[..i]))
  }

  lemma SplittingSplits(p: Path)
    ensures SplitsTo(p, Splitting(p))
  {
    hide LegalSplit;
  }

  /** A path of 101 bytes whose only usable slash is its first byte: the prefix is empty and the slash is lost. */
  predicate LosesSlash(p: Path) {
    |p| == NAME_BYTES + 1 && p[0] == SLASH && forall i :: 1 <= i < NAME_BYTES ==> p[i] != SLASH
  }

  /** Splitting succeeds exactly when a legal split exists, and the reader rejoins the path except for one kind of absolute path. */
  lemma SplitThenJoin(p: Path)
    ensures Splitting(p).Ok? <==> |p| <= 255 && (|p| <= NAME_BYTES || exists i: nat :: LegalSplit(p, i))
    ensures Splitting(p).Ok? ==> |Splitting(p).value.name| <= NAME_BYTES && |Splitting(p).value.prefix| <= PREFIX_BYTES
    ensures Splitting(p).Ok? ==> (Join(Splitting(p).value) == p <==> !LosesSlash(p))
  {
    if NAME_BYTES < |p| <= 255 && LastLegal(p, |p|).Some? {
      var i := LastLegal(p, |p|).value;
      var s := Splitting(p).value;
      if i > 0 {
        assert s.prefix + [SLASH] + s.name == p;
        assert LosesSlash(p) ==> !LegalSplit(p, i);
      } else {
        forall j | 1 <= j < NAME_BYTES && |p| == NAME_BYTES + 1
          ensures p[j] != SLASH
        {
          assert !LegalSplit(p, j);
        }
        assert |s.name| < |p|;
      }
    }
  }

  // ----- the header -----

  /** A slash and a hundred letters: a path of 101 bytes that comes back as the letters alone. */
  lemma LongRootPathLosesItsSlash()
    ensures var name := Repeat(0x61, NAME_BYTES);
            Splitting([SLASH] + name) == Ok(Split(name, [])) && Join(Split(name, [])) == name != [SLASH] + name
  {
    var name := Repeat(0x61, NAME_BYTES);
    var p := [SLASH] + name;
    ConsTail(SLASH, name);
    assert LegalSplit(p, 0);
    assert forall i :: 1 <= i < |p| ==> p[i] == name[i - 1];
    assert p[..0] == [];
    SplittingSplits(p);
  }

  datatype Head = Head(split: Split, mode: nat, size: nat, kind: Kind, target: seq<byte>)

  function TypeFlag(kind: Kind): byte {
    match kind
    case Directory => 0x35
    case Symlink => 0x32
    case File => 0x30
  }

  const MAGIC: seq<byte> := [0x75, 0x73, 0x74, 0x61, 0x72, 0]
  const VERSION: seq<byte> := [0x30, 0x30]

  predicate Fits(h: Head) {
    |h.split.name| <= NAME_BYTES && |h.split.prefix| <= PREFIX_BYTES && |h.target| <= NAME_BYTES
  }

  function Sum(s: seq<byte>): nat {
    if s == [] then 0 else Sum(s[..|s| - 1]) + s[|s| - 1]
  }

  /** The bytes at their places, with `checksum` in its field: the ustar interchange format of IEEE Std 1003.1, pax utility. */
  ghost predicate Layout(b: seq<byte>, h: Head, checksum: seq<byte>)
    requires Fits(h) && |checksum| == 8
  {
    && |b| == BLOCK
    && b[0..100] == Field(h.split.name, 100)
    && b[100..108] == PadOctal(h.mode, 8)
    && b[108..116] == PadOctal(0, 8)
    && b[116..124] == PadOctal(0, 8)
    && b[124..136] == PadOctal(h.size, 12)
    && b[136..148] == PadOctal(0, 12)
    && b[148..156] == checksum
    && b[156..157] == [TypeFlag(h.kind)]
    && b[157..257] == Field(h.target, 100)
    && b[257..263] == MAGIC
    && b[263..265] == VERSION
    && b[265..345] == Repeat(NUL, 80)
    && b[345..500] == Field(h.split.prefix, 155)
    && b[500..512] == Repeat(NUL, 12)
  }

  function HeaderWith(h: Head, checksum: seq<byte>): seq<byte>
    requires Fits(h)
  {
    Field(h.split.name, 100) + PadOctal(h.mode, 8) + PadOctal(0, 8) + PadOctal(0, 8) + PadOctal(h.size, 12) + PadOctal(0, 12)
    + checksum + [TypeFlag(h.kind)] + Field(h.target, 100) + MAGIC + VERSION + Repeat(NUL, 80) + Field(h.split.prefix, 155)
    + Repeat(NUL, 12)
  }

  function HeaderBytes(h: Head): seq<byte>
    requires Fits(h)
  {
    HeaderWith(h, PadOctal(Sum(HeaderWith(h, Repeat(BLANK, 8))), 8))
  }

  lemma PeelLast(s: seq<byte>, n: nat, d: seq<byte>, f: seq<byte>)
    requires n <= |s| && s[..n] == d + f
    ensures |d| + |f| == n && s[..|d|] == d && s[|d|..n] == f
  {
    assert |d + f| == n;
    assert (d + f)[..|d|] == d && (d + f)[|d|..] == f;
  }

  lemma GlueNext(s: seq<byte>, d: seq<byte>, f: seq<byte>)
    requires |d| + |f| <= |s| && s[..|d|] == d && s[|d|..|d| + |f|] == f
    ensures s[..|d| + |f|] == d + f
  {
  }

  lemma HeaderHasLayout(h: Head, checksum: seq<byte>)
    requires Fits(h) && |checksum| == 8
    ensures Layout(HeaderWith(h, checksum), h, checksum)
  {
    hide Field, PadOctal, Repeat, TypeFlag;
    var b := HeaderWith(h, checksum);
    var d1 := Field(h.split.name, 100);
    var d2 := d1 + PadOctal(h.mode, 8);
    var d3 := d2 + PadOctal(0, 8);
    var d4 := d3 + PadOctal(0, 8);
    var d5 := d4 + PadOctal(h.size, 12);
    var d6 := d5 + PadOctal(0, 12);
    var d7 := d6 + checksum;
    var d8 := d7 + [TypeFlag(h.kind)];
    var d9 := d8 + Field(h.target, 100);
    var d10 := d9 + MAGIC;
    var d11 := d10 + VERSION;
    var d12 := d11 + Repeat(NUL, 80);
    var d13 := d12 + Field(h.split.prefix, 155);
    var d14 := d13 + Repeat(NUL, 12);
    assert b == d14 && |b| == BLOCK && b[..512] == b;
    PeelLast(b, 512, d13, Repeat(NUL, 12));
    PeelLast(b, 500, d12, Field(h.split.prefix, 155));
    PeelLast(b, 345, d11, Repeat(NUL, 80));
    PeelLast(b, 265, d10, VERSION);
    PeelLast(b, 263, d9, MAGIC);
    PeelLast(b, 257, d8, Field(h.target, 100));
    PeelLast(b, 157, d7, [TypeFlag(h.kind)]);
    PeelLast(b, 156, d6, checksum);
    PeelLast(b, 148, d5, PadOctal(0, 12));
    PeelLast(b, 136, d4, PadOctal(h.size, 12));
    PeelLast(b, 124, d3, PadOctal(0, 8));
    PeelLast(b, 116, d2, PadOctal(0, 8));
    PeelLast(b, 108, d1, PadOctal(h.mode, 8));
  }

  lemma LayoutIsHeader(b: seq<byte>, h: Head, checksum: seq<byte>)
    requires Fits(h) && |checksum| == 8 && Layout(b, h, checksum)
    ensures b == HeaderWith(h, checksum)
  {
    hide Field, PadOctal, Repeat, TypeFlag;
    var d1 := Field(h.split.name, 100);
    var d2 := d1 + PadOctal(h.mode, 8);
    var d3 := d2 + PadOctal(0, 8);
    var d4 := d3 + PadOctal(0, 8);
    var d5 := d4 + PadOctal(h.size, 12);
    var d6 := d5 + PadOctal(0, 12);
    var d7 := d6 + checksum;
    var d8 := d7 + [TypeFlag(h.kind)];
    var d9 := d8 + Field(h.target, 100);
    var d10 := d9 + MAGIC;
    var d11 := d10 + VERSION;
    var d12 := d11 + Repeat(NUL, 80);
    var d13 := d12 + Field(h.split.prefix, 155);
    var d14 := d13 + Repeat(NUL, 12);
    assert b[0..100] == b[..100];
    GlueNext(b, d1, PadOctal(h.mode, 8));
    GlueNext(b, d2, PadOctal(0, 8));
    GlueNext(b, d3, PadOctal(0, 8));
    GlueNext(b, d4, PadOctal(h.size, 12));
    GlueNext(b, d5, PadOctal(0, 12));
    GlueNext(b, d6, checksum);
    GlueNext(b, d7, [TypeFlag(h.kind)]);
    GlueNext(b, d8, Field(h.target, 100));
    GlueNext(b, d9, MAGIC);
    GlueNext(b, d10, VERSION);
    GlueNext(b, d11, Repeat(NUL, 80));
    GlueNext(b, d12, Field(h.split.prefix, 155));
    GlueNext(b, d13, Repeat(NUL, 12));
    assert b[..512] == b;
  }

  // ----- writing the header in place -----

  /** `s` with `bytes` over it from `at` on. */
  function Patch(s: seq<byte>, at: nat, bytes: seq<byte>): (r: seq<byte>)
    requires at + |bytes| <= |s|
    ensures |r| == |s|
  {
    s[..at] + bytes + s[at + |bytes|..]
  }

  /** Buffer.write of bytes that fit. */
  method WriteAt(buffer: array<byte>, at: nat, bytes: seq<byte>)
    requires at + |bytes| <= buffer.Length
    modifies buffer
    ensures buffer[..] == Patch(old(buffer[..]), at, bytes)
  {
    for i := 0 to |bytes|
      invariant forall k :: 0 <= k < buffer.Length ==>
                  buffer[k] == if at <= k < at + i then bytes[k - at] else old(buffer[k])
    {
      buffer[at + i] := bytes[i];
    }
  }

  /** A slice after a write elsewhere, and of the write itself. */
  lemma PatchSlice(s: seq<byte>, at: nat, bytes: seq<byte>, lo: nat, hi: nat)
    requires at + |bytes| <= |s| && lo <= hi <= |s|
    ensures hi <= at || at + |bytes| <= lo ==> Patch(s, at, bytes)[lo..hi] == s[lo..hi]
    ensures lo == at && hi == at + |bytes| ==> Patch(s, at, bytes)[lo..hi] == bytes
  {
    var r := Patch(s, at, bytes);
    assert forall k :: 0 <= k < |s| ==> r[k] == if at <= k < at + |bytes| then bytes[k - at] else s[k];
  }

  /** Text written where the zeros begin fills the next field as `Field` does. */
  lemma PatchNext(done: seq<byte>, zeros: nat, text: seq<byte>, n: nat)
    requires |text| <= n <= zeros
    ensures Patch(done + Repeat(NUL, zeros), |done|, text) == done + Field(text, n) + Repeat(NUL, zeros - n)
  {
  }

  /** The header before its checksum is filled in, as the writes leave it. */
  function Written(h: Head): (r: seq<byte>)
    requires Fits(h)
    ensures |r| == BLOCK
  {
    var b0 := Patch(Repeat(NUL, BLOCK), 0, h.split.name);
    var b1 := Patch(b0, 100, PadOctal(h.mode, 8));
    var b2 := Patch(b1, 108, PadOctal(0, 8));
    var b3 := Patch(b2, 116, PadOctal(0, 8));
    var b4 := Patch(b3, 124, PadOctal(h.size, 12));
    var b5 := Patch(b4, 136, PadOctal(0, 12));
    var b6 := Patch(b5, 148, Repeat(BLANK, 8));
    var b7 := Patch(b6, 156, [TypeFlag(h.kind)]);
    var b8 := Patch(b7, 157, h.target);
    var b9 := Patch(b8, 257, MAGIC);
    var b10 := Patch(b9, 263, VERSION);
    Patch(b10, 345, h.split.prefix)
  }

  lemma WrittenHasLayout(h: Head)
    requires Fits(h)
    ensures Written(h) == HeaderWith(h, Repeat(BLANK, 8))
  {
    hide PadOctal, Patch, TypeFlag, Field, Repeat;
    var d0: seq<byte> := [];
    assert d0 + Repeat(NUL, BLOCK) == Repeat(NUL, BLOCK);
    PatchNext(d0, 512, h.split.name, 100);
    var d1 := Field(h.split.name, 100);
    assert d0 + d1 == d1;
    PatchWhole(d1, 412, PadOctal(h.mode, 8));
    var d2 := d1 + PadOctal(h.mode, 8);
    PatchWhole(d2, 404, PadOctal(0, 8));
    var d3 := d2 + PadOctal(0, 8);
    PatchWhole(d3, 396, PadOctal(0, 8));
    var d4 := d3 + PadOctal(0, 8);
    PatchWhole(d4, 388, PadOctal(h.size, 12));
    var d5 := d4 + PadOctal(h.size, 12);
    PatchWhole(d5, 376, PadOctal(0, 12));
    var d6 := d5 + PadOctal(0, 12);
    PatchWhole(d6, 364, Repeat(BLANK, 8));
    var d7 := d6 + Repeat(BLANK, 8);
    PatchWhole(d7, 356, [TypeFlag(h.kind)]);
    var d8 := d7 + [TypeFlag(h.kind)];
    PatchNext(d8, 355, h.target, 100);
    var d9 := d8 + Field(h.target, 100);
    PatchWhole(d9, 255, MAGIC);
    var d10 := d9 + MAGIC;
    PatchWhole(d10, 249, VERSION);
    var d11 := d10 + VERSION;
    SplitZeros(d11, 80, 167);
    PatchNext(d11 + Repeat(NUL, 80), 167, h.split.prefix, 155);
  }

  lemma PatchWhole(done: seq<byte>, zeros: nat, text: seq<byte>)
    requires |text| <= zeros
    ensures Patch(done + Repeat(NUL, zeros), |done|, text) == done + text + Repeat(NUL, zeros - |text|)
  {
    PatchNext(done, zeros, text, |text|);
    assert Field(text, |text|) == text;
  }

  lemma SplitZeros(done: seq<byte>, a: nat, b: nat)
    ensures done + Repeat(NUL, a + b) == done + Repeat(NUL, a) + Repeat(NUL, b)
  {
  }

  method WriteTarHeader(h: Head) returns (header: array<byte>)
    requires Fits(h)
    ensures fresh(header) && header[..] == HeaderBytes(h)
  {
    hide HeaderWith, PadOctal, Patch, TypeFlag, Sum;
    header := new byte[BLOCK](i => NUL);
    assert header[..] == Repeat(NUL, BLOCK);
    WriteAt(header, 0, h.split.name);
    WriteAt(header, 100, PadOctal(h.mode, 8));
    WriteAt(header, 108, PadOctal(0, 8));
    WriteAt(header, 116, PadOctal(0, 8));
    WriteAt(header, 124, PadOctal(h.size, 12));
    WriteAt(header, 136, PadOctal(0, 12));
    WriteAt(header, 148, Repeat(BLANK, 8));
    WriteAt(header, 156, [TypeFlag(h.kind)]);
    WriteAt(header, 157, h.target);
    WriteAt(header, 257, MAGIC);
    WriteAt(header, 263, VERSION);
    WriteAt(header, 345, h.split.prefix);
    assert header[..] == Written(h);
    WrittenHasLayout(h);
    ComputeTarChecksum(header, h);
  }

  /** `computeTarChecksum`: the sum with blanks in the checksum's own field, then the sum in their place. */
  method ComputeTarChecksum(header: array<byte>, ghost h: Head)
    requires Fits(h) && header.Length == BLOCK && header[..] == HeaderWith(h, Repeat(BLANK, 8))
    modifies header
    ensures header[..] == HeaderBytes(h)
  {
    hide HeaderWith, PadOctal, Patch;
    ghost var blank := header[..];
    HeaderHasLayout(h, Repeat(BLANK, 8));
    WriteAt(header, 148, Repeat(BLANK, 8));
    PatchAgain(blank, h, Repeat(BLANK, 8), Repeat(BLANK, 8));
    assert header[..] == blank;
    var sum: nat := 0;
    for i := 0 to header.Length
      invariant header[..] == blank
      invariant sum == Sum(header[..i])
    {
      assert header[..i + 1][..i] == header[..i];
      sum := sum + header[i];
    }
    assert header[..header.Length] == blank;
    WriteAt(header, 148, PadOctal(sum, 8));
    PatchAgain(blank, h, Repeat(BLANK, 8), PadOctal(sum, 8));
  }

  /** Overwriting the checksum field of a header gives the header with the new checksum. */
  lemma PatchAgain(b: seq<byte>, h: Head, was: seq<byte>, now: seq<byte>)
    requires Fits(h) && |was| == 8 && |now| == 8 && b == HeaderWith(h, was)
    ensures |b| == BLOCK && Patch(b, 148, now) == HeaderWith(h, now)
  {
    hide HeaderWith, PadOctal, Patch, Field, Fits, TypeFlag, Repeat;
    HeaderHasLayout(h, was);
    var r := Patch(b, 148, now);
    PatchSlice(b, 148, now, 0, 100);
    PatchSlice(b, 148, now, 100, 108);
    PatchSlice(b, 148, now, 108, 116);
    PatchSlice(b, 148, now, 116, 124);
    PatchSlice(b, 148, now, 124, 136);
    PatchSlice(b, 148, now, 136, 148);
    PatchSlice(b, 148, now, 148, 156);
    PatchSlice(b, 148, now, 156, 157);
    PatchSlice(b, 148, now, 157, 257);
    PatchSlice(b, 148, now, 257, 263);
    PatchSlice(b, 148, now, 263, 265);
    PatchSlice(b, 148, now, 265, 345);
    PatchSlice(b, 148, now, 345, 500);
    PatchSlice(b, 148, now, 500, 512);
    LayoutIsHeader(r, h, now);
  }

  // ----- reading a header -----

  /** A line terminator, which `.` does not match: LF, CR, U+2028, U+2029. */
  predicate TerminatorAt(s: seq<byte>, i: nat)
    requires i < |s|
  {
    || s[i] == 0x0a || s[i] == 0x0d
    || (i + 2 < |s| && s[i] == 0xe2 && s[i + 1] == 0x80 && (s[i + 2] == 0xa8 || s[i + 2] == 0xa9))
  }

  /** `replace(/\0.*$/, '')`: cuts at the first NUL with no line terminator behind it. */
  function StripNul(s: seq<byte>): seq<byte> {
    if s == [] then []
    else if s[0] == NUL && !exists i :: 0 < i < |s| && TerminatorAt(s, i) then []
    else [s[0]] + StripNul(s[1..])
  }

  predicate NulFree(s: seq<byte>) {
    forall i :: 0 <= i < |s| ==> s[i] != NUL
  }

  lemma {:induction false} StripField(text: seq<byte>, n: nat)
    requires |text| <= n && NulFree(text)
    ensures StripNul(Field(text, n)) == text
    decreases |text|
  {
    var field := Field(text, n);
    if text != [] {
      assert field[1..] == Field(text[1..], n - 1);
      StripField(text[1..], n - 1);
    } else if n > 0 {
      assert field == Repeat(NUL, n);
      assert forall i :: 0 < i < n ==> !TerminatorAt(field, i);
    }
  }

  predicate AllZero(s: seq<byte>) {
    forall i :: 0 <= i < |s| ==> s[i] == NUL
  }

  /** What the reader takes from one 512-byte header. */
  function ReadHead(b: seq<byte>): Head
    requires |b| == BLOCK
  {
    var flag := b[156];
    Head(Split(StripNul(b[0..100]), StripNul(b[345..500])), ParseOctal(b[100..108]), ParseOctal(b[124..136]),
         if flag == 0x35 then Directory else if flag == 0x32 then Symlink else File, StripNul(b[157..257]))
  }

  lemma HeaderSize(h: Head)
    requires Fits(h)
    ensures |HeaderBytes(h)| == BLOCK
  {
    hide Field, PadOctal, Repeat, TypeFlag, Sum;
  }

  /** A header reads back as written, its two numbers exactly when they have no more octal digits than their fields have bytes. */
  lemma HeaderRoundTrip(h: Head)
    requires Fits(h) && NulFree(h.split.name) && NulFree(h.split.prefix) && NulFree(h.target)
    ensures |HeaderBytes(h)| == BLOCK && !AllZero(HeaderBytes(h))
    ensures var r := ReadHead(HeaderBytes(h));
            && r.split == h.split && r.kind == h.kind && r.target == h.target
            && (r.mode == h.mode <==> h.mode < Pow8(8)) && r.mode < Pow8(8)
            && (r.size == h.size <==> h.size < Pow8(12)) && r.size < Pow8(12)
  {
    hide Field, PadOctal, Repeat, HeaderWith, StripNul, ParseOctal, Pow8, Sum, NulFree;
    var checksum := PadOctal(Sum(HeaderWith(h, Repeat(BLANK, 8))), 8);
    var b := HeaderBytes(h);
    HeaderHasLayout(h, checksum);
    StripField(h.split.name, 100);
    StripField(h.split.prefix, 155);
    StripField(h.target, 100);
    OctalSurvives(h.mode, 8);
    OctalSurvives(h.size, 12);
    ParseBelow(b[100..108]);
    ParseBelow(b[124..136]);
    assert b[156..157][0] == TypeFlag(h.kind);
  }

  lemma {:induction false} SumBound(s: seq<byte>)
    ensures Sum(s) <= 255 * |s|
  {
    if s != [] {
      SumBound(s[..|s| - 1]);
    }
  }

  lemma Pow8Of6()
    ensures Pow8(6) == 262144 && Pow8(8) == 16777216
  {
    assert Pow8(2) == 64;
    assert Pow8(4) == 4096;
  }

  /**
   * The checksum always fits, and verifies: its field reads as the sum of the header's bytes with
   * that field taken as blanks, and ends in a NUL.
   */
  lemma ChecksumVerifies(h: Head)
    requires Fits(h)
    ensures var b := HeaderBytes(h);
            && |b| == BLOCK && b[155] == NUL
            && ParseOctal(b[148..156]) == Sum(Patch(b, 148, Repeat(BLANK, 8)))
  {
    hide Field, Repeat, HeaderWith, ParseOctal, Pow8, Sum, Octal, Patch;
    var blank := HeaderWith(h, Repeat(BLANK, 8));
    HeaderHasLayout(h, Repeat(BLANK, 8));
    var checksum := PadOctal(Sum(blank), 8);
    HeaderHasLayout(h, checksum);
    PatchAgain(HeaderBytes(h), h, checksum, Repeat(BLANK, 8));
    SumBound(blank);
    Pow8Of6();
    OctalSurvives(Sum(blank), 8);
    OctalValue(Sum(blank));
    assert |Octal(Sum(blank))| <= 6;
    assert HeaderBytes(h)[155] == HeaderBytes(h)[148..156][7];
  }
}
