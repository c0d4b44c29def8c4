/** Log pages over Unicode text, told in code points. */
module LogUnicode {
  import opened Bytes
  import opened Lines
  import opened LogPresentation
  import opened LogPresentationLaws
  import opened LogPaging
  import opened LogRawRun

  /** A Unicode scalar value: a code point that is no surrogate. */
  predicate IsCodePoint(c: int) {
    0 <= c <= 0x10ffff && !(0xd800 <= c <= 0xdfff)
  }

  type CodePoint = c: int | 0 <= c <= 0x10ffff && !(0xd800 <= c <= 0xdfff)

  /** UTF-8 by the arithmetic of section 3 of RFC 3629. */
  function Encode(c: CodePoint): (r: seq<byte>)
    ensures 1 <= |r| <= 4
  {
    if c <= 0x7f then [c]
    else if c <= 0x7ff then [0xc0 + c / 64, 0x80 + c % 64]
    else if c <= 0xffff then [0xe0 + c / 4096, 0x80 + c / 64 % 64, 0x80 + c % 64]
    else [0xf0 + c / 262144, 0x80 + c / 4096 % 64, 0x80 + c / 64 % 64, 0x80 + c % 64]
  }

  function EncodeAll(text: seq<CodePoint>): seq<byte> {
    if text == [] then [] else Encode(text[0]) + EncodeAll(text[1..])
  }

  // ----- the presenter's notions of UTF-8 are those -----

  /** The code point whose encoding these bytes are, read off their payload bits. */
  function Decoded(s: seq<byte>): int
    requires 1 <= |s| <= 4
  {
    if |s| == 1 then s[0]
    else if |s| == 2 then Bits(s[0], 0xc0) * 64 + Bits(s[1], 0x80)
    else if |s| == 3 then Bits(s[0], 0xe0) * 4096 + Bits(s[1], 0x80) * 64 + Bits(s[2], 0x80)
    else Bits(s[0], 0xf0) * 262144 + Bits(s[1], 0x80) * 4096 + Bits(s[2], 0x80) * 64 + Bits(s[3], 0x80)
  }

  /** A byte without its marker bits. */
  function Bits(b: int, marker: int): int {
    b - marker
  }

  lemma SixBits(c: nat)
    ensures 0 <= c % 64 < 64 && 0 <= c / 64 % 64 < 64 && 0 <= c / 4096 % 64 < 64
    ensures c == c / 64 * 64 + c % 64 && c / 64 == c / 4096 * 64 + c / 64 % 64 && c / 4096 == c / 262144 * 64 + c / 4096 % 64
  {
    assert c / 4096 == c / 64 / 64 && c / 262144 == c / 4096 / 64;
  }

  lemma TwoByteRange(c: int, low: int, d0: int)
    requires 0x80 <= c <= 0x7ff && c == low * 64 + d0 && 0 <= d0 < 64
    ensures 2 <= low <= 0x1f
  {
  }

  lemma ThreeByteRange(c: int, mid: int, d1: int, d0: int)
    requires 0x800 <= c <= 0xffff && c == mid * 4096 + d1 * 64 + d0 && 0 <= d0 < 64 && 0 <= d1 < 64
    ensures 0 <= mid <= 0xf && (mid == 0 ==> d1 >= 0x20) && (mid == 0xd && !(0xd800 <= c <= 0xdfff) ==> d1 <= 0x1f)
    ensures mid == 0xf && d1 == 0x3f && d0 == 0x3d <==> c == 0xfffd
  {
  }

  lemma FourByteRange(c: int, high: int, d2: int, d1: int, d0: int)
    requires 0x10000 <= c <= 0x10ffff && c == high * 262144 + d2 * 4096 + d1 * 64 + d0 && 0 <= d0 < 64 && 0 <= d1 < 64 && 0 <= d2 < 64
    ensures 0 <= high <= 4 && (high == 0 ==> d2 >= 0x10) && (high == 4 ==> d2 <= 0xf)
  {
  }

  lemma EncodeIsByRange(c: CodePoint)
    ensures var d0, d1, d2 := 0x80 + c % 64, 0x80 + c / 64 % 64, 0x80 + c / 4096 % 64;
            && (c <= 0x7f ==> Encode(c) == [c])
            && (0x80 <= c <= 0x7ff ==> Encode(c) == [0xc0 + c / 64, d0])
            && (0x800 <= c <= 0xffff ==> Encode(c) == [0xe0 + c / 4096, d1, d0])
            && (0x10000 <= c ==> Encode(c) == [0xf0 + c / 262144, d2, d1, d0])
  {
  }

  lemma EncodedIsScalar(c: CodePoint)
    ensures Scalar(Encode(c)) && |Encode(c)| == Utf8Width(Encode(c)[0])
    ensures Encode(c) == REPLACEMENT <==> c == 0xfffd
  {
    SixBits(c);
    EncodeIsByRange(c);
    var low, mid, high := c / 64, c / 4096, c / 262144;
    var d0, d1, d2 := c % 64, c / 64 % 64, c / 4096 % 64;
    var s := Encode(c);
    hide Encode;
    if c <= 0x7f {
    } else if c <= 0x7ff {
      TwoByteRange(c, low, d0);
    } else if c <= 0xffff {
      ThreeByteRange(c, mid, d1, d0);
    } else {
      FourByteRange(c, high, d2, d1, d0);
    }
  }

  lemma SixBitsBack(high: nat, low: nat)
    requires low < 64
    ensures (high * 64 + low) / 64 == high && (high * 64 + low) % 64 == low
  {
  }

  lemma ScalarIsEncoded(s: seq<byte>)
    requires Scalar(s)
    ensures 1 <= |s| <= 4 && IsCodePoint(Decoded(s)) && Encode(Decoded(s)) == s
  {
    if |s| == 2 {
      TwoBytes(s);
    } else if |s| == 3 {
      ThreeBytes(s);
    } else if |s| == 4 {
      FourBytes(s);
    }
  }

  lemma TwoBytes(s: seq<byte>)
    requires Scalar(s) && |s| == 2
    ensures IsCodePoint(Decoded(s)) && Encode(Decoded(s)) == s
  {
    SixBitsBack(Bits(s[0], 0xc0), Bits(s[1], 0x80));
  }

  lemma ThreeBytes(s: seq<byte>)
    requires Scalar(s) && |s| == 3
    ensures IsCodePoint(Decoded(s)) && Encode(Decoded(s)) == s
  {
    var c := Decoded(s);
    assert Continuation(s[1]) && Continuation(s[2]);
    var mid := Bits(s[0], 0xe0) * 64 + Bits(s[1], 0x80);
    assert c == mid * 64 + Bits(s[2], 0x80);
    SixBitsBack(mid, Bits(s[2], 0x80));
    SixBitsBack(Bits(s[0], 0xe0), Bits(s[1], 0x80));
    SixBits(c);
  }

  lemma FourBytes(s: seq<byte>)
    requires Scalar(s) && |s| == 4
    ensures IsCodePoint(Decoded(s)) && Encode(Decoded(s)) == s
  {
    var c := Decoded(s);
    assert Continuation(s[1]) && Continuation(s[2]) && Continuation(s[3]);
    var high := Bits(s[0], 0xf0) * 64 + Bits(s[1], 0x80);
    var mid := high * 64 + Bits(s[2], 0x80);
    assert c == mid * 64 + Bits(s[3], 0x80);
    SixBitsBack(mid, Bits(s[3], 0x80));
    SixBitsBack(high, Bits(s[2], 0x80));
    SixBitsBack(Bits(s[0], 0xf0), Bits(s[1], 0x80));
    SixBits(c);
  }

  /** A byte sequence is a scalar to the presenter exactly when it is the encoding of a code point, and is clean exactly when that is not U+FFFD. */
  lemma ScalarsAreEncodings(s: seq<byte>)
    ensures Scalar(s) <==> exists c: CodePoint :: s == Encode(c)
    ensures DecodesCleanly(s) <==> exists c: CodePoint :: c != 0xfffd && s == Encode(c)
  {
    if Scalar(s) {
      ScalarIsEncoded(s);
      var c: CodePoint := Decoded(s);
      EncodedIsScalar(c);
      assert s == Encode(c);
    }
    forall c: CodePoint | s == Encode(c)
      ensures Scalar(s) && (s == REPLACEMENT <==> c == 0xfffd)
    {
      EncodedIsScalar(c);
    }
    hide Scalar, Encode;
  }

  /** The width of a lead byte is the length of every encoding it begins, and 1 when it begins none. */
  lemma WidthIsExact(b: byte)
    ensures forall c: CodePoint :: Encode(c)[0] == b ==> |Encode(c)| == Utf8Width(b)
    ensures (forall c: CodePoint :: Encode(c)[0] != b) ==> Utf8Width(b) == 1
  {
    forall c: CodePoint | Encode(c)[0] == b
      ensures |Encode(c)| == Utf8Width(b)
    {
      EncodedIsScalar(c);
    }
    if Utf8Width(b) > 1 {
      var c := Beginning(b);
      assert Encode(c)[0] == b;
    }
  }

  lemma Beginning(b: byte) returns (c: CodePoint)
    requires Utf8Width(b) > 1
    ensures Encode(c)[0] == b
  {
    if b < 0xe0 {
      SixBitsBack(b - 0xc0, 0);
      c := (b - 0xc0) * 64;
    } else if b < 0xf0 {
      c := if b == 0xe0 then 0x800 else if b == 0xed then 0xd000 else (b - 0xe0) * 4096;
      assert c / 4096 == b - 0xe0;
    } else {
      c := if b == 0xf0 then 0x10000 else (b - 0xf0) * 262144;
      assert c / 262144 == b - 0xf0;
    }
  }

  // ----- a page of text -----

  /** Nothing in the text is a control sequence or taken for a broken scalar. */
  predicate Presentable(strip: bool, text: seq<CodePoint>) {
    0xfffd !in text && (strip ==> 0x1b !in text)
  }

  /** The first code point comes next, whole. */
  lemma NextIsEncoded(strip: bool, p: Parser, text: seq<CodePoint>)
    requires text != [] && Presentable(strip, text) && (strip ==> p.mode == Ground)
    ensures var raw := EncodeAll(text);
            raw != [] && NextStep(strip, p, raw) == Text(Encode(text[0]), |Encode(text[0])|) && raw[|Encode(text[0])|..] == EncodeAll(text[1..])
  {
    var first, rest := Encode(text[0]), EncodeAll(text[1..]);
    EncodedIsScalar(text[0]);
    assert text[0] in text;
    EscapeIsItself(text[0]);
    hide Encode, Scalar;
    assert (first + rest)[..|first|] == first;
    OneByteScalar(first);
  }

  lemma EscapeIsItself(c: CodePoint)
    ensures Encode(c)[0] == ESC ==> c == 0x1b
  {
  }

  lemma OneByteScalar(s: seq<byte>)
    requires s != [] && |s| == Utf8Width(s[0])
    ensures |s| == 1 <==> Utf8Width(s[0]) <= 1
  {
  }

  /** The page ends behind the first `k` code points, at the last place that both budgets allow. */
  predicate EndsBehind(o: Options, text: seq<CodePoint>, k: nat, shown: seq<byte>, left: seq<byte>, cut: bool) {
    && k <= |text| && shown == EncodeAll(text[..k]) && left == EncodeAll(text[k..])
    && (cut <==> k < |text|)
    && |shown| <= o.maxBytes && |shown| <= o.rawScanCap
    && (cut ==> |EncodeAll(text[..k + 1])| > o.maxBytes || |EncodeAll(text[..k + 1])| > o.rawScanCap)
  }

  lemma {:induction false} EncodeAppend(a: seq<CodePoint>, b: seq<CodePoint>)
    ensures EncodeAll(a + b) == EncodeAll(a) + EncodeAll(b)
    decreases |a|
  {
    hide Encode;
    if a == [] {
      assert a + b == b;
    } else {
      AppendTail(a, b);
      EncodeAppend(a[1..], b);
      Assoc(Encode(a[0]), EncodeAll(a[1..]), EncodeAll(b));
    }
  }

  lemma EncodeMore(text: seq<CodePoint>, k: nat)
    requires k < |text|
    ensures EncodeAll(text[..k + 1]) == EncodeAll(text[..k]) + Encode(text[k])
    ensures EncodeAll(text[k..]) == Encode(text[k]) + EncodeAll(text[k + 1..])
    ensures text[k..] != [] && text[k..][0] == text[k] && text[k..][1..] == text[k + 1..]
  {
    hide Encode;
    assert text[..k + 1] == text[..k] + [text[k]];
    EncodeAppend(text[..k], [text[k]]);
    assert [text[k]][1..] == [];
    assert EncodeAll([text[k]]) == Encode(text[k]) + [];
  }

  /** The run from behind the first `k` code points. */
  lemma {:induction false} RunOfText(o: Options, text: seq<CodePoint>, k: nat, c: Cursor, lineStart: Cursor) returns (end: nat)
    requires !o.collapse && Presentable(o.stripAnsi, text) && (o.stripAnsi ==> c.parser.mode == Ground) && k <= |text|
    requires c.text == EncodeAll(text[..k]) && c.consumed == c.scanned == |c.text| && |c.text| <= o.maxBytes && |c.text| <= o.rawScanCap
    ensures var run := RawRun(o, EncodeAll(text[k..]), c, lineStart);
            && k <= end <= |text| && run.cursor.text == EncodeAll(text[..end]) && run.cursor.consumed == |run.cursor.text|
            && EndsBehind(o, text, end, run.cursor.text, EncodeAll(text[end..]), run.stop.ScanStop? || run.stop.BudgetStop?)
            && run.cursor.parser == c.parser
    decreases |text| - k
  {
    hide NextStep, Encode, EncodeAll, LineStart, Overlong;
    end := k;
    if k == |text| {
      assert text[k..] == [];
      EncodeNothing();
    } else {
      EncodeMore(text, k);
      assert Presentable(o.stripAnsi, text[k..]);
      NextIsEncoded(o.stripAnsi, c.parser, text[k..]);
      if |c.text| + |Encode(text[k])| <= o.maxBytes && |c.text| + |Encode(text[k])| <= o.rawScanCap {
        end := RunOfText(o, text, k + 1, Emitted(c, Encode(text[k])), LineStart(o, c, lineStart));
      }
    }
  }

  lemma EncodeNothing()
    ensures EncodeAll([]) == []
  {
  }

  lemma EncodedLength(text: seq<CodePoint>, k: nat)
    requires k <= |text|
    ensures EncodeAll(text) == EncodeAll(text[..k]) + EncodeAll(text[k..])
  {
    assert text == text[..k] + text[k..];
    EncodeAppend(text[..k], text[k..]);
  }

  /** Budgets below 4 bytes shown or 1 scanned, or past 2^53-1, are refused, and no others. */
  lemma RefusedBudgets(chunks: seq<seq<byte>>, state: Option<Parser>, o: Options)
    ensures Present(chunks, state, o) == RangeError <==>
              o.maxBytes < 4 || o.maxBytes > 0x1f_ffff_ffff_ffff || o.rawScanCap < 1 || o.rawScanCap > 0x1f_ffff_ffff_ffff
  {
    Refuses(chunks, state, o);
  }

  /**
   * With collapsing off, a page of text without U+FFFD (and, when stripping, without ESC) holds the encodings of as
   * many of its first code points as both budgets allow, from 4 to 2^53-1 bytes shown and 1 to 2^53-1 scanned; it is
   * cut short exactly when some are left, and what is left encodes exactly those.
   */
  lemma PageOfText(chunks: seq<seq<byte>>, state: Option<Parser>, o: Options, text: seq<CodePoint>) returns (k: nat)
    requires 4 <= o.maxBytes <= 0x1f_ffff_ffff_ffff && 1 <= o.rawScanCap <= 0x1f_ffff_ffff_ffff
    requires !o.collapse && Presentable(o.stripAnsi, text) && (o.stripAnsi && state.Some? ==> state.value.mode == Ground)
    requires Safe(chunks) && Flatten(chunks) == EncodeAll(text)
    ensures Present(chunks, state, o).Presented?
    ensures var page := Present(chunks, state, o).page;
            && page.consumedRawBytes == |page.data| <= |EncodeAll(text)|
            && EndsBehind(o, text, k, page.data, EncodeAll(text)[page.consumedRawBytes..], page.truncated)
            && page.state == CopyState(state)
  {
    hide RawRun, Run, Safe, EncodeAll, FirstRun;
    var c := Start(state);
    EncodeNothing();
    assert text[..0] == [] && text[0..] == text;
    k := RunOfText(o, text, 0, c, c);
    FirstRunIsRawRun(o, chunks, state);
    var run := FirstRun(chunks, state, o);
    EncodedLength(text, k);
    assert run.cursor.text + [] == run.cursor.text;
    assert (run.cursor.text + EncodeAll(text[k..]))[|run.cursor.text|..] == EncodeAll(text[k..]);
  }
}
