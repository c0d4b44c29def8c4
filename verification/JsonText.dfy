/**
 * JSON text as JSON.stringify writes it, over UTF-16 code units: strings escaped per section 7 of RFC
 * 8259, and integers. Both can be read back off the front of any text, which is what makes
 * serialization injective.
 */
module JsonText {
  import opened Bytes

  /** A UTF-16 code unit. */
  type CodeUnit = x: int | 0 <= x < 0x10000

  type Text = seq<CodeUnit>

  const QUOTE: CodeUnit := 0x22
  const ESCAPE: CodeUnit := 0x5c
  const MINUS: CodeUnit := 0x2d
  const DIGIT0: CodeUnit := 0x30
  const LOWER_U: CodeUnit := 0x75
  const LINE_FEED: CodeUnit := 0x0a

  // ----- strings -----

  predicate IsHigh(c: CodeUnit) {
    0xd800 <= c < 0xdc00
  }

  predicate IsLow(c: CodeUnit) {
    0xdc00 <= c < 0xe000
  }

  function HexDigit(d: nat): CodeUnit
    requires d < 16
  {
    if d < 10 then 0x30 + d else 0x61 + d - 10
  }

  function HexValue(c: CodeUnit): int {
    if c < 0x61 then c - 0x30 else c - 0x61 + 10
  }

  /** `\uXXXX` in lower case. */
  function UnicodeEscape(c: CodeUnit): (r: Text)
    ensures |r| == 6
  {
    [ESCAPE, LOWER_U, HexDigit(c / 4096), HexDigit(c / 256 % 16), HexDigit(c / 16 % 16), HexDigit(c % 16)]
  }

  /** The letter of a two-character escape, if the unit has one. */
  function ShortEscape(c: CodeUnit): (r: Option<CodeUnit>)
    ensures r.Some? ==> r.value >= 0x20 && r.value != LOWER_U && Unshorten(r.value) == c
  {
    if c == QUOTE then Some(QUOTE)
    else if c == ESCAPE then Some(ESCAPE)
    else if c == 0x08 then Some(0x62)
    else if c == 0x0c then Some(0x66)
    else if c == 0x0a then Some(0x6e)
    else if c == 0x0d then Some(0x72)
    else if c == 0x09 then Some(0x74)
    else None
  }

  function Unshorten(letter: CodeUnit): CodeUnit {
    if letter == 0x62 then 0x08
    else if letter == 0x66 then 0x0c
    else if letter == 0x6e then 0x0a
    else if letter == 0x72 then 0x0d
    else if letter == 0x74 then 0x09
    else letter
  }

  /** How many units the front of a string takes together: a surrogate pair, or one. */
  function Front(s: Text): (n: nat)
    requires s != []
    ensures 1 <= n <= |s| && n <= 2
  {
    if IsHigh(s[0]) && |s| > 1 && IsLow(s[1]) then 2 else 1
  }

  /** What the front of a string is written as; a surrogate outside a pair is escaped. */
  function EscapeFront(s: Text): (r: Text)
    requires s != []
    ensures r != []
  {
    if Front(s) == 2 then s[..2]
    else if ShortEscape(s[0]).Some? then [ESCAPE, ShortEscape(s[0]).value]
    else if s[0] < 0x20 || IsHigh(s[0]) || IsLow(s[0]) then UnicodeEscape(s[0])
    else [s[0]]
  }

  function Escape(s: Text): Text
    decreases |s|
  {
    if s == [] then [] else EscapeFront(s) + Escape(s[Front(s)..])
  }

  function Quote(s: Text): Text {
    [QUOTE] + Escape(s) + [QUOTE]
  }

  /** A reader's view of one written character: the units it stands for, and its length. */
  function ReadFront(out: Text): (Text, nat)
    requires |out| >= 6
  {
    if out[0] == ESCAPE then
      if out[1] == LOWER_U then
        var v := HexValue(out[2]) * 4096 + HexValue(out[3]) * 256 + HexValue(out[4]) * 16 + HexValue(out[5]);
        (if 0 <= v < 0x10000 then [v] else [], 6)
      else ([Unshorten(out[1])], 2)
    else if IsHigh(out[0]) then (out[..2], 2)
    else (out[..1], 1)
  }

  lemma HexRoundTrip(c: CodeUnit)
    ensures var e := UnicodeEscape(c);
            HexValue(e[2]) * 4096 + HexValue(e[3]) * 256 + HexValue(e[4]) * 16 + HexValue(e[5]) == c
  {
    assert c == c / 4096 * 4096 + c / 256 % 16 * 256 + c / 16 % 16 * 16 + c % 16;
  }

  lemma FrontReadsBack(s: Text, rest: Text)
    requires s != [] && |EscapeFront(s) + rest| >= 6
    ensures ReadFront(EscapeFront(s) + rest) == (s[..Front(s)], |EscapeFront(s)|)
    ensures EscapeFront(s)[0] != QUOTE
  {
    hide UnicodeEscape, HexDigit, HexValue;
    var out := EscapeFront(s) + rest;
    if Front(s) == 2 {
      assert out[..2] == s[..2];
    } else if ShortEscape(s[0]).None? && (s[0] < 0x20 || IsHigh(s[0]) || IsLow(s[0])) {
      HexRoundTrip(s[0]);
      UnicodeStart(s[0]);
      assert forall k :: 0 <= k < 6 ==> out[k] == UnicodeEscape(s[0])[k];
      assert s[..1] == [s[0]];
    } else {
      assert s[..1] == [s[0]];
      assert forall k :: 0 <= k < |EscapeFront(s)| ==> out[k] == EscapeFront(s)[k];
      assert ShortEscape(s[0]).None? ==> out[..1] == [s[0]];
    }
  }

  lemma UnicodeStart(c: CodeUnit)
    ensures UnicodeEscape(c)[0] == ESCAPE && UnicodeEscape(c)[1] == LOWER_U
  {
  }

  const PAD: Text := [0, 0, 0, 0, 0, 0]

  /** Two strings written up to their closing quotes, with anything behind: equal text means equal strings. */
  lemma {:induction false} EscapeInjective(s: Text, u: Text, r: Text, t: Text)
    requires Escape(s) + ([QUOTE] + r) == Escape(u) + ([QUOTE] + t)
    ensures s == u && r == t
    decreases |s|
  {
    hide *;
    EscapeStart(s, r);
    EscapeStart(u, t);
    if s == [] {
      NothingWritten(r);
      NothingWritten(t);
    } else {
      EscapeNext(s, [QUOTE] + r);
      EscapeNext(u, [QUOTE] + t);
      SplitFront(s, u);
      EscapeInjective(s[Front(s)..], u[Front(u)..], r, t);
    }
  }

  lemma NothingWritten(r: Text)
    ensures (Escape([]) + ([QUOTE] + r))[1..] == r && |Escape([]) + ([QUOTE] + r)| > 0
  {
  }

  /** The closing quote is the only quote a written string can start with. */
  lemma EscapeStart(s: Text, r: Text)
    ensures var out := Escape(s) + ([QUOTE] + r);
            out != [] && (out[0] == QUOTE <==> s == [])
  {
    hide EscapeFront, ReadFront;
    if s != [] {
      EscapeNext(s, [QUOTE] + r);
    }
  }

  lemma SplitFront(s: Text, u: Text)
    requires s != [] && u != []
    ensures s == s[..Front(s)] + s[Front(s)..] && u == u[..Front(u)] + u[Front(u)..]
  {
  }

  /** The first written character of a string can be read off the text, and what follows it is the rest of the string. */
  lemma EscapeNext(s: Text, rest: Text)
    requires s != []
    ensures var out := Escape(s) + rest;
            && out != [] && out[0] != QUOTE
            && ReadFront(out + PAD) == (s[..Front(s)], |EscapeFront(s)|)
            && |EscapeFront(s)| <= |out| && out[|EscapeFront(s)|..] == Escape(s[Front(s)..]) + rest
  {
    hide EscapeFront, ReadFront;
    var tail := Escape(s[Front(s)..]);
    Assoc(EscapeFront(s), tail, rest);
    Assoc(EscapeFront(s), tail + rest, PAD);
    FrontReadsBack(s, tail + rest + PAD);
  }

  /** Written strings hold no control character, so no line break. */
  lemma {:induction false} EscapeIsPrintable(s: Text)
    ensures forall i :: 0 <= i < |Escape(s)| ==> Escape(s)[i] >= 0x20
    decreases |s|
  {
    if s != [] {
      EscapeIsPrintable(s[Front(s)..]);
    }
  }

  // ----- integers -----

  predicate IsDigit(c: CodeUnit) {
    DIGIT0 <= c < DIGIT0 + 10
  }

  function Digits(n: nat): (r: Text)
    ensures r != [] && forall i :: 0 <= i < |r| ==> IsDigit(r[i])
  {
    if n < 10 then [DIGIT0 + n] else Digits(n / 10) + [DIGIT0 + n % 10]
  }

  function DigitsValue(s: Text): int {
    if s == [] then 0 else 10 * DigitsValue(s[..|s| - 1]) + s[|s| - 1] - DIGIT0
  }

  lemma {:induction false} DigitsRoundTrip(n: nat)
    ensures DigitsValue(Digits(n)) == n
  {
    if n >= 10 {
      DigitsRoundTrip(n / 10);
      assert Digits(n)[..|Digits(n)| - 1] == Digits(n / 10);
    }
  }

  function Decimal(n: int): Text {
    if n < 0 then [MINUS] + Digits(-n) else Digits(n)
  }

  /** Nothing a number could run on into. */
  predicate Delimited(rest: Text) {
    rest == [] || !IsDigit(rest[0])
  }

  function RunLength(s: Text): nat {
    if s != [] && IsDigit(s[0]) then 1 + RunLength(s[1..]) else 0
  }

  lemma {:induction false} RunStops(x: Text, r: Text)
    requires (forall i :: 0 <= i < |x| ==> IsDigit(x[i])) && Delimited(r)
    ensures RunLength(x + r) == |x|
  {
    if x == [] {
      assert x + r == r;
    } else {
      AppendTail(x, r);
      RunStops(x[1..], r);
    }
  }

  lemma RunsAgree(x: Text, y: Text, r: Text, t: Text)
    requires (forall i :: 0 <= i < |x| ==> IsDigit(x[i])) && (forall i :: 0 <= i < |y| ==> IsDigit(y[i]))
    requires Delimited(r) && Delimited(t) && x + r == y + t
    ensures x == y && r == t
  {
    RunStops(x, r);
    RunStops(y, t);
    assert (x + r)[..|x|] == x && (x + r)[|x|..] == r && (y + t)[..|y|] == y && (y + t)[|y|..] == t;
  }

  lemma DecimalInjective(a: int, b: int, r: Text, t: Text)
    requires Delimited(r) && Delimited(t) && Decimal(a) + r == Decimal(b) + t
    ensures a == b && r == t
  {
    assert (Decimal(a) + r)[0] == (Decimal(b) + t)[0];
    var x, y := Digits(if a < 0 then -a else a), Digits(if b < 0 then -b else b);
    if a < 0 {
      assert b < 0;
      Assoc([MINUS], x, r);
      Assoc([MINUS], y, t);
      ConsTail(MINUS, x + r);
      ConsTail(MINUS, y + t);
    }
    RunsAgree(x, y, r, t);
    DigitsRoundTrip(if a < 0 then -a else a);
    DigitsRoundTrip(if b < 0 then -b else b);
  }
}
