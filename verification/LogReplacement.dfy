/**
 * Logs with a literal U+FFFD in them. The presenter takes one for a broken scalar and shows it byte by byte, so
 * a budget can fall inside it: exactly which pages that happens to.
 */
module LogReplacement {
  import opened Bytes
  import opened Lines
  import opened LogPresentation
  import opened LogPresentationLaws
  import opened LogPaging
  import opened LogRawRun

  // ----- well-formed text, U+FFFD allowed -----

  predicate WellFormed(s: seq<byte>)
    decreases |s|
  {
    s == [] || (var w := Utf8Width(s[0]); w <= |s| && Scalar(s[..w]) && WellFormed(s[w..]))
  }

  /** The raw bytes ahead are well formed, from the next scalar on when a control sequence is being skipped. */
  predicate Ahead(strip: bool, p: Parser, rest: seq<byte>) {
    if !strip || p.mode == Ground || p.mode == Escape then WellFormed(rest) else WellFormed(SkipContinuation(rest))
  }

  lemma {:induction false} WellFormedAppend(a: seq<byte>, b: seq<byte>)
    requires WellFormed(a) && WellFormed(b)
    ensures WellFormed(a + b)
    decreases |a|
  {
    if a == [] {
      assert a + b == b;
    } else {
      var w := Utf8Width(a[0]);
      WellFormedAppend(a[w..], b);
      CutAppend(a, b, w);
      assert (a + b)[0] == a[0];
    }
  }

  lemma ScalarIsWellFormed(s: seq<byte>)
    requires Scalar(s)
    ensures WellFormed(s)
  {
    assert s[..|s|] == s && s[|s|..] == [];
  }

  lemma SkipWellFormed(s: seq<byte>)
    requires WellFormed(s)
    ensures SkipContinuation(s) == s
  {
    if s != [] {
      assert s[..Utf8Width(s[0])][0] == s[0];
    }
  }

  lemma Resyncs(raw: seq<byte>)
    requires raw != [] && (WellFormed(raw) || (WellFormed(SkipContinuation(raw)) && raw[0] < 0x80))
    ensures WellFormed(SkipContinuation(raw[1..])) && (raw[0] < 0x80 ==> WellFormed(raw[1..]))
  {
    assert raw[0] < 0x80 ==> SkipContinuation(raw) == raw;
    var w := Utf8Width(raw[0]);
    SkipScalar(raw, w);
    SkipWellFormed(raw[w..]);
    assert raw[..w][0] == raw[0];
  }

  lemma ResyncsSkipping(raw: seq<byte>)
    requires raw != [] && WellFormed(SkipContinuation(raw))
    ensures WellFormed(SkipContinuation(raw[1..]))
    ensures raw[0] < 0x80 ==> WellFormed(raw[1..])
  {
    if !Continuation(raw[0]) {
      Resyncs(raw);
    }
  }

  lemma ControlStaysAhead(strip: bool, p: Parser, rest: seq<byte>)
    requires rest != [] && Ahead(strip, p, rest) && NextStep(strip, p, rest).Control?
    ensures var step := NextStep(strip, p, rest); Ahead(strip, step.next, rest[step.width..])
  {
    var step := NextStep(strip, p, rest);
    if p.mode == Ground || p.mode == Escape {
      Resyncs(rest);
      assert step.width == 0 ==> rest[step.width..] == rest;
    } else {
      ResyncsSkipping(rest);
    }
  }

  /** Cutting a well-formed text before a byte that starts a scalar leaves the rest well formed. */
  lemma {:induction false} WellFormedFrom(text: seq<byte>, k: nat)
    requires WellFormed(text) && k < |text| && !Continuation(text[k])
    ensures WellFormed(text[k..])
    decreases |text|
  {
    if k == 0 {
      assert text[0..] == text;
    } else {
      var w := Utf8Width(text[0]);
      ScalarTail(text, w);
      assert w <= k;
      WellFormedFrom(text[w..], k - w);
      SliceTwice(text, w, k - w);
    }
  }

  // ----- the text a page could show with bytes to spare -----

  /** What the pass shows within the scan cap. */
  function Reach(o: Options, rest: seq<byte>, c: Cursor): seq<byte>
    decreases |rest|, if c.parser.mode == Escape then 1 else 0
  {
    if rest == [] || c.scanned >= o.rawScanCap then c.text
    else
      match NextStep(o.stripAnsi, c.parser, rest)
      case Incomplete => c.text
      case Control(next, width) => Reach(o, rest[width..], Passed(c, next, width))
      case Text(out, need) =>
        if c.scanned + need > o.rawScanCap then c.text else Reach(o, rest[|out|..], Emitted(c, out))
  }

  lemma {:induction false} ReachExtends(o: Options, rest: seq<byte>, c: Cursor)
    ensures c.text <= Reach(o, rest, c)
    decreases |rest|, if c.parser.mode == Escape then 1 else 0
  {
    if rest != [] && c.scanned < o.rawScanCap {
      var step := NextStep(o.stripAnsi, c.parser, rest);
      if step.Control? {
        ReachExtends(o, rest[step.width..], Passed(c, step.next, step.width));
      } else if step.Text? && c.scanned + step.need <= o.rawScanCap {
        ReachExtends(o, rest[|step.out|..], Emitted(c, step.out));
      }
    }
  }

  lemma {:induction false} ReachWithinCap(o: Options, rest: seq<byte>, c: Cursor)
    requires |c.text| <= c.scanned <= o.rawScanCap
    ensures |Reach(o, rest, c)| <= o.rawScanCap
    decreases |rest|, if c.parser.mode == Escape then 1 else 0
  {
    if rest != [] && c.scanned < o.rawScanCap {
      var step := NextStep(o.stripAnsi, c.parser, rest);
      if step.Control? {
        ReachWithinCap(o, rest[step.width..], Passed(c, step.next, step.width));
      } else if step.Text? && c.scanned + step.need <= o.rawScanCap {
        ReachWithinCap(o, rest[|step.out|..], Emitted(c, step.out));
      }
    }
  }

  /** One emission: a clean scalar, or one byte. */
  predicate Emission(out: seq<byte>) {
    |out| == 1 || (DecodesCleanly(out) && |out| == Utf8Width(out[0]))
  }

  lemma TextIsEmission(strip: bool, p: Parser, rest: seq<byte>)
    requires rest != [] && NextStep(strip, p, rest).Text?
    ensures var out := NextStep(strip, p, rest).out; Emission(out) && out[0] == rest[0] && (Utf8Width(out[0]) == 1 ==> |out| == 1)
  {
  }

  /** A page shows a beginning of what it can reach, and stops short of it only where the next emission has no room. */
  lemma {:induction false} RunFills(o: Options, rest: seq<byte>, c: Cursor, lineStart: Cursor) returns (out: seq<byte>)
    requires !o.collapse && |c.text| <= o.maxBytes
    ensures var halt := RawRun(o, rest, c, lineStart);
            && halt.cursor.text <= Reach(o, rest, c) && |halt.cursor.text| <= o.maxBytes
            && (!halt.stop.BudgetStop? ==> halt.cursor.text == Reach(o, rest, c))
            && (halt.stop.BudgetStop? ==> Emission(out) && halt.cursor.text + out <= Reach(o, rest, c)
                                          && |halt.cursor.text| + |out| > o.maxBytes && (Utf8Width(out[0]) == 1 ==> |out| == 1))
    decreases |rest|, if c.parser.mode == Escape then 1 else 0
  {
    hide Emission, Overlong;
    out := [];
    PlainLineStart(o, c, lineStart);
    if rest != [] && c.scanned < o.rawScanCap {
      var step := NextStep(o.stripAnsi, c.parser, rest);
      if step.Control? {
        out := RunFills(o, rest[step.width..], Passed(c, step.next, step.width), lineStart);
      } else if step.Text? && c.scanned + step.need <= o.rawScanCap {
        if Fits(o, c.text + step.out) {
          out := RunFills(o, rest[|step.out|..], Emitted(c, step.out), lineStart);
        } else {
          out := step.out;
          TextIsEmission(o.stripAnsi, c.parser, rest);
          ReachExtends(o, rest[|step.out|..], Emitted(c, step.out));
          Shorter(c.text, step.out, Reach(o, rest, c));
        }
      }
    }
  }

  lemma PlainLineStart(o: Options, c: Cursor, lineStart: Cursor)
    requires !o.collapse
    ensures LineStart(o, c, lineStart) == lineStart
  {
  }

  lemma Shorter(a: seq<byte>, b: seq<byte>, t: seq<byte>)
    requires a + b <= t
    ensures a <= t
  {
    assert (a + b)[..|a|] == a;
  }

  // ----- where a page can stop -----

  /** The last `j` bytes of U+FFFD. */
  function Tail(j: nat): seq<byte>
    requires j <= 2
  {
    REPLACEMENT[3 - j..]
  }

  /** Between scalars (`j` is 0), or with `j` bytes of a U+FFFD still to come and the others just shown. */
  predicate Between(strip: bool, p: Parser, text: seq<byte>, rest: seq<byte>, j: nat) {
    if j == 0 then WellFormed(text) && Ahead(strip, p, rest)
    else
      && j <= 2 && (!strip || p.mode == Ground)
      && Tail(j) <= rest && WellFormed(rest[j..])
      && 3 - j <= |text| && text[|text| - (3 - j)..] == REPLACEMENT[..3 - j] && WellFormed(text[..|text| - (3 - j)])
  }

  /** One emission takes a page from one such place to the next. */
  lemma EmissionGoesOn(strip: bool, p: Parser, text: seq<byte>, rest: seq<byte>, j: nat) returns (k: nat)
    requires Between(strip, p, text, rest, j) && rest != [] && NextStep(strip, p, rest).Text?
    ensures var out := NextStep(strip, p, rest).out;
            && Between(strip, p, text + out, rest[|out|..], k)
            && (j > 0 ==> |out| == 1 && NextStep(strip, p, rest).need == 1 && k == j - 1)
            && (j == 0 && k > 0 ==> |out| == 1 && NextStep(strip, p, rest).need == 3 && k == 2)
  {
    var step := NextStep(strip, p, rest);
    if j == 0 {
      k := FromScalar(strip, p, text, rest);
    } else {
      k := j - 1;
      FromInside(strip, p, text, rest, j);
    }
  }

  lemma FromScalar(strip: bool, p: Parser, text: seq<byte>, rest: seq<byte>) returns (k: nat)
    requires Between(strip, p, text, rest, 0) && rest != [] && NextStep(strip, p, rest).Text?
    ensures var step := NextStep(strip, p, rest);
            && Between(strip, p, text + step.out, rest[|step.out|..], k)
            && (k > 0 ==> |step.out| == 1 && step.need == 3 && k == 2)
  {
    var w := Utf8Width(rest[0]);
    var step := NextStep(strip, p, rest);
    assert WellFormed(rest) && Scalar(rest[..w]);
    if rest[..w] == REPLACEMENT {
      k := 2;
      assert rest[0] == REPLACEMENT[0] by {
        assert rest[..w][0] == rest[0];
      }
      SplitReplacement(rest);
      assert (text + [0xef])[|text|..] == [0xef] && (text + [0xef])[..|text|] == text;
    } else {
      k := 0;
      ScalarIsWellFormed(rest[..w]);
      WellFormedAppend(text, rest[..w]);
    }
  }

  lemma SplitReplacement(rest: seq<byte>)
    requires REPLACEMENT <= rest
    ensures Tail(2) <= rest[1..] && rest[1..][2..] == rest[3..] && REPLACEMENT[..1] == [0xef]
  {
    assert rest[1..][..2] == rest[..3][1..];
  }

  lemma TailAhead(strip: bool, p: Parser, text: seq<byte>, rest: seq<byte>, j: nat)
    requires 0 < j && Between(strip, p, text, rest, j)
    ensures j <= 2 && Tail(j) <= rest && (!strip || p.mode == Ground)
  {
    hide WellFormed, Scalar, Tail;
  }

  lemma FromInside(strip: bool, p: Parser, text: seq<byte>, rest: seq<byte>, j: nat)
    requires 0 < j && Between(strip, p, text, rest, j)
    ensures rest != [] && NextStep(strip, p, rest) == Text(rest[..1], 1)
    ensures Between(strip, p, text + rest[..1], rest[1..], j - 1)
  {
    hide *;
    BetweenBounds(strip, p, text, rest, j);
    TailAhead(strip, p, text, rest, j);
    NextInside(strip, p, rest, j);
    if j == 1 {
      EndsReplacement(strip, p, text, rest);
      BetweenScalars(strip, p, text + rest[..1], rest[1..]);
    } else {
      BeforeLastByte(strip, p, text, rest);
    }
  }

  lemma BetweenScalars(strip: bool, p: Parser, text: seq<byte>, rest: seq<byte>)
    requires WellFormed(text) && Ahead(strip, p, rest)
    ensures Between(strip, p, text, rest, 0)
  {
  }

  lemma BeforeLastByte(strip: bool, p: Parser, text: seq<byte>, rest: seq<byte>)
    requires Between(strip, p, text, rest, 2)
    ensures Between(strip, p, text + rest[..1], rest[1..], 1)
  {
    hide WellFormed, NextStep, Scalar;
    MiddleOfReplacement(text, rest);
  }

  lemma MiddleOfReplacement(text: seq<byte>, rest: seq<byte>)
    requires text != [] && text[|text| - 1..] == REPLACEMENT[..1] && Tail(2) <= rest
    ensures var next := text + rest[..1];
            next[|next| - 2..] == REPLACEMENT[..2] && next[..|next| - 2] == text[..|text| - 1]
    ensures Tail(1) <= rest[1..] && rest[1..][1..] == rest[2..]
  {
    var next := text + rest[..1];
    assert rest[0] == Tail(2)[0] && rest[1] == Tail(2)[1];
    assert text[|text| - 1] == text[|text| - 1..][0];
    assert next[|next| - 2..] == [text[|text| - 1], rest[0]];
    assert rest[1..][..1] == [rest[1]];
  }

  lemma NextInside(strip: bool, p: Parser, rest: seq<byte>, j: nat)
    requires 1 <= j <= 2 && (!strip || p.mode == Ground) && Tail(j) <= rest
    ensures rest != [] && rest[..1] == [REPLACEMENT[3 - j]]
    ensures NextStep(strip, p, rest) == Text(rest[..1], 1)
  {
    assert rest[0] == Tail(j)[0] == REPLACEMENT[3 - j];
  }

  lemma EndsReplacement(strip: bool, p: Parser, text: seq<byte>, rest: seq<byte>)
    requires Between(strip, p, text, rest, 1)
    ensures WellFormed(text + rest[..1]) && Ahead(strip, p, rest[1..])
  {
    var lead := text[..|text| - 2];
    NextInside(strip, p, rest, 1);
    assert text + rest[..1] == lead + REPLACEMENT;
    ReplacementIsWellFormed();
    WellFormedAppend(lead, REPLACEMENT);
  }

  lemma ReplacementIsWellFormed()
    ensures WellFormed(REPLACEMENT)
  {
    assert Scalar(REPLACEMENT);
    ScalarIsWellFormed(REPLACEMENT);
  }

  /** With the rest of a U+FFFD ahead and the scan paid for, the pass goes on to show it. */
  lemma RestIsReached(o: Options, rest: seq<byte>, c: Cursor, j: nat)
    requires 0 < j && Between(o.stripAnsi, c.parser, c.text, rest, j) && c.scanned + j <= o.rawScanCap
    ensures c.text + Tail(j) <= Reach(o, rest, c)
    decreases j
  {
    hide Between;
    FromInside(o.stripAnsi, c.parser, c.text, rest, j);
    assert Tail(j) <= rest by {
      TailAhead(o.stripAnsi, c.parser, c.text, rest, j);
    }
    var next := Emitted(c, rest[..1]);
    assert rest[..1] == [Tail(j)[0]];
    if j == 1 {
      ReachExtends(o, rest[1..], next);
      assert Tail(1) == rest[..1];
    } else {
      RestIsReached(o, rest[1..], next, 1);
      assert Tail(2) == rest[..1] + Tail(1);
      Assoc(c.text, rest[..1], Tail(1));
    }
  }

  lemma BetweenBounds(strip: bool, p: Parser, text: seq<byte>, rest: seq<byte>, j: nat)
    requires Between(strip, p, text, rest, j)
    ensures j <= 2
  {
    hide WellFormed, Ahead;
  }

  /** A page stops between scalars, or for want of bytes inside a U+FFFD that is within reach. */
  predicate StopsBetween(o: Options, rest: seq<byte>, c: Cursor, lineStart: Cursor, k: nat) {
    var halt := RawRun(o, rest, c, lineStart);
    && c.consumed <= halt.cursor.consumed <= c.consumed + |rest|
    && Between(o.stripAnsi, halt.cursor.parser, halt.cursor.text, rest[halt.cursor.consumed - c.consumed..], k)
    && k <= 2
    && (k > 0 ==> halt.stop.BudgetStop? && |halt.cursor.text| == o.maxBytes && halt.cursor.text + Tail(k) <= Reach(o, rest, c))
  }

  /** Where the next step leads to is where the run leads to. */
  lemma StopsBetweenLater(o: Options, rest: seq<byte>, c: Cursor, lineStart: Cursor, w: nat, next: Cursor, k: nat)
    requires w <= |rest| && next.consumed == c.consumed + w
    requires RawRun(o, rest, c, lineStart) == RawRun(o, rest[w..], next, lineStart) && Reach(o, rest, c) == Reach(o, rest[w..], next)
    requires StopsBetween(o, rest[w..], next, lineStart, k)
    ensures StopsBetween(o, rest, c, lineStart, k)
  {
    hide RawRun, Reach, Between, Tail;
    SliceTwice(rest, w, RawRun(o, rest, c, lineStart).cursor.consumed - next.consumed);
  }

  lemma StopsHere(o: Options, rest: seq<byte>, c: Cursor, lineStart: Cursor, stop: Stop, scanned: nat, j: nat)
    requires RawRun(o, rest, c, lineStart) == Outcome(stop, c.(scanned := scanned), lineStart)
    requires Between(o.stripAnsi, c.parser, c.text, rest, j)
    requires j > 0 ==> j <= 2 && stop.BudgetStop? && |c.text| == o.maxBytes && c.text + Tail(j) <= Reach(o, rest, c)
    ensures StopsBetween(o, rest, c, lineStart, j)
  {
    hide RawRun, Reach, Between, Tail;
    BetweenBounds(o.stripAnsi, c.parser, c.text, rest, j);
    assert rest[0..] == rest;
  }

  lemma PlainFits(o: Options, text: seq<byte>)
    requires !o.collapse
    ensures Fits(o, text) <==> |text| <= o.maxBytes
  {
  }

  lemma ReachStep(o: Options, rest: seq<byte>, c: Cursor)
    requires rest != [] && c.scanned < o.rawScanCap
    ensures var step := NextStep(o.stripAnsi, c.parser, rest);
            && (step.Control? ==> step.width <= |rest| && Reach(o, rest, c) == Reach(o, rest[step.width..], Passed(c, step.next, step.width)))
            && (step.Text? && c.scanned + step.need <= o.rawScanCap ==>
                  |step.out| <= |rest| && Reach(o, rest, c) == Reach(o, rest[|step.out|..], Emitted(c, step.out)))
  {
  }

  lemma {:induction false} RunStopsBetween(o: Options, rest: seq<byte>, c: Cursor, lineStart: Cursor, j: nat) returns (k: nat)
    requires !o.collapse && Fits(o, c.text)
    requires Between(o.stripAnsi, c.parser, c.text, rest, j) && (j > 0 ==> c.scanned + j <= o.rawScanCap)
    ensures StopsBetween(o, rest, c, lineStart, k)
    decreases |rest|, if c.parser.mode == Escape then 1 else 0
  {
    hide *;
    k := j;
    PlainFits(o, c.text);
    PlainLineStart(o, c, lineStart);
    if j > 0 {
      InsideGoesOn(o, rest, c, j);
    }
    if rest == [] {
      RawEnds(o, c, lineStart);
      StopsHere(o, rest, c, lineStart, AtEnd, c.scanned, j);
    } else if c.scanned >= o.rawScanCap || NextStep(o.stripAnsi, c.parser, rest).Incomplete? {
      RawCut(o, rest, c, lineStart);
      StopsHere(o, rest, c, lineStart, if c.scanned >= o.rawScanCap then ScanStop else CutScalar, c.scanned, j);
    } else {
      var step := NextStep(o.stripAnsi, c.parser, rest);
      RawStarts(o, rest, c, lineStart);
      ReachStep(o, rest, c);
      if step.Control? {
        var next := Passed(c, step.next, step.width);
        PassedIs(c, step.next, step.width);
        ControlWidth(o.stripAnsi, c.parser, rest);
        ControlBetween(o, rest, c, j);
        k := RunStopsBetween(o, rest[step.width..], next, lineStart, 0);
        StopsBetweenLater(o, rest, c, lineStart, step.width, next, k);
      } else {
        var next := Emitted(c, step.out);
        EmittedIs(c, step.out);
        StepBounds(o.stripAnsi, c.parser, rest);
        AfterTextIs(o, rest, c, lineStart, step.out, step.need);
        PlainFits(o, c.text + step.out);
        if c.scanned + step.need > o.rawScanCap {
          StopsHere(o, rest, c, lineStart, ScanStop, c.scanned, j);
        } else if !Fits(o, c.text + step.out) {
          StopsHere(o, rest, c, lineStart, BudgetStop(Overlong(o, c.text, step.out)), c.scanned + 1, j);
        } else {
          var i := EmissionGoesOn(o.stripAnsi, c.parser, c.text, rest, j);
          k := RunStopsBetween(o, rest[|step.out|..], next, lineStart, i);
          StopsBetweenLater(o, rest, c, lineStart, |step.out|, next, k);
        }
      }
    }
  }

  /** Inside a U+FFFD the next step is its next byte, scanned for, and the rest of it is within reach. */
  lemma InsideGoesOn(o: Options, rest: seq<byte>, c: Cursor, j: nat)
    requires 0 < j && Between(o.stripAnsi, c.parser, c.text, rest, j) && c.scanned + j <= o.rawScanCap
    ensures rest != [] && j <= 2 && c.scanned < o.rawScanCap
    ensures var step := NextStep(o.stripAnsi, c.parser, rest); step.Text? && |step.out| == 1 && step.need == 1
    ensures c.text + Tail(j) <= Reach(o, rest, c)
  {
    hide Between, Reach, Tail;
    BetweenBounds(o.stripAnsi, c.parser, c.text, rest, j);
    FromInside(o.stripAnsi, c.parser, c.text, rest, j);
    RestIsReached(o, rest, c, j);
  }

  lemma ControlBetween(o: Options, rest: seq<byte>, c: Cursor, j: nat)
    requires Between(o.stripAnsi, c.parser, c.text, rest, j) && rest != [] && NextStep(o.stripAnsi, c.parser, rest).Control?
    ensures var step := NextStep(o.stripAnsi, c.parser, rest);
            j == 0 && Between(o.stripAnsi, step.next, c.text, rest[step.width..], 0)
  {
    hide WellFormed, Ahead;
    if j > 0 {
      FromInside(o.stripAnsi, c.parser, c.text, rest, j);
    } else {
      ControlStaysAhead(o.stripAnsi, c.parser, rest);
    }
  }

  // ----- exactly which pages cut a U+FFFD -----

  /** A text cut after `n` bytes is cut one or two bytes into a U+FFFD. */
  predicate CutsReplacement(text: seq<byte>, n: nat) {
    exists k :: n - 2 <= k < n && ReplacementAt(text, k)
  }

  predicate ReplacementAt(text: seq<byte>, k: int) {
    0 <= k && k + 3 <= |text| && text[k..k + 3] == REPLACEMENT
  }

  lemma ReplacementBytes(text: seq<byte>, k: int)
    requires ReplacementAt(text, k)
    ensures text[k] == 0xef && text[k + 1] == 0xbf && text[k + 2] == 0xbd
  {
    assert text[k..k + 3][0] == text[k] && text[k..k + 3][1] == text[k + 1] && text[k..k + 3][2] == text[k + 2];
  }

  lemma CutIsNotWellFormed(text: seq<byte>, n: nat)
    requires n <= |text| && CutsReplacement(text, n)
    ensures !WellFormed(text[..n])
  {
    var k :| n - 2 <= k < n && ReplacementAt(text, k);
    ReplacementBytes(text, k);
    var data := text[..n];
    if WellFormed(data) {
      assert data[k] == text[k];
      WellFormedFrom(data, k);
    }
  }

  lemma InsideIsCut(strip: bool, p: Parser, data: seq<byte>, rest: seq<byte>, k: nat, text: seq<byte>)
    requires 0 < k && Between(strip, p, data, rest, k) && data + Tail(k) <= text
    ensures CutsReplacement(text, |data|)
  {
    var at := |data| - (3 - k);
    assert REPLACEMENT[..3 - k] + Tail(k) == REPLACEMENT;
    var whole := data + Tail(k);
    assert whole[at..at + 3] == data[at..] + Tail(k);
    assert text[..|whole|] == whole;
    assert text[at..at + 3] == whole[at..at + 3];
    assert ReplacementAt(text, at);
  }

  lemma PlainPage(chunks: seq<seq<byte>>, state: Option<Parser>, o: Options)
    requires Accepted(o) && Safe(chunks) && !o.collapse
    ensures var halt := RawRun(o, Flatten(chunks), Start(state), Start(state));
            var page := Present(chunks, state, o).page;
            page.data == halt.cursor.text && (halt.stop.BudgetStop? ==> page.truncated)
  {
    hide Run, RawRun, Safe;
    FirstRunIsRawRun(o, chunks, state);
    var run := FirstRun(chunks, state, o);
    assert run.cursor.text + [] == run.cursor.text;
  }

  /**
   * Over well-formed text, a first page is well formed exactly when its end does not fall one or two bytes
   * into a U+FFFD of the text within reach; and only a full byte budget puts it there.
   */
  lemma PageCutsOnlyReplacements(chunks: seq<seq<byte>>, state: Option<Parser>, o: Options)
    requires Accepted(o) && Safe(chunks) && !o.collapse && Ahead(o.stripAnsi, CopyState(state), Flatten(chunks))
    ensures var page := Present(chunks, state, o).page;
            var text := Reach(o, Flatten(chunks), Start(state));
            && page.data <= text
            && (WellFormed(page.data) <==> !CutsReplacement(text, |page.data|))
            && (!WellFormed(page.data) ==> page.truncated && |page.data| == o.maxBytes)
  {
    hide RawRun, Reach, Safe, Ahead, CutsReplacement, CopyState, FirstRun, PageOf, StopsBetween, Between, WellFormed, Fits;
    var raw := Flatten(chunks);
    PlainPage(chunks, state, o);
    StartsBetween(o, state, raw);
    var k := RunStopsBetween(o, raw, Start(state), Start(state), 0);
    StopIsJudged(o, raw, Start(state), k);
  }

  lemma StopIsJudged(o: Options, raw: seq<byte>, c: Cursor, k: nat)
    requires !o.collapse && |c.text| <= o.maxBytes && StopsBetween(o, raw, c, c, k)
    ensures var halt := RawRun(o, raw, c, c);
            var text := Reach(o, raw, c);
            && halt.cursor.text <= text
            && (WellFormed(halt.cursor.text) <==> !CutsReplacement(text, |halt.cursor.text|))
            && (!WellFormed(halt.cursor.text) ==> halt.stop.BudgetStop? && |halt.cursor.text| == o.maxBytes)
  {
    hide RawRun, Reach, CutsReplacement, Tail, Between, WellFormed;
    var halt := RawRun(o, raw, c, c);
    var data, text := halt.cursor.text, Reach(o, raw, c);
    var out := RunFills(o, raw, c, c);
    if k > 0 {
      InsideIsCut(o.stripAnsi, halt.cursor.parser, data, raw[halt.cursor.consumed - c.consumed..], k, text);
    } else {
      ScalarsAreWellFormed(o.stripAnsi, halt.cursor.parser, data, raw[halt.cursor.consumed - c.consumed..]);
    }
    CutDecides(text, data);
  }

  lemma CutDecides(text: seq<byte>, data: seq<byte>)
    requires data <= text
    ensures CutsReplacement(text, |data|) ==> !WellFormed(data)
  {
    assert text[..|data|] == data;
    if CutsReplacement(text, |data|) {
      CutIsNotWellFormed(text, |data|);
    }
  }

  lemma ScalarsAreWellFormed(strip: bool, p: Parser, text: seq<byte>, rest: seq<byte>)
    requires Between(strip, p, text, rest, 0)
    ensures WellFormed(text)
  {
  }

  lemma StartsBetween(o: Options, state: Option<Parser>, raw: seq<byte>)
    requires Accepted(o) && !o.collapse && Ahead(o.stripAnsi, CopyState(state), raw)
    ensures var c := Start(state); Between(o.stripAnsi, c.parser, c.text, raw, 0) && Fits(o, c.text) && c.text == [] && c.scanned == 0
  {
    hide CopyState, Ahead;
  }

  /** With a budget two bytes past the beginning of a U+FFFD, the page ends there. */
  lemma BudgetInsideReplacement(o: Options, raw: seq<byte>, c: Cursor, k: int)
    requires !o.collapse && |c.text| <= o.maxBytes && ReplacementAt(Reach(o, raw, c), k) && o.maxBytes == k + 2
    ensures |RawRun(o, raw, c, c).cursor.text| == k + 2
  {
    hide RawRun, Reach;
    var text := Reach(o, raw, c);
    var data := RawRun(o, raw, c, c).cursor.text;
    var out := RunFills(o, raw, c, c);
    ReplacementBytes(text, k);
    if RawRun(o, raw, c, c).stop.BudgetStop? && |data| < k + 2 {
      NoRoomIsInside(text, data, out, k);
    }
  }

  /** An emission that does not end by two bytes into a U+FFFD begins there. */
  lemma NoRoomIsInside(text: seq<byte>, data: seq<byte>, out: seq<byte>, k: int)
    requires ReplacementAt(text, k) && Emission(out) && data + out <= text && (Utf8Width(out[0]) == 1 ==> |out| == 1)
    requires |data| < k + 2
    ensures |data| + |out| <= k + 2
  {
    hide Emission;
    ReplacementBytes(text, k);
    EmissionBytes(text, data, out);
  }

  lemma EmissionBytes(text: seq<byte>, data: seq<byte>, out: seq<byte>)
    requires Emission(out) && data + out <= text
    ensures forall i :: |data| <= i < |data| + |out| ==> text[i] == out[i - |data|]
    ensures forall i :: |data| < i < |data| + |out| ==> Continuation(text[i])
    ensures |out| > 1 ==> |out| == Utf8Width(text[|data|])
    ensures |out| == 3 ==> !(text[|data|] == 0xef && text[|data| + 1] == 0xbf && text[|data| + 2] == 0xbd)
  {
    var whole := data + out;
    assert forall i :: 0 <= i < |whole| ==> text[i] == whole[i];
    assert forall i :: |data| <= i < |whole| ==> whole[i] == out[i - |data|];
    assert |out| == 3 ==> out == [text[|data|], text[|data| + 1], text[|data| + 2]];
  }

  /**
   * Over well-formed text, every byte budget gives a well-formed first page exactly when the text within
   * reach of the scan cap has no U+FFFD from its third byte on.
   */
  lemma EveryBudgetIsWellFormedExactlyWithoutReplacements(chunks: seq<seq<byte>>, state: Option<Parser>, o: Options)
    requires Accepted(o) && Safe(chunks) && !o.collapse && Ahead(o.stripAnsi, CopyState(state), Flatten(chunks))
    ensures (forall m :: Accepted(o.(maxBytes := m)) ==> WellFormed(Present(chunks, state, o.(maxBytes := m)).page.data))
            <==> forall k :: 2 <= k ==> !ReplacementAt(Reach(o, Flatten(chunks), Start(state)), k)
  {
    hide RawRun, Reach, Safe, Ahead, WellFormed, CopyState, ReplacementAt, FirstRun, PageOf;
    var raw := Flatten(chunks);
    var text := Reach(o, raw, Start(state));
    forall m
      ensures Reach(o.(maxBytes := m), raw, Start(state)) == text
    {
      SameReach(o, o.(maxBytes := m), raw, Start(state));
    }
    if forall k :: 2 <= k ==> !ReplacementAt(text, k) {
      forall m | Accepted(o.(maxBytes := m))
        ensures WellFormed(Present(chunks, state, o.(maxBytes := m)).page.data)
      {
        PageCutsOnlyReplacements(chunks, state, o.(maxBytes := m));
      }
    }
    if k :| 2 <= k && ReplacementAt(text, k) {
      var m := k + 2;
      var p := o.(maxBytes := m);
      StartsBetween(o, state, raw);
      ReachWithinCap(o, raw, Start(state));
      ReplacementWithin(text, k);
      assert Accepted(p);
      BudgetInsideReplacement(p, raw, Start(state), k);
      PlainPage(chunks, state, p);
      PageCutsOnlyReplacements(chunks, state, p);
      assert CutsReplacement(text, m);
    }
  }

  lemma ReplacementWithin(text: seq<byte>, k: int)
    requires ReplacementAt(text, k)
    ensures k + 3 <= |text|
  {
  }

  lemma {:induction false} SameReach(o: Options, p: Options, rest: seq<byte>, c: Cursor)
    requires o.stripAnsi == p.stripAnsi && o.rawScanCap == p.rawScanCap
    ensures Reach(o, rest, c) == Reach(p, rest, c)
    decreases |rest|, if c.parser.mode == Escape then 1 else 0
  {
    if rest != [] && c.scanned < o.rawScanCap {
      var step := NextStep(o.stripAnsi, c.parser, rest);
      if step.Control? {
        SameReach(o, p, rest[step.width..], Passed(c, step.next, step.width));
      } else if step.Text? {
        SameReach(o, p, rest[|step.out|..], Emitted(c, step.out));
      }
    }
  }

  /** With a scan cap of twice the raw bytes, what is within reach is all the unbounded pass shows. */
  lemma {:induction false} LargeCapReachesAll(o: Options, rest: seq<byte>, c: Cursor)
    requires c.scanned + 2 * |rest| + (if c.parser.mode == Escape then 1 else 0) <= o.rawScanCap
    ensures Reach(o, rest, c) == c.text + Strip(o.stripAnsi, c.parser, rest).text
    decreases |rest|, if c.parser.mode == Escape then 1 else 0
  {
    hide CopyState;
    if rest == [] {
      assert c.text + [] == c.text;
    } else {
      var step := NextStep(o.stripAnsi, c.parser, rest);
      if step.Incomplete? {
        assert c.text + [] == c.text;
      } else if step.Control? {
        LargeCapReachesAll(o, rest[step.width..], Passed(c, step.next, step.width));
      } else {
        StepBounds(o.stripAnsi, c.parser, rest);
        LargeCapReachesAll(o, rest[|step.out|..], Emitted(c, step.out));
        Assoc(c.text, step.out, Strip(o.stripAnsi, c.parser, rest[|step.out|..]).text);
      }
    }
  }

  /** With a scan cap that lets a page look at every byte, that is the text of the unbounded pass. */
  lemma EveryBudgetIsWellFormedExactlyOverTheWholeText(chunks: seq<seq<byte>>, state: Option<Parser>, o: Options)
    requires Accepted(o) && Safe(chunks) && !o.collapse && Ahead(o.stripAnsi, CopyState(state), Flatten(chunks))
    requires o.rawScanCap >= 2 * |Flatten(chunks)| + 1
    ensures (forall m :: Accepted(o.(maxBytes := m)) ==> WellFormed(Present(chunks, state, o.(maxBytes := m)).page.data))
            <==> forall k :: 2 <= k ==> !ReplacementAt(Strip(o.stripAnsi, CopyState(state), Flatten(chunks)).text, k)
  {
    hide RawRun, Reach, Safe, Ahead, WellFormed, CopyState, ReplacementAt, Present, Strip;
    var s := Strip(o.stripAnsi, CopyState(state), Flatten(chunks));
    EveryBudgetIsWellFormedExactlyWithoutReplacements(chunks, state, o);
    LargeCapReachesAll(o, Flatten(chunks), Start(state));
    assert [] + s.text == s.text;
  }
}
