/** A page's run on the raw bytes alone, without the chunks, and the pass within the scan cap that it is part of. */
module LogRawRun {
  import opened Bytes
  import opened Lines
  import opened LogPresentation
  import opened LogPresentationLaws
  import opened LogPaging

  function Passed(c: Cursor, next: Parser, width: nat): Cursor {
    Cursor(next, c.consumed + width, c.scanned + 1, c.text)
  }

  function Emitted(c: Cursor, out: seq<byte>): Cursor {
    Cursor(c.parser, c.consumed + |out|, c.scanned + |out|, c.text + out)
  }

  /** The run of a page over the bytes ahead. */
  function RawRun(o: Options, rest: seq<byte>, c: Cursor, lineStart: Cursor): Outcome
    decreases |rest|, if c.parser.mode == Escape then 1 else 0
  {
    if rest == [] then Outcome(AtEnd, c, lineStart)
    else if c.scanned >= o.rawScanCap then Outcome(ScanStop, c, lineStart)
    else
      match NextStep(o.stripAnsi, c.parser, rest)
      case Incomplete => Outcome(CutScalar, c, lineStart)
      case Control(next, width) => RawRun(o, rest[width..], Passed(c, next, width), lineStart)
      case Text(out, need) =>
        if c.scanned + need > o.rawScanCap then Outcome(ScanStop, c, lineStart)
        else
          var start := LineStart(o, c, lineStart);
          if !Fits(o, c.text + out) then Outcome(BudgetStop(Overlong(o, c.text, out)), c.(scanned := c.scanned + 1), start)
          else RawRun(o, rest[|out|..], Emitted(c, out), start)
  }

  /** The run from a scalar on: no room to scan it, no room to show it, or past it. */
  function AfterText(o: Options, rest: seq<byte>, c: Cursor, lineStart: Cursor, out: seq<byte>, need: nat): Outcome
    requires |out| <= |rest|
  {
    var start := LineStart(o, c, lineStart);
    if c.scanned + need > o.rawScanCap then Outcome(ScanStop, c, lineStart)
    else if !Fits(o, c.text + out) then Outcome(BudgetStop(Overlong(o, c.text, out)), c.(scanned := c.scanned + 1), start)
    else RawRun(o, rest[|out|..], Emitted(c, out), start)
  }

  lemma RawStarts(o: Options, rest: seq<byte>, c: Cursor, lineStart: Cursor)
    requires rest != [] && c.scanned < o.rawScanCap
    ensures var step := NextStep(o.stripAnsi, c.parser, rest);
            && (step.Control? ==>
                  step.width <= |rest|
                  && RawRun(o, rest, c, lineStart) == RawRun(o, rest[step.width..], Passed(c, step.next, step.width), lineStart))
            && (step.Text? ==> |step.out| <= |rest|)
            && (step.Text? ==> RawRun(o, rest, c, lineStart) == AfterText(o, rest, c, lineStart, step.out, step.need))
  {
    hide Fits, Overlong, LineStart;
  }

  lemma RawCut(o: Options, rest: seq<byte>, c: Cursor, lineStart: Cursor)
    requires rest != [] && (c.scanned >= o.rawScanCap || NextStep(o.stripAnsi, c.parser, rest).Incomplete?)
    ensures RawRun(o, rest, c, lineStart) == Outcome(if c.scanned >= o.rawScanCap then ScanStop else CutScalar, c, lineStart)
  {
  }

  /** Over chunks that are counted right, the run is that over the bytes. */
  lemma {:induction false} RunIsRawRun(o: Options, chunks: seq<seq<byte>>, rest: seq<byte>, pos: Pos, c: Cursor, lineStart: Cursor)
    requires Safe(chunks) && Rest(chunks, pos) == rest
    ensures Run(o, chunks, pos, c, lineStart) == RawRun(o, rest, c, lineStart)
    decreases |rest|, if c.parser.mode == Escape then 1 else 0, |chunks| - pos.chunk
  {
    hide *;
    if pos.chunk >= |chunks| {
      RunEnds(o, chunks, pos, c, lineStart);
      RestEmpty(chunks, pos);
      RawEnds(o, c, lineStart);
    } else if pos.offset >= |chunks[pos.chunk]| {
      RunNextChunk(o, chunks, pos, c, lineStart);
      RunIsRawRun(o, chunks, rest, Pos(pos.chunk + 1, 0), c, lineStart);
    } else {
      RestStarts(chunks, pos);
      var step := NextStep(o.stripAnsi, c.parser, rest);
      if c.scanned >= o.rawScanCap || step.Incomplete? {
        RunCut(o, chunks, pos, c, lineStart);
        RawCut(o, rest, c, lineStart);
      } else if step.Control? {
        RunControl(o, chunks, pos, c, lineStart);
        RawStarts(o, rest, c, lineStart);
        ControlWidth(o.stripAnsi, c.parser, rest);
        LandsRightIs(chunks, pos, step.width);
        MoveIs(chunks, pos, step.width);
        PassedIs(c, step.next, step.width);
        RunIsRawRun(o, chunks, rest[step.width..], Pos(pos.chunk, pos.offset + step.width), Passed(c, step.next, step.width), lineStart);
      } else {
        RunText(o, chunks, pos, c, lineStart);
        RawStarts(o, rest, c, lineStart);
        StepBounds(o.stripAnsi, c.parser, rest);
        LandsRightIs(chunks, pos, |step.out|);
        EmittedIs(c, step.out);
        AfterTextIs(o, rest, c, lineStart, step.out, step.need);
        if c.scanned + step.need <= o.rawScanCap && Fits(o, c.text + step.out) {
          RunIsRawRun(o, chunks, rest[|step.out|..], Move(chunks, pos, |step.out|).pos, Emitted(c, step.out), LineStart(o, c, lineStart));
        }
      }
    }
  }

  lemma AfterTextIs(o: Options, rest: seq<byte>, c: Cursor, lineStart: Cursor, out: seq<byte>, need: nat)
    requires |out| <= |rest|
    ensures AfterText(o, rest, c, lineStart, out, need)
            == if c.scanned + need > o.rawScanCap then Outcome(ScanStop, c, lineStart)
               else if !Fits(o, c.text + out) then
                 Outcome(BudgetStop(Overlong(o, c.text, out)), c.(scanned := c.scanned + 1), LineStart(o, c, lineStart))
               else RawRun(o, rest[|out|..], Emitted(c, out), LineStart(o, c, lineStart))
  {
  }

  lemma RawEnds(o: Options, c: Cursor, lineStart: Cursor)
    ensures RawRun(o, [], c, lineStart) == Outcome(AtEnd, c, lineStart)
  {
  }

  lemma PassedIs(c: Cursor, next: Parser, width: nat)
    ensures Passed(c, next, width) == Cursor(next, c.consumed + width, c.scanned + 1, c.text)
  {
  }

  lemma EmittedIs(c: Cursor, out: seq<byte>)
    ensures Emitted(c, out) == Cursor(c.parser, c.consumed + |out|, c.scanned + |out|, c.text + out)
  {
  }

  function Start(state: Option<Parser>): Cursor {
    Cursor(CopyState(state), 0, 0, [])
  }

  lemma FirstRunIsRawRun(o: Options, chunks: seq<seq<byte>>, state: Option<Parser>)
    requires Safe(chunks)
    ensures FirstRun(chunks, state, o) == RawRun(o, Flatten(chunks), Start(state), Start(state))
  {
    hide Run, RawRun, Rest, Safe, CopyState;
    RestOfAll(chunks);
    RunIsRawRun(o, chunks, Flatten(chunks), Pos(0, 0), Start(state), Start(state));
  }

  // ----- losing an overlong line -----

  /** A scalar that takes a line over the collapsing bound, and the text before it. */
  datatype Overflow = Overflow(text: seq<byte>, out: seq<byte>)

  /** The first such scalar of the bytes ahead that the scan cap lets a page reach. Budgets and chunks play no part. */
  function FirstOverflow(o: Options, rest: seq<byte>, c: Cursor): Option<Overflow>
    decreases |rest|, if c.parser.mode == Escape then 1 else 0
  {
    if rest == [] || c.scanned >= o.rawScanCap then None
    else
      match NextStep(o.stripAnsi, c.parser, rest)
      case Incomplete => None
      case Control(next, width) => FirstOverflow(o, rest[width..], Passed(c, next, width))
      case Text(out, need) =>
        if c.scanned + need > o.rawScanCap then None
        else if Overlong(o, c.text, out) then Some(Overflow(c.text, out))
        else FirstOverflow(o, rest[|out|..], Emitted(c, out))
  }

  /** That scalar finds the finished lines within the byte budget, and the line it belongs to over it. */
  predicate ThrowsAway(o: Options, rest: seq<byte>, c: Cursor) {
    var f := FirstOverflow(o, rest, c);
    f.Some? && Fits(o, f.value.text) && !Fits(o, f.value.text + f.value.out)
  }

  lemma ViewGrows(o: Options, text: seq<byte>, more: seq<byte>)
    ensures |View(o, text).output| <= |View(o, text + more).output|
    ensures !View(o, text).dedupLine ==> !View(o, text + more).dedupLine
  {
    if o.collapse {
      CollapseAppend(text, more, None);
    }
  }

  lemma {:induction false} OverflowExtends(o: Options, rest: seq<byte>, c: Cursor)
    requires FirstOverflow(o, rest, c).Some?
    ensures c.text <= FirstOverflow(o, rest, c).value.text
    ensures View(o, FirstOverflow(o, rest, c).value.text).dedupLine
    decreases |rest|, if c.parser.mode == Escape then 1 else 0
  {
    hide View;
    var step := NextStep(o.stripAnsi, c.parser, rest);
    if step.Control? {
      OverflowExtends(o, rest[step.width..], Passed(c, step.next, step.width));
    } else if !Overlong(o, c.text, step.out) {
      OverflowExtends(o, rest[|step.out|..], Emitted(c, step.out));
    }
  }

  lemma PrefixRest(a: seq<byte>, b: seq<byte>)
    requires a <= b
    ensures a + b[|a|..] == b
  {
  }

  /** Text that does not fit, or has an overlong line already, is past throwing a line away. */
  lemma NoMoreOverflow(o: Options, rest: seq<byte>, c: Cursor)
    requires !Fits(o, c.text) || !View(o, c.text).dedupLine
    ensures !ThrowsAway(o, rest, c)
  {
    hide FirstOverflow, View;
    var f := FirstOverflow(o, rest, c);
    if f.Some? {
      OverflowExtends(o, rest, c);
      PrefixRest(c.text, f.value.text);
      ViewGrows(o, c.text, f.value.text[|c.text|..]);
    }
  }

  lemma {:induction false} RunThrowsExactly(o: Options, rest: seq<byte>, c: Cursor, lineStart: Cursor)
    requires Fits(o, c.text)
    ensures RawRun(o, rest, c, lineStart).stop == BudgetStop(true) <==> ThrowsAway(o, rest, c)
    decreases |rest|, if c.parser.mode == Escape then 1 else 0
  {
    hide View, Fits, LineStart;
    if rest != [] && c.scanned < o.rawScanCap {
      var step := NextStep(o.stripAnsi, c.parser, rest);
      if step.Control? {
        RunThrowsExactly(o, rest[step.width..], Passed(c, step.next, step.width), lineStart);
      } else if step.Text? && c.scanned + step.need <= o.rawScanCap {
        var next, start := Emitted(c, step.out), LineStart(o, c, lineStart);
        if !Fits(o, next.text) {
          NoMoreOverflow(o, rest[|step.out|..], next);
        } else if Overlong(o, c.text, step.out) {
          NoMoreOverflow(o, rest[|step.out|..], next);
          RunThrowsExactly(o, rest[|step.out|..], next, start);
        } else {
          RunThrowsExactly(o, rest[|step.out|..], next, start);
        }
      }
    }
  }

  /** The page accounts for all the raw bytes it consumed. */
  ghost predicate KeepsAll(o: Options, p: Parser, raw: seq<byte>, page: Page) {
    exists text :: Lossless(o, p, raw, page, text)
  }

  lemma TextIsDetermined(o: Options, p: Parser, raw: seq<byte>, page: Page, a: seq<byte>, b: seq<byte>)
    requires page.consumedRawBytes <= |raw|
    requires Strip(o.stripAnsi, p, raw) == After(a, page.consumedRawBytes, Strip(o.stripAnsi, page.state, raw[page.consumedRawBytes..]))
    requires Strip(o.stripAnsi, p, raw) == After(b, page.consumedRawBytes, Strip(o.stripAnsi, page.state, raw[page.consumedRawBytes..]))
    ensures a == b
  {
    hide Strip;
    var s := Strip(o.stripAnsi, page.state, raw[page.consumedRawBytes..]).text;
    assert |a + s| == |b + s|;
    assert (a + s)[..|a|] == a && (b + s)[..|b|] == b;
  }

  /**
   * Exactly when a page loses text it has consumed, in terms of the raw bytes: some scalar within the scan
   * cap takes a line over 64 KiB, and then the finished lines fit the page but that line does not.
   */
  lemma LosesTextExactlyWhenOverlong(chunks: seq<seq<byte>>, state: Option<Parser>, o: Options)
    requires Accepted(o) && Safe(chunks)
    ensures KeepsAll(o, CopyState(state), Flatten(chunks), Present(chunks, state, o).page)
            <==> !ThrowsAway(o, Flatten(chunks), Start(state))
  {
    hide Strip, FirstRun, CopyState, Safe, View, RawRun, ThrowsAway, End, Lossless;
    var run := FirstRun(chunks, state, o);
    var raw := Flatten(chunks);
    FirstRunIsRawRun(o, chunks, state);
    StartFits(o, state);
    RunThrowsExactly(o, raw, Start(state), Start(state));
    LostLineIsHeldLine(chunks, state, o);
    PageAccounts(chunks, state, o);
    var page := PageOf(o, run);
    if Lossless(o, CopyState(state), raw, page, PageText(o, run)) {
      assert KeepsAll(o, CopyState(state), raw, page);
    } else if KeepsAll(o, CopyState(state), raw, page) {
      var text :| Lossless(o, CopyState(state), raw, page, text);
      LosslessFollows(o, CopyState(state), raw, page, text);
      TextIsDetermined(o, CopyState(state), raw, page, text, PageText(o, run));
    }
  }

  lemma LosslessFollows(o: Options, p: Parser, raw: seq<byte>, page: Page, text: seq<byte>)
    requires Lossless(o, p, raw, page, text)
    ensures page.consumedRawBytes <= |raw|
    ensures Strip(o.stripAnsi, p, raw) == After(text, page.consumedRawBytes, Strip(o.stripAnsi, page.state, raw[page.consumedRawBytes..]))
  {
    hide Strip, After, Shown;
  }

  lemma StartFits(o: Options, state: Option<Parser>)
    requires Accepted(o)
    ensures Fits(o, Start(state).text)
  {
  }

  // ----- a log that loses text -----

  function Letters(n: nat): (r: seq<byte>)
    ensures |r| == n && forall i :: 0 <= i < n ==> r[i] == 0x61
  {
    seq(n, i => 0x61)
  }

  lemma LettersView(o: Options, n: nat)
    requires o.collapse
    ensures View(o, Letters(n)) == if n <= MAX_DEDUP_LINE_BYTES then Emitter([], Letters(n), None, true) else Emitter(Letters(n), [], None, false)
  {
    assert NEWLINE !in Letters(n);
    LineLengthNone(Letters(n));
  }

  lemma LettersStep(strip: bool, n: nat)
    requires n > 0
    ensures NextStep(strip, INITIAL, Letters(n)) == Text([0x61], 1) && Letters(n)[1..] == Letters(n - 1)
  {
    assert Letters(n)[..1] == [0x61];
    assert Letters(n)[1..] == Letters(n - 1);
  }

  lemma {:induction false} LettersOverflow(o: Options, ahead: nat, behind: nat)
    requires o.collapse && behind <= MAX_DEDUP_LINE_BYTES < ahead + behind <= o.rawScanCap
    ensures FirstOverflow(o, Letters(ahead), Cursor(INITIAL, behind, behind, Letters(behind)))
            == Some(Overflow(Letters(MAX_DEDUP_LINE_BYTES), [0x61]))
    decreases ahead
  {
    hide View;
    LettersStep(o.stripAnsi, ahead);
    assert Letters(behind) + [0x61] == Letters(behind + 1);
    LettersView(o, behind);
    LettersView(o, behind + 1);
    if behind < MAX_DEDUP_LINE_BYTES {
      LettersOverflow(o, ahead - 1, behind + 1);
    }
  }

  /** A line of letters one longer than 64 KiB, on any page that does not hold it whole: 64 KiB of it are gone. */
  lemma LongLineIsLost(o: Options)
    requires Accepted(o) && o.collapse && o.maxBytes <= 65536 < o.rawScanCap
    ensures var raw := Letters(65537);
            && ThrowsAway(o, raw, Start(None))
            && !KeepsAll(o, INITIAL, raw, Present([raw], None, o).page)
  {
    hide FirstOverflow, View, Safe, Present, KeepsAll, NextStep;
    var raw := Letters(MAX_DEDUP_LINE_BYTES + 1);
    assert Start(None) == Cursor(INITIAL, 0, 0, []) && Letters(0) == [];
    LettersOverflow(o, MAX_DEDUP_LINE_BYTES + 1, 0);
    LettersView(o, MAX_DEDUP_LINE_BYTES);
    LettersView(o, MAX_DEDUP_LINE_BYTES + 1);
    assert Letters(MAX_DEDUP_LINE_BYTES) + [0x61] == raw;
    OneChunkIsSafe(raw);
    FlattenOne(raw);
    LosesTextExactlyWhenOverlong([raw], None, o);
  }
}
