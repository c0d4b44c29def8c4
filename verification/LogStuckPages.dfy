/** Exactly which pages give back the place they were asked for, so that paging goes no further. */
module LogStuckPages {
  import opened Bytes
  import opened Lines
  import opened LogPresentation
  import opened LogPresentationLaws
  import opened LogPaging
  import opened LogRawRun

  /**
   * How the first line of text ends: with a newline, or with the bytes, at some length; over the collapsing
   * bound; or out of reach of the scan cap.
   */
  datatype LineEnd = Ended(length: nat) | RunsOut(length: nat) | Overflows | OutOfReach

  /** The first line of the bytes ahead, `c.text` of it read already. Budgets and chunks play no part. */
  function FirstLine(o: Options, rest: seq<byte>, c: Cursor): LineEnd
    decreases |rest|, if c.parser.mode == Escape then 1 else 0
  {
    if rest == [] then RunsOut(|c.text|)
    else if c.scanned >= o.rawScanCap then OutOfReach
    else
      match NextStep(o.stripAnsi, c.parser, rest)
      case Incomplete => RunsOut(|c.text|)
      case Control(next, width) => FirstLine(o, rest[width..], Passed(c, next, width))
      case Text(out, need) =>
        if c.scanned + need > o.rawScanCap then OutOfReach
        else if out == [NEWLINE] then Ended(|c.text| + 1)
        else if |c.text| + |out| > MAX_DEDUP_LINE_BYTES then Overflows
        else FirstLine(o, rest[|out|..], Emitted(c, out))
  }

  /** Nothing can be read but text, and the first scalar is out of reach, or the first line does not fit a collapsed page. */
  predicate Stuck(o: Options, rest: seq<byte>, c: Cursor) {
    rest != [] && NextStep(o.stripAnsi, c.parser, rest).Text? &&
    if !o.collapse then NextStep(o.stripAnsi, c.parser, rest).need > o.rawScanCap
    else match FirstLine(o, rest, c)
      case Ended(length) => length > o.maxBytes
      case RunsOut(length) => length > o.maxBytes
      case OutOfReach => true
      case Overflows => false
  }

  // ----- what has been read of the first line -----

  predicate InFirstLine(text: seq<byte>) {
    NEWLINE !in text && |text| <= MAX_DEDUP_LINE_BYTES
  }

  lemma FirstLineView(o: Options, text: seq<byte>)
    requires o.collapse && InFirstLine(text)
    ensures View(o, text) == Emitter([], text, None, true) && Fits(o, text) == (0 <= o.maxBytes)
  {
    LineLengthNone(text);
  }

  /** The newline of the first line: the line is whole, and goes into the page. */
  lemma EndedView(o: Options, text: seq<byte>)
    requires o.collapse && InFirstLine(text)
    ensures View(o, text + [NEWLINE]) == Emitter(text + [NEWLINE], [], Some(text + [NEWLINE]), true)
  {
    var line := text + [NEWLINE];
    LineLengthNone(text);
    LineLengthAppend(text, [NEWLINE]);
    assert LineLength([NEWLINE]) == 0 && LineLength(line) == |text|;
    assert line[..|text| + 1] == line && line[|text| + 1..] == [];
    assert Collapse([], Some(line)) == Emitter([], [], Some(line), true);
    assert line + [] == line;
  }

  lemma OverflowsView(o: Options, text: seq<byte>)
    requires o.collapse && NEWLINE !in text && |text| > MAX_DEDUP_LINE_BYTES
    ensures View(o, text) == Emitter(text, [], None, false)
  {
    LineLengthNone(text);
  }

  // ----- a run that has moved on -----

  /** Not where the page began: bytes used up, or an unknown escape left behind. */
  predicate Moved(s: Parser, c: Cursor) {
    c.consumed > 0 || (s.mode == Escape && c.parser.mode == Ground)
  }

  /** Neither the cursor nor the place it would be rolled back to is where the page began. */
  predicate MovedOn(o: Options, s: Parser, c: Cursor, lineStart: Cursor) {
    Moved(s, c) && (View(o, c.text).line != [] ==> Moved(s, lineStart))
  }

  lemma TextMovesOn(o: Options, s: Parser, c: Cursor, lineStart: Cursor, out: seq<byte>)
    requires MovedOn(o, s, c, lineStart) && out != []
    ensures MovedOn(o, s, Emitted(c, out), LineStart(o, c, lineStart))
    ensures View(o, c.text).line != [] ==> Moved(s, LineStart(o, c, lineStart))
  {
    hide Collapse;
    ViewGrows(o, c.text, out);
    if o.collapse {
      CollapseShape(c.text + out, None);
    }
  }

  lemma {:induction false} RunMovesOn(o: Options, s: Parser, rest: seq<byte>, c: Cursor, lineStart: Cursor)
    requires MovedOn(o, s, c, lineStart)
    ensures var run := RawRun(o, rest, c, lineStart); MovedOn(o, s, run.cursor, run.lineStart)
    decreases |rest|, if c.parser.mode == Escape then 1 else 0
  {
    hide View, Fits, LineStart;
    if rest != [] && c.scanned < o.rawScanCap {
      var step := NextStep(o.stripAnsi, c.parser, rest);
      if step.Control? {
        RunMovesOn(o, s, rest[step.width..], Passed(c, step.next, step.width), lineStart);
      } else if step.Text? && c.scanned + step.need <= o.rawScanCap {
        TextMovesOn(o, s, c, lineStart, step.out);
        if Fits(o, c.text + step.out) {
          RunMovesOn(o, s, rest[|step.out|..], Emitted(c, step.out), LineStart(o, c, lineStart));
        }
      }
    }
  }

  lemma {:induction false} RunFits(o: Options, rest: seq<byte>, c: Cursor, lineStart: Cursor)
    requires Fits(o, c.text)
    ensures var run := RawRun(o, rest, c, lineStart);
            Fits(o, run.cursor.text) && c.text <= run.cursor.text && c.consumed <= run.cursor.consumed
    decreases |rest|, if c.parser.mode == Escape then 1 else 0
  {
    hide Fits, LineStart;
    if rest != [] && c.scanned < o.rawScanCap {
      var step := NextStep(o.stripAnsi, c.parser, rest);
      if step.Control? {
        RunFits(o, rest[step.width..], Passed(c, step.next, step.width), lineStart);
      } else if step.Text? && c.scanned + step.need <= o.rawScanCap && Fits(o, c.text + step.out) {
        RunFits(o, rest[|step.out|..], Emitted(c, step.out), LineStart(o, c, lineStart));
      }
    }
  }

  /** A run that has moved on leaves a page that has. */
  lemma MovedPage(o: Options, s: Parser, run: Outcome)
    requires MovedOn(o, s, run.cursor, run.lineStart) && Fits(o, run.cursor.text)
    ensures Moved(s, End(o, run).cursor)
  {
    hide View;
  }

  // ----- the run while it is in the first line -----

  lemma {:induction false} RunOfFirstLine(o: Options, s: Parser, rest: seq<byte>, c: Cursor, lineStart: Cursor)
    requires o.collapse && 0 <= o.maxBytes && InFirstLine(c.text) && c.text != [] && c.consumed > 0
    ensures var run := RawRun(o, rest, c, lineStart);
            match FirstLine(o, rest, c)
            case Ended(n) =>
              if n > o.maxBytes then run.stop == BudgetStop(false) && InFirstLine(run.cursor.text) && run.lineStart == lineStart && run.cursor.text != []
              else MovedOn(o, s, run.cursor, run.lineStart)
            case RunsOut(n) =>
              (run.stop.AtEnd? || run.stop.CutScalar?) && InFirstLine(run.cursor.text) && |run.cursor.text| == n && run.lineStart == lineStart
            case OutOfReach => run.stop == ScanStop && InFirstLine(run.cursor.text) && run.lineStart == lineStart && run.cursor.text != []
            case Overflows => run.cursor.consumed > 0 && (run.stop == BudgetStop(true) || MovedOn(o, s, run.cursor, run.lineStart))
    decreases |rest|, if c.parser.mode == Escape then 1 else 0
  {
    hide View, Fits, NextStep, MovedOn;
    FirstLineView(o, c.text);
    if rest != [] && c.scanned < o.rawScanCap {
      var step := NextStep(o.stripAnsi, c.parser, rest);
      if step.Control? {
        RunOfFirstLine(o, s, rest[step.width..], Passed(c, step.next, step.width), lineStart);
      } else if step.Text? && c.scanned + step.need <= o.rawScanCap {
        FirstLineText(o, s, rest, c, lineStart);
        if step.out != [NEWLINE] && |c.text| + |step.out| <= MAX_DEDUP_LINE_BYTES {
          FirstLineView(o, c.text + step.out);
          RunOfFirstLine(o, s, rest[|step.out|..], Emitted(c, step.out), lineStart);
        }
      }
    }
  }

  /** One scalar in the first line: it ends the line, overflows it, or makes it longer. */
  lemma FirstLineText(o: Options, s: Parser, rest: seq<byte>, c: Cursor, lineStart: Cursor)
    requires o.collapse && 0 <= o.maxBytes && InFirstLine(c.text) && c.text != [] && c.consumed > 0
    requires rest != [] && c.scanned < o.rawScanCap && NextStep(o.stripAnsi, c.parser, rest).Text?
    requires c.scanned + NextStep(o.stripAnsi, c.parser, rest).need <= o.rawScanCap
    ensures LineStart(o, c, lineStart) == lineStart
    ensures var out := NextStep(o.stripAnsi, c.parser, rest).out;
            var run := RawRun(o, rest, c, lineStart);
            && (out == [NEWLINE] && |c.text| + 1 > o.maxBytes ==>
                  run.stop == BudgetStop(false) && run.cursor.text == c.text && run.lineStart == lineStart)
            && (out == [NEWLINE] && |c.text| + 1 <= o.maxBytes ==> MovedOn(o, s, run.cursor, run.lineStart))
            && (out != [NEWLINE] && |c.text| + |out| > MAX_DEDUP_LINE_BYTES ==>
                  run.cursor.consumed > 0 && (run.stop == BudgetStop(true) || MovedOn(o, s, run.cursor, run.lineStart)))
            && (out != [NEWLINE] && |c.text| + |out| <= MAX_DEDUP_LINE_BYTES ==> InFirstLine(c.text + out) && Fits(o, c.text + out))
  {
    hide View, NextStep;
    var out := NextStep(o.stripAnsi, c.parser, rest).out;
    FirstLineView(o, c.text);
    StepTextIsOneScalar(o.stripAnsi, c.parser, rest);
    StepBounds(o.stripAnsi, c.parser, rest);
    if out == [NEWLINE] {
      EndedView(o, c.text);
      if |c.text| + 1 <= o.maxBytes {
        RunMovesOn(o, s, rest[1..], Emitted(c, out), lineStart);
      }
    } else if |c.text| + |out| > MAX_DEDUP_LINE_BYTES {
      OverflowsView(o, c.text + out);
      if Fits(o, c.text + out) {
        RunFits(o, rest[|out|..], Emitted(c, out), lineStart);
        RunMovesOn(o, s, rest[|out|..], Emitted(c, out), lineStart);
      }
    } else {
      FirstLineView(o, c.text + out);
    }
  }

  // ----- exactly when -----

  /**
   * A page that was cut short gives back the very place and parser state it was asked for exactly when it is stuck:
   * it begins with text, and the first scalar asks for more than the scan cap, or, with collapsing on, the first line
   * of at most 64 KiB is longer than the byte budget or not to be reached within the scan cap.
   */
  lemma PageIsStuckExactly(chunks: seq<seq<byte>>, state: Option<Parser>, o: Options)
    requires Accepted(o) && Safe(chunks)
    ensures var page := Present(chunks, state, o).page;
            page.truncated && page.consumedRawBytes == 0 && page.state == CopyState(state) <==> Stuck(o, Flatten(chunks), Start(state))
  {
    hide Run, RawRun, FirstLine, NextStep, View, Safe, CopyState, FirstRun, Fits;
    var raw, c, s := Flatten(chunks), Start(state), CopyState(state);
    FirstRunIsRawRun(o, chunks, state);
    EmptyView(o);
    assert c.text == [] && c.consumed == 0 && c.scanned == 0 && c.parser == s;
    if raw == [] {
      RawEnds(o, c, c);
    } else if NextStep(o.stripAnsi, s, raw).Incomplete? {
      RawCut(o, raw, c, c);
    } else if NextStep(o.stripAnsi, s, raw).Control? {
      ControlIsNotStuck(o, raw, c);
    } else {
      TextIsStuckExactly(o, raw, c);
    }
  }

  lemma EmptyView(o: Options)
    ensures View(o, []) == Emitter([], [], None, true) && (0 <= o.maxBytes ==> Fits(o, []))
  {
  }

  /** The page of this run is where it began. */
  predicate StaysPut(o: Options, run: Outcome, s: Parser) {
    var page := PageOf(o, run);
    page.truncated && page.consumedRawBytes == 0 && page.state == s
  }

  lemma MovedIsNotPut(o: Options, run: Outcome, s: Parser)
    requires MovedOn(o, s, run.cursor, run.lineStart) && Fits(o, run.cursor.text)
    ensures !StaysPut(o, run, s)
  {
    MovedPage(o, s, run);
    hide End, MovedOn, View;
  }

  lemma ControlIsNotStuck(o: Options, raw: seq<byte>, c: Cursor)
    requires Accepted(o) && c.text == [] && c.consumed == 0 && c.scanned == 0 && raw != []
    requires NextStep(o.stripAnsi, c.parser, raw).Control?
    ensures !StaysPut(o, RawRun(o, raw, c, c), c.parser)
  {
    hide RawRun, NextStep, View, Fits, StaysPut;
    var step := NextStep(o.stripAnsi, c.parser, raw);
    EmptyView(o);
    RawStarts(o, raw, c, c);
    ControlWidth(o.stripAnsi, c.parser, raw);
    var next := Passed(c, step.next, step.width);
    RunMovesOn(o, c.parser, raw[step.width..], next, c);
    RunFits(o, raw[step.width..], next, c);
    MovedIsNotPut(o, RawRun(o, raw, c, c), c.parser);
  }

  lemma TextIsStuckExactly(o: Options, raw: seq<byte>, c: Cursor)
    requires Accepted(o) && c.text == [] && c.consumed == 0 && c.scanned == 0 && raw != []
    requires NextStep(o.stripAnsi, c.parser, raw).Text?
    ensures StaysPut(o, RawRun(o, raw, c, c), c.parser) <==> Stuck(o, raw, c)
  {
    hide RawRun, NextStep, View, Fits, LineStart, StaysPut;
    var step := NextStep(o.stripAnsi, c.parser, raw);
    EmptyView(o);
    RawStarts(o, raw, c, c);
    StepBounds(o.stripAnsi, c.parser, raw);
    AfterTextIs(o, raw, c, c, step.out, step.need);
    if step.need > o.rawScanCap {
      CutAtOnce(o, c);
    } else {
      var next, start := Emitted(c, step.out), LineStart(o, c, c);
      assert [] + step.out == step.out;
      FirstScalar(o, c, step.out);
      var run := RawRun(o, raw[|step.out|..], next, start);
      RunFits(o, raw[|step.out|..], next, start);
      StepTextIsOneScalar(o.stripAnsi, c.parser, raw);
      if !o.collapse || step.out == [NEWLINE] {
        NothingHeldYet(o, step.out);
        RunMovesOn(o, c.parser, raw[|step.out|..], next, start);
        MovedIsNotPut(o, run, c.parser);
      } else {
        RunOfFirstLine(o, c.parser, raw[|step.out|..], next, start);
        FirstLineDecides(o, raw[|step.out|..], next, start, c.parser);
      }
    }
  }

  lemma CutAtOnce(o: Options, c: Cursor)
    requires c.text == [] && c.consumed == 0
    ensures StaysPut(o, Outcome(ScanStop, c, c), c.parser)
  {
    EmptyView(o);
  }

  /** The first scalar always fits; with collapsing on, it is where the first line starts. */
  lemma FirstScalar(o: Options, c: Cursor, out: seq<byte>)
    requires Accepted(o) && c.text == [] && 1 <= |out| <= 4
    ensures Fits(o, out) && (o.collapse ==> LineStart(o, c, c) == c.(scanned := c.scanned + 1)) && (!o.collapse ==> LineStart(o, c, c) == c)
  {
    EmptyView(o);
    if o.collapse && NEWLINE !in out {
      FirstLineView(o, out);
    } else if o.collapse {
      ShortFits(out, None);
    }
  }

  lemma {:induction false} ShortFits(text: seq<byte>, previous: Option<seq<byte>>)
    ensures |Collapse(text, previous).output| <= |text|
    decreases |text|
  {
    var n := LineLength(text);
    if n <= MAX_DEDUP_LINE_BYTES && n < |text| {
      ShortFits(text[n + 1..], Some(text[..n + 1]));
    }
  }

  lemma NothingHeldYet(o: Options, out: seq<byte>)
    requires !o.collapse || out == [NEWLINE]
    ensures View(o, out).line == []
  {
    if o.collapse {
      EndedView(o, []);
      assert [] + [NEWLINE] == [NEWLINE];
    }
  }

  /** What becomes of the page is decided by how its first line ends. */
  lemma FirstLineDecides(o: Options, rest: seq<byte>, c: Cursor, lineStart: Cursor, s: Parser)
    requires o.collapse && 0 <= o.maxBytes && InFirstLine(c.text) && c.text != [] && c.consumed > 0 && Fits(o, c.text)
    requires lineStart.consumed == 0 && lineStart.parser == s
    ensures StaysPut(o, RawRun(o, rest, c, lineStart), s) <==>
              match FirstLine(o, rest, c)
              case Ended(length) => length > o.maxBytes
              case RunsOut(length) => length > o.maxBytes
              case OutOfReach => true
              case Overflows => false
  {
    hide RawRun, FirstLine, View, Fits, MovedOn;
    var run := RawRun(o, rest, c, lineStart);
    RunOfFirstLine(o, s, rest, c, lineStart);
    RunFits(o, rest, c, lineStart);
    if InFirstLine(run.cursor.text) {
      FirstLineView(o, run.cursor.text);
    }
    if MovedOn(o, s, run.cursor, run.lineStart) {
      MovedIsNotPut(o, run, s);
    }
  }

  // ----- a log that cannot be paged -----

  lemma {:induction false} LettersRunOut(o: Options, ahead: nat, behind: nat)
    requires ahead + behind <= MAX_DEDUP_LINE_BYTES
    ensures var end := FirstLine(o, Letters(ahead), Cursor(INITIAL, behind, behind, Letters(behind)));
            end == RunsOut(ahead + behind) || end == OutOfReach
    decreases ahead
  {
    if ahead > 0 {
      LettersStep(o.stripAnsi, ahead);
      assert Letters(behind) + [0x61] == Letters(behind + 1);
      LettersRunOut(o, ahead - 1, behind + 1);
    }
  }

  /** With collapsing on, a line of letters longer than the byte budget, up to 64 KiB: the first page stays at the beginning. */
  lemma LongLineSticks(o: Options, n: nat)
    requires Accepted(o) && o.collapse && o.maxBytes < n <= 65536
    ensures var page := Present([Letters(n)], None, o).page;
            page.truncated && page.consumedRawBytes == 0 && page.state == INITIAL
  {
    hide FirstLine, Safe, Present, NextStep;
    assert Start(None) == Cursor(INITIAL, 0, 0, []) && Letters(0) == [];
    LettersStep(o.stripAnsi, n);
    LettersRunOut(o, n, 0);
    OneChunkIsSafe(Letters(n));
    FlattenOne(Letters(n));
    PageIsStuckExactly([Letters(n)], None, o);
  }
}
