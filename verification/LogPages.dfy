/** Reading a log page by page: every page makes progress, and the pages add up to the whole text. */
module LogPages {
  import opened Bytes
  import opened Lines
  import opened LogPresentation
  import opened LogPresentationLaws
  import opened LogPaging

  // ----- paging to the end -----

  predicate Pageable(o: Options) {
    Accepted(o) && o.rawScanCap >= 4 && !o.collapse
  }

  /** One page of a finished log: the raw bytes left, in one chunk, from the parser state the last page returned. */
  function NextPage(o: Options, s: Parser, raw: seq<byte>): Page
    requires Pageable(o)
  {
    Present([raw], Some(s), o).page
  }

  /** A page that was cut short has used up a byte, or has at least left an unknown escape behind. */
  lemma PageProgresses(o: Options, s: Parser, raw: seq<byte>)
    requires Pageable(o) && Bounded(s)
    ensures var page := NextPage(o, s, raw);
            && page.consumedRawBytes <= |raw| && Bounded(page.state)
            && (page.truncated ==> page.consumedRawBytes > 0 || (s.mode == Escape && page.state.mode == Ground))
  {
    OneChunkIsSafe(raw);
    FlattenOne(raw);
    FirstRunStays(o, [raw], Some(s));
    var run := FirstRun([raw], Some(s), o);
    CopyBounded(s);
    EndPlain(o, s, raw, run);
    if raw != [] {
      FirstStepProgresses(o, s, raw);
    } else {
      EmptyIsNotCut(o, [raw], run);
    }
    hide Strip, Run, Safe, View, OnTrack;
  }

  lemma CopyBounded(s: Parser)
    requires Bounded(s)
    ensures CopyState(Some(s)) == s
  {
  }

  lemma EndPlain(o: Options, s: Parser, raw: seq<byte>, run: Outcome)
    requires !o.collapse && OnTrack(o, s, raw, run.cursor, run.lineStart) && Bounded(s)
    ensures End(o, run).cursor == run.cursor && Bounded(run.cursor.parser)
    ensures PageOf(o, run).truncated <==> run.stop.ScanStop? || run.stop.BudgetStop?
  {
    hide Strip, InSync;
  }

  lemma EmptyIsNotCut(o: Options, chunks: seq<seq<byte>>, run: Outcome)
    requires run.cursor.consumed == 0 && Justified(o, [], run)
    ensures !run.stop.ScanStop? && !run.stop.BudgetStop?
  {
  }

  /** The first step always fits: budgets are at least one scalar wide. */
  lemma FirstStepProgresses(o: Options, s: Parser, raw: seq<byte>)
    requires Pageable(o) && Bounded(s) && raw != []
    ensures var c := FirstRun([raw], Some(s), o).cursor;
            FirstRun([raw], Some(s), o).stop.CutScalar? || c.consumed > 0 || (s.mode == Escape && c.parser.mode == Ground)
  {
    var c := Cursor(s, 0, 0, []);
    CopyBounded(s);
    OneChunkIsSafe(raw);
    FlattenOne(raw);
    RestOfAll([raw]);
    StartOnTrack(o, s, raw);
    assert FirstRun([raw], Some(s), o) == Run(o, [raw], Pos(0, 0), c, c);
    StepProgresses(o, s, raw, c, c);
    var step := NextStep(o.stripAnsi, s, raw);
    if step.Control? && step.width == 0 {
      var next := Cursor(step.next, 0, 1, []);
      StepProgresses(o, s, raw, next, c);
    }
    hide Run, NextStep, Strip, Safe, OnTrack, Rest, CopyState;
  }

  /** From a cursor that has consumed nothing: the next step consumes a byte, or it is a scalar that does not fit the scan allowance left. */
  lemma StepProgresses(o: Options, s: Parser, raw: seq<byte>, c: Cursor, lineStart: Cursor)
    requires Pageable(o) && Safe([raw]) && Flatten([raw]) == raw && raw != []
    requires OnTrack(o, s, raw, c, lineStart) && c.consumed == 0 && c.text == [] && c.scanned <= 1
    requires Rest([raw], Pos(0, 0)) == raw && raw[0..] == raw
    ensures var run := Run(o, [raw], Pos(0, 0), c, lineStart);
            var step := NextStep(o.stripAnsi, c.parser, raw);
            || run.cursor.consumed > 0
            || (step.Control? && step.width == 0
                && OnTrack(o, s, raw, Cursor(step.next, 0, c.scanned + 1, []), lineStart)
                && run == Run(o, [raw], Pos(0, 0), Cursor(step.next, 0, c.scanned + 1, []), lineStart)
                && c.parser.mode == Escape && step.next.mode == Ground)
            || (step.Incomplete? && run.stop.CutScalar?)
            || (c.scanned == 1 && run.cursor.parser == c.parser)
  {
    hide *;
    var chunks := [raw];
    var pos := Pos(0, 0);
    var step := NextStep(o.stripAnsi, c.parser, raw);
    StartIsPlain(o, s, raw, c);
    if step.Incomplete? {
      RunCut(o, chunks, pos, c, lineStart);
    } else if step.Control? {
      StayControl(o, chunks, s, raw, pos, c, lineStart);
      ControlWidth(o.stripAnsi, c.parser, raw);
      RunStays(o, chunks, s, raw, Pos(0, step.width), Cursor(step.next, step.width, c.scanned + 1, []), lineStart);
    } else {
      StepBounds(o.stripAnsi, c.parser, raw);
      RunText(o, chunks, pos, c, lineStart);
      if c.scanned + step.need <= o.rawScanCap {
        SmallTextFits(o, step.out);
        StayText(o, chunks, s, raw, pos, c, lineStart);
        var a := Move(chunks, pos, |step.out|);
        RunStays(o, chunks, s, raw, a.pos, Cursor(c.parser, a.consumed, c.scanned + |step.out|, [] + step.out), LineStart(o, c, lineStart));
      }
    }
  }

  lemma StartIsPlain(o: Options, s: Parser, raw: seq<byte>, c: Cursor)
    ensures Pageable(o) ==> o.rawScanCap >= 4 && !o.collapse && o.maxBytes >= 4
  {
  }

  lemma SmallTextFits(o: Options, out: seq<byte>)
    requires !o.collapse && |out| <= 4 <= o.maxBytes
    ensures Fits(o, [] + out)
  {
  }

  /** Reading a finished log page by page, each page from the raw byte and parser state the last one returned. */
  function ReadPages(o: Options, s: Parser, raw: seq<byte>): seq<Page>
    requires Pageable(o) && Bounded(s)
    decreases |raw|, if s.mode == Escape then 1 else 0
  {
    PageProgresses(o, s, raw);
    var page := NextPage(o, s, raw);
    if page.truncated then [page] + ReadPages(o, page.state, raw[page.consumedRawBytes..]) else [page]
  }

  function AllData(pages: seq<Page>): seq<byte> {
    if pages == [] then [] else pages[0].data + AllData(pages[1..])
  }

  function AllConsumed(pages: seq<Page>): nat {
    if pages == [] then 0 else pages[0].consumedRawBytes + AllConsumed(pages[1..])
  }

  /** The pages account for a whole pass, each within its budgets. */
  predicate AddUp(o: Options, pages: seq<Page>, s: Stripped) {
    && pages != []
    && s == Stripped(AllData(pages), AllConsumed(pages), pages[|pages| - 1].state)
    && forall i :: 0 <= i < |pages| ==> |pages[i].data| <= o.maxBytes && pages[i].scannedRawBytes <= o.rawScanCap
  }

  /**
   * Paging terminates, and its pages together are the unbounded pass: same text, same bytes used
   * up, same final parser; what is left over is at most a scalar cut short by the end of the log.
   */
  lemma {:induction false} PagesGiveTheWholeText(o: Options, s: Parser, raw: seq<byte>)
    requires Pageable(o) && Bounded(s)
    ensures AddUp(o, ReadPages(o, s, raw), Strip(o.stripAnsi, s, raw))
    decreases |raw|, if s.mode == Escape then 1 else 0
  {
    hide Strip, NextPage, Bounded, Pageable, AddUp;
    PageProgresses(o, s, raw);
    OnePage(o, s, raw);
    var page := NextPage(o, s, raw);
    if page.truncated {
      var rest := raw[page.consumedRawBytes..];
      PagesGiveTheWholeText(o, page.state, rest);
      AddUpCons(o, page, ReadPages(o, page.state, rest), Strip(o.stripAnsi, page.state, rest));
    } else {
      AddUpOne(o, page);
    }
  }

  lemma AddUpOne(o: Options, page: Page)
    requires |page.data| <= o.maxBytes && page.scannedRawBytes <= o.rawScanCap
    ensures AddUp(o, [page], Stripped(page.data, page.consumedRawBytes, page.state))
  {
    assert [page][1..] == [];
    assert AllData([page]) == page.data + AllData([]) && AllConsumed([page]) == page.consumedRawBytes + AllConsumed([]);
  }

  lemma AddUpCons(o: Options, page: Page, pages: seq<Page>, s: Stripped)
    requires |page.data| <= o.maxBytes && page.scannedRawBytes <= o.rawScanCap && AddUp(o, pages, s)
    ensures AddUp(o, [page] + pages, After(page.data, page.consumedRawBytes, s))
  {
    PagesCons(page, pages);
  }

  lemma PagesCons(page: Page, pages: seq<Page>)
    ensures AllData([page] + pages) == page.data + AllData(pages)
    ensures AllConsumed([page] + pages) == page.consumedRawBytes + AllConsumed(pages)
  {
    ConsTail(page, pages);
  }

  lemma OnePage(o: Options, s: Parser, raw: seq<byte>)
    requires Pageable(o) && Bounded(s)
    ensures var page := NextPage(o, s, raw);
            && page.consumedRawBytes <= |raw| && |page.data| <= o.maxBytes && page.scannedRawBytes <= o.rawScanCap
            && Strip(o.stripAnsi, s, raw)
               == After(page.data, page.consumedRawBytes, Strip(o.stripAnsi, page.state, raw[page.consumedRawBytes..]))
            && (!page.truncated ==> Strip(o.stripAnsi, s, raw) == Stripped(page.data, page.consumedRawBytes, page.state))
  {
    OneChunkIsSafe(raw);
    FlattenOne(raw);
    CopyBounded(s);
    ResumeLaw([raw], Some(s), o);
    FirstRunStays(o, [raw], Some(s));
    var run := FirstRun([raw], Some(s), o);
    EndPlain(o, s, raw, run);
    FinishedPass(o, raw, run);
    var page := PageOf(o, run);
    assert page.data + [] == page.data;
    hide Run, Safe, View, OnTrack, CopyState, NextStep, Strip;
  }

  /** Where a run ends without being cut short, the unbounded pass ends too. */
  lemma FinishedPass(o: Options, raw: seq<byte>, run: Outcome)
    requires run.cursor.consumed <= |raw| && Justified(o, raw, run)
    ensures run.stop.AtEnd? || run.stop.CutScalar? ==>
            Strip(o.stripAnsi, run.cursor.parser, raw[run.cursor.consumed..]) == Stripped([], 0, run.cursor.parser)
  {
    hide NextStep;
  }

  /** The unbounded pass leaves nothing, or a scalar that the log ends inside. */
  lemma {:induction false} PassLeavesAtMostACutScalar(strip: bool, p: Parser, raw: seq<byte>)
    ensures var s := Strip(strip, p, raw);
            var left := raw[s.consumed..];
            left == [] || (NextStep(strip, s.parser, left).Incomplete? && |left| < Utf8Width(left[0]))
    decreases |raw|, if p.mode == Escape then 1 else 0
  {
    hide NextStep, Strip, Utf8Width;
    StripBounds(strip, p, raw);
    if raw == [] {
    } else if NextStep(strip, p, raw).Incomplete? {
      CutScalarLeft(strip, p, raw);
    } else {
      var step := NextStep(strip, p, raw);
      var n := if step.Control? then step.width else |step.out|;
      var q := if step.Control? then step.next else p;
      StepBounds(strip, p, raw);
      if step.Control? {
        ControlWidth(strip, p, raw);
      }
      PassStep(strip, p, raw, n, q);
      PassLeavesAtMostACutScalar(strip, q, raw[n..]);
      StripBounds(strip, q, raw[n..]);
      SliceTwice(raw, n, Strip(strip, q, raw[n..]).consumed);
    }
  }

  lemma StripBounds(strip: bool, p: Parser, raw: seq<byte>)
    ensures Strip(strip, p, raw).consumed <= |raw|
  {
  }

  lemma CutScalarLeft(strip: bool, p: Parser, raw: seq<byte>)
    requires raw != [] && NextStep(strip, p, raw).Incomplete?
    ensures Strip(strip, p, raw) == Stripped([], 0, p) && raw[0..] == raw && |raw| < Utf8Width(raw[0])
  {
  }

  lemma PassStep(strip: bool, p: Parser, raw: seq<byte>, n: nat, q: Parser)
    requires raw != [] && n <= |raw|
    requires var step := NextStep(strip, p, raw);
             (step.Control? && n == step.width && q == step.next) || (step.Text? && n == |step.out| && q == p)
    ensures n > 0 || (p.mode == Escape && q.mode != Escape)
    ensures Strip(strip, p, raw).consumed == n + Strip(strip, q, raw[n..]).consumed
    ensures Strip(strip, p, raw).parser == Strip(strip, q, raw[n..]).parser
  {
    hide NextStep;
    StepBounds(strip, p, raw);
    if NextStep(strip, p, raw).Control? {
      ControlWidth(strip, p, raw);
    }
  }
}
