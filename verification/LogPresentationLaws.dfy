/** What a page of log text keeps: the resume law, whole scalars, exact collapsing, and paging to the end. */
module LogPresentationLaws {
  import opened Bytes
  import opened Lines
  import opened LogPresentation

  // ----- the unpaged reference -----

  /** One unbounded pass: the text, the raw bytes it used up, and the parser left. */
  datatype Stripped = Stripped(text: seq<byte>, consumed: nat, parser: Parser)

  function Strip(strip: bool, p: Parser, raw: seq<byte>): (s: Stripped)
    ensures s.consumed <= |raw|
    decreases |raw|, if p.mode == Escape then 1 else 0
  {
    if raw == [] then Stripped([], 0, p)
    else
      match NextStep(strip, p, raw)
      case Incomplete => Stripped([], 0, p)
      case Control(next, width) =>
        var s := Strip(strip, next, raw[width..]);
        Stripped(s.text, width + s.consumed, s.parser)
      case Text(out, _) =>
        var s := Strip(strip, p, raw[|out|..]);
        Stripped(out + s.text, |out| + s.consumed, s.parser)
  }

  /** A pass that has already produced `text` from `consumed` bytes and goes on as `s`. */
  function After(text: seq<byte>, consumed: nat, s: Stripped): Stripped {
    Stripped(text + s.text, consumed + s.consumed, s.parser)
  }

  /** The unbounded pass over `raw` goes through this cursor. */
  predicate Follows(strip: bool, p: Parser, raw: seq<byte>, c: Cursor) {
    && c.consumed <= |raw|
    && Strip(strip, p, raw) == After(c.text, c.consumed, Strip(strip, c.parser, raw[c.consumed..]))
  }

  // ----- whole scalars -----

  /** Well-formed UTF-8 with no U+FFFD in it. */
  predicate Clean(s: seq<byte>)
    decreases |s|
  {
    s == [] || (var w := Utf8Width(s[0]); w <= |s| && DecodesCleanly(s[..w]) && Clean(s[w..]))
  }

  function SkipContinuation(s: seq<byte>): seq<byte> {
    if s != [] && Continuation(s[0]) then SkipContinuation(s[1..]) else s
  }

  /** The raw bytes ahead are clean, from the next scalar on when a control sequence is being skipped. */
  predicate InSync(strip: bool, p: Parser, raw: seq<byte>) {
    if !strip || p.mode == Ground || p.mode == Escape then Clean(raw) else Clean(SkipContinuation(raw))
  }

  lemma {:induction false} CleanAppend(a: seq<byte>, b: seq<byte>)
    requires Clean(a) && Clean(b)
    ensures Clean(a + b)
    decreases |a|
  {
    if a == [] {
      assert a + b == b;
    } else {
      var w := Utf8Width(a[0]);
      CleanAppend(a[w..], b);
      CutAppend(a, b, w);
      assert (a + b)[0] == a[0];
    }
  }

  lemma CleanScalar(s: seq<byte>)
    requires DecodesCleanly(s)
    ensures Clean(s)
  {
    assert s[..|s|] == s && s[|s|..] == [];
  }

  /** Skipping into a clean text always leaves it clean from the next scalar on. */
  lemma {:induction false} CleanResyncs(raw: seq<byte>)
    requires raw != [] && (Clean(raw) || (Clean(SkipContinuation(raw)) && raw[0] < 0x80))
    ensures Clean(SkipContinuation(raw[1..])) && (raw[0] < 0x80 ==> Clean(raw[1..]))
  {
    assert raw[0] < 0x80 ==> SkipContinuation(raw) == raw;
    var w := Utf8Width(raw[0]);
    SkipScalar(raw, w);
    SkipClean(raw[w..]);
    assert raw[..w][0] == raw[0];
  }

  lemma SkipScalar(raw: seq<byte>, w: nat)
    requires raw != [] && w == Utf8Width(raw[0]) && w <= |raw| && Scalar(raw[..w])
    ensures SkipContinuation(raw[1..]) == SkipContinuation(raw[w..])
  {
    var s := raw[..w];
    assert forall i :: 1 <= i < w ==> Continuation(s[i]) && raw[i] == s[i];
    SkipOne(raw, 1, w);
    SkipOne(raw, 2, w);
    SkipOne(raw, 3, w);
  }

  lemma SkipOne(raw: seq<byte>, i: nat, w: nat)
    requires w <= |raw| && (i < w ==> Continuation(raw[i]))
    ensures i < w ==> SkipContinuation(raw[i..]) == SkipContinuation(raw[i + 1..])
  {
    if i < w {
      assert raw[i..][1..] == raw[i + 1..];
    }
  }

  lemma SkipClean(s: seq<byte>)
    requires Clean(s)
    ensures SkipContinuation(s) == s
  {
    if s != [] {
      assert s[..Utf8Width(s[0])][0] == s[0];
    }
  }

  lemma SkipStep(raw: seq<byte>)
    requires raw != [] && Clean(SkipContinuation(raw))
    ensures Clean(SkipContinuation(raw[1..]))
    ensures raw[0] < 0x80 ==> Clean(raw[1..])
  {
    if !Continuation(raw[0]) {
      CleanResyncs(raw);
    }
  }

  lemma SyncControl(strip: bool, p: Parser, raw: seq<byte>)
    requires raw != [] && InSync(strip, p, raw) && NextStep(strip, p, raw).Control?
    ensures var step := NextStep(strip, p, raw); InSync(strip, step.next, raw[step.width..])
  {
    var step := NextStep(strip, p, raw);
    if p.mode == Ground || p.mode == Escape {
      CleanResyncs(raw);
      assert step.width == 0 ==> raw[step.width..] == raw;
    } else {
      SkipStep(raw);
    }
  }

  lemma SyncText(strip: bool, p: Parser, raw: seq<byte>)
    requires raw != [] && InSync(strip, p, raw) && NextStep(strip, p, raw).Text?
    ensures var out := NextStep(strip, p, raw).out; DecodesCleanly(out) && InSync(strip, p, raw[|out|..])
  {
  }

  lemma BoundedControl(strip: bool, p: Parser, raw: seq<byte>)
    requires raw != [] && Bounded(p) && NextStep(strip, p, raw).Control?
    ensures Bounded(NextStep(strip, p, raw).next)
  {
  }

  /** What every cursor of a run inherits from where the run started. */
  predicate Orderly(strip: bool, p: Parser, raw: seq<byte>, c: Cursor) {
    && c.consumed <= |raw|
    && (Bounded(p) ==> Bounded(c.parser))
    && (InSync(strip, p, raw) ==> InSync(strip, c.parser, raw[c.consumed..]) && Clean(c.text))
  }

  predicate Reached(strip: bool, p: Parser, raw: seq<byte>, c: Cursor) {
    Follows(strip, p, raw, c) && Orderly(strip, p, raw, c)
  }

  // ----- layouts on which the scalar advance is right -----

  predicate InChunk(chunks: seq<seq<byte>>, pos: Pos) {
    pos.chunk < |chunks| && pos.offset < |chunks[pos.chunk]|
  }

  /** Stepping over a scalar from `pos` lands on the byte after it and counts its width. */
  predicate LandsRight(chunks: seq<seq<byte>>, pos: Pos, width: nat)
    requires InChunk(chunks, pos) && width <= |Rest(chunks, pos)|
  {
    var a := Move(chunks, pos, width);
    a.consumed == width && Rest(chunks, a.pos) == Rest(chunks, pos)[width..]
  }

  ghost predicate Safe(chunks: seq<seq<byte>>) {
    forall pos, width :: InChunk(chunks, pos) && 2 <= width <= 4 && width <= |Rest(chunks, pos)| ==> LandsRight(chunks, pos, width)
  }

  lemma StepLandsRight(chunks: seq<seq<byte>>, pos: Pos, width: nat)
    requires Safe(chunks) && InChunk(chunks, pos) && width <= 4 && width <= |Rest(chunks, pos)|
    ensures LandsRight(chunks, pos, width)
  {
    if width <= 1 {
      SmallStep(chunks[pos.chunk], pos.offset, width, Flatten(chunks[pos.chunk + 1..]));
    }
  }

  lemma SmallStep(chunk: seq<byte>, offset: nat, width: nat, later: seq<byte>)
    requires offset < |chunk| && width <= 1
    ensures (chunk[offset..] + later)[width..] == (if offset + width >= |chunk| then [] else chunk[offset + width..]) + later
  {
  }

  // ----- a run stays on the reference pass -----

  lemma StripControl(strip: bool, p: Parser, raw: seq<byte>)
    requires raw != [] && NextStep(strip, p, raw).Control?
    ensures var step := NextStep(strip, p, raw);
            Strip(strip, p, raw) == After([], step.width, Strip(strip, step.next, raw[step.width..]))
  {
    var s := Strip(strip, NextStep(strip, p, raw).next, raw[NextStep(strip, p, raw).width..]);
    assert [] + s.text == s.text;
    hide NextStep;
  }

  lemma StripText(strip: bool, p: Parser, raw: seq<byte>)
    requires raw != [] && NextStep(strip, p, raw).Text?
    ensures var out := NextStep(strip, p, raw).out;
            Strip(strip, p, raw) == After(out, |out|, Strip(strip, p, raw[|out|..]))
  {
    hide NextStep;
  }

  lemma AfterTwice(a: seq<byte>, m: nat, b: seq<byte>, n: nat, s: Stripped)
    ensures After(a, m, After(b, n, s)) == After(a + b, m + n, s)
  {
    Assoc(a, b, s.text);
  }

  lemma SliceTwice(raw: seq<byte>, m: nat, n: nat)
    requires m + n <= |raw|
    ensures raw[m..][n..] == raw[m + n..]
  {
  }

  lemma ReachedIs(strip: bool, p: Parser, raw: seq<byte>, c: Cursor)
    requires c.consumed <= |raw|
    ensures Reached(strip, p, raw, c) <==>
            && Strip(strip, p, raw) == After(c.text, c.consumed, Strip(strip, c.parser, raw[c.consumed..]))
            && Orderly(strip, p, raw, c)
  {
    hide Strip, After, Orderly;
  }

  lemma OrderlyControl(strip: bool, p: Parser, raw: seq<byte>, c: Cursor, scanned: nat)
    requires c.consumed < |raw| && Orderly(strip, p, raw, c)
    requires NextStep(strip, c.parser, raw[c.consumed..]).Control?
    ensures var step := NextStep(strip, c.parser, raw[c.consumed..]);
            Orderly(strip, p, raw, Cursor(step.next, c.consumed + step.width, scanned, c.text))
  {
    hide InSync, Bounded, NextStep;
    var left := raw[c.consumed..];
    ControlWidth(strip, c.parser, left);
    SliceTwice(raw, c.consumed, NextStep(strip, c.parser, left).width);
    if Bounded(c.parser) {
      BoundedControl(strip, c.parser, left);
    }
    if InSync(strip, c.parser, left) {
      SyncControl(strip, c.parser, left);
    }
  }

  lemma OrderlyText(strip: bool, p: Parser, raw: seq<byte>, c: Cursor, scanned: nat)
    requires c.consumed < |raw| && Orderly(strip, p, raw, c)
    requires NextStep(strip, c.parser, raw[c.consumed..]).Text?
    ensures var out := NextStep(strip, c.parser, raw[c.consumed..]).out;
            Orderly(strip, p, raw, Cursor(c.parser, c.consumed + |out|, scanned, c.text + out))
  {
    hide InSync, Bounded, NextStep, Clean, DecodesCleanly;
    var left := raw[c.consumed..];
    var out := NextStep(strip, c.parser, left).out;
    StepBounds(strip, c.parser, left);
    SliceTwice(raw, c.consumed, |out|);
    if InSync(strip, p, raw) {
      SyncText(strip, c.parser, left);
      CleanScalar(out);
      CleanAppend(c.text, out);
    }
  }

  lemma ReachedControl(strip: bool, p: Parser, raw: seq<byte>, c: Cursor, scanned: nat)
    requires c.consumed < |raw| && Reached(strip, p, raw, c)
    requires NextStep(strip, c.parser, raw[c.consumed..]).Control?
    ensures var step := NextStep(strip, c.parser, raw[c.consumed..]);
            c.consumed + step.width <= |raw| && Reached(strip, p, raw, Cursor(step.next, c.consumed + step.width, scanned, c.text))
  {
    hide *;
    var step := NextStep(strip, c.parser, raw[c.consumed..]);
    ReachedIs(strip, p, raw, c);
    ReachedIs(strip, p, raw, Cursor(step.next, c.consumed + step.width, scanned, c.text));
    StripControl(strip, c.parser, raw[c.consumed..]);
    SliceTwice(raw, c.consumed, step.width);
    AfterTwice(c.text, c.consumed, [], step.width, Strip(strip, step.next, raw[c.consumed + step.width..]));
    OrderlyControl(strip, p, raw, c, scanned);
    assert c.text + [] == c.text;
  }

  lemma ReachedText(strip: bool, p: Parser, raw: seq<byte>, c: Cursor, scanned: nat)
    requires c.consumed < |raw| && Reached(strip, p, raw, c)
    requires NextStep(strip, c.parser, raw[c.consumed..]).Text?
    ensures var out := NextStep(strip, c.parser, raw[c.consumed..]).out;
            c.consumed + |out| <= |raw| && Reached(strip, p, raw, Cursor(c.parser, c.consumed + |out|, scanned, c.text + out))
  {
    hide *;
    var out := NextStep(strip, c.parser, raw[c.consumed..]).out;
    ReachedIs(strip, p, raw, c);
    ReachedIs(strip, p, raw, Cursor(c.parser, c.consumed + |out|, scanned, c.text + out));
    StripText(strip, c.parser, raw[c.consumed..]);
    SliceTwice(raw, c.consumed, |out|);
    AfterTwice(c.text, c.consumed, out, |out|, Strip(strip, c.parser, raw[c.consumed + |out|..]));
    OrderlyText(strip, p, raw, c, scanned);
  }

  /** While a line is held back, `lineStart` is the cursor from which exactly that line has come. */
  predicate Held(o: Options, p: Parser, raw: seq<byte>, c: Cursor, lineStart: Cursor) {
    var v := View(o, c.text);
    v.line != [] ==>
      && Reached(o.stripAnsi, p, raw, lineStart)
      && lineStart.text + v.line == c.text
      && View(o, lineStart.text) == v.(line := [])
      && lineStart.scanned <= o.rawScanCap
  }

  lemma HeldText(o: Options, p: Parser, raw: seq<byte>, c: Cursor, lineStart: Cursor, next: Cursor, out: seq<byte>)
    requires Held(o, p, raw, c, lineStart) && Reached(o.stripAnsi, p, raw, c) && c.scanned < o.rawScanCap
    requires next.text == c.text + out && 1 <= |out| <= 4 && (out == [NEWLINE] || NEWLINE !in out)
    ensures Held(o, p, raw, next, LineStart(o, c, lineStart))
  {
    var v, w := View(o, c.text), View(o, c.text + out);
    ViewAppend(o, c.text, out);
    if w.line != [] && v.line != [] {
      Assoc(lineStart.text, v.line, out);
    }
    hide View, Reached;
  }

  /** A scalar onto a text: either no line is held back after it, or the held-back line has grown by it. */
  lemma ViewAppend(o: Options, text: seq<byte>, out: seq<byte>)
    requires out == [NEWLINE] || NEWLINE !in out
    ensures var v, w := View(o, text), View(o, text + out);
            w.line == [] || (o.collapse && v.dedupLine && w.line == v.line + out && w.(line := []) == v.(line := []))
    ensures View(o, text).line != [] ==> o.collapse && View(o, text).dedupLine
    ensures View(o, text).line == [] ==> View(o, text).(line := []) == View(o, text)
  {
    var v := View(o, text);
    if o.collapse {
      CollapseAppend(text, out, None);
      CollapseShape(text, None);
      if v.dedupLine {
        HeldLine(v, out);
        assert v.output + [] == v.output;
      }
    }
  }

  /** Onto a held-back line, a scalar either ends it, overflows it, or just lengthens it. */
  lemma HeldLine(v: Emitter, out: seq<byte>)
    requires v.dedupLine && NEWLINE !in v.line && (out == [NEWLINE] || NEWLINE !in out)
    ensures var w := Collapse(v.line + out, v.previousLine);
            w.line == [] || (w == Emitter([], v.line + out, v.previousLine, true))
  {
    LineLengthNone(v.line);
    LineLengthAppend(v.line, out);
    if out == [NEWLINE] {
      assert (v.line + out)[|v.line| + 1..] == [];
    } else {
      LineLengthNone(out);
    }
  }

  /** Why the run could not take the next step. */
  predicate Justified(o: Options, raw: seq<byte>, run: Outcome)
    requires run.cursor.consumed <= |raw|
  {
    var c := run.cursor;
    var left := raw[c.consumed..];
    match run.stop
    case AtEnd => left == []
    case CutScalar => left != [] && NextStep(o.stripAnsi, c.parser, left).Incomplete?
    case ScanStop =>
      left != [] && (c.scanned >= o.rawScanCap
                     || (NextStep(o.stripAnsi, c.parser, left).Text? && c.scanned + NextStep(o.stripAnsi, c.parser, left).need > o.rawScanCap))
    case BudgetStop(overlong) =>
      left != [] && NextStep(o.stripAnsi, c.parser, left).Text?
      && var out := NextStep(o.stripAnsi, c.parser, left).out;
         !Fits(o, c.text + out) && overlong == Overlong(o, c.text, out)
  }

  predicate OnTrack(o: Options, p: Parser, raw: seq<byte>, c: Cursor, lineStart: Cursor) {
    && Reached(o.stripAnsi, p, raw, c) && Held(o, p, raw, c, lineStart)
    && Fits(o, c.text) && c.scanned <= o.rawScanCap
  }

  /**
   * Every cursor of a run is one the unbounded pass goes through, whichever layout the raw
   * bytes come in, and the run stops only where the next step is impossible or too big.
   */
  lemma {:induction false} RunStays(o: Options, chunks: seq<seq<byte>>, p: Parser, raw: seq<byte>, pos: Pos, c: Cursor, lineStart: Cursor)
    requires Safe(chunks) && OnTrack(o, p, raw, c, lineStart) && c.consumed <= |raw| && Rest(chunks, pos) == raw[c.consumed..]
    ensures var run := Run(o, chunks, pos, c, lineStart);
            && c.consumed <= run.cursor.consumed <= |raw|
            && OnTrack(o, p, raw, run.cursor, run.lineStart) && Justified(o, raw, run)
    decreases |Rest(chunks, pos)|, if c.parser.mode == Escape then 1 else 0, |chunks| - pos.chunk
  {
    hide *;
    OnTrackIs(o, p, raw, c, lineStart);
    if pos.chunk >= |chunks| {
      RunEnds(o, chunks, pos, c, lineStart);
      RestEmpty(chunks, pos);
      JustifiedStop(o, raw, Outcome(AtEnd, c, lineStart));
    } else if pos.offset >= |chunks[pos.chunk]| {
      RunNextChunk(o, chunks, pos, c, lineStart);
      RunStays(o, chunks, p, raw, Pos(pos.chunk + 1, 0), c, lineStart);
    } else {
      RestStarts(chunks, pos);
      var left := raw[c.consumed..];
      var step := NextStep(o.stripAnsi, c.parser, left);
      if c.scanned >= o.rawScanCap || step.Incomplete? {
        RunCut(o, chunks, pos, c, lineStart);
        JustifiedStop(o, raw, Run(o, chunks, pos, c, lineStart));
      } else if step.Control? {
        StayControl(o, chunks, p, raw, pos, c, lineStart);
        RunStays(o, chunks, p, raw, Pos(pos.chunk, pos.offset + step.width),
                 Cursor(step.next, c.consumed + step.width, c.scanned + 1, c.text), lineStart);
      } else {
        RunText(o, chunks, pos, c, lineStart);
        var start := LineStart(o, c, lineStart);
        if c.scanned + step.need > o.rawScanCap {
          JustifiedStop(o, raw, Outcome(ScanStop, c, lineStart));
        } else if !Fits(o, c.text + step.out) {
          StayBudget(o, p, raw, c, lineStart);
        } else {
          StayText(o, chunks, p, raw, pos, c, lineStart);
          var a := Move(chunks, pos, |step.out|);
          RunStays(o, chunks, p, raw, a.pos, Cursor(c.parser, c.consumed + a.consumed, c.scanned + |step.out|, c.text + step.out), start);
        }
      }
    }
  }

  lemma OnTrackIs(o: Options, p: Parser, raw: seq<byte>, c: Cursor, lineStart: Cursor)
    ensures OnTrack(o, p, raw, c, lineStart) <==>
            Reached(o.stripAnsi, p, raw, c) && Held(o, p, raw, c, lineStart) && Fits(o, c.text) && c.scanned <= o.rawScanCap
  {
    hide Reached, Held, Fits;
  }

  lemma JustifiedStop(o: Options, raw: seq<byte>, run: Outcome)
    requires run.cursor.consumed <= |raw|
    requires var c := run.cursor; var left := raw[c.consumed..];
             (run.stop == AtEnd && left == [])
             || (run.stop == CutScalar && left != [] && NextStep(o.stripAnsi, c.parser, left).Incomplete?)
             || (run.stop == ScanStop && left != [] && (c.scanned >= o.rawScanCap
                     || (NextStep(o.stripAnsi, c.parser, left).Text? && c.scanned + NextStep(o.stripAnsi, c.parser, left).need > o.rawScanCap)))
    ensures Justified(o, raw, run)
  {
    hide NextStep;
  }

  lemma StayControl(o: Options, chunks: seq<seq<byte>>, p: Parser, raw: seq<byte>, pos: Pos, c: Cursor, lineStart: Cursor)
    requires pos.chunk < |chunks| && pos.offset < |chunks[pos.chunk]| && OnTrack(o, p, raw, c, lineStart) && c.scanned < o.rawScanCap
    requires c.consumed < |raw| && Rest(chunks, pos) == raw[c.consumed..] && Safe(chunks)
    requires NextStep(o.stripAnsi, c.parser, raw[c.consumed..]).Control?
    ensures var step := NextStep(o.stripAnsi, c.parser, raw[c.consumed..]);
            var next := Cursor(step.next, c.consumed + step.width, c.scanned + 1, c.text);
            var pos' := Pos(pos.chunk, pos.offset + step.width);
            && Run(o, chunks, pos, c, lineStart) == Run(o, chunks, pos', next, lineStart)
            && OnTrack(o, p, raw, next, lineStart) && next.consumed <= |raw| && Rest(chunks, pos') == raw[next.consumed..]
            && (|Rest(chunks, pos')| < |Rest(chunks, pos)|
                || (|Rest(chunks, pos')| == |Rest(chunks, pos)| && c.parser.mode == Escape && step.next.mode != Escape))
  {
    hide *;
    var step := NextStep(o.stripAnsi, c.parser, raw[c.consumed..]);
    var next := Cursor(step.next, c.consumed + step.width, c.scanned + 1, c.text);
    RunControl(o, chunks, pos, c, lineStart);
    OnTrackIs(o, p, raw, c, lineStart);
    OnTrackIs(o, p, raw, next, lineStart);
    ReachedControl(o.stripAnsi, p, raw, c, c.scanned + 1);
    HeldSameText(o, p, raw, c, next, lineStart);
    ControlWidth(o.stripAnsi, c.parser, raw[c.consumed..]);
    LandsRightIs(chunks, pos, step.width);
    MoveIs(chunks, pos, step.width);
    SliceTwice(raw, c.consumed, step.width);
  }

  lemma ControlWidth(strip: bool, p: Parser, rest: seq<byte>)
    requires rest != [] && NextStep(strip, p, rest).Control?
    ensures var s := NextStep(strip, p, rest); s.width <= 1 && (s.width == 0 ==> p.mode == Escape && s.next.mode == Ground)
  {
  }

  lemma LandsRightIs(chunks: seq<seq<byte>>, pos: Pos, width: nat)
    requires Safe(chunks) && pos.chunk < |chunks| && pos.offset < |chunks[pos.chunk]| && width <= 4 && width <= |Rest(chunks, pos)|
    ensures var a := Move(chunks, pos, width); a.consumed == width && Rest(chunks, a.pos) == Rest(chunks, pos)[width..]
  {
    StepLandsRight(chunks, pos, width);
    hide Rest, Move;
  }

  lemma HeldSameText(o: Options, p: Parser, raw: seq<byte>, c: Cursor, next: Cursor, lineStart: Cursor)
    requires Held(o, p, raw, c, lineStart) && next.text == c.text
    ensures Held(o, p, raw, next, lineStart)
  {
    hide View, Reached;
  }

  lemma StayBudget(o: Options, p: Parser, raw: seq<byte>, c: Cursor, lineStart: Cursor)
    requires OnTrack(o, p, raw, c, lineStart) && c.consumed < |raw| && c.scanned < o.rawScanCap
    requires NextStep(o.stripAnsi, c.parser, raw[c.consumed..]).Text?
    requires !Fits(o, c.text + NextStep(o.stripAnsi, c.parser, raw[c.consumed..]).out)
    ensures var out := NextStep(o.stripAnsi, c.parser, raw[c.consumed..]).out;
            var run := Outcome(BudgetStop(Overlong(o, c.text, out)), c.(scanned := c.scanned + 1), LineStart(o, c, lineStart));
            OnTrack(o, p, raw, run.cursor, run.lineStart) && Justified(o, raw, run)
  {
    hide NextStep, View, Fits, Overlong, Strip;
  }

  lemma StayText(o: Options, chunks: seq<seq<byte>>, p: Parser, raw: seq<byte>, pos: Pos, c: Cursor, lineStart: Cursor)
    requires pos.chunk < |chunks| && pos.offset < |chunks[pos.chunk]| && OnTrack(o, p, raw, c, lineStart) && c.scanned < o.rawScanCap
    requires c.consumed < |raw| && Rest(chunks, pos) == raw[c.consumed..] && Safe(chunks)
    requires NextStep(o.stripAnsi, c.parser, raw[c.consumed..]).Text?
    requires var step := NextStep(o.stripAnsi, c.parser, raw[c.consumed..]);
             c.scanned + step.need <= o.rawScanCap && Fits(o, c.text + step.out)
    ensures var out := NextStep(o.stripAnsi, c.parser, raw[c.consumed..]).out;
            var a := Move(chunks, pos, |out|);
            var next := Cursor(c.parser, c.consumed + a.consumed, c.scanned + |out|, c.text + out);
            && OnTrack(o, p, raw, next, LineStart(o, c, lineStart))
            && c.consumed < next.consumed <= |raw| && Rest(chunks, a.pos) == raw[next.consumed..]
  {
    hide *;
    var left := raw[c.consumed..];
    var out := NextStep(o.stripAnsi, c.parser, left).out;
    var next := Cursor(c.parser, c.consumed + |out|, c.scanned + |out|, c.text + out);
    StepBounds(o.stripAnsi, c.parser, left);
    StepTextIsOneScalar(o.stripAnsi, c.parser, left);
    OnTrackIs(o, p, raw, c, lineStart);
    OnTrackIs(o, p, raw, next, LineStart(o, c, lineStart));
    ReachedText(o.stripAnsi, p, raw, c, c.scanned + |out|);
    HeldText(o, p, raw, c, lineStart, next, out);
    LandsRightIs(chunks, pos, |out|);
    SliceTwice(raw, c.consumed, |out|);
  }

  // ----- the page -----

  /** The whole raw input as a page's starting point. */
  lemma FirstRunStays(o: Options, chunks: seq<seq<byte>>, state: Option<Parser>)
    requires Accepted(o) && Safe(chunks)
    ensures var run := FirstRun(chunks, state, o);
            && run.cursor.consumed <= |Flatten(chunks)|
            && OnTrack(o, CopyState(state), Flatten(chunks), run.cursor, run.lineStart)
            && Justified(o, Flatten(chunks), run)
  {
    var start := Cursor(CopyState(state), 0, 0, []);
    var raw := Flatten(chunks);
    RestOfAll(chunks);
    StartOnTrack(o, CopyState(state), raw);
    RunStays(o, chunks, CopyState(state), raw, Pos(0, 0), start, start);
    hide Run, Rest, OnTrack, Justified, CopyState, Safe;
  }

  lemma RestOfAll(chunks: seq<seq<byte>>)
    ensures Rest(chunks, Pos(0, 0)) == Flatten(chunks)
  {
    if chunks != [] {
      assert chunks[0][0..] == chunks[0];
    }
  }

  lemma StartOnTrack(o: Options, p: Parser, raw: seq<byte>)
    requires Accepted(o)
    ensures OnTrack(o, p, raw, Cursor(p, 0, 0, []), Cursor(p, 0, 0, [])) && raw[0..] == raw
  {
    assert raw[0..] == raw;
    assert [] + Strip(o.stripAnsi, p, raw).text == Strip(o.stripAnsi, p, raw).text;
    hide Strip, InSync, Bounded;
  }

  /** What of a text is on the page when nothing is lost: the emitted lines and the line still open. */
  function Shown(o: Options, text: seq<byte>): seq<byte> {
    View(o, text).output + View(o, text).line
  }

  /** The text the page accounts for: everything the unbounded pass gives for the bytes it consumed. */
  function PageText(o: Options, run: Outcome): seq<byte> {
    End(o, run).cursor.text
  }

  /**
   * A page resumes exactly where the unbounded pass is after the page's text, within both budgets;
   * its data is that text collapsed, less a line that was thrown away.
   */
  lemma PageAccounts(chunks: seq<seq<byte>>, state: Option<Parser>, o: Options)
    requires Accepted(o) && Safe(chunks)
    ensures var run := FirstRun(chunks, state, o);
            var page := PageOf(o, run);
            var raw := Flatten(chunks);
            && page.consumedRawBytes <= |raw| && |page.data| <= o.maxBytes && page.scannedRawBytes <= o.rawScanCap
            && Strip(o.stripAnsi, CopyState(state), raw)
               == After(PageText(o, run), page.consumedRawBytes, Strip(o.stripAnsi, page.state, raw[page.consumedRawBytes..]))
            && page.data + End(o, run).lost == Shown(o, PageText(o, run))
  {
    FirstRunStays(o, chunks, state);
    var run := FirstRun(chunks, state, o);
    EndAccounts(o, CopyState(state), Flatten(chunks), run);
    hide Strip, FirstRun, CopyState, Flatten, Safe;
  }

  lemma EndAccounts(o: Options, p: Parser, raw: seq<byte>, run: Outcome)
    requires run.cursor.consumed <= |raw| && OnTrack(o, p, raw, run.cursor, run.lineStart) && Accepted(o)
    requires Justified(o, raw, run)
    ensures var end := End(o, run);
            var page := PageOf(o, run);
            && Reached(o.stripAnsi, p, raw, end.cursor) && end.cursor.consumed == page.consumedRawBytes && end.cursor.parser == page.state
            && |page.data| <= o.maxBytes && page.scannedRawBytes <= o.rawScanCap
            && page.data + end.lost == Shown(o, end.cursor.text)
  {
    hide Strip, After, View, Justified, Reached;
    var v := View(o, run.cursor.text);
    var end := End(o, run);
    assert v.output + [] == v.output;
    assert v.output + v.line + [] == v.output + v.line;
  }

  /** Resume law: without collapsing, the page and the pass resumed after it are the unbounded pass. */
  lemma ResumeLaw(chunks: seq<seq<byte>>, state: Option<Parser>, o: Options)
    requires Accepted(o) && Safe(chunks) && !o.collapse
    ensures var page := Present(chunks, state, o).page;
            var raw := Flatten(chunks);
            && page.consumedRawBytes <= |raw| && |page.data| <= o.maxBytes && page.scannedRawBytes <= o.rawScanCap
            && Strip(o.stripAnsi, CopyState(state), raw)
               == After(page.data, page.consumedRawBytes, Strip(o.stripAnsi, page.state, raw[page.consumedRawBytes..]))
  {
    PageAccounts(chunks, state, o);
    ShownPlain(o, FirstRun(chunks, state, o));
    hide Strip, Run, CopyState, Flatten, Safe, End, PageOf;
  }

  lemma ShownPlain(o: Options, run: Outcome)
    requires !o.collapse
    ensures Shown(o, PageText(o, run)) == PageText(o, run) && End(o, run).lost == []
    ensures PageOf(o, run).data + [] == PageOf(o, run).data
  {
  }

  /** A text none of whose lines is over the collapsing bound. */
  predicate LinesBounded(text: seq<byte>) {
    Collapse(text, None).dedupLine
  }

  /**
   * Collapse mode is exact when every stripped line is within the bound: the page is the consumed
   * text with each line equal to the line before it dropped, and nothing consumed is missing.
   */
  lemma CollapseIsExact(chunks: seq<seq<byte>>, state: Option<Parser>, o: Options)
    requires Accepted(o) && Safe(chunks) && o.collapse
    requires LinesBounded(Strip(o.stripAnsi, CopyState(state), Flatten(chunks)).text)
    ensures var page := Present(chunks, state, o).page;
            var raw := Flatten(chunks);
            exists text ::
              && page.consumedRawBytes <= |raw|
              && Strip(o.stripAnsi, CopyState(state), raw)
                 == After(text, page.consumedRawBytes, Strip(o.stripAnsi, page.state, raw[page.consumedRawBytes..]))
              && page.data == Collapse(text, None).output + Collapse(text, None).line
              && (page.truncated ==> Collapse(text, None).line == [])
  {
    var run := FirstRun(chunks, state, o);
    FirstRunStays(o, chunks, state);
    PageAccounts(chunks, state, o);
    NothingOverlong(o, CopyState(state), Flatten(chunks), run);
    var text := PageText(o, run);
    CutPageIsWholeLines(o, CopyState(state), Flatten(chunks), run);
    assert PageOf(o, run).data + [] == PageOf(o, run).data;
    hide Strip, Run, CopyState, Flatten, Safe, End, PageOf;
  }

  /** With bounded lines no run stops at an overlong line. */
  lemma NothingOverlong(o: Options, p: Parser, raw: seq<byte>, run: Outcome)
    requires run.cursor.consumed <= |raw| && Reached(o.stripAnsi, p, raw, run.cursor) && Justified(o, raw, run)
    requires o.collapse && LinesBounded(Strip(o.stripAnsi, p, raw).text)
    ensures run.stop != BudgetStop(true) && End(o, run).lost == []
  {
    if run.stop == BudgetStop(true) {
      var left := raw[run.cursor.consumed..];
      var out := NextStep(o.stripAnsi, run.cursor.parser, left).out;
      StripText(o.stripAnsi, run.cursor.parser, left);
      var later := Strip(o.stripAnsi, run.cursor.parser, left[|out|..]).text;
      Assoc(run.cursor.text, out, later);
      CollapseAppend(run.cursor.text + out, later, None);
    }
  }

  /** A page that was cut short ends with a whole line: rolling back lost only the unfinished one. */
  lemma CutPageIsWholeLines(o: Options, p: Parser, raw: seq<byte>, run: Outcome)
    requires OnTrack(o, p, raw, run.cursor, run.lineStart) && run.stop != BudgetStop(true)
    ensures End(o, run).truncated ==> View(o, PageText(o, run)).line == []
  {
    hide Strip, View, Reached;
  }

  /** A page keeps all the text it consumed. */
  predicate Lossless(o: Options, p: Parser, raw: seq<byte>, page: Page, text: seq<byte>) {
    && page.consumedRawBytes <= |raw|
    && Strip(o.stripAnsi, p, raw) == After(text, page.consumedRawBytes, Strip(o.stripAnsi, page.state, raw[page.consumedRawBytes..]))
    && page.data == Shown(o, text)
  }

  /** What a page loses of the text it has consumed is the line held back when collapsing stops it, and nothing else. */
  lemma LostLineIsHeldLine(chunks: seq<seq<byte>>, state: Option<Parser>, o: Options)
    requires Accepted(o) && Safe(chunks)
    ensures var run := FirstRun(chunks, state, o);
            var lost := End(o, run).lost;
            && (lost != [] <==> run.stop == BudgetStop(true))
            && (lost != [] ==> o.collapse && |lost| > MAX_DEDUP_LINE_BYTES - 4 && NEWLINE !in lost)
            && PageOf(o, run).data + lost == Shown(o, PageText(o, run))
            && (Lossless(o, CopyState(state), Flatten(chunks), PageOf(o, run), PageText(o, run)) <==> run.stop != BudgetStop(true))
  {
    var run := FirstRun(chunks, state, o);
    var raw := Flatten(chunks);
    FirstRunStays(o, chunks, state);
    PageAccounts(chunks, state, o);
    LostIsHeldLine(o, raw, run);
    LosslessIs(o, CopyState(state), raw, PageOf(o, run), End(o, run).lost, PageText(o, run));
    hide Strip, FirstRun, CopyState, Flatten, Safe, View;
  }

  lemma LosslessIs(o: Options, p: Parser, raw: seq<byte>, page: Page, lost: seq<byte>, text: seq<byte>)
    requires page.consumedRawBytes <= |raw|
    requires Strip(o.stripAnsi, p, raw) == After(text, page.consumedRawBytes, Strip(o.stripAnsi, page.state, raw[page.consumedRawBytes..]))
    requires page.data + lost == Shown(o, text)
    ensures Lossless(o, p, raw, page, text) <==> lost == []
  {
    assert lost == [] ==> page.data + lost == page.data;
    assert lost != [] ==> |page.data + lost| != |page.data|;
    hide Strip, Shown, After;
  }

  lemma LostIsHeldLine(o: Options, raw: seq<byte>, run: Outcome)
    requires run.cursor.consumed <= |raw| && Justified(o, raw, run)
    ensures var lost := End(o, run).lost;
            (lost != [] <==> run.stop == BudgetStop(true))
            && (lost != [] ==> o.collapse && |lost| > MAX_DEDUP_LINE_BYTES - 4 && NEWLINE !in lost)
  {
    if run.stop == BudgetStop(true) {
      var left := raw[run.cursor.consumed..];
      var out := NextStep(o.stripAnsi, run.cursor.parser, left).out;
      StepBounds(o.stripAnsi, run.cursor.parser, left);
      StepTextIsOneScalar(o.stripAnsi, run.cursor.parser, left);
      OverlongLine(o, run.cursor.text, out);
    }
  }

  lemma OverlongLine(o: Options, text: seq<byte>, out: seq<byte>)
    requires Overlong(o, text, out) && 1 <= |out| <= 4 && (out == [NEWLINE] || NEWLINE !in out)
    ensures o.collapse && |View(o, text).line| > MAX_DEDUP_LINE_BYTES - 4 && NEWLINE !in View(o, text).line
  {
    var v := View(o, text);
    CollapseShape(text, None);
    CollapseAppend(text, out, None);
    LineLengthNone(v.line);
    LineLengthAppend(v.line, out);
    if out == [NEWLINE] {
      var next := v.line + out;
      assert next[|v.line| + 1..] == [] && LineLength(out) == 0;
      assert Collapse([], Some(next[..|v.line| + 1])).dedupLine;
    } else {
      LineLengthNone(out);
    }
  }
}
