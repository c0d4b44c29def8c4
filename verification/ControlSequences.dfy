/** Complete control sequences are invisible, and everything else is kept. */
module ControlSequences {
  import opened Bytes
  import opened Lines
  import opened LogPresentation
  import opened LogPresentationLaws

  const LEFT_BRACKET: byte := 0x5b
  const RIGHT_BRACKET: byte := 0x5d

  predicate Final(b: byte) {
    0x40 <= b <= 0x7e
  }

  /** One piece of a log as a terminal program writes it. */
  datatype Segment =
    | Plain(text: seq<byte>)
    | ControlFunction(params: seq<byte>, final: byte)
    | CommandBell(payload: seq<byte>)
    | CommandTerminated(payload: seq<byte>)

  /** The bytes of a segment: CSI (section 5.4 of ECMA-48), or OSC ended by BEL or by ST (sections 8.3.89 and 8.3.143). */
  function Raw(s: Segment): seq<byte> {
    match s
    case Plain(text) => text
    case ControlFunction(params, final) => [0x1b, 0x5b] + (params + [final])
    case CommandBell(payload) => [0x1b, 0x5d] + (payload + [0x07])
    case CommandTerminated(payload) => [0x1b, 0x5d] + (payload + [0x1b, 0x5c])
  }

  predicate PayloadByte(b: byte) {
    b != 0x07 && b != 0x1b
  }

  predicate Payload(bytes: seq<byte>) {
    forall i :: 0 <= i < |bytes| ==> PayloadByte(bytes[i])
  }

  /** A backslash so far into a command that the parser has given up on it: there it ends the command. */
  predicate LateBackslash(payload: seq<byte>) {
    exists i :: GIVES_UP <= i < |payload| && payload[i] == 0x5c
  }

  /** A BEL so far into a control function that the parser has given up on it: there it ends the function. */
  predicate LateBell(params: seq<byte>) {
    exists i :: GIVES_UP <= i < |params| && params[i] == 0x07
  }

  /** Text that ends on a scalar boundary, by itself. */
  predicate Whole(text: seq<byte>) {
    0x1b !in text && Strip(true, INITIAL, text).consumed == |text|
  }

  /** The longest sequences the parser follows byte by byte before it gives up on them. */
  const MAX_CSI_PARAMS := 4093
  const MAX_OSC_PAYLOAD := 4091
  const GIVES_UP := 4094

  predicate WellFormed(s: Segment) {
    match s
    case Plain(text) => Whole(text)
    case ControlFunction(params, final) =>
      && Final(final) && (forall i :: 0 <= i < |params| ==> !Final(params[i]))
      && (|params| <= MAX_CSI_PARAMS || (final == BACKSLASH && !LateBell(params)))
    case CommandBell(payload) => Payload(payload) && !LateBackslash(payload)
    case CommandTerminated(payload) =>
      Payload(payload) && !LateBackslash(payload) && |payload| != MAX_OSC_PAYLOAD + 1 && |payload| != MAX_OSC_PAYLOAD + 2
  }

  function RawAll(segments: seq<Segment>): seq<byte> {
    if segments == [] then [] else Raw(segments[0]) + RawAll(segments[1..])
  }

  function Visible(segments: seq<Segment>): seq<byte> {
    if segments == [] then [] else (if segments[0].Plain? then segments[0].text else []) + Visible(segments[1..])
  }

  // ----- counters do not show -----

  predicate SameView(p: Parser, q: Parser) {
    p.mode == q.mode && (p.mode != Ground ==> p.controlLength == q.controlLength)
  }

  /** The per-kind counters never decide anything: text, progress and mode are the same without them. */
  lemma {:induction false} CountersDoNotShow(strip: bool, p: Parser, q: Parser, raw: seq<byte>)
    requires SameView(p, q)
    ensures var s, t := Strip(strip, p, raw), Strip(strip, q, raw);
            s.text == t.text && s.consumed == t.consumed && SameView(s.parser, t.parser)
    decreases |raw|, if p.mode == Escape then 1 else 0
  {
    if raw != [] {
      var a, b := NextStep(strip, p, raw), NextStep(strip, q, raw);
      SameStep(strip, p, q, raw);
      if a.Control? {
        ControlWidth(strip, p, raw);
        StripControl(strip, p, raw);
        StripControl(strip, q, raw);
        CountersDoNotShow(strip, a.next, b.next, raw[a.width..]);
      } else if a.Text? {
        StepBounds(strip, p, raw);
        StripText(strip, p, raw);
        StripText(strip, q, raw);
        CountersDoNotShow(strip, p, q, raw[|a.out|..]);
      }
    }
    hide NextStep;
  }

  lemma SameStep(strip: bool, p: Parser, q: Parser, raw: seq<byte>)
    requires SameView(p, q) && raw != []
    ensures var a, b := NextStep(strip, p, raw), NextStep(strip, q, raw);
            && (a.Incomplete? <==> b.Incomplete?)
            && (a.Text? ==> b == a)
            && (a.Control? ==> b.Control? && b.width == a.width && SameView(a.next, b.next))
  {
  }

  /** A counter of a saved state is taken as its low 32 bits, signed, and brought between 0 and 4096; the mode is taken as it is. */
  lemma SavedStateIsBounded(s: Parser, k: int, i: int)
    requires s.controlLength == k * 0x1_0000_0000 + i && -0x8000_0000 <= i < 0x8000_0000
    ensures CopyState(Some(s)).mode == s.mode
    ensures CopyState(Some(s)).controlLength == if i < 0 then 0 else if i > 4096 then 4096 else i
    ensures CopyState(None) == Parser(Ground, 0, 0, 0)
  {
    var m := s.controlLength % 0x1_0000_0000;
    assert m == if i < 0 then i + 0x1_0000_0000 else i;
  }

  // ----- one sequence at a time -----

  /** A stretch of raw bytes that shows nothing and takes the parser from one state to another. */
  predicate Passes(p: Parser, bytes: seq<byte>, q: Parser, rest: seq<byte>) {
    Strip(true, p, bytes + rest) == After([], |bytes|, Strip(true, q, rest))
  }

  lemma PassesByte(p: Parser, b: byte, q: Parser, rest: seq<byte>)
    requires NextStep(true, p, [b] + rest) == Control(q, 1)
    ensures Passes(p, [b], q, rest)
  {
    StripControl(true, p, [b] + rest);
    assert ([b] + rest)[1..] == rest;
    hide Strip, NextStep;
  }

  lemma PassesNothing(p: Parser, rest: seq<byte>)
    ensures Passes(p, [], p, rest)
  {
    assert [] + rest == rest;
    assert [] + Strip(true, p, rest).text == Strip(true, p, rest).text;
    hide Strip;
  }

  lemma PassesThen(p: Parser, a: seq<byte>, q: Parser, b: seq<byte>, r: Parser, rest: seq<byte>)
    requires Passes(p, a, q, b + rest) && Passes(q, b, r, rest)
    ensures Passes(p, a + b, r, rest)
  {
    hide Strip;
    Assoc(a, b, rest);
    AfterTwice([], |a|, [], |b|, Strip(true, r, rest));
  }

  lemma ControlOpens(p: Parser, kind: byte, rest: seq<byte>) returns (q: Parser)
    requires p.mode == Ground && (kind == LEFT_BRACKET || kind == RIGHT_BRACKET)
    ensures q.mode == (if kind == LEFT_BRACKET then Csi else Osc) && q.controlLength == 2 && Passes(p, [ESC, kind], q, rest)
  {
    var e := p.(mode := Escape, controlLength := 1);
    q := NextStep(true, e, [kind] + rest).next;
    PassesByte(p, ESC, e, [kind] + rest);
    PassesByte(e, kind, q, rest);
    PassesThen(p, [ESC], e, [kind], q, rest);
    assert [ESC] + [kind] == [ESC, kind];
    hide Passes;
  }

  predicate Swallows(p: Parser, b: byte) {
    || (p.mode == Csi && !Final(b))
    || (p.mode == Osc && PayloadByte(b))
    || (p.mode == Discard && b != BEL && b != BACKSLASH)
  }

  /** The byte at `i` of a payload is swallowed, in the mode the parser has reached by then. */
  predicate SwallowsAt(p: Parser, i: nat, b: byte) {
    if p.mode == Discard || p.controlLength + i >= MAX_CONTROL_BYTES then b != BEL && b != BACKSLASH
    else Swallows(p, b)
  }

  lemma {:induction false} PassesPayload(p: Parser, payload: seq<byte>, rest: seq<byte>) returns (q: Parser)
    requires p.mode == Osc || p.mode == Csi || p.mode == Discard
    requires 0 <= p.controlLength <= MAX_CONTROL_BYTES && (p.mode != Discard ==> p.controlLength < MAX_CONTROL_BYTES)
    requires forall i :: 0 <= i < |payload| ==> SwallowsAt(p, i, payload[i])
    ensures Passes(p, payload, q, rest)
    ensures p.mode != Discard ==> q.mode == if p.controlLength + |payload| >= MAX_CONTROL_BYTES then Discard else p.mode
    ensures p.mode == Discard ==> q.mode == Discard
    ensures q.mode != Discard ==> q.controlLength == p.controlLength + |payload| < MAX_CONTROL_BYTES
    ensures 0 <= q.controlLength <= MAX_CONTROL_BYTES
    decreases |payload|
  {
    hide Passes, NextStep;
    if payload == [] {
      PassesNothing(p, rest);
      q := p;
    } else {
      var r := ControlByte(p);
      assert SwallowsAt(p, 0, payload[0]);
      SwallowStep(p, payload[0], payload[1..] + rest);
      PassesByte(p, payload[0], r, payload[1..] + rest);
      forall i | 0 <= i < |payload[1..]|
        ensures SwallowsAt(r, i, payload[1..][i])
      {
        assert SwallowsAt(p, i + 1, payload[i + 1]);
      }
      q := PassesPayload(r, payload[1..], rest);
      PassesThen(p, [payload[0]], r, payload[1..], q, rest);
      assert [payload[0]] + payload[1..] == payload;
    }
  }

  lemma SwallowStep(p: Parser, b: byte, rest: seq<byte>)
    requires Swallows(p, b)
    ensures NextStep(true, p, [b] + rest) == Control(ControlByte(p), 1)
  {
  }

  /** The byte that ends a sequence takes the parser back to ground. */
  lemma Closes(p: Parser, b: byte, rest: seq<byte>)
    requires (p.mode == Csi && Final(b)) || (p.mode == Osc && b == BEL) || (p.mode == Discard && (b == BEL || b == BACKSLASH))
    ensures Passes(p, [b], ToGround(ControlByte(p)), rest)
  {
    PassesByte(p, b, ToGround(ControlByte(p)), rest);
  }

  /** A control function up to its final byte. */
  lemma ParamsPass(p: Parser, params: seq<byte>, rest: seq<byte>) returns (q: Parser)
    requires p.mode == Ground && forall i :: 0 <= i < |params| ==> !Final(params[i])
    requires !LateBell(params)
    ensures Passes(p, [ESC, LEFT_BRACKET] + params, q, rest)
    ensures q.mode == if |params| <= MAX_CSI_PARAMS then Csi else Discard
  {
    hide Passes;
    var c := ControlOpens(p, LEFT_BRACKET, params + rest);
    assert Final(BACKSLASH);
    assert forall i :: 0 <= i < |params| ==> SwallowsAt(c, i, params[i]);
    q := PassesPayload(c, params, rest);
    PassesThen(p, [ESC, LEFT_BRACKET], c, params, q, rest);
  }

  lemma ControlFunctionPasses(p: Parser, params: seq<byte>, final: byte, rest: seq<byte>) returns (q: Parser)
    requires p.mode == Ground && WellFormed(ControlFunction(params, final))
    ensures q.mode == Ground && Passes(p, Raw(ControlFunction(params, final)), q, rest)
  {
    hide Passes;
    var d := ParamsPass(p, params, [final] + rest);
    Closes(d, final, rest);
    q := ToGround(ControlByte(d));
    PassesThen(p, [ESC, LEFT_BRACKET] + params, d, [final], q, rest);
    Assoc([ESC, LEFT_BRACKET], params, [final]);
  }

  /** A command up to its terminator, when no backslash ends it before. */
  lemma CommandPasses(p: Parser, payload: seq<byte>, rest: seq<byte>) returns (q: Parser)
    requires p.mode == Ground && Payload(payload) && !LateBackslash(payload)
    ensures Passes(p, [ESC, RIGHT_BRACKET] + payload, q, rest)
    ensures q.mode == if |payload| >= GIVES_UP then Discard else Osc
    ensures 0 <= q.controlLength <= MAX_CONTROL_BYTES && (q.mode == Osc ==> q.controlLength == |payload| + 2 < MAX_CONTROL_BYTES)
  {
    hide Passes;
    var c := ControlOpens(p, RIGHT_BRACKET, payload + rest);
    assert forall i :: 0 <= i < |payload| ==> PayloadByte(payload[i]) && SwallowsAt(c, i, payload[i]);
    q := PassesPayload(c, payload, rest);
    PassesThen(p, [ESC, RIGHT_BRACKET], c, payload, q, rest);
  }

  lemma CommandBellPasses(p: Parser, payload: seq<byte>, rest: seq<byte>) returns (q: Parser)
    requires p.mode == Ground && WellFormed(CommandBell(payload))
    ensures q.mode == Ground && Passes(p, Raw(CommandBell(payload)), q, rest)
  {
    hide Passes;
    var d := CommandPasses(p, payload, [BEL] + rest);
    Closes(d, BEL, rest);
    q := ToGround(ControlByte(d));
    PassesThen(p, [ESC, RIGHT_BRACKET] + payload, d, [BEL], q, rest);
    Assoc([ESC, RIGHT_BRACKET], payload, [BEL]);
  }

  /** ESC, backslash after a payload: whether it is taken as a terminator depends on how far the count had got. */
  lemma TerminatorPasses(p: Parser, rest: seq<byte>) returns (q: Parser)
    requires p.mode == Osc || p.mode == Discard
    requires 0 <= p.controlLength <= MAX_CONTROL_BYTES && (p.mode == Osc ==> p.controlLength < MAX_CONTROL_BYTES)
    ensures Passes(p, [ESC, BACKSLASH], q, rest)
    ensures q.mode == if p.mode == Discard || p.controlLength + 2 < MAX_CONTROL_BYTES then Ground else Discard
  {
    var e := NextStep(true, p, [ESC] + ([BACKSLASH] + rest)).next;
    PassesByte(p, ESC, e, [BACKSLASH] + rest);
    q := NextStep(true, e, [BACKSLASH] + rest).next;
    PassesByte(e, BACKSLASH, q, rest);
    PassesThen(p, [ESC], e, [BACKSLASH], q, rest);
    assert [ESC] + [BACKSLASH] == [ESC, BACKSLASH];
    hide Passes;
  }

  lemma CommandTerminatedPasses(p: Parser, payload: seq<byte>, rest: seq<byte>) returns (q: Parser)
    requires p.mode == Ground && Payload(payload) && !LateBackslash(payload)
    ensures Passes(p, Raw(CommandTerminated(payload)), q, rest)
    ensures q.mode == if |payload| == MAX_OSC_PAYLOAD + 1 || |payload| == MAX_OSC_PAYLOAD + 2 then Discard else Ground
  {
    hide Passes;
    var st := [ESC, BACKSLASH];
    var d := CommandPasses(p, payload, st + rest);
    q := TerminatorPasses(d, rest);
    PassesThen(p, [ESC, RIGHT_BRACKET] + payload, d, st, q, rest);
    Assoc([ESC, RIGHT_BRACKET], payload, st);
  }

  // ----- exactly which sequences close -----

  /** A whole sequence is used up, shows nothing, and leaves the parser in ground state. */
  predicate ClosesCleanly(raw: seq<byte>) {
    var s := Strip(true, INITIAL, raw);
    s.text == [] && s.consumed == |raw| && s.parser.mode == Ground
  }

  lemma PassesAll(raw: seq<byte>, q: Parser)
    requires Passes(INITIAL, raw, q, [])
    ensures Strip(true, INITIAL, raw) == Stripped([], |raw|, q)
  {
    assert raw + [] == raw;
    assert Strip(true, q, []) == Stripped([], 0, q);
  }

  /** A late backslash takes the parser to ground state with the rest of the command still ahead. */
  lemma LateBackslashReopens(payload: seq<byte>, tail: seq<byte>) returns (at: nat, q: Parser)
    requires Payload(payload) && LateBackslash(payload)
    ensures GIVES_UP <= at < |payload| && payload[at] == BACKSLASH && !LateBackslash(payload[..at]) && q.mode == Ground
    ensures Strip(true, INITIAL, [ESC, RIGHT_BRACKET] + (payload + tail)) == After([], at + 3, Strip(true, q, payload[at + 1..] + tail))
  {
    hide Passes;
    at := FirstFrom(payload, BACKSLASH, GIVES_UP);
    var lead, rest := payload[..at], payload[at + 1..] + tail;
    assert Payload(lead);
    var d := CommandPasses(INITIAL, lead, [BACKSLASH] + rest);
    Closes(d, BACKSLASH, rest);
    q := ToGround(ControlByte(d));
    PassesThen(INITIAL, [ESC, RIGHT_BRACKET] + lead, d, [BACKSLASH], q, rest);
    AroundBackslash(payload, tail, at);
    PassesIs(INITIAL, [ESC, RIGHT_BRACKET] + lead + [BACKSLASH], q, rest);
  }

  lemma PassesIs(p: Parser, bytes: seq<byte>, q: Parser, rest: seq<byte>)
    requires Passes(p, bytes, q, rest)
    ensures Strip(true, p, bytes + rest) == After([], |bytes|, Strip(true, q, rest))
  {
  }

  lemma AroundBackslash(payload: seq<byte>, tail: seq<byte>, at: nat)
    requires at < |payload| && payload[at] == BACKSLASH
    ensures [ESC, RIGHT_BRACKET] + (payload + tail) == [ESC, RIGHT_BRACKET] + payload[..at] + [BACKSLASH] + (payload[at + 1..] + tail)
  {
    assert payload == payload[..at] + [BACKSLASH] + payload[at + 1..];
  }

  lemma {:induction false} FirstFrom(bytes: seq<byte>, b: byte, from: nat) returns (at: nat)
    requires exists i :: from <= i < |bytes| && bytes[i] == b
    ensures from <= at < |bytes| && bytes[at] == b && forall i :: from <= i < at ==> bytes[..at][i] != b
    decreases |bytes| - from
  {
    if bytes[from] == b {
      at := from;
    } else {
      at := FirstFrom(bytes, b, from + 1);
    }
  }

  /** What is read as text in ground state shows, or is a scalar still cut short. */
  lemma GroundShows(q: Parser, text: seq<byte>)
    requires q.mode == Ground && text != [] && text[0] != ESC
    ensures var s := Strip(true, q, text); s.text == [] ==> s.consumed == 0
  {
  }

  /** ESC, backslash in ground state: the backslash is shown. */
  lemma LoneTerminatorShows(q: Parser)
    requires q.mode == Ground
    ensures Strip(true, q, [ESC, BACKSLASH]).text == [BACKSLASH]
  {
    assert [ESC, BACKSLASH] == [ESC, BACKSLASH] + [] && [BACKSLASH] + [] == [BACKSLASH];
    UnknownEscapeDropsOnlyEsc(q, BACKSLASH, []);
    assert [BACKSLASH][..1] == [BACKSLASH] && [BACKSLASH][1..] == [];
    assert Strip(true, q, []).text == [];
  }

  /** A command ended by BEL closes cleanly exactly when it has no late backslash. */
  lemma BellCommandCloses(payload: seq<byte>)
    requires Payload(payload)
    ensures ClosesCleanly(Raw(CommandBell(payload))) <==> !LateBackslash(payload)
  {
    hide Strip;
    var raw := Raw(CommandBell(payload));
    if LateBackslash(payload) {
      var at, q := LateBackslashReopens(payload, [BEL]);
      var left := payload[at + 1..] + [BEL];
      assert left[0] != ESC;
      GroundShows(q, left);
    } else {
      var q := CommandBellPasses(INITIAL, payload, []);
      PassesAll(raw, q);
    }
  }

  /**
   * A command ended by ST closes cleanly exactly when it has no late backslash and is not one or two bytes over
   * the count the parser keeps. There the terminator itself hits the bound, and the text that follows is discarded.
   */
  lemma TerminatedCommandCloses(payload: seq<byte>)
    requires Payload(payload)
    ensures ClosesCleanly(Raw(CommandTerminated(payload)))
            <==> !LateBackslash(payload) && |payload| != MAX_OSC_PAYLOAD + 1 && |payload| != MAX_OSC_PAYLOAD + 2
    ensures var s := Strip(true, INITIAL, Raw(CommandTerminated(payload)));
            !LateBackslash(payload) ==> s.text == [] && (s.parser.mode != Ground ==> s.parser.mode == Discard)
  {
    hide Strip;
    var raw := Raw(CommandTerminated(payload));
    if LateBackslash(payload) {
      var at, q := LateBackslashReopens(payload, [ESC, BACKSLASH]);
      var left := payload[at + 1..] + [ESC, BACKSLASH];
      if at + 1 == |payload| {
        assert left == [ESC, BACKSLASH];
        LoneTerminatorShows(q);
      } else {
        assert left[0] == payload[at + 1] && PayloadByte(payload[at + 1]);
        GroundShows(q, left);
      }
    } else {
      var q := CommandTerminatedPasses(INITIAL, payload, []);
      PassesAll(raw, q);
    }
  }

  /** Bytes of which only the last is a final one do not close anything in ground state. */
  lemma {:induction false} FinalShows(q: Parser, left: seq<byte>)
    requires q.mode == Ground && left != [] && Final(left[|left| - 1]) && forall i :: 0 <= i < |left| - 1 ==> !Final(left[i])
    ensures var s := Strip(true, q, left); !(s.text == [] && s.consumed == |left| && s.parser.mode == Ground)
    decreases |left|
  {
    hide Strip, Passes;
    if left[0] != ESC {
      GroundShows(q, left);
    } else {
      var kind, rest := left[1], left[2..];
      assert left == [ESC, kind] + rest;
      if kind == LEFT_BRACKET || kind == RIGHT_BRACKET {
        var r := ControlOpens(q, kind, []);
        assert left == [ESC, kind];
        NothingMore(q, left, r);
      } else {
        UnknownEscapeDropsOnlyEsc(q, kind, rest);
        assert [kind] + rest == left[1..];
        FinalShows(q, left[1..]);
      }
    }
  }

  lemma NothingMore(p: Parser, raw: seq<byte>, q: Parser)
    requires Passes(p, raw, q, [])
    ensures Strip(true, p, raw).parser == q
  {
    assert raw + [] == raw;
    assert Strip(true, q, []) == Stripped([], 0, q);
  }

  /** A late BEL takes the parser to ground state with the final byte still ahead. */
  lemma LateBellReopens(params: seq<byte>, final: byte)
    requires Final(final) && LateBell(params) && forall i :: 0 <= i < |params| ==> !Final(params[i])
    ensures !ClosesCleanly(Raw(ControlFunction(params, final)))
  {
    hide Strip, Passes, ToGround, ControlByte, Raw;
    var at := FirstFrom(params, BEL, GIVES_UP);
    var lead, left := params[..at], params[at + 1..] + [final];
    var d := ParamsPass(INITIAL, lead, [BEL] + left);
    Closes(d, BEL, left);
    var q := ToGround(ControlByte(d));
    BackToGround(ControlByte(d));
    PassesThen(INITIAL, [ESC, LEFT_BRACKET] + lead, d, [BEL], q, left);
    AroundBell(params, final, at);
    PassesIs(INITIAL, [ESC, LEFT_BRACKET] + lead + [BEL], q, left);
    FinalShows(q, left);
  }

  lemma BackToGround(p: Parser)
    ensures ToGround(p).mode == Ground
  {
  }

  lemma AroundBell(params: seq<byte>, final: byte, at: nat)
    requires at < |params| && params[at] == BEL
    ensures Raw(ControlFunction(params, final)) == [ESC, LEFT_BRACKET] + params[..at] + [BEL] + (params[at + 1..] + [final])
  {
    assert params == params[..at] + [BEL] + params[at + 1..];
  }

  /**
   * A control function, whatever its parameter bytes, closes cleanly exactly when the parser still follows it at
   * its final byte, or that byte is a backslash and no BEL came after the parser gave up.
   */
  lemma ControlFunctionCloses(params: seq<byte>, final: byte)
    requires Final(final) && forall i :: 0 <= i < |params| ==> !Final(params[i])
    ensures ClosesCleanly(Raw(ControlFunction(params, final)))
            <==> |params| <= MAX_CSI_PARAMS || (final == BACKSLASH && !LateBell(params))
  {
    hide Strip, Passes;
    var raw := Raw(ControlFunction(params, final));
    if |params| <= MAX_CSI_PARAMS || (final == BACKSLASH && !LateBell(params)) {
      var q := ControlFunctionPasses(INITIAL, params, final, []);
      PassesAll(raw, q);
    } else if LateBell(params) {
      LateBellReopens(params, final);
    } else {
      var d := ParamsPass(INITIAL, params, [final] + []);
      SwallowStep(d, final, []);
      PassesByte(d, final, ControlByte(d), []);
      PassesThen(INITIAL, [ESC, LEFT_BRACKET] + params, d, [final], ControlByte(d), []);
      Assoc([ESC, LEFT_BRACKET], params, [final]);
      PassesAll(raw, ControlByte(d));
    }
  }

  function Letters(n: nat): (r: seq<byte>)
    ensures |r| == n && forall i :: 0 <= i < n ==> r[i] == 0x3b
  {
    seq(n, i => 0x3b)
  }

  /** An ST-ended command one byte over the bound: the parser stays in discard mode, and the text behind it is lost. */
  lemma LongCommandTakesTextAlong()
    ensures Strip(true, INITIAL, Raw(CommandTerminated(Letters(MAX_OSC_PAYLOAD + 1))) + [0x61]).text == []
    ensures !ClosesCleanly(Raw(CommandTerminated(Letters(MAX_OSC_PAYLOAD + 1))))
  {
    hide Strip, Passes;
    var payload := Letters(MAX_OSC_PAYLOAD + 1);
    TerminatedCommandCloses(payload);
    var q := CommandTerminatedPasses(INITIAL, payload, [0x61]);
    PassesIs(INITIAL, Raw(CommandTerminated(payload)), q, [0x61]);
    DiscardedLetter(q);
  }

  /** A control function one parameter byte over the bound swallows the text behind it in the same way. */
  lemma LongFunctionTakesTextAlong()
    ensures Strip(true, INITIAL, Raw(ControlFunction(Letters(MAX_CSI_PARAMS + 1), 0x6d)) + [0x61]).text == []
    ensures !ClosesCleanly(Raw(ControlFunction(Letters(MAX_CSI_PARAMS + 1), 0x6d)))
  {
    hide Strip, Passes;
    var params, m := Letters(MAX_CSI_PARAMS + 1), 0x6d;
    ControlFunctionCloses(params, m);
    var d := ParamsPass(INITIAL, params, [m] + [0x61]);
    SwallowStep(d, m, [0x61]);
    PassesByte(d, m, ControlByte(d), [0x61]);
    PassesThen(INITIAL, [ESC, LEFT_BRACKET] + params, d, [m], ControlByte(d), [0x61]);
    Assoc([ESC, LEFT_BRACKET], params, [m]);
    PassesIs(INITIAL, Raw(ControlFunction(params, m)), ControlByte(d), [0x61]);
    DiscardedLetter(ControlByte(d));
  }

  lemma DiscardedLetter(q: Parser)
    requires q.mode == Discard
    ensures Strip(true, q, [0x61]).text == []
  {
    assert [0x61][1..] == [];
  }

  /** An ESC that opens nothing known is dropped alone: the byte after it is read as text. */
  lemma UnknownEscapeDropsOnlyEsc(p: Parser, b: byte, rest: seq<byte>)
    requires p.mode == Ground && b != LEFT_BRACKET && b != RIGHT_BRACKET
    ensures Strip(true, p, [ESC, b] + rest).text == Strip(true, p, [b] + rest).text
    ensures Strip(true, p, [ESC, b] + rest).consumed == 1 + Strip(true, p, [b] + rest).consumed
    ensures Strip(true, p, [ESC, b] + rest).parser.mode == Strip(true, p, [b] + rest).parser.mode
  {
    var tail := [b] + rest;
    var raw := [ESC, b] + rest;
    assert raw[1..] == tail && tail[0..] == tail;
    var e := p.(mode := Escape, controlLength := 1);
    StripControl(true, p, raw);
    StripControl(true, e, tail);
    var g := NextStep(true, e, tail).next;
    CountersDoNotShow(true, p, g, tail);
    hide Strip;
  }

  // ----- plain text -----

  /** With no ESC in it, text is kept byte for byte as far as it goes. */
  lemma {:induction false} PlainTextIsKept(p: Parser, text: seq<byte>)
    requires p.mode == Ground && ESC !in text
    ensures var s := Strip(true, p, text); s.text == text[..s.consumed] && s.parser == p
    decreases |text|
  {
    hide NextStep, Strip;
    NoTextNoStep(p);
    if text != [] {
      var step := NextStep(true, p, text);
      PlainStep(p, text);
      if step.Text? {
        StripText(true, p, text);
        PlainTextIsKept(p, text[|step.out|..]);
        TakeTwice(text, |step.out|, Strip(true, p, text[|step.out|..]).consumed);
      } else {
        NoWholeScalar(p, text);
      }
    }
  }

  lemma NoTextNoStep(p: Parser)
    ensures Strip(true, p, []) == Stripped([], 0, p)
  {
  }

  lemma NoWholeScalar(p: Parser, text: seq<byte>)
    requires text != [] && NextStep(true, p, text).Incomplete?
    ensures Strip(true, p, text) == Stripped([], 0, p)
  {
    hide NextStep;
  }

  /** Without ESC the next step in ground state is text, or waits for the rest of a scalar. */
  lemma PlainStep(p: Parser, text: seq<byte>)
    requires p.mode == Ground && ESC !in text && text != []
    ensures var step := NextStep(true, p, text);
            step.Incomplete? || (step.Text? && 1 <= |step.out| <= |text| && step.out == text[..|step.out|])
  {
    assert text[0] != ESC;
  }

  lemma TakeTwice(text: seq<byte>, n: nat, m: nat)
    requires n <= |text| && m <= |text| - n
    ensures text[..n + m] == text[..n] + text[n..][..m]
  {
  }

  /** Text that ends on a scalar boundary shows in full, whatever follows it. */
  lemma {:induction false} WholeTextThen(p: Parser, text: seq<byte>, rest: seq<byte>)
    requires p.mode == Ground && ESC !in text && Strip(true, p, text).consumed == |text|
    ensures Strip(true, p, text + rest) == After(text, |text|, Strip(true, p, rest))
    decreases |text|
  {
    if text == [] {
      PassesNothing(p, rest);
      hide Strip;
    } else {
      WholeTextStep(p, text, rest);
      var out := NextStep(true, p, text).out;
      WholeTextThen(p, text[|out|..], rest);
      AfterTwice(out, |out|, text[|out|..], |text| - |out|, Strip(true, p, rest));
      assert out + text[|out|..] == text;
      hide NextStep, Strip, After;
    }
  }

  lemma WholeTextStep(p: Parser, text: seq<byte>, rest: seq<byte>)
    requires p.mode == Ground && text != [] && ESC !in text && Strip(true, p, text).consumed == |text|
    ensures var step := NextStep(true, p, text);
            && step.Text? && 1 <= |step.out| <= |text| && step.out == text[..|step.out|]
            && Strip(true, p, text[|step.out|..]).consumed == |text| - |step.out|
            && Strip(true, p, text + rest) == After(step.out, |step.out|, Strip(true, p, text[|step.out|..] + rest))
  {
    hide Strip, NextStep;
    var step := NextStep(true, p, text);
    WholeTextFirst(p, text, rest);
    var out := step.out;
    StripText(true, p, text);
    StripText(true, p, text + rest);
    CutAppend(text, rest, |out|);
  }

  /** The first scalar of a text is the same with more bytes after it. */
  lemma WholeTextFirst(p: Parser, text: seq<byte>, rest: seq<byte>)
    requires p.mode == Ground && text != [] && ESC !in text && Strip(true, p, text).consumed == |text|
    ensures var step := NextStep(true, p, text);
            step.Text? && 1 <= |step.out| <= |text| && step.out == text[..|step.out|] && NextStep(true, p, text + rest) == step
  {
    assert text[0] != ESC;
    var w := Utf8Width(text[0]);
    assert (text + rest)[0] == text[0];
    if w <= |text| {
      CutAppend(text, rest, w);
    }
  }

  // ----- a whole log -----

  /** Stripping a log made of text and complete control sequences gives exactly the text. */
  lemma {:induction false} StripGivesVisibleText(p: Parser, segments: seq<Segment>)
    requires p.mode == Ground && forall i :: 0 <= i < |segments| ==> WellFormed(segments[i])
    ensures Strip(true, p, RawAll(segments)).text == Visible(segments)
    ensures Strip(true, p, RawAll(segments)).consumed == |RawAll(segments)|
    decreases |segments|
  {
    if segments != [] {
      var s, rest := segments[0], RawAll(segments[1..]);
      var q := SegmentShows(p, s, rest);
      StripGivesVisibleText(q, segments[1..]);
      hide Strip, WellFormed, Raw;
    }
  }

  lemma SegmentShows(p: Parser, s: Segment, rest: seq<byte>) returns (q: Parser)
    requires p.mode == Ground && WellFormed(s)
    ensures q.mode == Ground
    ensures Strip(true, p, Raw(s) + rest) == After(if s.Plain? then s.text else [], |Raw(s)|, Strip(true, q, rest))
  {
    q := p;
    match s
    case Plain(text) =>
      CountersDoNotShow(true, INITIAL, p, text);
      WholeTextThen(p, text, rest);
    case ControlFunction(params, final) =>
      q := ControlFunctionPasses(p, params, final, rest);
    case CommandBell(payload) =>
      q := CommandBellPasses(p, payload, rest);
    case CommandTerminated(payload) =>
      q := CommandTerminatedPasses(p, payload, rest);
  }
}
