/** One page of presentable log text cut from raw chunks: specification and loop. */
module LogPresentation {
  import opened Bytes
  import opened Lines

  datatype Mode = Ground | Escape | Csi | Osc | OscEscape | Discard

  datatype Parser = Parser(mode: Mode, csiLength: int, oscLength: int, controlLength: int)

  datatype Options = Options(maxBytes: int, stripAnsi: bool, collapse: bool, rawScanCap: int)

  datatype Page = Page(data: seq<byte>, state: Parser, consumedRawBytes: nat, scannedRawBytes: nat, truncated: bool)

  datatype Presented = Presented(page: Page) | RangeError

  const MIN_BUDGET := 4
  const DEFAULT_RAW_SCAN_CAP := 1024 * 1024
  const MAX_CONTROL_BYTES := 4096
  const MAX_DEDUP_LINE_BYTES := 64 * 1024
  const MAX_SAFE_INTEGER := 0x1F_FFFF_FFFF_FFFF

  const BEL: byte := 0x07
  const ESC: byte := 0x1b
  const BACKSLASH: byte := 0x5c

  // ----- parser state -----

  /** `x | 0`. */
  function ToInt32(x: int): int {
    var m := x % 0x1_0000_0000;
    if m >= 0x8000_0000 then m - 0x1_0000_0000 else m
  }

  function Clamp(x: int): (c: int)
    ensures 0 <= c <= MAX_CONTROL_BYTES
    ensures 0 <= x <= MAX_CONTROL_BYTES ==> c == x
  {
    var i := ToInt32(x);
    if i < 0 then 0 else if i > MAX_CONTROL_BYTES then MAX_CONTROL_BYTES else i
  }

  const INITIAL := Parser(Ground, 0, 0, 0)

  function CopyState(state: Option<Parser>): Parser {
    var s := if state.Some? then state.value else INITIAL;
    Parser(s.mode, Clamp(s.csiLength), Clamp(s.oscLength), Clamp(s.controlLength))
  }

  predicate Bounded(p: Parser) {
    && 0 <= p.csiLength <= MAX_CONTROL_BYTES
    && 0 <= p.oscLength <= MAX_CONTROL_BYTES
    && 0 <= p.controlLength <= MAX_CONTROL_BYTES
  }

  // ----- UTF-8 (section 4 of RFC 3629) -----

  function Utf8Width(b: byte): nat {
    if b < 0x80 then 1
    else if 0xc2 <= b <= 0xdf then 2
    else if 0xe0 <= b <= 0xef then 3
    else if 0xf0 <= b <= 0xf4 then 4
    else 1
  }

  predicate Continuation(b: byte) {
    0x80 <= b <= 0xbf
  }

  /** Exactly one well-formed scalar. */
  predicate Scalar(s: seq<byte>) {
    && s != [] && |s| == Utf8Width(s[0]) && (|s| == 1 ==> s[0] < 0x80)
    && (forall i :: 1 <= i < |s| ==> Continuation(s[i]))
    && (s[0] == 0xe0 ==> s[1] >= 0xa0)
    && (s[0] == 0xed ==> s[1] <= 0x9f)
    && (s[0] == 0xf0 ==> s[1] >= 0x90)
    && (s[0] == 0xf4 ==> s[1] <= 0x8f)
  }

  /** U+FFFD, which the decoder also produces for malformed input. */
  const REPLACEMENT: seq<byte> := [0xef, 0xbf, 0xbd]

  /** Decoding gives no U+FFFD. */
  predicate DecodesCleanly(candidate: seq<byte>) {
    Scalar(candidate) && candidate != REPLACEMENT
  }

  // ----- one step of the byte machine -----

  /** `controlByte`: count a control byte, giving up on the sequence at the bound. */
  function ControlByte(p: Parser): Parser {
    var length := if p.controlLength + 1 < MAX_CONTROL_BYTES then p.controlLength + 1 else MAX_CONTROL_BYTES;
    var mode := if length >= MAX_CONTROL_BYTES then Discard else p.mode;
    Parser(mode,
           if mode == Csi then Bump(p.csiLength) else p.csiLength,
           if mode == Osc || mode == OscEscape then Bump(p.oscLength) else p.oscLength,
           length)
  }

  function Bump(n: int): int {
    if n + 1 < MAX_CONTROL_BYTES then n + 1 else MAX_CONTROL_BYTES
  }

  function ToGround(p: Parser): Parser {
    p.(mode := Ground, controlLength := 0)
  }

  /**
   * What the next raw bytes mean: a scalar still cut short, text to emit (with the scan
   * allowance it asks for), or a control byte (`width` 0 when it is read again as text).
   */
  datatype Step = Incomplete | Text(out: seq<byte>, need: nat) | Control(next: Parser, width: nat)

  function NextStep(strip: bool, p: Parser, rest: seq<byte>): (s: Step)
    requires rest != []
    ensures s.Text? ==> 1 <= |s.out| <= s.need <= 4 && s.out <= rest
    ensures s.Control? ==> s.width <= 1 && (s.width == 0 ==> p.mode == Escape && s.next.mode == Ground)
  {
    var b := rest[0];
    if !strip || p.mode == Ground then
      if strip && b == ESC then Control(p.(mode := Escape, controlLength := 1), 1)
      else
        var width := Utf8Width(b);
        if |rest| < width then Incomplete
        else if width > 1 && !DecodesCleanly(rest[..width]) then Text([b], width)
        else Text(rest[..width], width)
    else
      var q := ControlByte(p);
      match p.mode
      case Escape =>
        if b == 0x5b then Control(q.(mode := Csi, csiLength := 0), 1)
        else if b == 0x5d then Control(q.(mode := Osc, oscLength := 0), 1)
        else Control(ToGround(q), 0)
      case Csi =>
        Control(if 0x40 <= b <= 0x7e then ToGround(q) else q, 1)
      case Discard =>
        Control(if b == BEL || b == BACKSLASH then ToGround(q) else q, 1)
      case Osc | OscEscape =>
        Control(
          if q.mode == OscEscape then (if b == BACKSLASH then ToGround(q) else q.(mode := Osc))
          else if b == BEL then ToGround(q)
          else if b == ESC then q.(mode := OscEscape)
          else q, 1)
  }

  // ----- where in the chunks the machine is -----

  datatype Pos = Pos(chunk: nat, offset: nat)

  /** The raw bytes from a position on. */
  function Rest(chunks: seq<seq<byte>>, pos: Pos): seq<byte> {
    if pos.chunk >= |chunks| then []
    else (if pos.offset >= |chunks[pos.chunk]| then [] else chunks[pos.chunk][pos.offset..]) + Flatten(chunks[pos.chunk + 1..])
  }

  datatype Advance = Advance(pos: Pos, consumed: nat)

  /**
   * The scalar-advance loop. It measures every chunk by the length of the one the scalar
   * started in, which is right only for some chunk layouts.
   */
  function AdvanceScalar(count: nat, startLength: nat, pos: Pos, remaining: nat, consumed: nat): Advance
    requires pos.offset <= startLength && 0 < startLength
    decreases remaining, count - pos.chunk
  {
    if remaining == 0 then Advance(pos, consumed)
    else
      var left := startLength - pos.offset;
      var step := if remaining < left then remaining else left;
      var offset := pos.offset + step;
      if offset == startLength && remaining - step > 0 then
        if pos.chunk + 1 >= count then Advance(Pos(pos.chunk + 1, 0), consumed + step)
        else AdvanceScalar(count, startLength, Pos(pos.chunk + 1, 0), remaining - step, consumed + step)
      else AdvanceScalar(count, startLength, Pos(pos.chunk, offset), remaining - step, consumed + step)
  }

  /** The position, and the bytes counted as consumed, after `out` bytes of text or one control byte. */
  function Move(chunks: seq<seq<byte>>, pos: Pos, width: nat): Advance
    requires pos.chunk < |chunks| && pos.offset < |chunks[pos.chunk]|
  {
    if width <= 1 then Advance(Pos(pos.chunk, pos.offset + width), width)
    else AdvanceScalar(|chunks|, |chunks[pos.chunk]|, pos, width, 0)
  }

  // ----- line collapsing -----

  /** The page buffer: bytes already in the page, the line being held back, the last whole line, and whether lines are still held. */
  datatype Emitter = Emitter(output: seq<byte>, line: seq<byte>, previousLine: Option<seq<byte>>, dedupLine: bool)

  const EMPTY := Emitter([], [], None, true)

  datatype Emission = Emission(ok: bool, e: Emitter)

  function Append(maxBytes: int, e: Emitter, bytes: seq<byte>): Emission {
    if bytes == [] then Emission(true, e)
    else if |e.output| + |bytes| > maxBytes then Emission(false, e)
    else Emission(true, e.(output := e.output + bytes))
  }

  function EmitLine(maxBytes: int, e: Emitter, bytes: seq<byte>): Emission {
    if e.previousLine == Some(bytes) then Emission(true, e)
    else
      var a := Append(maxBytes, e, bytes);
      if a.ok then Emission(true, a.e.(previousLine := Some(bytes))) else a
  }

  function EmitText(o: Options, e: Emitter, bytes: seq<byte>): Emission
    decreases |e.line| + |bytes|
  {
    if !o.collapse || !e.dedupLine then Append(o.maxBytes, e, bytes)
    else
      var next := e.line + bytes;
      var n := LineLength(next);
      if n == |next| then
        if |next| > MAX_DEDUP_LINE_BYTES then Append(o.maxBytes, e.(dedupLine := false, line := []), next)
        else Emission(true, e.(line := next))
      else
        var emitted := EmitLine(o.maxBytes, e, next[..n + 1]);
        if !emitted.ok then emitted
        else
          var done := emitted.e.(line := []);
          if next[n + 1..] == [] then Emission(true, done) else EmitText(o, done, next[n + 1..])
  }

  // ----- a page, as a run of steps -----

  /** How far a run has come. `text` is everything emitted so far, before collapsing. */
  datatype Cursor = Cursor(parser: Parser, consumed: nat, scanned: nat, text: seq<byte>)

  /**
   * The reference for collapsing, over a whole text: drop each line equal to the one before it,
   * hold back the unfinished last line, and stop collapsing at a line over the bound.
   */
  function Collapse(text: seq<byte>, previous: Option<seq<byte>>): Emitter
    decreases |text|
  {
    var n := LineLength(text);
    if n > MAX_DEDUP_LINE_BYTES then Emitter(text, [], previous, false)
    else if n == |text| then Emitter([], text, previous, true)
    else
      var line := text[..n + 1];
      var later := Collapse(text[n + 1..], Some(line));
      later.(output := (if previous == Some(line) then [] else line) + later.output)
  }

  /** The page buffer after a text has been emitted. */
  function View(o: Options, text: seq<byte>): Emitter {
    if o.collapse then Collapse(text, None) else Emitter(text, [], None, true)
  }

  predicate Fits(o: Options, text: seq<byte>) {
    |View(o, text).output| <= o.maxBytes
  }

  /** Adding `out` takes the held-back line over the bound. */
  predicate Overlong(o: Options, text: seq<byte>, out: seq<byte>) {
    View(o, text).dedupLine && !View(o, text + out).dedupLine
  }

  /** Why a run stopped. `overlong` marks the stop that throws away a held-back line. */
  datatype Stop = AtEnd | CutScalar | ScanStop | BudgetStop(overlong: bool)

  datatype Outcome = Outcome(stop: Stop, cursor: Cursor, lineStart: Cursor)

  /** Where the held-back line starts once `cursor` emits more text. */
  function LineStart(o: Options, cursor: Cursor, lineStart: Cursor): Cursor {
    var v := View(o, cursor.text);
    if o.collapse && v.dedupLine && v.line == [] then cursor.(scanned := cursor.scanned + 1) else lineStart
  }

  function Run(o: Options, chunks: seq<seq<byte>>, pos: Pos, cursor: Cursor, lineStart: Cursor): Outcome
    decreases |Rest(chunks, pos)|, if cursor.parser.mode == Escape then 1 else 0, |chunks| - pos.chunk
  {
    if pos.chunk >= |chunks| then Outcome(AtEnd, cursor, lineStart)
    else if pos.offset >= |chunks[pos.chunk]| then
      NextChunk(chunks, pos);
      Run(o, chunks, Pos(pos.chunk + 1, 0), cursor, lineStart)
    else if cursor.scanned >= o.rawScanCap then Outcome(ScanStop, cursor, lineStart)
    else
      match NextStep(o.stripAnsi, cursor.parser, Rest(chunks, pos))
      case Incomplete => Outcome(CutScalar, cursor, lineStart)
      case Control(next, width) =>
        MoveShrinksRest(chunks, pos, width);
        var a := Move(chunks, pos, width);
        Run(o, chunks, a.pos, Cursor(next, cursor.consumed + a.consumed, cursor.scanned + 1, cursor.text), lineStart)
      case Text(out, need) =>
        if cursor.scanned + need > o.rawScanCap then Outcome(ScanStop, cursor, lineStart)
        else
          var start := LineStart(o, cursor, lineStart);
          if !Fits(o, cursor.text + out) then
            Outcome(BudgetStop(Overlong(o, cursor.text, out)), cursor.(scanned := cursor.scanned + 1), start)
          else
            MoveShrinksRest(chunks, pos, |out|);
            var a := Move(chunks, pos, |out|);
            Run(o, chunks, a.pos, Cursor(cursor.parser, cursor.consumed + a.consumed, cursor.scanned + |out|, cursor.text + out), start)
  }

  /** The cursor a page ends on, whether it was cut short, and the held-back line if that was thrown away. */
  datatype Ending = Ending(cursor: Cursor, truncated: bool, lost: seq<byte>)

  function End(o: Options, run: Outcome): Ending {
    var v := View(o, run.cursor.text);
    if run.stop == BudgetStop(true) then Ending(run.cursor, true, v.line)
    else if run.stop.ScanStop? || run.stop.BudgetStop? then
      Ending(if v.line == [] then run.cursor else run.lineStart, true, [])
    else if |v.output| + |v.line| <= o.maxBytes then Ending(run.cursor, false, [])
    else Ending(run.lineStart, true, [])
  }

  function PageOf(o: Options, run: Outcome): Page {
    var end := End(o, run);
    var v := View(o, run.cursor.text);
    Page(if end.truncated then v.output else v.output + v.line,
         end.cursor.parser, end.cursor.consumed, end.cursor.scanned, end.truncated)
  }

  predicate Accepted(o: Options) {
    MIN_BUDGET <= o.maxBytes <= MAX_SAFE_INTEGER && 1 <= o.rawScanCap <= MAX_SAFE_INTEGER
  }

  function FirstRun(chunks: seq<seq<byte>>, state: Option<Parser>, o: Options): Outcome {
    var start := Cursor(CopyState(state), 0, 0, []);
    Run(o, chunks, Pos(0, 0), start, start)
  }

  function Present(chunks: seq<seq<byte>>, state: Option<Parser>, o: Options): Presented {
    if Accepted(o) then Presented(PageOf(o, FirstRun(chunks, state, o))) else RangeError
  }

  // ----- positions -----

  /** A position at the end of a chunk is the start of the next. */
  lemma NextChunk(chunks: seq<seq<byte>>, pos: Pos)
    requires pos.chunk < |chunks|
    ensures Rest(chunks, pos) == (if pos.offset >= |chunks[pos.chunk]| then [] else chunks[pos.chunk][pos.offset..])
                                 + Rest(chunks, Pos(pos.chunk + 1, 0))
  {
    var later := chunks[pos.chunk + 1..];
    if later != [] {
      assert later[0] == chunks[pos.chunk + 1] && later[1..] == chunks[pos.chunk + 2..];
      assert chunks[pos.chunk + 1][0..] == chunks[pos.chunk + 1];
    }
  }

  lemma RestLater(chunks: seq<seq<byte>>, from: nat, pos: Pos)
    requires from < pos.chunk
    ensures |Rest(chunks, pos)| <= |Flatten(if from + 1 <= |chunks| then chunks[from + 1..] else [])|
    decreases pos.chunk - from
  {
    if pos.chunk < |chunks| {
      assert chunks[from + 1..][0] == chunks[from + 1] && chunks[from + 1..][1..] == chunks[from + 2..];
      if from + 1 < pos.chunk {
        RestLater(chunks, from + 1, pos);
      }
    }
  }

  lemma {:induction false} AdvanceGoesForward(count: nat, startLength: nat, pos: Pos, remaining: nat, consumed: nat)
    requires pos.offset <= startLength && 0 < startLength
    ensures var a := AdvanceScalar(count, startLength, pos, remaining, consumed);
            a.pos.chunk > pos.chunk || (a.pos.chunk == pos.chunk && a.pos.offset == pos.offset + remaining)
    decreases remaining, count - pos.chunk
  {
    if remaining > 0 {
      var left := startLength - pos.offset;
      var step := if remaining < left then remaining else left;
      if pos.offset + step == startLength && remaining - step > 0 {
        if pos.chunk + 1 < count {
          AdvanceGoesForward(count, startLength, Pos(pos.chunk + 1, 0), remaining - step, consumed + step);
        }
      } else {
        AdvanceGoesForward(count, startLength, Pos(pos.chunk, pos.offset + step), remaining - step, consumed + step);
      }
    }
  }

  lemma MoveShrinksRest(chunks: seq<seq<byte>>, pos: Pos, width: nat)
    requires pos.chunk < |chunks| && pos.offset < |chunks[pos.chunk]|
    ensures |Rest(chunks, Move(chunks, pos, width).pos)| + (if width == 0 then 0 else 1) <= |Rest(chunks, pos)|
  {
    var a := Move(chunks, pos, width);
    if width > 1 {
      AdvanceGoesForward(|chunks|, |chunks[pos.chunk]|, pos, width, 0);
    }
    if a.pos.chunk > pos.chunk {
      RestLater(chunks, pos.chunk, a.pos);
    }
  }

  // ----- the presenter itself -----

  /** Collect a scalar's bytes, looking into later chunks where it runs over the end of one. */
  method GatherScalar(chunks: seq<seq<byte>>, chunkIndex: nat, offset: nat, width: nat) returns (candidate: seq<byte>)
    requires chunkIndex < |chunks| && offset < |chunks[chunkIndex]|
    ensures candidate == Take(Rest(chunks, Pos(chunkIndex, offset)), width)
  {
    candidate := [];
    var look := chunkIndex;
    ghost var rest := Rest(chunks, Pos(chunkIndex, offset));
    ghost var later := rest;
    hide Rest;
    while look < |chunks| && |candidate| < width
      invariant chunkIndex <= look <= |chunks| && |candidate| <= width
      invariant rest == candidate + later
      invariant |candidate| < width ==> later == Rest(chunks, Pos(look, if look == chunkIndex then offset else 0))
    {
      var source := chunks[look];
      var start := if look == chunkIndex then offset else 0;
      var count := if width - |candidate| < |source| - start then width - |candidate| else |source| - start;
      NextChunk(chunks, Pos(look, start));
      var here := if start >= |source| then [] else source[start..];
      if count > 0 {
        TakeMore(candidate, here, Rest(chunks, Pos(look + 1, 0)), count);
        assert source[start..start + count] == here[..count];
        candidate := candidate + source[start..start + count];
        later := here[count..] + Rest(chunks, Pos(look + 1, 0));
      } else {
        later := Rest(chunks, Pos(look + 1, 0));
      }
      look := look + 1;
    }
    if look >= |chunks| && |candidate| < width {
      RestEmpty(chunks, Pos(look, if look == chunkIndex then offset else 0));
    }
    assert candidate + [] == candidate;
  }

  lemma RestEmpty(chunks: seq<seq<byte>>, pos: Pos)
    requires pos.chunk >= |chunks|
    ensures Rest(chunks, pos) == []
  {
  }

  function Take(s: seq<byte>, n: nat): seq<byte> {
    if n <= |s| then s[..n] else s
  }

  lemma TakeMore(taken: seq<byte>, here: seq<byte>, later: seq<byte>, count: nat)
    requires count <= |here|
    ensures taken + (here + later) == taken + here[..count] + (here[count..] + later)
    ensures count == |here| ==> here[count..] + later == later
  {
    assert here == here[..count] + here[count..];
  }

  /** The scalar-advance loop, as it is written. */
  method AdvancePast(chunks: seq<seq<byte>>, startIndex: nat, startOffset: nat, width: nat)
    returns (chunkIndex: nat, offset: nat, consumed: nat)
    requires startIndex < |chunks| && startOffset < |chunks[startIndex]|
    ensures Advance(Pos(chunkIndex, offset), consumed)
            == AdvanceScalar(|chunks|, |chunks[startIndex]|, Pos(startIndex, startOffset), width, 0)
  {
    chunkIndex, offset, consumed := startIndex, startOffset, 0;
    var length := |chunks[startIndex]|;
    var remaining: nat := width;
    while remaining > 0
      invariant offset <= length
      invariant AdvanceScalar(|chunks|, length, Pos(startIndex, startOffset), width, 0)
                == AdvanceScalar(|chunks|, length, Pos(chunkIndex, offset), remaining, consumed)
      decreases remaining, |chunks| - chunkIndex
    {
      var step := if remaining < length - offset then remaining else length - offset;
      offset := offset + step;
      consumed := consumed + step;
      remaining := remaining - step;
      if offset == length && remaining > 0 {
        chunkIndex := chunkIndex + 1;
        offset := 0;
        if chunkIndex >= |chunks| {
          return;
        }
      }
    }
  }

  /** Emitting a scalar into the buffer of a text gives the buffer of the longer text. */
  lemma EmitTextExtendsView(o: Options, text: seq<byte>, out: seq<byte>)
    requires Fits(o, text) && 1 <= |out| <= 4 && (out == [NEWLINE] || NEWLINE !in out)
    ensures var emission := EmitText(o, View(o, text), out);
            && emission.ok == Fits(o, text + out)
            && (emission.ok ==> emission.e == View(o, text + out))
            && (!emission.ok ==> emission.e == if Overlong(o, text, out) then View(o, text).(line := [], dedupLine := false) else View(o, text))
  {
    var v := View(o, text);
    if o.collapse {
      CollapseShape(text, None);
      CollapseAppend(text, out, None);
      if v.dedupLine {
        EmitTextOnce(o, v, out);
      }
    }
  }

  /** A held-back line has no newline and is within the bound. */
  lemma {:induction false} CollapseShape(text: seq<byte>, previous: Option<seq<byte>>)
    ensures var v := Collapse(text, previous);
            NEWLINE !in v.line && |v.line| <= MAX_DEDUP_LINE_BYTES && (!v.dedupLine ==> v.line == [])
    decreases |text|
  {
    var n := LineLength(text);
    if n <= MAX_DEDUP_LINE_BYTES && n < |text| {
      CollapseShape(text[n + 1..], Some(text[..n + 1]));
    }
  }

  /** The page buffer after more text, from the page buffer so far. */
  function Resume(v: Emitter, more: seq<byte>): Emitter {
    if !v.dedupLine then v.(output := v.output + more)
    else
      var later := Collapse(v.line + more, v.previousLine);
      later.(output := v.output + later.output)
  }

  /** Collapsing a longer text picks up from the held-back line of the shorter one. */
  lemma {:induction false} CollapseAppend(text: seq<byte>, more: seq<byte>, previous: Option<seq<byte>>)
    ensures Collapse(text + more, previous) == Resume(Collapse(text, previous), more)
    decreases |text|
  {
    var n := LineLength(text);
    LineLengthAppend(text, more);
    if n > MAX_DEDUP_LINE_BYTES {
    } else if n == |text| {
      assert [] + Collapse(text + more, previous).output == Collapse(text + more, previous).output;
    } else {
      CollapseAppend(text[n + 1..], more, Some(text[..n + 1]));
      CollapseAppendLine(text, more, previous);
    }
  }

  lemma CollapseAppendLine(text: seq<byte>, more: seq<byte>, previous: Option<seq<byte>>)
    requires LineLength(text) < |text| && LineLength(text) <= MAX_DEDUP_LINE_BYTES
    requires var n := LineLength(text);
             var v := Collapse(text[n + 1..], Some(text[..n + 1]));
             Collapse(text[n + 1..] + more, Some(text[..n + 1])) == Resume(v, more)
    ensures Collapse(text + more, previous) == Resume(Collapse(text, previous), more)
  {
    hide Collapse, LineLength;
    var n := LineLength(text);
    var line, rest := text[..n + 1], text[n + 1..];
    LineLengthAppend(text, more);
    CutAppend(text, more, n + 1);
    CollapseLine(text, previous);
    CollapseLine(text + more, previous);
    var head := if previous == Some(line) then [] else line;
    var v := Collapse(rest, Some(line));
    Assoc(head, v.output, if v.dedupLine then Collapse(v.line + more, v.previousLine).output else more);
  }

  lemma CollapseLine(text: seq<byte>, previous: Option<seq<byte>>)
    requires LineLength(text) < |text| && LineLength(text) <= MAX_DEDUP_LINE_BYTES
    ensures var line := text[..LineLength(text) + 1];
            var later := Collapse(text[LineLength(text) + 1..], Some(line));
            Collapse(text, previous) == later.(output := (if previous == Some(line) then [] else line) + later.output)
  {
  }

  /** One scalar onto a held-back line, against collapsing that line with the scalar added. */
  lemma EmitTextOnce(o: Options, v: Emitter, out: seq<byte>)
    requires o.collapse && v.dedupLine && |v.output| <= o.maxBytes
    requires NEWLINE !in v.line && |v.line| <= MAX_DEDUP_LINE_BYTES
    requires 1 <= |out| <= 4 && (out == [NEWLINE] || NEWLINE !in out)
    ensures var later := Collapse(v.line + out, v.previousLine);
            var emission := EmitText(o, v, out);
            && emission.ok == (|v.output| + |later.output| <= o.maxBytes)
            && (emission.ok ==> emission.e == later.(output := v.output + later.output))
            && (!emission.ok ==> emission.e == if later.dedupLine then v else v.(line := [], dedupLine := false))
  {
    var next := v.line + out;
    LineLengthNone(v.line);
    LineLengthAppend(v.line, out);
    if out == [NEWLINE] {
      assert next[..|v.line| + 1] == next && next[|v.line| + 1..] == [];
      assert LineLength(out) == 0;
      assert Collapse([], Some(next)) == Emitter([], [], Some(next), true);
      assert next + [] == next;
    } else {
      LineLengthNone(out);
    }
  }

  /** A step's text is one scalar, so a newline comes alone. */
  lemma StepTextIsOneScalar(strip: bool, p: Parser, rest: seq<byte>)
    requires rest != [] && NextStep(strip, p, rest).Text?
    ensures var out := NextStep(strip, p, rest).out; out == [NEWLINE] || NEWLINE !in out
  {
    var out := NextStep(strip, p, rest).out;
    if |out| > 1 {
      assert Scalar(out) && out[0] != NEWLINE;
    }
  }

  // A run, step by step.

  lemma RunControl(o: Options, chunks: seq<seq<byte>>, pos: Pos, c: Cursor, lineStart: Cursor)
    requires pos.chunk < |chunks| && pos.offset < |chunks[pos.chunk]| && c.scanned < o.rawScanCap
    requires NextStep(o.stripAnsi, c.parser, Rest(chunks, pos)).Control?
    ensures var step := NextStep(o.stripAnsi, c.parser, Rest(chunks, pos));
            Run(o, chunks, pos, c, lineStart)
            == Run(o, chunks, Pos(pos.chunk, pos.offset + step.width),
                   Cursor(step.next, c.consumed + step.width, c.scanned + 1, c.text), lineStart)
  {
    hide Rest, View, LineStart, Overlong, Fits, NextStep;
  }

  lemma RunText(o: Options, chunks: seq<seq<byte>>, pos: Pos, c: Cursor, lineStart: Cursor)
    requires pos.chunk < |chunks| && pos.offset < |chunks[pos.chunk]| && c.scanned < o.rawScanCap
    requires NextStep(o.stripAnsi, c.parser, Rest(chunks, pos)).Text?
    ensures var step := NextStep(o.stripAnsi, c.parser, Rest(chunks, pos));
            var a := Move(chunks, pos, |step.out|);
            Run(o, chunks, pos, c, lineStart)
            == if c.scanned + step.need > o.rawScanCap then Outcome(ScanStop, c, lineStart)
               else if !Fits(o, c.text + step.out) then
                 Outcome(BudgetStop(Overlong(o, c.text, step.out)), c.(scanned := c.scanned + 1), LineStart(o, c, lineStart))
               else
                 Run(o, chunks, a.pos, Cursor(c.parser, c.consumed + a.consumed, c.scanned + |step.out|, c.text + step.out),
                     LineStart(o, c, lineStart))
  {
    hide Rest, View, LineStart, Overlong, Fits, NextStep, Move;
  }

  predicate Holding(o: Options, e: Emitter) {
    o.collapse && e.dedupLine && |e.line| > 0
  }

  /** Where a page that was cut short resumes: before the held-back line, if there is one. */
  lemma PageAfterCut(o: Options, run: Outcome, e: Emitter)
    requires run.stop.ScanStop? || run.stop == BudgetStop(false)
    requires e == View(o, run.cursor.text)
    ensures PageOf(o, run) == PageAt(e.output, MarkOf(if Holding(o, e) then run.lineStart else run.cursor), true)
  {
    CollapseShape(run.cursor.text, None);
  }

  lemma PageAfterEnd(o: Options, run: Outcome, e: Emitter)
    requires run.stop.AtEnd? || run.stop.CutScalar?
    requires e == View(o, run.cursor.text) && Fits(o, run.cursor.text)
    ensures PageOf(o, run) == if |e.line| > 0 && |e.output| + |e.line| > o.maxBytes
                              then PageAt(e.output, MarkOf(run.lineStart), true)
                              else PageAt(if |e.line| > 0 then e.output + e.line else e.output, MarkOf(run.cursor), false)
  {
    assert e.output + [] == e.output;
  }

  /** A place a page can resume from. */
  datatype Mark = Mark(parser: Parser, consumed: nat, scanned: nat)

  function MarkOf(c: Cursor): Mark {
    Mark(c.parser, c.consumed, c.scanned)
  }

  function PageAt(data: seq<byte>, mark: Mark, truncated: bool): Page {
    Page(data, mark.parser, mark.consumed, mark.scanned, truncated)
  }

  lemma RestStarts(chunks: seq<seq<byte>>, pos: Pos)
    requires pos.chunk < |chunks| && pos.offset < |chunks[pos.chunk]|
    ensures Rest(chunks, pos) != [] && Rest(chunks, pos)[0] == chunks[pos.chunk][pos.offset]
  {
  }

  lemma GroundStep(strip: bool, p: Parser, rest: seq<byte>)
    requires rest != [] && (!strip || p.mode == Ground)
    ensures NextStep(strip, p, rest) ==
            if strip && rest[0] == ESC then Control(p.(mode := Escape, controlLength := 1), 1)
            else
              var width := Utf8Width(rest[0]);
              var candidate := Take(rest, width);
              if |candidate| < width then Incomplete
              else Text(if width > 1 && !DecodesCleanly(candidate) then [rest[0]] else candidate, width)
  {
  }

  lemma RunCut(o: Options, chunks: seq<seq<byte>>, pos: Pos, c: Cursor, lineStart: Cursor)
    requires pos.chunk < |chunks| && pos.offset < |chunks[pos.chunk]|
    requires c.scanned >= o.rawScanCap || NextStep(o.stripAnsi, c.parser, Rest(chunks, pos)).Incomplete?
    ensures Run(o, chunks, pos, c, lineStart) == Outcome(if c.scanned >= o.rawScanCap then ScanStop else CutScalar, c, lineStart)
  {
    hide Rest, NextStep;
  }

  /** The escape parser: one control byte. Only bounded counters are kept, never the payload. */
  method TakeControl(before: Parser, b: byte) returns (parser: Parser, width: nat)
    requires before.mode != Ground || b == ESC
    ensures width <= 1 && (width == 0 ==> before.mode == Escape && parser.mode == Ground)
    ensures forall rest :: rest != [] && rest[0] == b ==> NextStep(true, before, rest) == Control(parser, width)
  {
    parser := before;
    if parser.mode == Ground {
      parser := parser.(mode := Escape, controlLength := 1);
      width := 1;
      return;
    }
    if parser.mode == Escape {
      parser := ControlByte(parser);
      width := 1;
      if b == 0x5b {
        parser := parser.(mode := Csi, csiLength := 0);
        return;
      }
      if b == 0x5d {
        parser := parser.(mode := Osc, oscLength := 0);
        return;
      }
      // Unknown escape: drop the ESC and read this byte again as text.
      parser := parser.(mode := Ground, controlLength := 0);
      width := width - 1;
      return;
    }
    if parser.mode == Csi {
      parser := ControlByte(parser);
      width := 1;
      if 0x40 <= b <= 0x7e {
        parser := parser.(mode := Ground, controlLength := 0);
      }
      return;
    }
    if parser.mode == Osc || parser.mode == OscEscape {
      parser := ControlByte(parser);
      width := 1;
      if parser.mode == OscEscape {
        parser := if b == BACKSLASH then parser.(mode := Ground, controlLength := 0) else parser.(mode := Osc);
      } else if b == BEL {
        parser := parser.(mode := Ground, controlLength := 0);
      } else if b == ESC {
        parser := parser.(mode := OscEscape);
      }
    } else {
      parser := ControlByte(parser);
      width := 1;
      if b == BEL || b == BACKSLASH {
        parser := parser.(mode := Ground, controlLength := 0);
      }
    }
  }

  /** Read one scalar in ground state, or find it cut short by the end of the chunks. */
  method ReadText(strip: bool, chunks: seq<seq<byte>>, chunkIndex: nat, offset: nat, parser: Parser)
    returns (complete: bool, out: seq<byte>, width: nat)
    requires chunkIndex < |chunks| && offset < |chunks[chunkIndex]|
    requires !strip || (parser.mode == Ground && chunks[chunkIndex][offset] != ESC)
    ensures NextStep(strip, parser, Rest(chunks, Pos(chunkIndex, offset))) == if complete then Text(out, width) else Incomplete
  {
    var b := chunks[chunkIndex][offset];
    RestStarts(chunks, Pos(chunkIndex, offset));
    GroundStep(strip, parser, Rest(chunks, Pos(chunkIndex, offset)));
    width := Utf8Width(b);
    var candidate := GatherScalar(chunks, chunkIndex, offset, width);
    complete := |candidate| >= width;
    out := if width > 1 && !DecodesCleanly(candidate) then [b] else candidate;
  }

  method StepOver(chunks: seq<seq<byte>>, chunkIndex: nat, offset: nat, width: nat)
    returns (chunkIndex': nat, offset': nat, consumed: nat)
    requires chunkIndex < |chunks| && offset < |chunks[chunkIndex]|
    ensures Advance(Pos(chunkIndex', offset'), consumed) == Move(chunks, Pos(chunkIndex, offset), width)
  {
    if width <= 1 {
      return chunkIndex, offset + width, width;
    }
    chunkIndex', offset', consumed := AdvancePast(chunks, chunkIndex, offset, width);
  }

  /** What a text step makes of the page: go on past it, or stop here with the page complete. */
  lemma TextStep(o: Options, chunks: seq<seq<byte>>, pos: Pos, c: Cursor, lineStart: Cursor, out: seq<byte>, width: nat)
    requires pos.chunk < |chunks| && pos.offset < |chunks[pos.chunk]| && c.scanned < o.rawScanCap
    requires NextStep(o.stripAnsi, c.parser, Rest(chunks, pos)) == Text(out, width)
    requires Fits(o, c.text)
    ensures var run := Run(o, chunks, pos, c, lineStart);
            var v := View(o, c.text);
            var start := LineStart(o, c, lineStart);
            var emission := EmitText(o, v, out);
            var a := Move(chunks, pos, |out|);
            if c.scanned + width > o.rawScanCap then
              PageOf(o, run) == PageAt(v.output, MarkOf(if Holding(o, v) then lineStart else c), true)
            else if !emission.ok then
              PageOf(o, run) == PageAt(emission.e.output, MarkOf(if Holding(o, emission.e) then start else c.(scanned := c.scanned + 1)), true)
            else
              && Fits(o, c.text + out) && emission.e == View(o, c.text + out)
              && run == Run(o, chunks, a.pos, Cursor(c.parser, c.consumed + a.consumed, c.scanned + |out|, c.text + out), start)
              && |Rest(chunks, a.pos)| < |Rest(chunks, pos)|
  {
    hide *;
    RunText(o, chunks, pos, c, lineStart);
    StepTextIsOneScalar(o.stripAnsi, c.parser, Rest(chunks, pos));
    EmitTextExtendsView(o, c.text, out);
    MoveShrinksRest(chunks, pos, |out|);
    StepBounds(o.stripAnsi, c.parser, Rest(chunks, pos));
    var run := Run(o, chunks, pos, c, lineStart);
    var emission := EmitText(o, View(o, c.text), out);
    if c.scanned + width > o.rawScanCap {
      PageAfterCut(o, run, View(o, c.text));
    } else if !emission.ok {
      PageAfterBudget(o, run, View(o, c.text), emission.e);
    }
  }

  lemma StepBounds(strip: bool, p: Parser, rest: seq<byte>)
    requires rest != []
    ensures var s := NextStep(strip, p, rest); s.Text? ==> 1 <= |s.out| <= s.need <= 4 && s.out <= rest
  {
  }

  method PresentLogChunks(chunks: seq<seq<byte>>, state: Option<Parser>, o: Options) returns (result: Presented)
    ensures result == Present(chunks, state, o)
  {
    hide *;
    Refuses(chunks, state, o);
    if o.maxBytes > MAX_SAFE_INTEGER || o.maxBytes < MIN_BUDGET {
      return RangeError;
    }
    if o.rawScanCap > MAX_SAFE_INTEGER || o.rawScanCap < 1 {
      return RangeError;
    }
    var at := Mark(CopyState(state), 0, 0);
    var e := EMPTY;
    var truncated := false;
    var lineStart := at;
    var chunkIndex: nat, offset: nat := 0, 0;
    ghost var text: seq<byte> := [];
    ghost var lineCursor := Cursor(at.parser, 0, 0, []);
    ghost var run := FirstRun(chunks, state, o);
    RunStarts(chunks, state, o);
    while chunkIndex < |chunks|
      invariant !truncated && Fits(o, text) && e == View(o, text) && MarkOf(lineCursor) == lineStart
      invariant run == Run(o, chunks, Pos(chunkIndex, offset), Cursor(at.parser, at.consumed, at.scanned, text), lineCursor)
      decreases |Rest(chunks, Pos(chunkIndex, offset))|, if at.parser.mode == Escape then 1 else 0, |chunks| - chunkIndex
    {
      ghost var pos := Pos(chunkIndex, offset);
      ghost var cursor := Cursor(at.parser, at.consumed, at.scanned, text);
      ghost var rest := Rest(chunks, pos);
      MarkOfIs(cursor);
      MarkOfIs(cursor.(scanned := at.scanned + 1));
      var chunk := chunks[chunkIndex];
      if offset >= |chunk| {
        RunNextChunk(o, chunks, pos, cursor, lineCursor);
        chunkIndex := chunkIndex + 1;
        offset := 0;
        continue;
      }
      if at.scanned >= o.rawScanCap {
        RunCut(o, chunks, pos, cursor, lineCursor);
        PageAfterCut(o, run, e);
        at, e := RollbackLine(o, e, at, lineStart);
        truncated := true;
        break;
      }
      var b := chunk[offset];
      RestStarts(chunks, pos);
      if (!o.stripAnsi || at.parser.mode == Ground) && !(o.stripAnsi && b == ESC) {
        var complete, out, width := ReadText(o.stripAnsi, chunks, chunkIndex, offset, at.parser);
        if !complete {
          RunCut(o, chunks, pos, cursor, lineCursor);
          PageAfterEnd(o, run, e);
          break;
        }
        TextStep(o, chunks, pos, cursor, lineCursor, out, width);
        if at.scanned + width > o.rawScanCap {
          at, e := RollbackLine(o, e, at, lineStart);
          truncated := true;
          break;
        }
        LineStartIs(o, cursor, lineCursor);
        lineCursor := LineStart(o, cursor, lineCursor);
        if o.collapse && e.dedupLine && |e.line| == 0 {
          lineStart := at.(scanned := at.scanned + 1);
        }
        var emission := EmitText(o, e, out);
        e := emission.e;
        if !emission.ok {
          at, e := RollbackLine(o, e, at.(scanned := at.scanned + 1), lineStart);
          truncated := true;
          break;
        }
        text := text + out;
        var consumed;
        chunkIndex, offset, consumed := StepOver(chunks, chunkIndex, offset, |out|);
        at := Mark(at.parser, at.consumed + consumed, at.scanned + |out|);
        continue;
      }
      // A control byte: an ESC met in ground state, or a byte of the sequence being skipped.
      ControlStep(o.stripAnsi, at.parser, rest);
      RunControl(o, chunks, pos, cursor, lineCursor);
      var parser, width := TakeControl(at.parser, b);
      MoveIs(chunks, pos, width);
      MoveShrinksRest(chunks, pos, width);
      at := Mark(parser, at.consumed + width, at.scanned + 1);
      offset := offset + width;
    }
    if chunkIndex >= |chunks| && !truncated {
      RunEnds(o, chunks, Pos(chunkIndex, offset), Cursor(at.parser, at.consumed, at.scanned, text), lineCursor);
      MarkOfIs(Cursor(at.parser, at.consumed, at.scanned, text));
      PageAfterEnd(o, run, e);
    }
    var data := e.output;
    if |e.line| > 0 && !truncated {
      if |e.output| + |e.line| <= o.maxBytes {
        data := e.output + e.line;
      } else {
        at := lineStart;
        truncated := true;
      }
    }
    PageAtIs(data, at, truncated);
    result := Presented(Page(data, at.parser, at.consumed, at.scanned, truncated));
  }

  /** `rollbackLine`. */
  method RollbackLine(o: Options, e: Emitter, at: Mark, lineStart: Mark) returns (at': Mark, e': Emitter)
    ensures at' == if Holding(o, e) then lineStart else at
    ensures e'.output == e.output && (Holding(o, e) ==> e'.line == [])
  {
    at', e' := at, e;
    if !o.collapse || !e.dedupLine || |e.line| == 0 {
      return;
    }
    at' := lineStart;
    e' := e.(line := []);
  }

  lemma MarkOfIs(c: Cursor)
    ensures MarkOf(c) == Mark(c.parser, c.consumed, c.scanned)
  {
  }

  lemma PageAtIs(data: seq<byte>, mark: Mark, truncated: bool)
    ensures PageAt(data, mark, truncated) == Page(data, mark.parser, mark.consumed, mark.scanned, truncated)
  {
  }

  lemma Refuses(chunks: seq<seq<byte>>, state: Option<Parser>, o: Options)
    ensures Present(chunks, state, o) == RangeError
            <==> o.maxBytes > MAX_SAFE_INTEGER || o.maxBytes < MIN_BUDGET || o.rawScanCap > MAX_SAFE_INTEGER || o.rawScanCap < 1
  {
  }

  lemma RunStarts(chunks: seq<seq<byte>>, state: Option<Parser>, o: Options)
    ensures var at := Mark(CopyState(state), 0, 0);
            var start := Cursor(at.parser, 0, 0, []);
            && FirstRun(chunks, state, o) == Run(o, chunks, Pos(0, 0), start, start)
            && MarkOf(start) == at && EMPTY == View(o, []) && (o.maxBytes >= MIN_BUDGET ==> Fits(o, []))
            && (Present(chunks, state, o) != RangeError ==> Present(chunks, state, o) == Presented(PageOf(o, FirstRun(chunks, state, o))))
  {
    hide Run;
  }

  lemma RunNextChunk(o: Options, chunks: seq<seq<byte>>, pos: Pos, c: Cursor, lineStart: Cursor)
    requires pos.chunk < |chunks| && pos.offset >= |chunks[pos.chunk]|
    ensures Run(o, chunks, pos, c, lineStart) == Run(o, chunks, Pos(pos.chunk + 1, 0), c, lineStart)
    ensures Rest(chunks, Pos(pos.chunk + 1, 0)) == Rest(chunks, pos)
  {
    NextChunk(chunks, pos);
    hide Rest;
  }

  lemma RunEnds(o: Options, chunks: seq<seq<byte>>, pos: Pos, c: Cursor, lineStart: Cursor)
    requires pos.chunk >= |chunks|
    ensures Run(o, chunks, pos, c, lineStart) == Outcome(AtEnd, c, lineStart)
  {
  }

  lemma MoveIs(chunks: seq<seq<byte>>, pos: Pos, width: nat)
    requires pos.chunk < |chunks| && pos.offset < |chunks[pos.chunk]|
    ensures Move(chunks, pos, width) ==
            if width <= 1 then Advance(Pos(pos.chunk, pos.offset + width), width)
            else AdvanceScalar(|chunks|, |chunks[pos.chunk]|, pos, width, 0)
  {
  }

  lemma ControlStep(strip: bool, p: Parser, rest: seq<byte>)
    requires rest != [] && strip && (p.mode != Ground || rest[0] == ESC)
    ensures NextStep(strip, p, rest).Control?
  {
  }

  lemma LineStartIs(o: Options, cursor: Cursor, lineStart: Cursor)
    ensures var v := View(o, cursor.text);
            MarkOf(LineStart(o, cursor, lineStart))
            == if o.collapse && v.dedupLine && |v.line| == 0 then Mark(cursor.parser, cursor.consumed, cursor.scanned + 1) else MarkOf(lineStart)
  {
  }

  lemma PageAfterBudget(o: Options, run: Outcome, before: Emitter, e: Emitter)
    requires run.stop.BudgetStop? && before == View(o, run.cursor.text)
    requires e == if run.stop.overlong then before.(line := [], dedupLine := false) else before
    ensures PageOf(o, run) == PageAt(e.output, MarkOf(if Holding(o, e) then run.lineStart else run.cursor), true)
  {
    CollapseShape(run.cursor.text, None);
  }
}
