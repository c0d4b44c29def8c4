/** The length-prefixed frames between the Windows helper and the agent. */
module WindowsFrames {
  import opened Bytes

  const FRAME_TAG_STDOUT: byte := 0x01
  const FRAME_TAG_STDERR: byte := 0x02
  const FRAME_TAG_CONTROL: byte := 0x03
  const HEADER_BYTES: nat := 5
  const U32: nat := 0x1_0000_0000

  datatype Frame = Frame(tag: byte, payload: seq<byte>)

  datatype ParsedFrames = ParsedFrames(stdout: seq<seq<byte>>, stderr: seq<seq<byte>>, control: Option<seq<byte>>)

  // ----- the helper's writer -----

  /** `len as u32` followed by `to_le_bytes`: only the low 32 bits survive. */
  function ToLeBytes(n: nat): seq<byte> {
    [n % 256, n / 256 % 256, n / 256 / 256 % 256, n / 256 / 256 / 256 % 256]
  }

  function EncodeFrame(f: Frame): seq<byte> {
    [f.tag] + ToLeBytes(|f.payload|) + f.payload
  }

  function EncodeAll(frames: seq<Frame>): seq<byte> {
    if frames == [] then [] else EncodeFrame(frames[0]) + EncodeAll(frames[1..])
  }

  // ----- the agent's reader -----

  function FromLe(b0: int, b1: int, b2: int, b3: int): int {
    b0 + 256 * (b1 + 256 * (b2 + 256 * b3))
  }

  function ReadUInt32LE(b: seq<byte>, at: nat): nat
    requires at + 4 <= |b|
  {
    FromLe(b[at], b[at + 1], b[at + 2], b[at + 3])
  }

  /** A buffer from which no whole frame can be taken. */
  predicate Partial(b: seq<byte>) {
    |b| < HEADER_BYTES || |b| < HEADER_BYTES + ReadUInt32LE(b, 1)
  }

  datatype Decoded = Decoded(frames: seq<Frame>, rest: seq<byte>)

  function Decode(b: seq<byte>): (d: Decoded)
    ensures Partial(d.rest)
  {
    if Partial(b) then Decoded([], b)
    else
      var end := HEADER_BYTES + ReadUInt32LE(b, 1);
      var d := Decode(b[end..]);
      Decoded([Frame(b[0], b[HEADER_BYTES..end])] + d.frames, d.rest)
  }

  /** The payloads carried under one tag, in order. */
  function Payloads(frames: seq<Frame>, tag: byte): seq<seq<byte>> {
    if frames == [] then []
    else (if frames[0].tag == tag then [frames[0].payload] else []) + Payloads(frames[1..], tag)
  }

  /** The newest element, or what was there before. */
  function Last(items: seq<seq<byte>>, before: Option<seq<byte>>): Option<seq<byte>> {
    if items == [] then before else Some(items[|items| - 1])
  }

  function Route(frames: seq<Frame>): ParsedFrames {
    ParsedFrames(Payloads(frames, FRAME_TAG_STDOUT), Payloads(frames, FRAME_TAG_STDERR),
                 Last(Payloads(frames, FRAME_TAG_CONTROL), None))
  }

  class WindowsHelperFrameReader {
    var buffer: seq<byte>

    constructor ()
      ensures buffer == []
    {
      buffer := [];
    }

    method Append(chunk: seq<byte>) returns (parsed: ParsedFrames)
      modifies this
      ensures buffer == Decode(old(buffer) + chunk).rest
      ensures parsed == Route(Decode(old(buffer) + chunk).frames)
    {
      buffer := buffer + chunk;
      ghost var whole := buffer;
      ghost var frames := [];
      var stdout, stderr, control := [], [], None;
      while |buffer| >= HEADER_BYTES
        invariant Decode(whole) == Decoded(frames + Decode(buffer).frames, Decode(buffer).rest)
        invariant stdout == Payloads(frames, FRAME_TAG_STDOUT)
        invariant stderr == Payloads(frames, FRAME_TAG_STDERR)
        invariant control == Last(Payloads(frames, FRAME_TAG_CONTROL), None)
        decreases |buffer|
      {
        var tag := buffer[0];
        var length := ReadUInt32LE(buffer, 1);
        if |buffer| < HEADER_BYTES + length {
          break;
        }
        var payload := buffer[HEADER_BYTES..HEADER_BYTES + length];
        ghost var frame := Frame(tag, payload);
        Assoc(frames, [frame], Decode(buffer[HEADER_BYTES + length..]).frames);
        PayloadsSnoc(frames, frame);
        frames := frames + [frame];
        buffer := buffer[HEADER_BYTES + length..];
        if tag == FRAME_TAG_STDOUT {
          stdout := stdout + [payload];
        } else if tag == FRAME_TAG_STDERR {
          stderr := stderr + [payload];
        } else if tag == FRAME_TAG_CONTROL {
          control := Some(payload);
        }
      }
      assert frames + [] == frames;
      parsed := ParsedFrames(stdout, stderr, control);
    }
  }

  lemma {:induction false} PayloadsAppend(a: seq<Frame>, b: seq<Frame>, tag: byte)
    ensures Payloads(a + b, tag) == Payloads(a, tag) + Payloads(b, tag)
  {
    if a == [] {
      assert a + b == b;
    } else {
      PayloadsAppend(a[1..], b, tag);
      AppendTail(a, b);
      Assoc(if a[0].tag == tag then [a[0].payload] else [], Payloads(a[1..], tag), Payloads(b, tag));
    }
  }

  lemma PayloadsSnoc(frames: seq<Frame>, f: Frame)
    ensures forall tag: byte :: Payloads(frames + [f], tag) == Payloads(frames, tag) + if f.tag == tag then [f.payload] else []
  {
    forall tag: byte
      ensures Payloads(frames + [f], tag) == Payloads(frames, tag) + if f.tag == tag then [f.payload] else []
    {
      PayloadsAppend(frames, [f], tag);
      assert [f][1..] == [];
    }
  }

  // ----- writer against reader -----

  lemma LeArithmetic(n: nat)
    ensures FromLe(n % 256, n / 256 % 256, n / 256 / 256 % 256, n / 256 / 256 / 256 % 256) == n % U32
  {
    var q1 := n / 256;
    var q2 := q1 / 256;
    var q3 := q2 / 256;
    var q4 := q3 / 256;
    var low := FromLe(n % 256, q1 % 256, q2 % 256, q3 % 256);
    assert n == low + U32 * q4 && 0 <= low < U32;
    ModUnique(n, q4, low);
  }

  lemma ModUnique(n: int, q: int, r: int)
    requires n == r + U32 * q && 0 <= r < U32
    ensures n % U32 == r
  {
  }

  lemma LeRoundTrip(tag: byte, n: nat, tail: seq<byte>)
    ensures ReadUInt32LE([tag] + ToLeBytes(n) + tail, 1) == n % U32
  {
    LeArithmetic(n);
    var le := ToLeBytes(n);
    var b := [tag] + le + tail;
    assert b[1] == le[0] && b[2] == le[1] && b[3] == le[2] && b[4] == le[3];
  }

  /** One frame followed by anything decodes to that frame and the decoding of what follows. */
  lemma DecodeOne(f: Frame, tail: seq<byte>)
    requires |f.payload| < U32
    ensures Decode(EncodeFrame(f) + tail) == Decoded([f] + Decode(tail).frames, Decode(tail).rest)
  {
    var b := EncodeFrame(f) + tail;
    LeRoundTrip(f.tag, |f.payload|, f.payload + tail);
    assert b == [f.tag] + ToLeBytes(|f.payload|) + (f.payload + tail);
    var end := HEADER_BYTES + |f.payload|;
    assert ReadUInt32LE(b, 1) == |f.payload| && |b| == end + |tail|;
    assert b[HEADER_BYTES..end] == f.payload;
    assert b[end..] == tail;
    assert Frame(b[0], b[HEADER_BYTES..end]) == f;
  }

  lemma {:induction false} DecodeEncode(frames: seq<Frame>)
    requires forall f :: f in frames ==> |f.payload| < U32
    ensures Decode(EncodeAll(frames)) == Decoded(frames, [])
  {
    if frames != [] {
      DecodeEncode(frames[1..]);
      DecodeOne(frames[0], EncodeAll(frames[1..]));
    }
  }

  /** The 32-bit length is the only limit: a frame comes back exactly when its length fits. */
  lemma FrameRoundTripsExactlyBelow4GiB(f: Frame)
    ensures Decode(EncodeFrame(f)) == Decoded([f], []) <==> |f.payload| < U32
  {
    if |f.payload| < U32 {
      DecodeOne(f, []);
      assert EncodeFrame(f) + [] == EncodeFrame(f);
    } else {
      LeRoundTrip(f.tag, |f.payload|, f.payload);
      var b := EncodeFrame(f);
      assert ReadUInt32LE(b, 1) < |f.payload|;
      assert Decode(b).frames[0].payload == b[HEADER_BYTES..HEADER_BYTES + ReadUInt32LE(b, 1)];
    }
  }

  // ----- chunking does not matter -----

  lemma {:induction false} DecodeStreams(a: seq<byte>, b: seq<byte>)
    ensures Decode(a + b).frames == Decode(a).frames + Decode(Decode(a).rest + b).frames
    ensures Decode(a + b).rest == Decode(Decode(a).rest + b).rest
    decreases |a|
  {
    if !Partial(a) {
      var end := HEADER_BYTES + ReadUInt32LE(a, 1);
      var ab := a + b;
      assert ReadUInt32LE(ab, 1) == ReadUInt32LE(a, 1);
      assert ab[end..] == a[end..] + b;
      assert ab[HEADER_BYTES..end] == a[HEADER_BYTES..end];
      var f := Frame(a[0], a[HEADER_BYTES..end]);
      assert Decode(ab) == Decoded([f] + Decode(ab[end..]).frames, Decode(ab[end..]).rest);
      assert Decode(a) == Decoded([f] + Decode(a[end..]).frames, Decode(a[end..]).rest);
      DecodeStreams(a[end..], b);
    }
  }

  datatype Run = Run(calls: seq<ParsedFrames>, buffer: seq<byte>)

  /** A run of Append calls, starting from a given buffer: what each call returns, and the buffer left. */
  function ReadAll(buffer: seq<byte>, chunks: seq<seq<byte>>): Run
    decreases |chunks|
  {
    if chunks == [] then Run([], buffer)
    else
      var d := Decode(buffer + chunks[0]);
      var later := ReadAll(d.rest, chunks[1..]);
      Run([Route(d.frames)] + later.calls, later.buffer)
  }

  function AllStdout(calls: seq<ParsedFrames>): seq<seq<byte>> {
    if calls == [] then [] else calls[0].stdout + AllStdout(calls[1..])
  }

  function AllStderr(calls: seq<ParsedFrames>): seq<seq<byte>> {
    if calls == [] then [] else calls[0].stderr + AllStderr(calls[1..])
  }

  /** The control payload a caller ends up with when later calls overwrite earlier ones. */
  function LastControl(calls: seq<ParsedFrames>, before: Option<seq<byte>>): Option<seq<byte>> {
    if calls == [] then before
    else LastControl(calls[1..], if calls[0].control.Some? then calls[0].control else before)
  }

  /** The calls of a run hand out exactly the given frames, in order. */
  predicate HandsOut(calls: seq<ParsedFrames>, frames: seq<Frame>, before: Option<seq<byte>>) {
    && AllStdout(calls) == Payloads(frames, FRAME_TAG_STDOUT)
    && AllStderr(calls) == Payloads(frames, FRAME_TAG_STDERR)
    && LastControl(calls, before) == Last(Payloads(frames, FRAME_TAG_CONTROL), before)
  }

  lemma HandsOutCons(first: seq<Frame>, calls: seq<ParsedFrames>, later: seq<Frame>, before: Option<seq<byte>>)
    requires HandsOut(calls, later, if Route(first).control.Some? then Route(first).control else before)
    ensures HandsOut([Route(first)] + calls, first + later, before)
  {
    RouteAppend(first, later);
    assert ([Route(first)] + calls)[1..] == calls;
  }

  lemma {:induction false} ReadAllIsDecode(buffer: seq<byte>, chunks: seq<seq<byte>>, before: Option<seq<byte>>)
    requires Partial(buffer)
    ensures ReadAll(buffer, chunks).buffer == Decode(buffer + Flatten(chunks)).rest
    ensures HandsOut(ReadAll(buffer, chunks).calls, Decode(buffer + Flatten(chunks)).frames, before)
    decreases |chunks|
  {
    if chunks == [] {
      assert buffer + Flatten(chunks) == buffer;
    } else {
      var d := Decode(buffer + chunks[0]);
      var tail := Flatten(chunks[1..]);
      var control := Route(d.frames).control;
      var inner := if control.Some? then control else before;
      hide Decode, HandsOut, Route, Partial;
      ReadAllIsDecode(d.rest, chunks[1..], inner);
      DecodeStreams(buffer + chunks[0], tail);
      Assoc(buffer, chunks[0], tail);
      HandsOutCons(d.frames, ReadAll(d.rest, chunks[1..]).calls, Decode(d.rest + tail).frames, before);
    }
  }

  lemma RouteAppend(a: seq<Frame>, b: seq<Frame>)
    ensures Payloads(a + b, FRAME_TAG_STDOUT) == Payloads(a, FRAME_TAG_STDOUT) + Payloads(b, FRAME_TAG_STDOUT)
    ensures Payloads(a + b, FRAME_TAG_STDERR) == Payloads(a, FRAME_TAG_STDERR) + Payloads(b, FRAME_TAG_STDERR)
    ensures Payloads(a + b, FRAME_TAG_CONTROL) == Payloads(a, FRAME_TAG_CONTROL) + Payloads(b, FRAME_TAG_CONTROL)
  {
    PayloadsAppend(a, b, FRAME_TAG_STDOUT);
    PayloadsAppend(a, b, FRAME_TAG_STDERR);
    PayloadsAppend(a, b, FRAME_TAG_CONTROL);
  }

  /** However the helper's bytes are cut, the reader hands out every payload, in order, and keeps nothing back. */
  lemma FramesIgnoreChunking(frames: seq<Frame>, chunks: seq<seq<byte>>)
    requires forall f :: f in frames ==> |f.payload| < U32
    requires Flatten(chunks) == EncodeAll(frames)
    ensures ReadAll([], chunks).buffer == []
    ensures HandsOut(ReadAll([], chunks).calls, frames, None)
  {
    ReadAllIsDecode([], chunks, None);
    assert [] + Flatten(chunks) == Flatten(chunks);
    DecodeEncode(frames);
  }

  function Zeros(n: nat): (z: seq<byte>)
    ensures |z| == n
  {
    if n == 0 then [] else [0] + Zeros(n - 1)
  }

  /** Between calls the buffer is always a strict prefix of one frame the helper could have written. */
  lemma BufferIsPrefixOfOneFrame(buffer: seq<byte>, chunk: seq<byte>)
    ensures var rest := Decode(buffer + chunk).rest;
            exists f: Frame :: |f.payload| < U32 && rest < EncodeFrame(f)
  {
    var rest := Decode(buffer + chunk).rest;
    if |rest| < HEADER_BYTES {
      // Complete the header with zeros; its length field then names the payload.
      var header := rest + Zeros(HEADER_BYTES - |rest|);
      CompleteFrame(header, rest);
    } else {
      CompleteFrame(rest, rest);
    }
  }

  lemma ToLeInverts(b0: byte, b1: byte, b2: byte, b3: byte)
    ensures ToLeBytes(FromLe(b0, b1, b2, b3)) == [b0, b1, b2, b3]
    ensures 0 <= FromLe(b0, b1, b2, b3) < U32
  {
    var n := FromLe(b0, b1, b2, b3);
    assert n / 256 == b1 + 256 * (b2 + 256 * b3);
    assert n / 256 / 256 == b2 + 256 * b3;
    assert n / 256 / 256 / 256 == b3;
  }

  lemma CompleteFrame(b: seq<byte>, rest: seq<byte>)
    requires HEADER_BYTES <= |b| <= HEADER_BYTES + ReadUInt32LE(b, 1)
    requires rest <= b && |rest| < HEADER_BYTES + ReadUInt32LE(b, 1)
    ensures exists f: Frame :: |f.payload| < U32 && rest < EncodeFrame(f)
  {
    var n := ReadUInt32LE(b, 1);
    ToLeInverts(b[1], b[2], b[3], b[4]);
    var f := Frame(b[0], b[HEADER_BYTES..] + Zeros(n - (|b| - HEADER_BYTES)));
    var e := EncodeFrame(f);
    assert |f.payload| == n && |e| == HEADER_BYTES + n;
    forall i | 0 <= i < |rest|
      ensures e[i] == rest[i]
    {
      assert rest[i] == b[i];
    }
    assert rest < e;
  }

  // ----- the bytes on the pipe -----

  /** What the helper has to say. */
  datatype Message = ToStdout(data: seq<byte>) | ToStderr(data: seq<byte>) | ToControl(data: seq<byte>)

  /** One byte says which, four give the length, the lowest first, and the data follow. */
  predicate OnPipe(m: Message, b: seq<byte>) {
    && |b| == 5 + |m.data|
    && b[0] == (match m case ToStdout(_) => 1 case ToStderr(_) => 2 case ToControl(_) => 3)
    && b[1] as int + 256 * b[2] as int + 65536 * b[3] as int + 16777216 * b[4] as int == |m.data|
    && b[5..] == m.data
  }

  function StdoutData(sent: seq<Message>): seq<seq<byte>> {
    if sent == [] then [] else (if sent[0].ToStdout? then [sent[0].data] else []) + StdoutData(sent[1..])
  }

  function StderrData(sent: seq<Message>): seq<seq<byte>> {
    if sent == [] then [] else (if sent[0].ToStderr? then [sent[0].data] else []) + StderrData(sent[1..])
  }

  function ControlData(sent: seq<Message>): seq<seq<byte>> {
    if sent == [] then [] else (if sent[0].ToControl? then [sent[0].data] else []) + ControlData(sent[1..])
  }

  function FrameOf(m: Message): Frame {
    Frame(match m case ToStdout(_) => 1 case ToStderr(_) => 2 case ToControl(_) => 3, m.data)
  }

  function FramesOf(sent: seq<Message>): seq<Frame> {
    if sent == [] then [] else [FrameOf(sent[0])] + FramesOf(sent[1..])
  }

  lemma PipeIsEncoding(m: Message, b: seq<byte>)
    requires OnPipe(m, b)
    ensures b == EncodeFrame(FrameOf(m)) && |m.data| < U32
  {
    ToLeInverts(b[1], b[2], b[3], b[4]);
    assert |m.data| == FromLe(b[1], b[2], b[3], b[4]);
    assert b == [b[0]] + [b[1], b[2], b[3], b[4]] + b[5..];
  }

  lemma {:induction false} PiecesAreEncodings(sent: seq<Message>, pieces: seq<seq<byte>>)
    requires |pieces| == |sent| && forall i :: 0 <= i < |sent| ==> OnPipe(sent[i], pieces[i])
    ensures Flatten(pieces) == EncodeAll(FramesOf(sent))
    ensures forall f :: f in FramesOf(sent) ==> |f.payload| < U32
    ensures Payloads(FramesOf(sent), FRAME_TAG_STDOUT) == StdoutData(sent)
    ensures Payloads(FramesOf(sent), FRAME_TAG_STDERR) == StderrData(sent)
    ensures Payloads(FramesOf(sent), FRAME_TAG_CONTROL) == ControlData(sent)
    decreases |sent|
  {
    if sent != [] {
      PiecesAreEncodings(sent[1..], pieces[1..]);
      PipeIsEncoding(sent[0], pieces[0]);
      ConsTail(FrameOf(sent[0]), FramesOf(sent[1..]));
    }
  }

  /** However the bytes of the messages are cut, the reader hands out the data of each, to its own stream, in order, and the newest control. */
  lemma SentIsReceived(sent: seq<Message>, pieces: seq<seq<byte>>, chunks: seq<seq<byte>>)
    requires |pieces| == |sent| && forall i :: 0 <= i < |sent| ==> OnPipe(sent[i], pieces[i])
    requires Flatten(chunks) == Flatten(pieces)
    ensures var run := ReadAll([], chunks);
            && run.buffer == [] && AllStdout(run.calls) == StdoutData(sent) && AllStderr(run.calls) == StderrData(sent)
            && LastControl(run.calls, None) == if ControlData(sent) == [] then None else Some(ControlData(sent)[|ControlData(sent)| - 1])
  {
    hide OnPipe, EncodeAll, FramesOf, Payloads, ReadAll;
    PiecesAreEncodings(sent, pieces);
    FramesIgnoreChunking(FramesOf(sent), chunks);
  }
}
