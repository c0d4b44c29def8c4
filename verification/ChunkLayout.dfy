/** Which ways of cutting raw log bytes into chunks the scalar-advance loop can step over. */
module ChunkLayout {
  import opened Bytes
  import opened LogPresentation
  import opened LogPresentationLaws

  /** Raw bytes from chunk `k` on. */
  function Ahead(chunks: seq<seq<byte>>, k: nat): nat
    decreases |chunks| - k
  {
    if k >= |chunks| then 0 else |chunks[k]| + Ahead(chunks, k + 1)
  }

  function Left(chunks: seq<seq<byte>>, pos: Pos): nat {
    if pos.chunk >= |chunks| then 0
    else (if pos.offset < |chunks[pos.chunk]| then |chunks[pos.chunk]| - pos.offset else 0) + Ahead(chunks, pos.chunk + 1)
  }

  /**
   * The condition on a chunk of `l` bytes, the next one of `m`, with `after` bytes in all after
   * the first: the loop measures the next chunk as if it were `l` long.
   */
  predicate Boundary(l: nat, m: nat, after: nat) {
    || (l >= 3 && (m >= 3 || m == after))
    || (l == 2 && (m == 2 || after == 1))
    || (l == 1 && m == 1)
  }

  predicate BoundariesHold(chunks: seq<seq<byte>>) {
    forall i :: 0 <= i < |chunks| - 1 ==> Boundary(|chunks[i]|, |chunks[i + 1]|, Ahead(chunks, i + 1))
  }

  predicate NoneEmpty(chunks: seq<seq<byte>>) {
    forall i :: 0 <= i < |chunks| ==> chunks[i] != []
  }

  lemma {:induction false} AheadIsFlatten(chunks: seq<seq<byte>>, k: nat)
    requires k <= |chunks|
    ensures |Flatten(chunks[k..])| == Ahead(chunks, k)
    decreases |chunks| - k
  {
    if k < |chunks| {
      AheadIsFlatten(chunks, k + 1);
      assert chunks[k..][0] == chunks[k] && chunks[k..][1..] == chunks[k + 1..];
    }
  }

  lemma LeftIsRest(chunks: seq<seq<byte>>, pos: Pos)
    ensures |Rest(chunks, pos)| == Left(chunks, pos)
  {
    if pos.chunk < |chunks| {
      AheadIsFlatten(chunks, pos.chunk + 1);
    }
  }

  predicate SuffixOf(a: seq<byte>, whole: seq<byte>) {
    |a| <= |whole| && a == whole[|whole| - |a|..]
  }

  /** What is left at a position is a suffix of all the bytes, so its length says which. */
  lemma RestIsSuffix(chunks: seq<seq<byte>>, pos: Pos)
    ensures SuffixOf(Rest(chunks, pos), Flatten(chunks))
  {
    if pos.chunk < |chunks| {
      assert chunks == chunks[..pos.chunk] + chunks[pos.chunk..];
      FlattenAppend(chunks[..pos.chunk], chunks[pos.chunk..]);
      assert chunks[pos.chunk..][0] == chunks[pos.chunk] && chunks[pos.chunk..][1..] == chunks[pos.chunk + 1..];
      var c := chunks[pos.chunk];
      SuffixThrough(Flatten(chunks[..pos.chunk]), c, if pos.offset >= |c| then |c| else pos.offset, Flatten(chunks[pos.chunk + 1..]));
    }
  }

  lemma SuffixThrough(before: seq<byte>, c: seq<byte>, k: nat, later: seq<byte>)
    requires k <= |c|
    ensures SuffixOf(c[k..] + later, before + (c + later))
  {
    assert before + (c + later) == before + c[..k] + (c[k..] + later);
  }

  lemma SuffixStep(a: seq<byte>, b: seq<byte>, whole: seq<byte>, n: nat)
    requires SuffixOf(a, whole) && SuffixOf(b, whole) && n <= |a| && |b| == |a| - n
    ensures b == a[n..]
  {
  }

  /** Landing right is a matter of lengths alone. */
  lemma LandsRightByLength(chunks: seq<seq<byte>>, pos: Pos, width: nat)
    requires InChunk(chunks, pos) && width <= |Rest(chunks, pos)|
    ensures var a := Move(chunks, pos, width);
            LandsRight(chunks, pos, width) <==> a.consumed == width && Left(chunks, a.pos) == Left(chunks, pos) - width
  {
    var a := Move(chunks, pos, width);
    LeftIsRest(chunks, pos);
    LeftIsRest(chunks, a.pos);
    RestIsSuffix(chunks, pos);
    RestIsSuffix(chunks, a.pos);
    if Left(chunks, a.pos) == Left(chunks, pos) - width {
      SuffixStep(Rest(chunks, pos), Rest(chunks, a.pos), Flatten(chunks), width);
    }
  }

  /** Where the loop ends, for a scalar of `width` bytes with `left` of them in its first chunk of `l`. */
  function EndOfAdvance(count: nat, l: nat, pos: Pos, width: nat): Advance
    requires pos.offset < l && 2 <= width <= 4
  {
    var left := l - pos.offset;
    if width <= left then Advance(Pos(pos.chunk, pos.offset + width), width)
    else if pos.chunk + 1 >= count then Advance(Pos(pos.chunk + 1, 0), left)
    else if width <= left + l then Advance(Pos(pos.chunk + 1, width - left), width)
    else if pos.chunk + 2 >= count then Advance(Pos(pos.chunk + 2, 0), left + l)
    else if width <= left + 2 * l then Advance(Pos(pos.chunk + 2, width - left - l), width)
    else if pos.chunk + 3 >= count then Advance(Pos(pos.chunk + 3, 0), left + 2 * l)
    else Advance(Pos(pos.chunk + 3, 1), width)
  }

  lemma AdvanceWithin(count: nat, l: nat, pos: Pos, remaining: nat, consumed: nat)
    requires pos.offset + remaining <= l && 0 < l
    ensures AdvanceScalar(count, l, pos, remaining, consumed) == Advance(Pos(pos.chunk, pos.offset + remaining), consumed + remaining)
  {
    if remaining > 0 {
      assert AdvanceScalar(count, l, pos, remaining, consumed)
          == AdvanceScalar(count, l, Pos(pos.chunk, pos.offset + remaining), 0, consumed + remaining);
    }
  }

  lemma AdvanceAcross(count: nat, l: nat, pos: Pos, remaining: nat, consumed: nat)
    requires pos.offset <= l < pos.offset + remaining && 0 < l
    ensures var taken := l - pos.offset;
            AdvanceScalar(count, l, pos, remaining, consumed)
            == if pos.chunk + 1 >= count then Advance(Pos(pos.chunk + 1, 0), consumed + taken)
               else AdvanceScalar(count, l, Pos(pos.chunk + 1, 0), remaining - taken, consumed + taken)
  {
  }

  lemma AdvanceEnds(count: nat, l: nat, pos: Pos, width: nat)
    requires pos.offset < l && 2 <= width <= 4
    ensures AdvanceScalar(count, l, pos, width, 0) == EndOfAdvance(count, l, pos, width)
  {
    hide AdvanceScalar;
    var left := l - pos.offset;
    if width <= left {
      AdvanceWithin(count, l, pos, width, 0);
    } else {
      AdvanceAcross(count, l, pos, width, 0);
      AdvanceRest(count, l, Pos(pos.chunk + 1, 0), width - left, left);
    }
  }

  lemma AdvanceRest(count: nat, l: nat, pos: Pos, r: nat, consumed: nat)
    requires pos.offset == 0 < l && 1 <= r <= 3
    ensures AdvanceScalar(count, l, pos, r, consumed) ==
            if r <= l then Advance(Pos(pos.chunk, r), consumed + r)
            else if pos.chunk + 1 >= count then Advance(Pos(pos.chunk + 1, 0), consumed + l)
            else if r <= 2 * l then Advance(Pos(pos.chunk + 1, r - l), consumed + r)
            else if pos.chunk + 2 >= count then Advance(Pos(pos.chunk + 2, 0), consumed + 2 * l)
            else Advance(Pos(pos.chunk + 2, 1), consumed + r)
  {
    hide AdvanceScalar;
    if r <= l {
      AdvanceWithin(count, l, pos, r, consumed);
    } else {
      AdvanceAcross(count, l, pos, r, consumed);
      var next := Pos(pos.chunk + 1, 0);
      if r <= 2 * l {
        AdvanceWithin(count, l, next, r - l, consumed + l);
      } else {
        AdvanceAcross(count, l, next, r - l, consumed + l);
        AdvanceWithin(count, l, Pos(pos.chunk + 2, 0), r - 2 * l, consumed + 2 * l);
      }
    }
  }

  /** Whether a scalar that runs over the end of chunk `i` by `r` bytes is stepped over right. */
  predicate SteppedRight(chunks: seq<seq<byte>>, i: nat, left: nat, r: nat)
    requires i < |chunks| && 1 <= left <= |chunks[i]| && 1 <= r && left + r <= 4
  {
    var a := EndOfAdvance(|chunks|, |chunks[i]|, Pos(i, |chunks[i]| - left), left + r);
    a.consumed == left + r && Left(chunks, a.pos) == Ahead(chunks, i + 1) - r
  }

  lemma LandsRightIsSteppedRight(chunks: seq<seq<byte>>, i: nat, left: nat, r: nat)
    requires i < |chunks| && 1 <= left <= |chunks[i]| && 1 <= r && left + r <= 4 && r <= Ahead(chunks, i + 1)
    ensures var pos := Pos(i, |chunks[i]| - left);
            left + r <= |Rest(chunks, pos)| && (LandsRight(chunks, pos, left + r) <==> SteppedRight(chunks, i, left, r))
  {
    hide LandsRight, Rest, AdvanceScalar, Move, EndOfAdvance;
    var pos := Pos(i, |chunks[i]| - left);
    LeftIsRest(chunks, pos);
    LandsRightByLength(chunks, pos, left + r);
    MoveIs(chunks, pos, left + r);
    AdvanceEnds(|chunks|, |chunks[i]|, pos, left + r);
  }

  lemma AheadIs(chunks: seq<seq<byte>>, k: nat)
    ensures Ahead(chunks, k) == if k < |chunks| then |chunks[k]| + Ahead(chunks, k + 1) else 0
  {
  }

  function Min(a: nat, b: nat): nat {
    if a < b then a else b
  }

  /**
   * A scalar that runs `r` bytes over the end of chunk `i` ends where the loop ends, which takes every later
   * chunk to be as long as chunk `i`: in the next one, in the one after, or in the third.
   */
  predicate OverrunFits(chunks: seq<seq<byte>>, i: nat, r: nat)
    requires i + 1 < |chunks|
  {
    var l, m := |chunks[i]|, |chunks[i + 1]|;
    if r <= l then r <= m
    else if r <= 2 * l then i + 2 < |chunks| && r - Min(r - l, |chunks[i + 2]|) == m
    else i + 3 < |chunks| && r - Min(1, |chunks[i + 3]|) == m + |chunks[i + 2]|
  }

  lemma SteppedRightIsFitting(chunks: seq<seq<byte>>, i: nat, left: nat, r: nat)
    requires i < |chunks| && 1 <= left <= |chunks[i]| && 1 <= r && left + r <= 4 && r <= Ahead(chunks, i + 1)
    ensures i + 1 < |chunks| && (SteppedRight(chunks, i, left, r) <==> OverrunFits(chunks, i, r))
  {
    hide Ahead, Left, EndOfAdvance;
    AheadIs(chunks, i + 1);
    var l := |chunks[i]|;
    EndOfOverrun(|chunks|, i, l, left, r);
    LeftIs(chunks, i + 1, r);
    LeftIs(chunks, i + 2, r - l);
    LeftIs(chunks, i + 3, 1);
    LeftIs(chunks, i + 2, 0);
    LeftIs(chunks, i + 3, 0);
  }

  /** Where the loop ends `r` bytes past the end of chunk `i`, for a chunk of `l`. */
  lemma EndOfOverrun(count: nat, i: nat, l: nat, left: nat, r: nat)
    requires i + 1 < count && 1 <= left <= l && 1 <= r && left + r <= 4
    ensures EndOfAdvance(count, l, Pos(i, l - left), left + r)
            == if r <= l then Advance(Pos(i + 1, r), left + r)
               else if i + 2 >= count then Advance(Pos(i + 2, 0), left + l)
               else if r <= 2 * l then Advance(Pos(i + 2, r - l), left + r)
               else if i + 3 >= count then Advance(Pos(i + 3, 0), left + 2 * l)
               else Advance(Pos(i + 3, 1), left + r)
  {
  }

  lemma LeftIs(chunks: seq<seq<byte>>, k: nat, offset: int)
    ensures offset >= 0 ==>
              Left(chunks, Pos(k, offset)) == if k < |chunks| then Ahead(chunks, k) - Min(offset, |chunks[k]|) else 0
    ensures k < |chunks| ==> Ahead(chunks, k) == |chunks[k]| + Ahead(chunks, k + 1)
    ensures k >= |chunks| ==> Ahead(chunks, k) == 0
  {
  }

  predicate AllOverrunsFit(chunks: seq<seq<byte>>) {
    forall i, r :: 0 <= i < |chunks| - 1 && chunks[i] != [] && 1 <= r <= 3 && r <= Ahead(chunks, i + 1) ==> OverrunFits(chunks, i, r)
  }

  /** Exactly which layouts the presenter steps over right, whatever the bytes: a condition on the chunk lengths alone. */
  lemma SafeLayouts(chunks: seq<seq<byte>>)
    ensures Safe(chunks) <==> AllOverrunsFit(chunks)
  {
    hide LandsRight, Rest, Ahead, OverrunFits;
    if AllOverrunsFit(chunks) {
      forall pos, width | InChunk(chunks, pos) && 2 <= width <= 4 && width <= |Rest(chunks, pos)|
        ensures LandsRight(chunks, pos, width)
      {
        FittingLandsRight(chunks, pos, width);
      }
    }
    if Safe(chunks) {
      forall i, r | 0 <= i < |chunks| - 1 && chunks[i] != [] && 1 <= r <= 3 && r <= Ahead(chunks, i + 1)
        ensures OverrunFits(chunks, i, r)
      {
        LandsRightIsSteppedRight(chunks, i, 1, r);
        SteppedRightIsFitting(chunks, i, 1, r);
      }
    }
  }

  lemma FittingLandsRight(chunks: seq<seq<byte>>, pos: Pos, width: nat)
    requires AllOverrunsFit(chunks)
    requires pos.chunk < |chunks| && pos.offset < |chunks[pos.chunk]| && 2 <= width <= 4 && width <= |Rest(chunks, pos)|
    ensures LandsRight(chunks, pos, width)
  {
    hide LandsRight, Rest, AdvanceScalar, Move, SteppedRight, OverrunFits;
    var l := |chunks[pos.chunk]|;
    var left := l - pos.offset;
    LeftIsRest(chunks, pos);
    if width <= left {
      AdvanceEnds(|chunks|, l, pos, width);
      MoveIs(chunks, pos, width);
      LandsRightByLength(chunks, pos, width);
    } else {
      SteppedRightIsFitting(chunks, pos.chunk, left, width - left);
      LandsRightIsSteppedRight(chunks, pos.chunk, left, width - left);
    }
  }

  /** Without empty chunks it is a condition on each boundary by itself. */
  lemma BoundariesDecide(chunks: seq<seq<byte>>)
    requires NoneEmpty(chunks)
    ensures Safe(chunks) <==> BoundariesHold(chunks)
  {
    hide Safe, OverrunFits, Boundary;
    SafeLayouts(chunks);
    if BoundariesHold(chunks) {
      forall i, r | 0 <= i < |chunks| - 1 && chunks[i] != [] && 1 <= r <= 3 && r <= Ahead(chunks, i + 1)
        ensures OverrunFits(chunks, i, r)
      {
        BoundaryIsEnough(chunks, i, r);
      }
    }
    if AllOverrunsFit(chunks) {
      forall i | 0 <= i < |chunks| - 1
        ensures Boundary(|chunks[i]|, |chunks[i + 1]|, Ahead(chunks, i + 1))
      {
        BoundaryIsNeeded(chunks, i);
      }
    }
  }

  lemma BoundaryIsEnough(chunks: seq<seq<byte>>, i: nat, r: nat)
    requires NoneEmpty(chunks) && BoundariesHold(chunks) && i + 1 < |chunks| && 1 <= r <= 3 && r <= Ahead(chunks, i + 1)
    ensures OverrunFits(chunks, i, r)
  {
    var m := |chunks[i + 1]|;
    assert Boundary(|chunks[i]|, m, Ahead(chunks, i + 1)) && chunks[i + 1] != [] && chunks[i] != [];
    AheadIs(chunks, i + 1);
    AheadIs(chunks, i + 2);
    AheadIs(chunks, i + 3);
    assert i + 2 < |chunks| ==> Boundary(m, |chunks[i + 2]|, Ahead(chunks, i + 2)) && chunks[i + 2] != [];
    assert i + 3 < |chunks| ==> chunks[i + 3] != [];
    hide Ahead, BoundariesHold, NoneEmpty;
  }

  lemma BoundaryIsNeeded(chunks: seq<seq<byte>>, i: nat)
    requires NoneEmpty(chunks) && AllOverrunsFit(chunks) && i + 1 < |chunks|
    ensures Boundary(|chunks[i]|, |chunks[i + 1]|, Ahead(chunks, i + 1))
  {
    assert chunks[i] != [] && chunks[i + 1] != [];
    AheadIs(chunks, i + 1);
    AheadIs(chunks, i + 2);
    assert i + 2 < |chunks| ==> chunks[i + 2] != [];
    assert i + 3 < |chunks| ==> chunks[i + 3] != [];
    var a := Ahead(chunks, i + 1);
    assert 1 <= a ==> OverrunFits(chunks, i, 1);
    assert 2 <= a ==> OverrunFits(chunks, i, 2);
    assert 3 <= a ==> OverrunFits(chunks, i, 3);
    hide AllOverrunsFit, Ahead, NoneEmpty;
  }

  /** Three bytes in every chunk but the last is always enough. */
  lemma ThreeByteChunksAreSafe(chunks: seq<seq<byte>>)
    requires forall i :: 0 <= i < |chunks| - 1 ==> |chunks[i]| >= 3
    ensures Safe(chunks)
  {
    hide Safe;
    forall i, r | 0 <= i < |chunks| - 1 && chunks[i] != [] && 1 <= r <= 3 && r <= Ahead(chunks, i + 1)
      ensures OverrunFits(chunks, i, r)
    {
      AheadIs(chunks, i + 1);
      AheadIs(chunks, i + 2);
    }
    SafeLayouts(chunks);
  }

  /** An empty chunk in the middle: the loop takes it to hold the scalar's last byte, and miscounts. */
  lemma EmptyChunksMatter()
    ensures !Safe([[0xe2], [], [0x82, 0xac]]) && Safe([[0xe2, 0x82, 0xac], []])
  {
    var chunks: seq<seq<byte>> := [[0xe2], [], [0x82, 0xac]];
    AheadIs(chunks, 1);
    AheadIs(chunks, 2);
    AheadIs(chunks, 3);
    SafeLayouts(chunks);
    assert !OverrunFits(chunks, 0, 1);
    ThreeByteChunksAreSafe([[0xe2, 0x82, 0xac], []]);
    hide Safe;
  }

  /** A lead byte alone in its chunk: the whole scalar is on the page but only two of its bytes are counted. */
  lemma LoneLeadByteIsMiscounted()
    ensures var chunks: seq<seq<byte>> := [[0xe2], [0x82, 0xac]];
            var o := Options(64, true, false, DEFAULT_RAW_SCAN_CAP);
            Present(chunks, None, o) == Presented(Page([0xe2, 0x82, 0xac], INITIAL, 2, 3, false))
  {
    var chunks: seq<seq<byte>> := [[0xe2], [0x82, 0xac]];
    var o := Options(64, true, false, DEFAULT_RAW_SCAN_CAP);
    var c := Cursor(INITIAL, 0, 0, []);
    LoneLeadRest(chunks);
    RunText(o, chunks, Pos(0, 0), c, c);
    AdvanceEnds(2, 1, Pos(0, 0), 3);
    assert Move(chunks, Pos(0, 0), 3) == Advance(Pos(2, 0), 2);
    var next := Cursor(INITIAL, 2, 3, [] + [0xe2, 0x82, 0xac]);
    RunEnds(o, chunks, Pos(2, 0), next, c);
    FinishedPage(o, chunks, c, next);
    hide Run, AdvanceScalar, Present;
  }

  lemma LoneLeadRest(chunks: seq<seq<byte>>)
    requires chunks == [[0xe2], [0x82, 0xac]]
    ensures NextStep(true, INITIAL, Rest(chunks, Pos(0, 0))) == Text([0xe2, 0x82, 0xac], 3)
  {
    var later := chunks[1..];
    assert later == [[0x82, 0xac]] && later[1..] == [];
    assert Flatten(later) == [0x82, 0xac] + [];
    assert chunks[0][0..] == [0xe2];
    var rest := Rest(chunks, Pos(0, 0));
    assert rest == [0xe2, 0x82, 0xac];
    assert rest[..3] == rest;
  }

  lemma FinishedPage(o: Options, chunks: seq<seq<byte>>, c: Cursor, next: Cursor)
    requires Accepted(o) && !o.collapse && c == Cursor(INITIAL, 0, 0, [])
    requires Run(o, chunks, Pos(0, 0), c, c) == Outcome(AtEnd, next, c) && |next.text| <= o.maxBytes
    ensures Present(chunks, None, o) == Presented(Page(next.text, next.parser, next.consumed, next.scanned, false))
  {
    assert CopyState(None) == INITIAL;
    assert next.text + [] == next.text;
    hide Run;
  }
}
