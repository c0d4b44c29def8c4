/** Several secrets without marker characters: exactly when streams are redacted like the whole text. */
module RedactorOrder {
  import opened Bytes
  import opened Redactor
  import opened RedactorLaws
  import opened RedactorBatch
  import Sorting

  const CLOSE: char := ']'

  ghost predicate Plain(secrets: seq<string>) {
    forall p :: p in secrets ==> p != [] && forall c :: c in p ==> c !in MARKER
  }

  lemma PlainAre(secrets: seq<string>)
    requires Plain(secrets)
    ensures Usable(secrets) && forall p :: p in secrets ==> CLOSE !in p
  {
    assert MARKER[9] == CLOSE;
    assert forall i :: 0 <= i < |secrets| ==> secrets[i] in secrets;
  }

  lemma PlainRest(secrets: seq<string>)
    requires Plain(secrets) && secrets != []
    ensures Plain(secrets[1..]) && CLOSE !in secrets[0] && secrets[0] != []
  {
    PlainAre(secrets);
    assert secrets[0] in secrets;
    assert forall p :: p in secrets[1..] ==> p in secrets;
  }

  // ----- the end of a marker stays where it is -----

  lemma NotAcross(u: string, v: string, s: string)
    requires CLOSE !in s && !(s <= u)
    ensures !(s <= u + ([CLOSE] + v))
  {
    assert (u + ([CLOSE] + v))[|u|] == CLOSE;
    assert |u| < |s| ==> s[|u|] in s;
  }

  lemma {:induction false} ReplaceAround(u: string, v: string, s: string)
    requires s != [] && CLOSE !in s
    ensures ReplaceAll(u + ([CLOSE] + v), s) == ReplaceAll(u, s) + ([CLOSE] + ReplaceAll(v, s))
    decreases |u|
  {
    var z := [CLOSE] + v;
    if u == [] {
      assert u + z == z && z[0] == CLOSE && z[1..] == v;
      assert s[0] in s;
    } else if s <= u {
      CutPrefix(u, s, z);
      CutBack(s, u[|s|..] + z);
      ReplaceAround(u[|s|..], v, s);
      Assoc(MARKER, ReplaceAll(u[|s|..], s), [CLOSE] + ReplaceAll(v, s));
    } else {
      AppendTail(u, z);
      ReplaceAround(u[1..], v, s);
      Assoc([u[0]], ReplaceAll(u[1..], s), [CLOSE] + ReplaceAll(v, s));
      NotAcross(u, v, s);
    }
  }

  lemma {:induction false} ScrubAround(u: string, v: string, secrets: seq<string>)
    requires Plain(secrets) && Usable(secrets)
    ensures Scrub(u + ([CLOSE] + v), secrets) == Scrub(u, secrets) + ([CLOSE] + Scrub(v, secrets))
    decreases |secrets|
  {
    hide ReplaceAll, ReplaceOne, Plain;
    if secrets != [] {
      PlainRest(secrets);
      var s := secrets[0];
      ReplaceOneReplacesAll(u + ([CLOSE] + v), s);
      ReplaceOneReplacesAll(u, s);
      ReplaceOneReplacesAll(v, s);
      ReplaceAround(u, v, s);
      ScrubAround(ReplaceOne(u, s), ReplaceOne(v, s), secrets[1..]);
    }
  }

  lemma {:induction false} ScrubLeavesSomething(x: string, secrets: seq<string>)
    requires Usable(secrets) && x != []
    ensures Scrub(x, secrets) != []
    decreases |secrets|
  {
    if secrets != [] {
      ReplaceOneReplacesAll(x, secrets[0]);
      ScrubLeavesSomething(ReplaceOne(x, secrets[0]), secrets[1..]);
    }
  }

  /** The end of a marker, with something behind it. */
  predicate Trails(text: string) {
    exists i :: 0 <= i < |text| - 1 && text[i] == CLOSE
  }

  lemma ScrubTrails(out: string, x: string, rest: string, secrets: seq<string>)
    requires Plain(secrets) && Usable(secrets) && Trails(out + (x + rest))
    ensures Trails(out + (Scrub(x, secrets) + rest))
  {
    hide Scrub, Plain;
    var text, r := out + (x + rest), Scrub(x, secrets);
    var i :| 0 <= i < |text| - 1 && text[i] == CLOSE;
    if i < |out| {
      if x != [] {
        ScrubLeavesSomething(x, secrets);
      }
      assert (out + (r + rest))[i] == CLOSE;
      ScrubNothing(x, secrets);
    } else if i < |out| + |x| {
      var u, v := x[..i - |out|], x[i - |out| + 1..];
      assert x == u + ([CLOSE] + v);
      ScrubAround(u, v, secrets);
      if v != [] {
        ScrubLeavesSomething(v, secrets);
      }
      assert (out + (r + rest))[|out| + |Scrub(u, secrets)|] == CLOSE;
    } else {
      assert (out + (r + rest))[i - |x| + |r|] == CLOSE;
    }
  }

  lemma ScrubNothing(x: string, secrets: seq<string>)
    requires Usable(secrets)
    ensures x == [] ==> Scrub(x, secrets) == []
  {
    ScrubEmpty(secrets);
  }

  lemma {:induction false} StreamTrails(out: string, tail: string, chunks: seq<string>, secrets: seq<string>)
    requires Plain(secrets) && Usable(secrets) && secrets != [] && Trails(out + (tail + Flatten(chunks)))
    ensures Trails(out + Stream(secrets, tail, chunks))
    decreases |chunks|
  {
    hide Scrub, Plain, Trails, RedactStep;
    if chunks == [] {
      ScrubTrails(out, tail, [], secrets);
      NothingBehind(Scrub(tail, secrets), tail);
    } else {
      var later := Flatten(chunks[1..]);
      var step := RedactStep(secrets, tail, chunks[0]);
      Assoc(tail, chunks[0], later);
      ScrubTrails(out, tail + chunks[0], later, secrets);
      StepSplits(out, secrets, tail, chunks[0]);
      Assoc(out, Scrub(tail + chunks[0], secrets), later);
      Assoc(out + step.output, step.tail, later);
      StreamTrails(out + step.output, step.tail, chunks[1..], secrets);
      Assoc(out, step.output, Stream(secrets, step.tail, chunks[1..]));
    }
  }

  // ----- a pass that finds something puts a marker -----

  lemma {:induction false} FoundIsMarked(x: string, s: string, i: int)
    requires s != [] && OccursAt(x, s, i)
    ensures CLOSE in ReplaceAll(x, s)
    decreases |x|
  {
    OccursChars(x, s, i);
    if s <= x {
      assert (MARKER + ReplaceAll(x[|s|..], s))[9] == CLOSE;
    } else if i == 0 {
      StartsAtZero(x, s);
      assert false;
    } else {
      OccursFromChars(x[1..], s, i - 1);
      FoundIsMarked(x[1..], s, i - 1);
    }
  }

  lemma MarkStays(x: string, secrets: seq<string>)
    requires Plain(secrets) && Usable(secrets) && CLOSE in x
    ensures CLOSE in Scrub(x, secrets)
  {
    hide Scrub, Plain;
    var i :| 0 <= i < |x| && x[i] == CLOSE;
    assert x == x[..i] + ([CLOSE] + x[i + 1..]);
    ScrubAround(x[..i], x[i + 1..], secrets);
  }

  lemma {:induction false} ScrubMarks(x: string, q: string, i: int, secrets: seq<string>)
    requires Plain(secrets) && Usable(secrets) && q in secrets && OccursAt(x, q, i)
    ensures CLOSE in Scrub(x, secrets)
    decreases |secrets|
  {
    hide OccursAt, ReplaceAll, ReplaceOne, Plain;
    var s := secrets[0];
    PlainRest(secrets);
    ReplaceOneReplacesAll(x, s);
    if Absent(x, s) {
      ReplaceAbsent(x, s);
      NotTheAbsentOne(x, s, q, i);
      assert q in secrets[1..];
      ScrubMarks(x, q, i, secrets[1..]);
    } else {
      var j :| OccursAt(x, s, j);
      FoundIsMarked(x, s, j);
      MarkStays(ReplaceOne(x, s), secrets[1..]);
    }
  }

  lemma NotTheAbsentOne(x: string, s: string, q: string, i: int)
    requires Absent(x, s) && OccursAt(x, q, i)
    ensures q != s
  {
  }

  // ----- the whole text at once -----

  lemma {:induction false} ScrubAbsent(x: string, secrets: seq<string>)
    requires Usable(secrets) && forall q :: q in secrets ==> Absent(x, q)
    ensures Scrub(x, secrets) == x
    decreases |secrets|
  {
    hide Absent, ReplaceAll, ReplaceOne;
    if secrets != [] {
      assert secrets[0] in secrets;
      ReplaceOneReplacesAll(x, secrets[0]);
      ReplaceAbsent(x, secrets[0]);
      ScrubAbsent(x, secrets[1..]);
    }
  }

  lemma {:induction false} ScrubAppend(x: string, a: seq<string>, b: seq<string>)
    requires Usable(a) && Usable(b)
    ensures Usable(a + b) && Scrub(x, a + b) == Scrub(Scrub(x, a), b)
    decreases |a|
  {
    hide ReplaceOne;
    if a == [] {
      assert a + b == b;
    } else {
      AppendTail(a, b);
      ScrubAppend(ReplaceOne(x, a[0]), a[1..], b);
    }
  }

  /** `p` behind `lead`, found by no earlier pass and nowhere earlier, and `lead` free of secrets: one marker. */
  lemma BatchPutsOneMarker(lead: string, p: string, secrets: seq<string>)
    requires Plain(secrets) && Usable(secrets) && p in secrets
    requires forall q :: ComesFirst(secrets, q, p) ==> Absent(lead + p, q)
    requires NoneBefore(|lead|, lead + p, p)
    requires forall q :: q in secrets ==> Absent(lead, q)
    ensures Scrub(lead + p, secrets) == lead + MARKER
  {
    hide Absent, ReplaceAll, ReplaceOne, Scrub, NoneBefore, FirstIndex, Plain;
    var n := FirstIndex(secrets, p);
    var before, after := secrets[..n], secrets[n + 1..];
    PassesSplit(lead + p, n, secrets);
    forall q | q in before
      ensures Absent(lead + p, q)
    {
      EarlierComesFirst(secrets, p, q);
    }
    ScrubAbsent(lead + p, before);
    ReplacePassesOver(lead, p, p);
    ReplaceItself(p);
    forall q | q in after
      ensures Absent(lead + MARKER, q)
    {
      assert q in secrets;
      AbsentBesideMarker(lead, q, secrets);
    }
    ScrubAbsent(lead + MARKER, after);
  }

  lemma PassesSplit(x: string, n: nat, secrets: seq<string>)
    requires n < |secrets| && Usable(secrets)
    ensures Usable(secrets[..n]) && Usable(secrets[n + 1..])
    ensures Scrub(x, secrets) == Scrub(ReplaceAll(Scrub(x, secrets[..n]), secrets[n]), secrets[n + 1..])
  {
    hide ReplaceAll, ReplaceOne, Scrub;
    var before, p, after := secrets[..n], secrets[n], secrets[n + 1..];
    assert secrets == before + ([p] + after);
    ScrubAppend(x, before, [p] + after);
    ScrubAppend(Scrub(x, before), [p], after);
    ScrubOne(Scrub(x, before), p);
  }

  lemma EarlierComesFirst(secrets: seq<string>, p: string, q: string)
    requires p in secrets && q in secrets[..FirstIndex(secrets, p)]
    ensures ComesFirst(secrets, q, p)
  {
    var n := FirstIndex(secrets, p);
    assert secrets == secrets[..n] + secrets[n..];
    FirstIndexAppend(secrets[..n], secrets[n..], q);
  }

  lemma AbsentBesideMarker(lead: string, q: string, secrets: seq<string>)
    requires Plain(secrets) && q in secrets && Absent(lead, q)
    ensures Absent(lead + MARKER, q)
  {
    forall i
      ensures !OccursAt(lead + MARKER, q, i)
    {
      if OccursAt(lead + MARKER, q, i) {
        StartsInside(lead + MARKER, q, i);
        if i + |q| <= |lead| {
          OccursChars(lead + MARKER, q, i);
          OccursFromChars(lead, q, i);
        } else {
          EndsWithinMarker(lead, q, i);
        }
      }
    }
  }

  lemma EndsWithinMarker(lead: string, q: string, i: nat)
    requires OccursAt(lead + MARKER, q, i) && i + |q| > |lead| && q != []
    ensures exists c :: c in q && c in MARKER
  {
    OccursChars(lead + MARKER, q, i);
    var j := |q| - 1;
    assert q[j] in q && (lead + MARKER)[i + j] == MARKER[i + j - |lead|];
  }

  lemma OneMarkerDoesNotTrail(lead: string)
    requires CLOSE !in lead
    ensures !Trails(lead + MARKER)
  {
    var text := lead + MARKER;
    forall i | 0 <= i < |text| - 1
      ensures text[i] != CLOSE
    {
      if i < |lead| {
        assert text[i] == lead[i];
      } else {
        assert text[i] == MARKER[i - |lead|];
      }
    }
  }

  /** A first chunk that ends in a secret, which the whole text shows to be part of something else. */
  lemma EarlyMarkerDiffers(lead: string, p: string, x: string, q: string, i: int, y: string, secrets: seq<string>)
    requires Plain(secrets) && Usable(secrets) && p in secrets && q in secrets
    requires x + y == lead + p && y != [] && OccursAt(x, q, i) && CLOSE !in lead
    requires Scrub(lead + p, secrets) == lead + MARKER
    ensures Stream(secrets, [], [x, y]) != Scrub(Flatten([x, y]), secrets)
  {
    hide Scrub, Plain, Trails, RedactStep, OccursAt;
    ScrubMarks(x, q, i, secrets);
    assert [x, y][1..] == [y] && [y][1..] == [];
    assert Flatten([y]) == y + Flatten([]);
    assert y + [] == y;
    var step := RedactStep(secrets, [], x);
    StepSplits([], secrets, [], x);
    assert [] + x == x && [] + step.output == step.output && [] + Scrub(x, secrets) == Scrub(x, secrets);
    MarkedTrails(Scrub(x, secrets), y);
    Assoc(step.output, step.tail, y);
    StreamTrails(step.output, step.tail, [y], secrets);
    OneMarkerDoesNotTrail(lead);
  }

  lemma MarkedTrails(r: string, y: string)
    requires CLOSE in r && y != []
    ensures Trails(r + y)
  {
    var i :| 0 <= i < |r| && r[i] == CLOSE;
    assert (r + y)[i] == CLOSE;
  }

  // ----- each way to be out of order has a failing run -----

  ghost predicate LongerComeFirst(secrets: seq<string>) {
    forall p, q :: ComesFirst(secrets, p, q) ==> |p| >= |q|
  }

  ghost predicate OnlyAtEnd(p: string, q: string) {
    forall i :: OccursAt(p, q, i) ==> i + |q| == |p|
  }

  lemma LongerDoesNotOccur(p: string, q: string)
    requires |q| >= |p| && p != q
    ensures Absent(p, q)
  {
    forall i
      ensures !OccursAt(p, q, i)
    {
      if OccursAt(p, q, i) {
        OccursChars(p, q, i);
      }
    }
  }

  /** `q` inside `p` but not at its end: `p` cut behind `q`. */
  lemma InsideDiffers(p: string, q: string, i: int, secrets: seq<string>) returns (chunks: seq<string>)
    requires Plain(secrets) && LongerComeFirst(secrets) && ComesFirst(secrets, p, q)
    requires OccursAt(p, q, i) && i + |q| < |p|
    ensures Usable(secrets) && Stream(secrets, [], chunks) != Scrub(Flatten(chunks), secrets)
  {
    hide Scrub, Stream, FirstIndex;
    PlainAre(secrets);
    var x, y := p[..i + |q|], p[i + |q|..];
    chunks := [x, y];
    OccursChars(p, q, i);
    OccursFromChars(x, q, i);
    assert [] + p == p && x + y == p && [] + MARKER == MARKER;
    forall r | ComesFirst(secrets, r, p)
      ensures Absent([] + p, r)
    {
      LongerDoesNotOccur(p, r);
    }
    assert NoneBefore(|""|, [] + p, p);
    forall r | r in secrets
      ensures Absent([], r)
    {
    }
    BatchPutsOneMarker([], p, secrets);
    EarlyMarkerDiffers([], p, x, q, i, y, secrets);
  }

  /** The last `k` characters of `q` are the first of `p`. */
  predicate Overlap(p: string, q: string, k: nat) {
    1 <= k < |q| && k < |p| && q[|q| - k..] == p[..k]
  }

  /** A secret no shorter than `q` that starts inside `q` and runs beyond it overlaps its end, or begins with it. */
  lemma StartsInSecret(q: string, y: string, r: string, i: int)
    requires OccursAt(q + y, r, i) && i < |q| && |r| >= |q| && r != q
    ensures i == 0 ==> OccursAt(r, q, 0) && |q| < |r|
    ensures i > 0 ==> Overlap(r, q, |q| - i)
  {
    OccursChars(q + y, r, i);
    if i == 0 && |r| == |q| {
      SameWhole(q, y, r);
    } else if i == 0 {
      OccursFromChars(r, q, 0);
    } else {
      var k := |q| - i;
      SamePart(q, r, i, 0, k);
      assert q[|q| - k..] == r[..k];
    }
  }

  lemma SameWhole(q: string, y: string, r: string)
    requires OccursAt(q + y, r, 0) && |r| == |q|
    ensures r == q
  {
    assert (q + y)[0..|q|] == q;
  }

  lemma OverlapJoins(p: string, q: string, k: nat)
    requires Overlap(p, q, k)
    ensures q + p[k..] == q[..|q| - k] + p && p[k..] != []
  {
    assert q == q[..|q| - k] + q[|q| - k..];
    assert p == p[..k] + p[k..];
    Assoc(q[..|q| - k], p[..k], p[k..]);
  }

  lemma DifferentFirst(secrets: seq<string>, p: string, q: string)
    requires ComesFirst(secrets, p, q)
    ensures p != q
  {
  }

  /** Nothing listed occurs in what `q` has before the end that begins another secret. */
  lemma LeadIsFree(q: string, k: nat, secrets: seq<string>)
    requires Usable(secrets) && q in secrets && 1 <= k < |q| && LongerComeFirst(secrets)
    requires forall r, s :: ComesFirst(secrets, r, s) ==> OnlyAtEnd(r, s)
    ensures forall r :: r in secrets ==> Absent(q[..|q| - k], r)
  {
    hide FirstIndex, Usable;
    var lead := q[..|q| - k];
    forall r, i | r in secrets
      ensures !OccursAt(lead, r, i)
    {
      if OccursAt(lead, r, i) {
        OccursChars(lead, r, i);
        OccursFromChars(q, r, i);
        OneComesFirst(secrets, q, r);
      }
    }
  }

  /** The end of `q` begins `p`, with `p` the earliest such secret and `k` the longest such end: `q`, then the rest of `p`. */
  lemma FirstOverlapDiffers(p: string, q: string, k: nat, secrets: seq<string>) returns (chunks: seq<string>)
    requires Plain(secrets) && LongerComeFirst(secrets) && ComesFirst(secrets, p, q) && Overlap(p, q, k)
    requires forall r, s :: ComesFirst(secrets, r, s) ==> OnlyAtEnd(r, s)
    requires forall r :: ComesFirst(secrets, r, p) ==> Absent(q + p[k..], r)
    requires NoneBefore(|q| - k, q + p[k..], p)
    ensures Usable(secrets) && Stream(secrets, [], chunks) != Scrub(Flatten(chunks), secrets)
  {
    hide Scrub, Stream, OccursAt, Absent, NoneBefore, Plain, FirstIndex, OnlyAtEnd, LongerComeFirst;
    PlainAre(secrets);
    var lead, y := q[..|q| - k], p[k..];
    OverlapJoins(p, q, k);
    LeadIsFree(q, k, secrets);
    BatchPutsOneMarker(lead, p, secrets);
    OccursFromChars(q, q, 0);
    assert forall c :: c in lead ==> c in q;
    chunks := [q, y];
    EarlyMarkerDiffers(lead, p, q, q, 0, y, secrets);
  }

  lemma OverlapsFurther(q: string, y: string, r: string, i: int)
    requires OccursAt(q + y, r, i) && 0 <= i < |q| && |r| >= |q| && r != q && OnlyAtEnd(r, q)
    ensures Overlap(r, q, |q| - i)
  {
    StartsInSecret(q, y, r, i);
  }

  /** Any such overlap leads to the first one. */
  lemma {:induction false} OverlapDiffers(p: string, q: string, k: nat, secrets: seq<string>) returns (chunks: seq<string>)
    requires Plain(secrets) && LongerComeFirst(secrets) && ComesFirst(secrets, p, q) && Overlap(p, q, k)
    requires forall r, s :: ComesFirst(secrets, r, s) ==> OnlyAtEnd(r, s)
    ensures Usable(secrets) && Stream(secrets, [], chunks) != Scrub(Flatten(chunks), secrets)
    decreases FirstIndex(secrets, p), |q| - k
  {
    hide Scrub, Stream, Plain, NoneBefore, OccursAt, OnlyAtEnd, Absent, Overlap, FirstIndex;
    OverlapBounds(p, q, k);
    var y := p[k..];
    OverlapJoins(p, q, k);
    if r, i :| ComesFirst(secrets, r, p) && OccursAt(q + y, r, i) {
      StartsInside(q + y, r, i);
      DifferentFirst(secrets, r, p);
      DifferentFirst(secrets, r, q);
      if i == |q| - k {
        LongerAtEnd(q[..|q| - k], p, r);
      }
      assert ComesFirst(secrets, r, q);
      OverlapsFurther(q, y, r, i);
      chunks := OverlapDiffers(r, q, |q| - i, secrets);
    } else if i :| i < |q| - k && OccursAt(q + y, p, i) {
      StartsInside(q + y, p, i);
      DifferentFirst(secrets, p, q);
      OverlapsFurther(q, y, p, i);
      chunks := OverlapDiffers(p, q, |q| - i, secrets);
    } else {
      NoneIs(|q| - k, q + y, p);
      NowhereIsAbsent(q + y, p, secrets);
      chunks := FirstOverlapDiffers(p, q, k, secrets);
    }
  }

  lemma OverlapBounds(p: string, q: string, k: nat)
    requires Overlap(p, q, k)
    ensures 1 <= k < |q| && k < |p|
  {
  }

  lemma NowhereIsAbsent(text: string, p: string, secrets: seq<string>)
    requires forall r, i :: ComesFirst(secrets, r, p) ==> !OccursAt(text, r, i)
    ensures forall r :: ComesFirst(secrets, r, p) ==> Absent(text, r)
  {
    hide ComesFirst;
  }

  lemma NoneIs(limit: int, text: string, p: string)
    requires forall i :: i < limit ==> !OccursAt(text, p, i)
    ensures NoneBefore(limit, text, p)
  {
  }

  lemma LongerAtEnd(lead: string, p: string, r: string)
    requires OccursAt(lead + p, r, |lead|) && |r| >= |p|
    ensures r == p
  {
    assert (lead + p)[|lead|..|lead| + |p|] == p;
  }

  // ----- exactly when -----

  lemma PreparedComeLongerFirst(given: seq<string>)
    ensures LongerComeFirst(Prepare(given))
  {
    hide Prepare;
    PrepareKeepsSecrets(given);
    var secrets := Prepare(given);
    forall p, q | ComesFirst(secrets, p, q)
      ensures |p| >= |q|
    {
      Sorting.SortedAt(LongerFirst(), secrets, FirstIndex(secrets, p), FirstIndex(secrets, q));
    }
  }

  lemma PlainInOrderIsApart(secrets: seq<string>)
    requires Plain(secrets) && InOrder(secrets)
    ensures Apart(secrets)
  {
    hide InOrder, Collides;
    forall p, q | p in secrets && q in secrets
      ensures !Collides(p, q)
    {
      DisjointIsHarmless(p, q);
    }
  }

  /**
   * Secrets without marker characters, however many and in whatever order they are given, are redacted in every
   * stream as they are in the whole text exactly when each gives way to those replaced before it: it occurs in
   * them at most as their end, and no proper end of it begins them.
   */
  lemma StreamingEqualsBatchExactly(given: seq<string>)
    requires forall p :: p in given ==> forall c :: c in p ==> c !in MARKER
    ensures Usable(Prepare(given))
    ensures (forall chunks :: Stream(Prepare(given), [], chunks) == Scrub(Flatten(chunks), Prepare(given)))
            <==> forall p, q :: ComesFirst(Prepare(given), p, q) ==> GivesWay(p, q)
  {
    hide Prepare, Stream, Scrub, FirstIndex;
    PrepareKeepsSecrets(given);
    PreparedComeLongerFirst(given);
    var secrets := Prepare(given);
    assert Plain(secrets);
    hide Plain, OccursAt;
    if forall p, q :: ComesFirst(secrets, p, q) ==> GivesWay(p, q) {
      PlainInOrderIsApart(secrets);
      forall chunks
        ensures Stream(secrets, [], chunks) == Scrub(Flatten(chunks), secrets)
      {
        StreamingEqualsBatch(secrets, chunks);
      }
    } else {
      var chunks := OutOfOrderDiffers(secrets);
      assert Stream(secrets, [], chunks) != Scrub(Flatten(chunks), secrets);
    }
  }

  lemma OutOfOrderDiffers(secrets: seq<string>) returns (chunks: seq<string>)
    requires Plain(secrets) && LongerComeFirst(secrets)
    requires exists p, q :: ComesFirst(secrets, p, q) && !GivesWay(p, q)
    ensures Usable(secrets) && Stream(secrets, [], chunks) != Scrub(Flatten(chunks), secrets)
  {
    hide Plain, Stream, Scrub, FirstIndex;
    if p, q, i :| ComesFirst(secrets, p, q) && OccursAt(p, q, i) && i + |q| != |p| {
      chunks := InsideDiffers(p, q, i, secrets);
    } else {
      var p, q :| ComesFirst(secrets, p, q) && !GivesWay(p, q);
      var k :| 1 <= k < |q| && k < |p| && q[|q| - k..] == p[..k];
      chunks := OverlapDiffers(p, q, k, secrets);
    }
  }
}
