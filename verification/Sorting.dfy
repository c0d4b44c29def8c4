/**
 * Array.prototype.sort: a stable sort by a comparator, what it does not depend on, and lists without
 * repeats. The comparators of the original become orders given as parameters or as functions of their
 * own.
 */
module Sorting {
  ghost predicate TotalPreorder<T(!new)>(leq: (T, T) -> bool) {
    && (forall x, y :: leq(x, y) || leq(y, x))
    && (forall x, y, z :: leq(x, y) && leq(y, z) ==> leq(x, z))
  }

  /** Ties under the comparator only between equal elements of `s`. */
  ghost predicate NoTies<T(!new)>(leq: (T, T) -> bool, s: seq<T>) {
    forall x, y :: x in s && y in s && leq(x, y) && leq(y, x) ==> x == y
  }

  ghost predicate Sorted<T>(leq: (T, T) -> bool, s: seq<T>) {
    forall i, j :: 0 <= i < j < |s| ==> leq(s[i], s[j])
  }

  lemma SortedAt<T>(leq: (T, T) -> bool, s: seq<T>, i: nat, j: nat)
    requires Sorted(leq, s) && i < |s| && j < |s|
    ensures i < j ==> leq(s[i], s[j])
  {
  }

  function Insert<T>(leq: (T, T) -> bool, x: T, s: seq<T>): seq<T> {
    if s == [] then [x]
    else if leq(x, s[0]) then [x] + s
    else [s[0]] + Insert(leq, x, s[1..])
  }

  function Sort<T>(leq: (T, T) -> bool, s: seq<T>): seq<T> {
    if s == [] then [] else Insert(leq, s[0], Sort(leq, s[1..]))
  }

  lemma {:induction false} InsertPermutes<T>(leq: (T, T) -> bool, x: T, s: seq<T>)
    ensures multiset(Insert(leq, x, s)) == multiset{x} + multiset(s)
  {
    if s != [] {
      assert s == [s[0]] + s[1..];
      InsertPermutes(leq, x, s[1..]);
    }
  }

  lemma {:induction false} SortPermutes<T>(leq: (T, T) -> bool, s: seq<T>)
    ensures multiset(Sort(leq, s)) == multiset(s)
    ensures |Sort(leq, s)| == |s|
  {
    if s != [] {
      assert s == [s[0]] + s[1..];
      SortPermutes(leq, s[1..]);
      InsertPermutes(leq, s[0], Sort(leq, s[1..]));
      assert |multiset(Sort(leq, s))| == |multiset(s)|;
    }
  }

  lemma SortMembers<T>(leq: (T, T) -> bool, s: seq<T>)
    ensures forall x :: x in Sort(leq, s) <==> x in s
  {
    SortPermutes(leq, s);
    forall x
      ensures x in Sort(leq, s) <==> x in s
    {
      assert x in Sort(leq, s) <==> x in multiset(Sort(leq, s));
      assert x in s <==> x in multiset(s);
    }
  }

  lemma {:induction false} InsertSorts<T(!new)>(leq: (T, T) -> bool, x: T, s: seq<T>)
    requires TotalPreorder(leq) && Sorted(leq, s)
    ensures Sorted(leq, Insert(leq, x, s))
  {
    if s != [] && !leq(x, s[0]) {
      InsertSorts(leq, x, s[1..]);
      InsertPermutes(leq, x, s[1..]);
      var rest := Insert(leq, x, s[1..]);
      forall j | 0 <= j < |rest|
        ensures leq(s[0], rest[j])
      {
        assert rest[j] in multiset(rest);
        assert rest[j] == x || rest[j] in s[1..];
      }
    }
  }

  lemma {:induction false} SortSorts<T(!new)>(leq: (T, T) -> bool, s: seq<T>)
    requires TotalPreorder(leq)
    ensures Sorted(leq, Sort(leq, s))
  {
    if s != [] {
      SortSorts(leq, s[1..]);
      InsertSorts(leq, s[0], Sort(leq, s[1..]));
    }
  }

  lemma {:induction false} SortedIsUnique<T(!new)>(leq: (T, T) -> bool, a: seq<T>, b: seq<T>)
    requires Sorted(leq, a) && Sorted(leq, b) && multiset(a) == multiset(b)
    requires NoTies(leq, a) && TotalPreorder(leq)
    ensures a == b
  {
    assert |a| == |multiset(a)| == |multiset(b)| == |b|;
    if a != [] {
      SameHead(leq, a, b);
      Uncons(a);
      Uncons(b);
      SortedIsUnique(leq, a[1..], b[1..]);
    }
  }

  lemma Uncons<T>(s: seq<T>)
    requires s != []
    ensures multiset(s[1..]) == multiset(s) - multiset{s[0]}
  {
    assert s == [s[0]] + s[1..];
  }

  lemma SameHead<T(!new)>(leq: (T, T) -> bool, a: seq<T>, b: seq<T>)
    requires Sorted(leq, a) && Sorted(leq, b) && multiset(a) == multiset(b)
    requires NoTies(leq, a) && TotalPreorder(leq) && a != [] && b != []
    ensures a[0] == b[0]
  {
    assert a[0] in multiset(b) && b[0] in multiset(a);
    assert a[0] in b && b[0] in a;
    assert leq(a[0], b[0]) && leq(b[0], a[0]);
  }

  /** Sorting forgets the order its input came in, as long as ties are between equal elements. */
  lemma SortIgnoresOrder<T(!new)>(leq: (T, T) -> bool, a: seq<T>, b: seq<T>)
    requires multiset(a) == multiset(b)
    requires NoTies(leq, a) && TotalPreorder(leq)
    ensures Sort(leq, a) == Sort(leq, b)
  {
    SortPermutes(leq, a);
    SortPermutes(leq, b);
    SortSorts(leq, a);
    SortSorts(leq, b);
    SortMembers(leq, a);
    SortedIsUnique(leq, Sort(leq, a), Sort(leq, b));
  }

  // ----- lists without repeats -----

  predicate Distinct<T(==)>(s: seq<T>) {
    forall i, j :: 0 <= i < j < |s| ==> s[i] != s[j]
  }

  /** Every index below `n`, once. */
  predicate Rearranges(order: seq<nat>, n: nat) {
    |order| == n && Distinct(order) && (forall i :: 0 <= i < n ==> order[i] < n) && forall k: nat :: k < n ==> k in order
  }

  lemma StaysDistinct<T>(a: seq<T>, b: seq<T>)
    requires multiset(a) == multiset(b) && Distinct(a)
    ensures Distinct(b)
  {
    forall i, j | 0 <= i < j < |b|
      ensures b[i] != b[j]
    {
      if b[i] == b[j] {
        TwiceInMultiset(b, i, j);
        OnceInMultiset(a, b[i]);
      }
    }
  }

  lemma TwiceInMultiset<T>(s: seq<T>, i: nat, j: nat)
    requires i < j < |s| && s[i] == s[j]
    ensures multiset(s)[s[i]] >= 2
  {
    assert s == s[..j] + [s[j]] + s[j + 1..];
    assert s[i] in s[..j];
  }

  lemma {:induction false} OnceInMultiset<T>(s: seq<T>, x: T)
    requires Distinct(s)
    ensures multiset(s)[x] <= 1
    decreases |s|
  {
    if s != [] {
      OnceInMultiset(s[1..], x);
      assert s == [s[0]] + s[1..];
      if x == s[0] {
        assert x !in s[1..];
      }
    }
  }

  lemma {:induction false} SameMultiset<T>(a: seq<T>, b: seq<T>)
    requires Distinct(a) && Distinct(b) && forall x :: x in a <==> x in b
    ensures multiset(a) == multiset(b)
  {
    forall x
      ensures multiset(a)[x] == multiset(b)[x]
    {
      OnceInMultiset(a, x);
      OnceInMultiset(b, x);
      assert x in multiset(a) <==> x in a;
      assert x in multiset(b) <==> x in b;
    }
  }

  // ----- where sorting puts each element -----

  /** `order` lists the places of `s` by what is there, and equals as they come. */
  ghost predicate IsStableOrder<T(!new)>(leq: (T, T) -> bool, s: seq<T>, order: seq<nat>) {
    && Rearranges(order, |s|)
    && forall i, j :: 0 <= i < j < |s| ==> leq(s[order[i]], s[order[j]]) && (leq(s[order[j]], s[order[i]]) ==> order[i] < order[j])
  }

  predicate Picks<T(==)>(sorted: seq<T>, s: seq<T>, order: seq<nat>) {
    |sorted| == |s| == |order| && forall i :: 0 <= i < |s| ==> order[i] < |s| && sorted[i] == s[order[i]]
  }

  lemma {:induction false} InsertAt<T(!new)>(leq: (T, T) -> bool, x: T, s: seq<T>) returns (p: nat)
    ensures p <= |s| && Insert(leq, x, s) == s[..p] + [x] + s[p..]
    ensures forall i :: 0 <= i < p ==> !leq(x, s[i])
    ensures p < |s| ==> leq(x, s[p])
  {
    p := 0;
    if s != [] && !leq(x, s[0]) {
      p := InsertAt(leq, x, s[1..]);
      assert s == [s[0]] + s[1..];
      assert s[..p + 1] == [s[0]] + s[1..][..p];
      p := p + 1;
    }
  }

  /** The places of the rest, one further on, with the first place put in at `p`. */
  function Shifted(order: seq<nat>, p: nat): (r: seq<nat>)
    requires p <= |order|
    ensures |r| == |order| + 1
    ensures forall i :: 0 <= i < |r| ==> r[i] == if i < p then order[i] + 1 else if i == p then 0 else order[i - 1] + 1
  {
    seq(|order| + 1, i requires 0 <= i < |order| + 1 => if i < p then order[i] + 1 else if i == p then 0 else order[i - 1] + 1)
  }

  lemma ShiftedRearranges(order: seq<nat>, p: nat)
    requires Rearranges(order, |order|) && p <= |order|
    ensures Rearranges(Shifted(order, p), |order| + 1)
  {
    var r := Shifted(order, p);
    forall k: nat | k < |order| + 1
      ensures k in r
    {
      if k == 0 {
        assert r[p] == 0;
      } else {
        assert k - 1 in order;
        var i :| 0 <= i < |order| && order[i] == k - 1;
        assert r[if i < p then i else i + 1] == k;
      }
    }
  }

  lemma ShiftedPicks<T>(s: seq<T>, rest: seq<T>, sorted: seq<T>, order: seq<nat>, p: nat)
    requires s != [] && Picks(sorted, s[1..], order) && p <= |sorted| && rest == sorted[..p] + [s[0]] + sorted[p..]
    ensures Picks(rest, s, Shifted(order, p))
  {
    var r := Shifted(order, p);
    forall i | 0 <= i < |s|
      ensures r[i] < |s| && rest[i] == s[r[i]]
    {
      assert i < p ==> rest[i] == sorted[i] && sorted[i] == s[1..][order[i]];
      assert i > p ==> rest[i] == sorted[i - 1] && sorted[i - 1] == s[1..][order[i - 1]];
    }
  }

  /** Sorting puts the elements in order, and leaves equals in the order they came. */
  lemma {:induction false} SortOrder<T(!new)>(leq: (T, T) -> bool, s: seq<T>) returns (order: seq<nat>)
    requires TotalPreorder(leq)
    ensures Picks(Sort(leq, s), s, order) && IsStableOrder(leq, s, order)
    decreases |s|
  {
    order := [];
    if s != [] {
      var sorted := Sort(leq, s[1..]);
      var inner := SortOrder(leq, s[1..]);
      var p := InsertAt(leq, s[0], sorted);
      order := Shifted(inner, p);
      ShiftedRearranges(inner, p);
      ShiftedPicks(s, Sort(leq, s), sorted, inner, p);
      SortSorts(leq, s);
      TiesStay(leq, s, sorted, inner, p);
    }
  }

  lemma StableAt<T(!new)>(leq: (T, T) -> bool, s: seq<T>, order: seq<nat>, i: nat, j: nat)
    requires IsStableOrder(leq, s, order) && i < j < |s|
    ensures |order| == |s| && order[i] < |s| && order[j] < |s|
    ensures leq(s[order[j]], s[order[i]]) ==> order[i] < order[j]
  {
  }

  lemma PickedAt<T>(sorted: seq<T>, s: seq<T>, order: seq<nat>, i: nat)
    requires Picks(sorted, s, order) && i < |s|
    ensures |order| == |s| == |sorted| && order[i] < |s| && sorted[i] == s[order[i]]
  {
  }

  lemma TieStays<T(!new)>(leq: (T, T) -> bool, s: seq<T>, sorted: seq<T>, inner: seq<nat>, p: nat, i: nat, j: nat)
    requires s != [] && Picks(sorted, s[1..], inner) && IsStableOrder(leq, s[1..], inner) && p <= |sorted|
    requires i < j < |s| && (i < p ==> !leq(s[0], sorted[i]))
    ensures |inner| == |s| - 1
    ensures var order := Shifted(inner, p);
            order[i] < |s| && order[j] < |s| && (leq(s[order[j]], s[order[i]]) ==> order[i] < order[j])
  {
    hide IsStableOrder, Picks;
    assert |inner| == |s| - 1 by {
      SameLengths(sorted, s[1..], inner);
    }
    var a, b := if i <= p then i else i - 1, if j < p then j else j - 1;
    if i != p {
      PickedAt(sorted, s[1..], inner, a);
    }
    if j != p {
      PickedAt(sorted, s[1..], inner, b);
    }
    if i != p && j != p {
      StableAt(leq, s[1..], inner, a, b);
    }
  }

  lemma SameLengths<T>(sorted: seq<T>, s: seq<T>, order: seq<nat>)
    requires Picks(sorted, s, order)
    ensures |sorted| == |s| == |order|
  {
  }

  lemma TiesStay<T(!new)>(leq: (T, T) -> bool, s: seq<T>, sorted: seq<T>, inner: seq<nat>, p: nat)
    requires s != [] && Picks(sorted, s[1..], inner) && IsStableOrder(leq, s[1..], inner)
    requires p <= |sorted| && forall i :: 0 <= i < p ==> !leq(s[0], sorted[i])
    requires |inner| == |sorted| == |s| - 1 && Picks(Sort(leq, s), s, Shifted(inner, p)) && Sorted(leq, Sort(leq, s)) && Rearranges(Shifted(inner, p), |s|)
    ensures IsStableOrder(leq, s, Shifted(inner, p))
  {
    hide Sort, Rearranges, Picks, Sorted;
    var order := Shifted(inner, p);
    forall i: nat, j: nat | i < j < |s|
      ensures order[i] < |s| && order[j] < |s| && leq(s[order[i]], s[order[j]]) && (leq(s[order[j]], s[order[i]]) ==> order[i] < order[j])
    {
      hide IsStableOrder, Shifted;
      PickedAt(Sort(leq, s), s, order, i);
      PickedAt(Sort(leq, s), s, order, j);
      SortedAt(leq, Sort(leq, s), i, j);
      TieStays(leq, s, sorted, inner, p, i, j);
    }
  }
}
