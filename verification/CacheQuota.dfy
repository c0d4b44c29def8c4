/** When an eviction round leaves the whole store, keys in use included, within its quota. */
module CacheQuota {
  import opened Bytes
  import opened Sorting
  import opened CacheEviction

  // ----- the store before and after -----

  function StoreBytes(names: seq<string>, first: map<string, Found>): nat
    requires forall i :: 0 <= i < |names| ==> names[i] in first
  {
    if names == [] then 0
    else (if first[names[0]].published then KeyBytes(first[names[0]]) else 0) + StoreBytes(names[1..], first)
  }

  /** The published keys a round does not look at: in use, locked, or with an unreadable meta file. */
  function BusyBytes(names: seq<string>, first: map<string, Found>): nat
    requires forall i :: 0 <= i < |names| ==> names[i] in first
  {
    if names == [] then 0
    else (if first[names[0]].published && !IsCandidate(first[names[0]]) then KeyBytes(first[names[0]]) else 0) + BusyBytes(names[1..], first)
  }

  /** The names still in the store once the evicted ones are gone. */
  function Kept(names: seq<string>, evicted: seq<string>): (r: seq<string>)
    ensures forall i :: 0 <= i < |r| ==> r[i] in names
  {
    if names == [] then [] else (if names[0] in evicted then [] else [names[0]]) + Kept(names[1..], evicted)
  }

  function StoreBytesAfter(names: seq<string>, first: map<string, Found>, limits: Limits): nat
    requires forall i :: 0 <= i < |names| ==> names[i] in first
  {
    StoreBytes(Kept(names, Evict(names, first, first, limits).evicted), first)
  }

  /** Every one of the first `j` candidates must go when its turn comes. */
  ghost predicate AllMustGo(cs: seq<Candidate>, j: nat, limits: Limits)
    requires j <= |cs|
  {
    forall i :: 0 <= i < j ==> MustGo(cs[i], Sum(cs[..i]), Total(cs), FreeBytes(limits, Total(cs)), limits)
  }

  // ----- what is left is the busy keys and the candidates that stay -----

  function SumKept(cs: seq<Candidate>, evicted: seq<string>): nat {
    if cs == [] then 0 else (if cs[0].key in evicted then 0 else cs[0].bytes) + SumKept(cs[1..], evicted)
  }

  lemma {:induction false} StoreSplits(names: seq<string>, first: map<string, Found>, evicted: seq<string>)
    requires forall i :: 0 <= i < |names| ==> names[i] in first
    requires forall key :: key in evicted && key in first ==> IsCandidate(first[key])
    ensures StoreBytes(Kept(names, evicted), first) == BusyBytes(names, first) + SumKept(Candidates(names, first), evicted)
  {
    if names != [] {
      StoreSplits(names[1..], first, evicted);
      var rest := Kept(names[1..], evicted);
      assert ([names[0]] + rest)[1..] == rest && [] + rest == rest;
      var others := Candidates(names[1..], first);
      assert [] + others == others;
      if IsCandidate(first[names[0]]) {
        ConsTail(AsCandidate(names[0], first[names[0]]), others);
      }
    }
  }

  lemma {:induction false} InsertSumKept(x: Candidate, cs: seq<Candidate>, evicted: seq<string>)
    ensures SumKept(Insert(ByLastUsed(), x, cs), evicted) == (if x.key in evicted then 0 else x.bytes) + SumKept(cs, evicted)
  {
    if cs != [] && !(x.lastUsed <= cs[0].lastUsed) {
      InsertSumKept(x, cs[1..], evicted);
    }
  }

  lemma {:induction false} SortSumKept(cs: seq<Candidate>, evicted: seq<string>)
    ensures SumKept(Sort(ByLastUsed(), cs), evicted) == SumKept(cs, evicted)
  {
    if cs != [] {
      SortSumKept(cs[1..], evicted);
      InsertSumKept(cs[0], Sort(ByLastUsed(), cs[1..]), evicted);
    }
  }

  lemma {:induction false} KeysAre(cs: seq<Candidate>, i: nat)
    requires i < |cs|
    ensures KeysOf(cs)[i] == cs[i].key
  {
    if i > 0 {
      KeysAre(cs[1..], i - 1);
    }
  }

  /** With the keys of the first `k` candidates gone, the bytes of the others are left. */
  lemma {:induction false} PrefixGone(cs: seq<Candidate>, k: nat, from: nat, evicted: seq<string>)
    requires from <= |cs| && k <= |cs|
    requires forall i :: 0 <= i < |cs| ==> (cs[i].key in evicted <==> i < k)
    ensures SumKept(cs[from..], evicted) == Sum(cs[if from < k then k else from..])
    decreases |cs| - from
  {
    if from < |cs| {
      PrefixGone(cs, k, from + 1, evicted);
      assert cs[from..][1..] == cs[from + 1..] && cs[from..][0] == cs[from];
    }
  }

  lemma {:induction false} CandidatesDistinct(names: seq<string>, first: map<string, Found>)
    requires Distinct(names) && forall i :: 0 <= i < |names| ==> names[i] in first
    ensures Distinct(Candidates(names, first))
  {
    if names != [] {
      var rest := Candidates(names[1..], first);
      CandidatesDistinct(names[1..], first);
      CandidateKeys(names[1..], first);
      assert names[0] !in names[1..];
      assert forall i :: 0 <= i < |rest| ==> rest[i] in rest;
    }
  }

  lemma OrderedKeysDistinct(names: seq<string>, first: map<string, Found>)
    requires Distinct(names) && forall i :: 0 <= i < |names| ==> names[i] in first
    ensures var cs := Ordered(names, first); forall i, j :: 0 <= i < j < |cs| ==> cs[i].key != cs[j].key
  {
    hide Sort, Candidates, AsCandidate, IsCandidate;
    CandidatesDistinct(names, first);
    OrderedKeys(names, first);
    SortPermutes(ByLastUsed(), Candidates(names, first));
    StaysDistinct(Candidates(names, first), Ordered(names, first));
  }

  lemma PrefixKeys(cs: seq<Candidate>, k: nat)
    requires k <= |cs| && forall i, j :: 0 <= i < j < |cs| ==> cs[i].key != cs[j].key
    ensures forall i :: 0 <= i < |cs| ==> (cs[i].key in KeysOf(cs[..k]) <==> i < k)
  {
    hide KeysOf;
    forall i | 0 <= i < k
      ensures KeysOf(cs[..k])[i] == cs[i].key
    {
      KeysAre(cs[..k], i);
    }
  }

  /** A round leaves the busy keys and the candidates after the prefix it evicts. */
  lemma BytesLeft(names: seq<string>, first: map<string, Found>, limits: Limits, k: nat)
    requires Distinct(names) && forall i :: 0 <= i < |names| ==> names[i] in first
    requires k <= |Ordered(names, first)|
    requires Evict(names, first, first, limits).evicted == KeysOf(Ordered(names, first)[..k])
    ensures StoreBytesAfter(names, first, limits) == BusyBytes(names, first) + Sum(Ordered(names, first)[k..])
  {
    hide Sort, Candidates, AsCandidate, IsCandidate, Evict, KeysOf, Sum, SumKept, Kept, StoreBytes, BusyBytes;
    var cs := Ordered(names, first);
    var evicted := KeysOf(cs[..k]);
    OrderedKeys(names, first);
    OrderedKeysDistinct(names, first);
    PrefixKeys(cs, k);
    forall key | key in evicted
      ensures key in first && IsCandidate(first[key])
    {
      var i :| 0 <= i < |evicted| && evicted[i] == key;
      KeysAre(cs[..k], i);
    }
    StoreSplits(names, first, evicted);
    SortSumKept(Candidates(names, first), evicted);
    PrefixGone(cs, k, 0, evicted);
    assert cs[0..] == cs;
  }

  lemma {:induction false} LaterSuffixIsLess(cs: seq<Candidate>, j: nat, k: nat)
    requires j <= k <= |cs|
    ensures Sum(cs[k..]) <= Sum(cs[j..])
    decreases k - j
  {
    if j < k {
      LaterSuffixIsLess(cs, j + 1, k);
      assert cs[j..][1..] == cs[j + 1..];
    }
  }

  /**
   * With nothing stirring, the whole store ends a round within its quota exactly when some run of evictions,
   * each of which the round is forced to, leaves the busy keys and the candidates after it within the quota.
   */
  lemma StoreEndsWithinQuotaExactly(names: seq<string>, first: map<string, Found>, limits: Limits)
    requires Distinct(names) && forall i :: 0 <= i < |names| ==> names[i] in first
    ensures var cs := Ordered(names, first);
            StoreBytesAfter(names, first, limits) <= limits.maxSize
            <==> exists j: nat :: j <= |cs| && AllMustGo(cs, j, limits) && BusyBytes(names, first) + Sum(cs[j..]) <= limits.maxSize
  {
    hide Ordered, Total, Sum, KeysOf, Evict, FreeBytes, MustGo, StoreBytesAfter, BusyBytes;
    var cs := Ordered(names, first);
    RoundReachesItsTargets(names, first, limits);
    var k: nat :| k <= |cs| && Evict(names, first, first, limits) == Round(KeysOf(cs[..k]), Sum(cs[..k]))
                  && StopsAt(cs, k, 0, Total(cs), FreeBytes(limits, Total(cs)), limits);
    BytesLeft(names, first, limits, k);
    assert AllMustGo(cs, k, limits) by {
      ForcedBeforeStop(cs, k, limits);
    }
    if k < |cs| {
      StopIsNotForced(cs, k, limits);
    }
    forall j: nat | j <= |cs| && AllMustGo(cs, j, limits)
      ensures Sum(cs[k..]) <= Sum(cs[j..])
    {
      ForcedIsNoLonger(cs, j, k, limits);
      LaterSuffixIsLess(cs, j, k);
    }
  }

  lemma ForcedBeforeStop(cs: seq<Candidate>, k: nat, limits: Limits)
    requires k <= |cs| && StopsAt(cs, k, 0, Total(cs), FreeBytes(limits, Total(cs)), limits)
    ensures AllMustGo(cs, k, limits)
  {
    hide MustGo, Sum, Total, FreeBytes;
    forall i | 0 <= i < k
      ensures MustGo(cs[i], Sum(cs[..i]), Total(cs), FreeBytes(limits, Total(cs)), limits)
    {
      assert 0 + Sum(cs[..i]) == Sum(cs[..i]);
    }
  }

  lemma StopIsNotForced(cs: seq<Candidate>, k: nat, limits: Limits)
    requires k < |cs| && StopsAt(cs, k, 0, Total(cs), FreeBytes(limits, Total(cs)), limits)
    ensures !MustGo(cs[k], Sum(cs[..k]), Total(cs), FreeBytes(limits, Total(cs)), limits)
  {
    hide MustGo, Sum, Total, FreeBytes;
    assert 0 + Sum(cs[..k]) == Sum(cs[..k]);
  }

  lemma ForcedIsNoLonger(cs: seq<Candidate>, j: nat, k: nat, limits: Limits)
    requires j <= |cs| && k <= |cs| && AllMustGo(cs, j, limits)
    requires k < |cs| ==> !MustGo(cs[k], Sum(cs[..k]), Total(cs), FreeBytes(limits, Total(cs)), limits)
    ensures j <= k
  {
    hide MustGo, Sum, Total, FreeBytes;
  }

  /** Neither the clock nor the disk asks for an eviction. */
  ghost predicate OnlyQuotaPresses(cs: seq<Candidate>, limits: Limits) {
    && FreeBytes(limits, Total(cs)) >= limits.minFree && limits.retention != 0
    && forall i :: 0 <= i < |cs| ==> limits.now - cs[i].lastUsed < limits.retention
  }

  /**
   * When only the quota presses, that is a matter of sizes: what is in use is within the quota, and no end of the
   * candidates, oldest first, is within the quota without also being within what the keys in use leave of it.
   */
  lemma StoreEndsWithinQuotaBySize(names: seq<string>, first: map<string, Found>, limits: Limits)
    requires Distinct(names) && (forall i :: 0 <= i < |names| ==> names[i] in first)
    requires OnlyQuotaPresses(Ordered(names, first), limits)
    ensures var cs, busy := Ordered(names, first), BusyBytes(names, first);
            StoreBytesAfter(names, first, limits) <= limits.maxSize
            <==> busy <= limits.maxSize
                 && forall j: nat :: j <= |cs| && Sum(cs[j..]) <= limits.maxSize ==> busy + Sum(cs[j..]) <= limits.maxSize
  {
    hide Ordered, Total, Sum, KeysOf, Evict, FreeBytes, StoreBytesAfter, BusyBytes, StopsAt, MustGo, OnlyQuotaPresses;
    var cs := Ordered(names, first);
    RoundReachesItsTargets(names, first, limits);
    var k: nat :| k <= |cs| && Evict(names, first, first, limits) == Round(KeysOf(cs[..k]), Sum(cs[..k]))
                  && StopsAt(cs, k, 0, Total(cs), FreeBytes(limits, Total(cs)), limits);
    BytesLeft(names, first, limits, k);
    StopsBySize(cs, k, limits);
    NoneLeft(cs);
    forall j: nat | k <= j <= |cs|
      ensures Sum(cs[j..]) <= Sum(cs[k..])
    {
      LaterSuffixIsLess(cs, k, j);
    }
  }

  lemma StopsBySize(cs: seq<Candidate>, k: nat, limits: Limits)
    requires k <= |cs| && StopsAt(cs, k, 0, Total(cs), FreeBytes(limits, Total(cs)), limits) && OnlyQuotaPresses(cs, limits)
    ensures forall i :: 0 <= i < k ==> Sum(cs[i..]) > limits.maxSize
    ensures k < |cs| ==> Sum(cs[k..]) <= limits.maxSize
  {
    hide Total, Sum, FreeBytes;
    TotalIsSum(cs);
    forall i | 0 <= i < k
      ensures Sum(cs[i..]) > limits.maxSize
    {
      SumSplits(cs, i);
      assert MustGo(cs[i], 0 + Sum(cs[..i]), Total(cs), FreeBytes(limits, Total(cs)), limits);
    }
    if k < |cs| {
      SumSplits(cs, k);
      assert !MustGo(cs[k], 0 + Sum(cs[..k]), Total(cs), FreeBytes(limits, Total(cs)), limits);
    }
  }

  /** Without busy keys the quota is always met; with more busy bytes than the quota allows, never. */
  lemma QuotaIsAboutInactiveKeys(names: seq<string>, first: map<string, Found>, limits: Limits)
    requires Distinct(names) && (forall i :: 0 <= i < |names| ==> names[i] in first) && limits.maxSize >= 0
    ensures BusyBytes(names, first) == 0 ==> StoreBytesAfter(names, first, limits) <= limits.maxSize
    ensures BusyBytes(names, first) > limits.maxSize ==> StoreBytesAfter(names, first, limits) > limits.maxSize
  {
    hide Ordered, Total, Sum, KeysOf, Evict, FreeBytes, MustGo, StoreBytesAfter, BusyBytes, StopsAt;
    var cs := Ordered(names, first);
    RoundReachesItsTargets(names, first, limits);
    var k: nat :| k <= |cs| && Evict(names, first, first, limits) == Round(KeysOf(cs[..k]), Sum(cs[..k]))
                  && (k < |cs| ==> Total(cs) - Sum(cs[..k]) <= limits.maxSize);
    BytesLeft(names, first, limits, k);
    SumSplits(cs, k);
    TotalIsSum(cs);
    if k == |cs| {
      assert Sum(cs[k..]) == 0 by { NoneLeft(cs); }
    }
  }

  lemma NoneLeft(cs: seq<Candidate>)
    ensures Sum(cs[|cs|..]) == 0
  {
  }

  lemma {:induction false} SumSplits(cs: seq<Candidate>, k: nat)
    requires k <= |cs|
    ensures Sum(cs) == Sum(cs[..k]) + Sum(cs[k..])
  {
    if k == 0 {
      assert cs[..0] == [] && cs[0..] == cs;
    } else {
      SumSplits(cs[1..], k - 1);
      SumCons(cs, k - 1);
      assert cs[1..][k - 1..] == cs[k..];
    }
  }

  /** A busy key of 1000 bytes beside an inactive one of a byte, and a quota of 10: nothing is evicted, and the store stays over it. */
  lemma BusyKeysAreNotCounted()
    ensures var busy := Found(true, false, Some(Meta(1, Some(0), Some(1000))), 1000);
            var idle := Found(true, false, Some(Meta(0, Some(0), Some(1))), 1);
            var first := map["busy" := busy, "idle" := idle];
            var limits := Limits(10, 0, 0, 1, None);
            Evict(["busy", "idle"], first, first, limits).evicted == [] && StoreBytesAfter(["busy", "idle"], first, limits) == 1001
  {
    var busy := Found(true, false, Some(Meta(1, Some(0), Some(1000))), 1000);
    var idle := Found(true, false, Some(Meta(0, Some(0), Some(1))), 1);
    var first := map["busy" := busy, "idle" := idle];
    var names := ["busy", "idle"];
    assert names[1..] == ["idle"] && names[1..][1..] == [];
    assert Candidates(names[1..][1..], first) == [];
    assert Candidates(names[1..], first) == [Candidate("idle", 0, 1)];
    var cs := Candidates(names, first);
    assert cs == [Candidate("idle", 0, 1)];
    assert cs[1..] == [] && cs[..0] == [];
    assert Sort(ByLastUsed(), cs[1..]) == [];
    assert Ordered(names, first) == [Candidate("idle", 0, 1)];
    assert Total(cs) == 1;
    assert Kept(names[1..][1..], []) == [];
    assert Kept(names[1..], []) == ["idle"];
    assert Kept(names, []) == names;
    assert StoreBytes(names[1..], first) == 1;
  }
}
