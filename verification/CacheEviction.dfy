/** One eviction round over the whole store. */
module CacheEviction {
  import opened Bytes
  import opened Sorting

  datatype Meta = Meta(users: int, lastUsed: Option<int>, bytes: Option<nat>)

  /** A key as the round finds it: its marker, a lock file of the living, its meta file, its size on disk. */
  datatype Found = Found(published: bool, locked: bool, meta: Option<Meta>, size: nat)

  datatype Candidate = Candidate(key: string, lastUsed: int, bytes: nat)

  /** Times in milliseconds; `free` is what the injected probe says, if there is one. */
  datatype Limits = Limits(maxSize: int, minFree: int, now: int, retention: int, free: Option<int>)

  datatype Round = Round(evicted: seq<string>, freed: nat)

  // ----- the candidates -----

  predicate IsCandidate(found: Found) {
    found.published && !found.locked && found.meta.Some? && found.meta.value.users <= 0
  }

  /** What a key counts for: the size its meta file gives, or else its size on disk. */
  function KeyBytes(found: Found): nat {
    if found.meta.Some? && found.meta.value.bytes.Some? then found.meta.value.bytes.value else found.size
  }

  function AsCandidate(key: string, found: Found): Candidate
    requires IsCandidate(found)
  {
    var meta := found.meta.value;
    Candidate(key, if meta.lastUsed.Some? then meta.lastUsed.value else 0, KeyBytes(found))
  }

  function Candidates(names: seq<string>, first: map<string, Found>): seq<Candidate>
    requires forall i :: 0 <= i < |names| ==> names[i] in first
  {
    if names == [] then []
    else (if IsCandidate(first[names[0]]) then [AsCandidate(names[0], first[names[0]])] else []) + Candidates(names[1..], first)
  }

  function Total(cs: seq<Candidate>): nat {
    if cs == [] then 0 else Total(cs[..|cs| - 1]) + cs[|cs| - 1].bytes
  }

  function ByLastUsed(): (Candidate, Candidate) -> bool {
    (a: Candidate, b: Candidate) => a.lastUsed <= b.lastUsed
  }

  function FreeBytes(limits: Limits, total: nat): int {
    if limits.free.Some? then limits.free.value
    else if limits.maxSize > 0 && limits.maxSize > total then limits.maxSize - total
    else 0
  }

  // ----- the round -----

  /** A candidate must go while the store is over its quota or the disk short of space, or when its own time is up. */
  predicate MustGo(c: Candidate, freed: nat, total: nat, free: int, limits: Limits) {
    || total - freed > limits.maxSize
    || free + freed < limits.minFree
    || limits.retention == 0 || limits.now - c.lastUsed >= limits.retention
  }

  /** The second look, right before the deletion. */
  predicate StillInactive(found: Found) {
    !found.locked && !(found.meta.Some? && found.meta.value.users > 0)
  }

  function EvictFrom(cs: seq<Candidate>, freed: nat, total: nat, free: int, limits: Limits, again: map<string, Found>): Round
    requires forall i :: 0 <= i < |cs| ==> cs[i].key in again
    decreases |cs|
  {
    if cs == [] then Round([], freed)
    else if MustGo(cs[0], freed, total, free, limits) && StillInactive(again[cs[0].key]) then
      var rest := EvictFrom(cs[1..], freed + cs[0].bytes, total, free, limits, again);
      Round([cs[0].key] + rest.evicted, rest.freed)
    else EvictFrom(cs[1..], freed, total, free, limits, again)
  }

  /** Least recently used first. */
  function Ordered(names: seq<string>, first: map<string, Found>): seq<Candidate>
    requires forall i :: 0 <= i < |names| ==> names[i] in first
  {
    Sort(ByLastUsed(), Candidates(names, first))
  }

  lemma {:induction false} CandidateKeys(names: seq<string>, first: map<string, Found>)
    requires forall i :: 0 <= i < |names| ==> names[i] in first
    ensures forall c :: c in Candidates(names, first) ==>
              c.key in names && IsCandidate(first[c.key]) && c == AsCandidate(c.key, first[c.key])
  {
    if names != [] {
      CandidateKeys(names[1..], first);
      assert forall x :: x in names[1..] ==> x in names;
      assert forall c :: c in Candidates(names, first) ==>
               c in Candidates(names[1..], first) || (IsCandidate(first[names[0]]) && c == AsCandidate(names[0], first[names[0]]));
    }
  }

  lemma OrderedKeys(names: seq<string>, first: map<string, Found>)
    requires forall i :: 0 <= i < |names| ==> names[i] in first
    ensures var cs := Ordered(names, first);
            && Sorted(ByLastUsed(), cs)
            && forall i :: 0 <= i < |cs| ==>
                 cs[i].key in names && IsCandidate(first[cs[i].key]) && cs[i] == AsCandidate(cs[i].key, first[cs[i].key])
  {
    hide Sort, Candidates, AsCandidate, IsCandidate;
    CandidateKeys(names, first);
    SortMembers(ByLastUsed(), Candidates(names, first));
    SortSorts(ByLastUsed(), Candidates(names, first));
    var cs := Ordered(names, first);
    assert forall i :: 0 <= i < |cs| ==> cs[i] in Candidates(names, first);
  }

  function Evict(names: seq<string>, first: map<string, Found>, again: map<string, Found>, limits: Limits): Round
    requires forall i :: 0 <= i < |names| ==> names[i] in first && names[i] in again
  {
    var cs := Ordered(names, first);
    OrderedKeys(names, first);
    EvictFrom(cs, 0, Total(cs), FreeBytes(limits, Total(cs)), limits, again)
  }

  method EvictInactive(names: seq<string>, first: map<string, Found>, again: map<string, Found>, limits: Limits) returns (round: Round)
    requires forall i :: 0 <= i < |names| ==> names[i] in first && names[i] in again
    ensures round == Evict(names, first, again, limits)
  {
    hide Sort, EvictFrom, AsCandidate;
    var candidates: seq<Candidate>, totalBytes := [], 0;
    assert names[0..] == names;
    for i := 0 to |names|
      invariant candidates + Candidates(names[i..], first) == Candidates(names, first)
      invariant totalBytes == Total(candidates)
    {
      assert names[i..][1..] == names[i + 1..];
      var found := first[names[i]];
      if IsCandidate(found) {
        var c := AsCandidate(names[i], found);
        Assoc(candidates, [c], Candidates(names[i + 1..], first));
        candidates := candidates + [c];
        totalBytes := totalBytes + c.bytes;
        assert candidates[..|candidates| - 1] + [c] == candidates;
      }
    }
    assert candidates == Candidates(names, first);
    var sorted := Sort(ByLastUsed(), candidates);
    SameTotal(candidates);
    OrderedKeys(names, first);
    var free := FreeBytes(limits, totalBytes);
    round := EvictInOrder(sorted, totalBytes, free, limits, again);
  }

  /** The eviction loop. */
  method EvictInOrder(sorted: seq<Candidate>, total: nat, free: int, limits: Limits, again: map<string, Found>) returns (round: Round)
    requires forall i :: 0 <= i < |sorted| ==> sorted[i].key in again
    ensures round == EvictFrom(sorted, 0, total, free, limits, again)
  {
    var evicted: seq<string>, freed: nat := [], 0;
    ghost var goal := EvictFrom(sorted, 0, total, free, limits, again);
    assert sorted[0..] == sorted && evicted + goal.evicted == goal.evicted;
    for i := 0 to |sorted|
      invariant var rest := EvictFrom(sorted[i..], freed, total, free, limits, again);
                goal == Round(evicted + rest.evicted, rest.freed)
    {
      assert sorted[i..][0] == sorted[i] && sorted[i..][1..] == sorted[i + 1..];
      var overQuota := total - freed > limits.maxSize;
      var underFree := free + freed < limits.minFree;
      var expired := limits.retention == 0 || limits.now - sorted[i].lastUsed >= limits.retention;
      if !overQuota && !underFree && !expired {
        continue;
      }
      var found := again[sorted[i].key];
      if found.locked || (found.meta.Some? && found.meta.value.users > 0) {
        continue;
      }
      Assoc(evicted, [sorted[i].key], EvictFrom(sorted[i + 1..], freed + sorted[i].bytes, total, free, limits, again).evicted);
      evicted := evicted + [sorted[i].key];
      freed := freed + sorted[i].bytes;
    }
    assert sorted[|sorted|..] == [] && evicted + [] == evicted;
    round := Round(evicted, freed);
  }

  // ----- sums do not depend on order -----

  function Sum(cs: seq<Candidate>): nat {
    if cs == [] then 0 else cs[0].bytes + Sum(cs[1..])
  }

  lemma {:induction false} TotalIsSum(cs: seq<Candidate>)
    ensures Total(cs) == Sum(cs)
    decreases |cs|
  {
    if |cs| > 1 {
      var last := |cs| - 1;
      TotalIsSum(cs[..last]);
      TotalIsSum(cs[1..][..last - 1]);
      TotalIsSum(cs[1..]);
      assert cs[..last][1..] == cs[1..][..last - 1];
      assert cs[1..][last - 1] == cs[last];
    }
  }

  lemma {:induction false} InsertSum(x: Candidate, cs: seq<Candidate>)
    ensures Sum(Insert(ByLastUsed(), x, cs)) == x.bytes + Sum(cs)
  {
    if cs != [] && !(x.lastUsed <= cs[0].lastUsed) {
      InsertSum(x, cs[1..]);
    }
  }

  lemma {:induction false} SortSum(cs: seq<Candidate>)
    ensures Sum(Sort(ByLastUsed(), cs)) == Sum(cs)
  {
    if cs != [] {
      SortSum(cs[1..]);
      InsertSum(cs[0], Sort(ByLastUsed(), cs[1..]));
    }
  }

  lemma SameTotal(cs: seq<Candidate>)
    ensures Total(Sort(ByLastUsed(), cs)) == Total(cs)
  {
    hide Sort, Sum, Total;
    TotalIsSum(cs);
    TotalIsSum(Sort(ByLastUsed(), cs));
    SortSum(cs);
  }

  // ----- what a round does -----

  /** Whatever changes between the two looks, a key goes only if both found it without a living lock and without users. */
  lemma EvictedWereInactive(names: seq<string>, first: map<string, Found>, again: map<string, Found>, limits: Limits, key: string)
    requires forall i :: 0 <= i < |names| ==> names[i] in first && names[i] in again
    requires key in Evict(names, first, again, limits).evicted
    ensures key in names && IsCandidate(first[key]) && StillInactive(again[key])
  {
    hide Ordered, EvictFrom, AsCandidate;
    var cs := Ordered(names, first);
    OrderedKeys(names, first);
    EvictedFromCandidates(cs, 0, Total(cs), FreeBytes(limits, Total(cs)), limits, again, key);
  }

  lemma {:induction false} EvictedFromCandidates(cs: seq<Candidate>, freed: nat, total: nat, free: int, limits: Limits,
                                                 again: map<string, Found>, key: string)
    requires forall i :: 0 <= i < |cs| ==> cs[i].key in again
    requires key in EvictFrom(cs, freed, total, free, limits, again).evicted
    ensures exists i :: 0 <= i < |cs| && cs[i].key == key
    ensures StillInactive(again[key])
    decreases |cs|
  {
    if MustGo(cs[0], freed, total, free, limits) && StillInactive(again[cs[0].key]) {
      if key != cs[0].key {
        EvictedFromCandidates(cs[1..], freed + cs[0].bytes, total, free, limits, again, key);
      }
    } else {
      EvictedFromCandidates(cs[1..], freed, total, free, limits, again, key);
    }
  }

  function KeysOf(cs: seq<Candidate>): (r: seq<string>)
    ensures |r| == |cs|
  {
    if cs == [] then [] else [cs[0].key] + KeysOf(cs[1..])
  }

  /** Nothing more is asked of the store once `k` candidates have gone, and each of them had to go. */
  ghost predicate StopsAt(cs: seq<Candidate>, k: nat, freed: nat, total: nat, free: int, limits: Limits)
    requires k <= |cs|
  {
    && (forall i :: 0 <= i < k ==> MustGo(cs[i], freed + Sum(cs[..i]), total, free, limits))
    && (forall i :: k <= i < |cs| ==> !MustGo(cs[i], freed + Sum(cs[..k]), total, free, limits))
  }

  lemma {:induction false} NoneMustGo(cs: seq<Candidate>, freed: nat, total: nat, free: int, limits: Limits, again: map<string, Found>)
    requires forall i :: 0 <= i < |cs| ==> cs[i].key in again && !MustGo(cs[i], freed, total, free, limits)
    ensures EvictFrom(cs, freed, total, free, limits, again) == Round([], freed)
    decreases |cs|
  {
    hide MustGo, StillInactive;
    if cs != [] {
      NoneMustGo(cs[1..], freed, total, free, limits, again);
    }
  }

  lemma LaterIsNoOlder(cs: seq<Candidate>, freed: nat, total: nat, free: int, limits: Limits)
    requires cs != [] && Sorted(ByLastUsed(), cs) && !MustGo(cs[0], freed, total, free, limits)
    ensures forall i :: 0 <= i < |cs| ==> !MustGo(cs[i], freed, total, free, limits)
  {
    assert forall i :: 0 < i < |cs| ==> ByLastUsed()(cs[0], cs[i]);
  }

  lemma SumCons(cs: seq<Candidate>, k: nat)
    requires cs != [] && k <= |cs[1..]|
    ensures Sum(cs[..k + 1]) == cs[0].bytes + Sum(cs[1..][..k])
  {
    assert cs[..k + 1][1..] == cs[1..][..k];
  }

  /** With nothing stirring between the two looks, the round takes a prefix of the order and stops where it may. */
  lemma {:induction false} RoundIsPrefix(cs: seq<Candidate>, freed: nat, total: nat, free: int, limits: Limits, again: map<string, Found>)
    returns (k: nat)
    requires Sorted(ByLastUsed(), cs)
    requires forall i :: 0 <= i < |cs| ==> cs[i].key in again && StillInactive(again[cs[i].key])
    ensures k <= |cs| && StopsAt(cs, k, freed, total, free, limits)
    ensures EvictFrom(cs, freed, total, free, limits, again) == Round(KeysOf(cs[..k]), freed + Sum(cs[..k]))
    decreases |cs|
  {
    hide MustGo, StillInactive, Sum, StopsAt, KeysOf;
    if cs == [] {
      k := 0;
      StopsAtOnce(cs, freed, total, free, limits);
    } else if MustGo(cs[0], freed, total, free, limits) {
      var rest := RoundIsPrefix(cs[1..], freed + cs[0].bytes, total, free, limits, again);
      k := rest + 1;
      SumCons(cs, rest);
      KeysCons(cs, rest);
      StopsOneLater(cs, rest, freed, total, free, limits);
    } else {
      k := 0;
      LaterIsNoOlder(cs, freed, total, free, limits);
      NoneMustGo(cs, freed, total, free, limits, again);
      StopsAtOnce(cs, freed, total, free, limits);
    }
  }

  lemma KeysCons(cs: seq<Candidate>, k: nat)
    requires cs != [] && k <= |cs[1..]|
    ensures KeysOf(cs[..k + 1]) == [cs[0].key] + KeysOf(cs[1..][..k])
  {
    assert cs[..k + 1][1..] == cs[1..][..k];
  }

  lemma StopsAtOnce(cs: seq<Candidate>, freed: nat, total: nat, free: int, limits: Limits)
    requires forall i :: 0 <= i < |cs| ==> !MustGo(cs[i], freed, total, free, limits)
    ensures StopsAt(cs, 0, freed, total, free, limits)
    ensures cs[..0] == [] && Sum(cs[..0]) == 0 && KeysOf(cs[..0]) == []
  {
    hide MustGo;
    assert cs[..0] == [];
  }

  lemma StopsOneLater(cs: seq<Candidate>, rest: nat, freed: nat, total: nat, free: int, limits: Limits)
    requires cs != [] && MustGo(cs[0], freed, total, free, limits)
    requires rest <= |cs[1..]| && StopsAt(cs[1..], rest, freed + cs[0].bytes, total, free, limits)
    ensures StopsAt(cs, rest + 1, freed, total, free, limits)
  {
    hide MustGo, Sum;
    SumCons(cs, rest);
    forall i | 0 <= i < rest + 1
      ensures MustGo(cs[i], freed + Sum(cs[..i]), total, free, limits)
    {
      if i == 0 {
        SumOfNone(cs);
      } else {
        SumCons(cs, i - 1);
        assert cs[i] == cs[1..][i - 1];
      }
    }
    forall i | rest + 1 <= i < |cs|
      ensures !MustGo(cs[i], freed + Sum(cs[..rest + 1]), total, free, limits)
    {
      assert cs[i] == cs[1..][i - 1];
    }
  }

  lemma SumOfNone(cs: seq<Candidate>)
    ensures Sum(cs[..0]) == 0
  {
    assert cs[..0] == [];
  }

  /**
   * A round with nothing stirring evicts the least recently used keys and no more than it must: afterwards
   * the inactive keys that are left are within the quota, the disk has its free space and none of them is past
   * its time, or every inactive key is gone; and each evicted key was needed when its turn came.
   */
  lemma RoundReachesItsTargets(names: seq<string>, first: map<string, Found>, limits: Limits)
    requires forall i :: 0 <= i < |names| ==> names[i] in first
    ensures var cs := Ordered(names, first);
            var free := FreeBytes(limits, Total(cs));
            var round := Evict(names, first, first, limits);
            exists k: nat :: k <= |cs| && round == Round(KeysOf(cs[..k]), Sum(cs[..k]))
              && StopsAt(cs, k, 0, Total(cs), free, limits)
              && (k < |cs| ==>
                    && Total(cs) - round.freed <= limits.maxSize
                    && free + round.freed >= limits.minFree
                    && forall i :: k <= i < |cs| ==> limits.now - cs[i].lastUsed < limits.retention)
  {
    hide Ordered, Total, Sum, KeysOf, EvictFrom, AsCandidate, FreeBytes;
    var cs := Ordered(names, first);
    var free := FreeBytes(limits, Total(cs));
    OrderedKeys(names, first);
    var k := RoundIsPrefix(cs, 0, Total(cs), free, limits, first);
    if k < |cs| {
      assert !MustGo(cs[k], 0 + Sum(cs[..k]), Total(cs), free, limits);
    }
    assert k <= |cs| && Evict(names, first, first, limits) == Round(KeysOf(cs[..k]), Sum(cs[..k]));
  }
}
