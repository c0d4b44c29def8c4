/** An eviction round told in what it found, the limits, and what is left. */
module CacheRounds {
  import opened Bytes
  import opened Sorting
  import opened CacheEviction
  import CacheQuota

  // ----- what a key is, to anyone who looks -----

  predicate Idle(found: Found) {
    found.published && !found.locked && found.meta.Some? && found.meta.value.users <= 0
  }

  /** A living lock, or a user counted. */
  predicate InUse(found: Found) {
    found.locked || (found.meta.Some? && found.meta.value.users > 0)
  }

  function LastUsed(found: Found): int {
    match found.meta
    case None => 0
    case Some(meta) => match meta.lastUsed case None => 0 case Some(time) => time
  }

  function Weight(found: Found): nat {
    match found.meta
    case None => found.size
    case Some(meta) => match meta.bytes case None => found.size case Some(bytes) => bytes
  }

  function WeightOf(keys: seq<string>, first: map<string, Found>): nat
    requires forall i :: 0 <= i < |keys| ==> keys[i] in first
  {
    if keys == [] then 0 else Weight(first[keys[0]]) + WeightOf(keys[1..], first)
  }

  function IdleWeight(names: seq<string>, first: map<string, Found>): nat
    requires forall i :: 0 <= i < |names| ==> names[i] in first
  {
    if names == [] then 0
    else (if Idle(first[names[0]]) then Weight(first[names[0]]) else 0) + IdleWeight(names[1..], first)
  }

  /** What the probe says, or without one what a positive quota leaves beside the idle keys. */
  function Space(limits: Limits, idle: nat): int {
    match limits.free
    case Some(free) => free
    case None => if 0 < limits.maxSize && idle < limits.maxSize then limits.maxSize - idle else 0
  }

  /** With `freed` bytes gone: the idle keys are over the quota, the disk is short of space, or this key's time is up. */
  predicate Pressed(found: Found, freed: nat, idle: nat, limits: Limits) {
    || idle - freed > limits.maxSize
    || Space(limits, idle) + freed < limits.minFree
    || limits.retention == 0 || limits.now - LastUsed(found) >= limits.retention
  }

  // ----- the loop, over candidates -----

  /** The candidates the loop takes. */
  function Gone(cs: seq<Candidate>, freed: nat, total: nat, free: int, limits: Limits, again: map<string, Found>): seq<Candidate>
    requires forall i :: 0 <= i < |cs| ==> cs[i].key in again
    decreases |cs|
  {
    if cs == [] then []
    else if MustGo(cs[0], freed, total, free, limits) && StillInactive(again[cs[0].key])
    then [cs[0]] + Gone(cs[1..], freed + cs[0].bytes, total, free, limits, again)
    else Gone(cs[1..], freed, total, free, limits, again)
  }

  lemma {:induction false} GoneIsEvicted(cs: seq<Candidate>, freed: nat, total: nat, free: int, limits: Limits, again: map<string, Found>)
    requires forall i :: 0 <= i < |cs| ==> cs[i].key in again
    ensures var gone := Gone(cs, freed, total, free, limits, again);
            EvictFrom(cs, freed, total, free, limits, again) == Round(KeysOf(gone), freed + Sum(gone))
    decreases |cs|
  {
    hide MustGo, StillInactive;
    if cs != [] {
      GoneIsEvicted(cs[1..], freed, total, free, limits, again);
      GoneIsEvicted(cs[1..], freed + cs[0].bytes, total, free, limits, again);
      ConsTail(cs[0], Gone(cs[1..], freed + cs[0].bytes, total, free, limits, again));
    }
  }

  /** Each was forced out when its turn came, and found inactive; they come in their order. */
  ghost predicate EachForced(gone: seq<Candidate>, freed: nat, total: nat, free: int, limits: Limits, again: map<string, Found>) {
    && (forall i :: 0 <= i < |gone| ==> gone[i].key in again && StillInactive(again[gone[i].key]))
    && (forall i :: 0 <= i < |gone| ==> MustGo(gone[i], freed + Sum(gone[..i]), total, free, limits))
  }

  lemma ForcedCons(c: Candidate, more: seq<Candidate>, freed: nat, total: nat, free: int, limits: Limits, again: map<string, Found>)
    requires c.key in again && StillInactive(again[c.key]) && MustGo(c, freed, total, free, limits)
    requires EachForced(more, freed + c.bytes, total, free, limits, again)
    ensures EachForced([c] + more, freed, total, free, limits, again)
  {
    hide MustGo, StillInactive, Sum;
    var gone := [c] + more;
    ConsTail(c, more);
    SumOfNone(gone);
    forall i | 0 <= i < |gone|
      ensures gone[i].key in again && StillInactive(again[gone[i].key]) && MustGo(gone[i], freed + Sum(gone[..i]), total, free, limits)
    {
      if i > 0 {
        SumCons(gone, i - 1);
        assert gone[i] == more[i - 1];
      }
    }
  }

  lemma {:induction false} GoneWasForced(cs: seq<Candidate>, freed: nat, total: nat, free: int, limits: Limits, again: map<string, Found>)
    requires forall i :: 0 <= i < |cs| ==> cs[i].key in again
    ensures var gone := Gone(cs, freed, total, free, limits, again);
            EachForced(gone, freed, total, free, limits, again) && forall c :: c in gone ==> c in cs
    decreases |cs|
  {
    hide MustGo, StillInactive;
    if cs == [] {
    } else if MustGo(cs[0], freed, total, free, limits) && StillInactive(again[cs[0].key]) {
      var more := Gone(cs[1..], freed + cs[0].bytes, total, free, limits, again);
      GoneWasForced(cs[1..], freed + cs[0].bytes, total, free, limits, again);
      ForcedCons(cs[0], more, freed, total, free, limits, again);
      ConsTail(cs[0], more);
    } else {
      GoneWasForced(cs[1..], freed, total, free, limits, again);
    }
  }

  /** A candidate that stays was found in use, or nothing forces it out even in the end; and none younger has gone. */
  lemma {:induction false} StaysForAReason(cs: seq<Candidate>, freed: nat, total: nat, free: int, limits: Limits, again: map<string, Found>, c: Candidate)
    requires Sorted(ByLastUsed(), cs) && (forall i :: 0 <= i < |cs| ==> cs[i].key in again)
    requires c in cs && c !in Gone(cs, freed, total, free, limits, again) && StillInactive(again[c.key])
    ensures var gone := Gone(cs, freed, total, free, limits, again);
            !MustGo(c, freed + Sum(gone), total, free, limits) && forall g :: g in gone ==> g.lastUsed <= c.lastUsed
    decreases |cs|
  {
    hide StillInactive, MustGo, ByLastUsed;
    TailInOrder(cs);
    if MustGo(cs[0], freed, total, free, limits) && StillInactive(again[cs[0].key]) {
      var more := Gone(cs[1..], freed + cs[0].bytes, total, free, limits, again);
      ConsTail(cs[0], more);
      assert c in cs[1..];
      StaysForAReason(cs[1..], freed + cs[0].bytes, total, free, limits, again, c);
      FirstIsOldest(cs, c);
    } else if c == cs[0] {
      LaterIsNoOlder(cs, freed, total, free, limits);
      NothingGoes(cs, freed, total, free, limits, again);
    } else {
      StaysForAReason(cs[1..], freed, total, free, limits, again, c);
    }
  }

  lemma TailInOrder(cs: seq<Candidate>)
    requires Sorted(ByLastUsed(), cs) && cs != []
    ensures Sorted(ByLastUsed(), cs[1..])
  {
  }

  lemma FirstIsOldest(cs: seq<Candidate>, c: Candidate)
    requires Sorted(ByLastUsed(), cs) && c in cs
    ensures cs[0].lastUsed <= c.lastUsed
  {
    var i :| 0 <= i < |cs| && cs[i] == c;
    SortedAt(ByLastUsed(), cs, 0, i);
  }

  lemma {:induction false} NothingGoes(cs: seq<Candidate>, freed: nat, total: nat, free: int, limits: Limits, again: map<string, Found>)
    requires forall i :: 0 <= i < |cs| ==> cs[i].key in again && !MustGo(cs[i], freed, total, free, limits)
    ensures Gone(cs, freed, total, free, limits, again) == []
    decreases |cs|
  {
    hide MustGo, StillInactive;
    if cs != [] {
      NothingGoes(cs[1..], freed, total, free, limits, again);
    }
  }

  /** Candidates that stand in order leave in order, each once. */
  lemma {:induction false} GoneInOrder(cs: seq<Candidate>, freed: nat, total: nat, free: int, limits: Limits, again: map<string, Found>)
    requires forall i :: 0 <= i < |cs| ==> cs[i].key in again
    requires Sorted(ByLastUsed(), cs) && forall i, j :: 0 <= i < j < |cs| ==> cs[i].key != cs[j].key
    ensures var gone := Gone(cs, freed, total, free, limits, again);
            forall i, j :: 0 <= i < j < |gone| ==> gone[i].lastUsed <= gone[j].lastUsed && gone[i].key != gone[j].key
    decreases |cs|
  {
    hide MustGo, StillInactive;
    if cs != [] {
      var first := MustGo(cs[0], freed, total, free, limits) && StillInactive(again[cs[0].key]);
      var onward := if first then freed + cs[0].bytes else freed;
      GoneInOrder(cs[1..], onward, total, free, limits, again);
      GoneWasForced(cs[1..], onward, total, free, limits, again);
      var more := Gone(cs[1..], onward, total, free, limits, again);
      forall i | 0 <= i < |more|
        ensures cs[0].lastUsed <= more[i].lastUsed && cs[0].key != more[i].key
      {
        assert more[i] in cs[1..];
        var j :| 0 <= j < |cs[1..]| && cs[1..][j] == more[i];
        SortedAt(ByLastUsed(), cs, 0, j + 1);
      }
    }
  }

  // ----- candidates are keys -----

  /** These candidates are keys of the store, with their times and weights. */
  ghost predicate AreKeys(cs: seq<Candidate>, first: map<string, Found>) {
    forall i :: 0 <= i < |cs| ==>
      && cs[i].key in first && Idle(first[cs[i].key])
      && cs[i].lastUsed == LastUsed(first[cs[i].key]) && cs[i].bytes == Weight(first[cs[i].key])
  }

  lemma CandidateIsKey(key: string, found: Found)
    ensures IsCandidate(found) <==> Idle(found)
    ensures IsCandidate(found) ==> AsCandidate(key, found) == Candidate(key, LastUsed(found), Weight(found))
  {
  }

  lemma {:induction false} CandidatesAreIdle(names: seq<string>, first: map<string, Found>)
    requires forall i :: 0 <= i < |names| ==> names[i] in first
    ensures Sum(Candidates(names, first)) == IdleWeight(names, first)
    ensures forall name :: name in names && Idle(first[name]) ==> AsCandidate(name, first[name]) in Candidates(names, first)
  {
    hide AsCandidate, LastUsed, Weight, IsCandidate, Idle;
    if names != [] {
      CandidatesAreIdle(names[1..], first);
      CandidateIsKey(names[0], first[names[0]]);
      var rest := Candidates(names[1..], first);
      assert [] + rest == rest;
      if Idle(first[names[0]]) {
        ConsTail(AsCandidate(names[0], first[names[0]]), rest);
      }
      assert forall name :: name in names ==> name == names[0] || name in names[1..];
    }
  }

  lemma OrderedAreKeys(names: seq<string>, first: map<string, Found>)
    requires Distinct(names) && forall i :: 0 <= i < |names| ==> names[i] in first
    ensures var cs := Ordered(names, first);
            && AreKeys(cs, first) && Sorted(ByLastUsed(), cs) && Total(cs) == IdleWeight(names, first)
            && (forall i :: 0 <= i < |cs| ==> cs[i].key in names)
            && (forall i, j :: 0 <= i < j < |cs| ==> cs[i].key != cs[j].key)
            && forall name :: name in names && Idle(first[name]) ==> exists i :: 0 <= i < |cs| && cs[i].key == name
  {
    hide Sort, Candidates, AsCandidate, IsCandidate, LastUsed, Weight, Idle, Sum, Total;
    var cs := Ordered(names, first);
    OrderedKeys(names, first);
    CacheQuota.OrderedKeysDistinct(names, first);
    forall i | 0 <= i < |cs|
      ensures Idle(first[cs[i].key]) && cs[i] == Candidate(cs[i].key, LastUsed(first[cs[i].key]), Weight(first[cs[i].key]))
    {
      CandidateIsKey(cs[i].key, first[cs[i].key]);
    }
    CandidatesAreIdle(names, first);
    SortSum(Candidates(names, first));
    TotalIsSum(cs);
    SortMembers(ByLastUsed(), Candidates(names, first));
    forall name | name in names && Idle(first[name])
      ensures exists i :: 0 <= i < |cs| && cs[i].key == name
    {
      CandidateIsKey(name, first[name]);
      var c := AsCandidate(name, first[name]);
      assert c in cs;
      var i :| 0 <= i < |cs| && cs[i] == c;
    }
  }

  lemma {:induction false} SumIsWeight(cs: seq<Candidate>, first: map<string, Found>)
    requires AreKeys(cs, first)
    ensures (forall i :: 0 <= i < |cs| ==> KeysOf(cs)[i] == cs[i].key) && Sum(cs) == WeightOf(KeysOf(cs), first)
  {
    hide Idle, LastUsed, Weight;
    if cs != [] {
      SumIsWeight(cs[1..], first);
      ConsTail(cs[0].key, KeysOf(cs[1..]));
    }
  }

  lemma PressedIsMustGo(c: Candidate, found: Found, freed: nat, idle: nat, limits: Limits)
    requires c.lastUsed == LastUsed(found)
    ensures MustGo(c, freed, idle, FreeBytes(limits, idle), limits) <==> Pressed(found, freed, idle, limits)
    ensures StillInactive(found) <==> !InUse(found)
  {
    hide LastUsed;
  }

  lemma KeysOfPrefix(cs: seq<Candidate>, i: nat, first: map<string, Found>)
    requires i <= |cs| && AreKeys(cs, first)
    ensures AreKeys(cs[..i], first) && KeysOf(cs)[..i] == KeysOf(cs[..i])
    ensures forall j :: 0 <= j < i ==> KeysOf(cs)[..i][j] in first
    ensures Sum(cs[..i]) == WeightOf(KeysOf(cs)[..i], first)
  {
    hide KeysOf, Sum, WeightOf;
    SumIsWeight(cs, first);
    SumIsWeight(cs[..i], first);
  }

  // ----- a round -----

  /** Every evicted key was idle at the first look and not in use at the second, and something pressed when its turn came. */
  ghost predicate RightlyEvicted(round: Round, names: seq<string>, first: map<string, Found>, again: map<string, Found>, limits: Limits)
    requires forall i :: 0 <= i < |names| ==> names[i] in first && names[i] in again
  {
    var keys := round.evicted;
    && (forall i :: 0 <= i < |keys| ==> keys[i] in names)
    && (forall i :: 0 <= i < |keys| ==> Idle(first[keys[i]]) && !InUse(again[keys[i]]))
    && (forall i :: 0 <= i < |keys| ==> Pressed(first[keys[i]], WeightOf(keys[..i], first), IdleWeight(names, first), limits))
    && round.freed == WeightOf(keys, first)
  }

  /** A key that was idle and stays was in use at the second look, or nothing presses any more and no key used later is gone. */
  ghost predicate RightlyKept(round: Round, names: seq<string>, first: map<string, Found>, again: map<string, Found>, limits: Limits, name: string)
    requires forall i :: 0 <= i < |names| ==> names[i] in first && names[i] in again
    requires name in names && forall i :: 0 <= i < |round.evicted| ==> round.evicted[i] in names
  {
    || InUse(again[name])
    || (!Pressed(first[name], round.freed, IdleWeight(names, first), limits)
        && forall i :: 0 <= i < |round.evicted| ==> LastUsed(first[round.evicted[i]]) <= LastUsed(first[name]))
  }

  /** Least recently used first, no key twice. */
  ghost predicate OldestFirst(keys: seq<string>, first: map<string, Found>) {
    && (forall i :: 0 <= i < |keys| ==> keys[i] in first)
    && forall i, j :: 0 <= i < j < |keys| ==> keys[i] != keys[j] && LastUsed(first[keys[i]]) <= LastUsed(first[keys[j]])
  }

  /** A round, whatever stirs between its two looks, in terms of what it found. */
  lemma RoundInPlainTerms(names: seq<string>, first: map<string, Found>, again: map<string, Found>, limits: Limits)
    requires Distinct(names) && forall i :: 0 <= i < |names| ==> names[i] in first && names[i] in again
    ensures var round := Evict(names, first, again, limits);
            && RightlyEvicted(round, names, first, again, limits) && OldestFirst(round.evicted, first)
            && forall name :: name in names && Idle(first[name]) && name !in round.evicted ==> RightlyKept(round, names, first, again, limits, name)
  {
    hide Ordered, EvictFrom, MustGo, StillInactive, Pressed, InUse, Idle, LastUsed, Weight, WeightOf, IdleWeight, FreeBytes, KeysOf, Sum, Total, Gone;
    var cs := Ordered(names, first);
    OrderedKeys(names, first);
    OrderedAreKeys(names, first);
    var total := Total(cs);
    var free := FreeBytes(limits, total);
    var gone := Gone(cs, 0, total, free, limits, again);
    GoneIsEvicted(cs, 0, total, free, limits, again);
    GoneWasForced(cs, 0, total, free, limits, again);
    GoneInOrder(cs, 0, total, free, limits, again);
    assert AreKeys(gone, first) by {
      forall i | 0 <= i < |gone|
        ensures gone[i].key in names && gone[i].key in first && Idle(first[gone[i].key])
                && gone[i].lastUsed == LastUsed(first[gone[i].key]) && gone[i].bytes == Weight(first[gone[i].key])
      {
        assert gone[i] in cs;
      }
    }
    SumIsWeight(gone, first);
    var keys := KeysOf(gone);
    forall i | 0 <= i < |keys|
      ensures keys[i] == gone[i].key && keys[i] in names && !InUse(again[keys[i]])
              && Pressed(first[keys[i]], WeightOf(keys[..i], first), IdleWeight(names, first), limits)
    {
      assert gone[i] in cs;
      KeysOfPrefix(gone, i, first);
      PressedIsMustGo(gone[i], first[keys[i]], 0 + Sum(gone[..i]), total, limits);
      PressedIsMustGo(gone[i].(lastUsed := LastUsed(again[keys[i]])), again[keys[i]], 0, total, limits);
    }
    forall name | name in names && Idle(first[name]) && name !in keys
      ensures RightlyKept(Round(keys, 0 + Sum(gone)), names, first, again, limits, name)
    {
      var i :| 0 <= i < |cs| && cs[i].key == name;
      KeptIsRight(cs, i, gone, keys, names, first, again, limits);
    }
  }

  lemma NotGone(gone: seq<Candidate>, keys: seq<string>, c: Candidate)
    requires |keys| == |gone| && (forall j :: 0 <= j < |keys| ==> keys[j] == gone[j].key) && c.key !in keys
    ensures c !in gone
  {
  }

  lemma KeptIsRight(cs: seq<Candidate>, i: nat, gone: seq<Candidate>, keys: seq<string>,
                    names: seq<string>, first: map<string, Found>, again: map<string, Found>, limits: Limits)
    requires forall i :: 0 <= i < |names| ==> names[i] in first && names[i] in again
    requires AreKeys(cs, first) && Sorted(ByLastUsed(), cs) && (forall j :: 0 <= j < |cs| ==> cs[j].key in names) && Total(cs) == IdleWeight(names, first)
    requires gone == Gone(cs, 0, Total(cs), FreeBytes(limits, Total(cs)), limits, again) && AreKeys(gone, first)
    requires |keys| == |gone| && (forall j :: 0 <= j < |keys| ==> keys[j] == gone[j].key && keys[j] in names)
    requires i < |cs| && cs[i].key !in keys
    ensures RightlyKept(Round(keys, Sum(gone)), names, first, again, limits, cs[i].key)
  {
    hide MustGo, StillInactive, Pressed, InUse, Idle, LastUsed, Weight, IdleWeight, FreeBytes, Sum, Total, Gone;
    var c := cs[i];
    assert c !in gone by {
      NotGone(gone, keys, c);
    }
    PressedIsMustGo(c.(lastUsed := LastUsed(again[c.key])), again[c.key], 0, Total(cs), limits);
    if StillInactive(again[c.key]) {
      StaysForAReason(cs, 0, Total(cs), FreeBytes(limits, Total(cs)), limits, again, c);
      PressedIsMustGo(c, first[c.key], 0 + Sum(gone), Total(cs), limits);
      forall j | 0 <= j < |keys|
        ensures LastUsed(first[keys[j]]) <= LastUsed(first[c.key])
      {
        assert gone[j] in gone;
      }
    }
  }
}
