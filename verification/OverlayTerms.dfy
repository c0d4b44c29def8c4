/** The overlay plan and its removals and writes in plain terms: letters, modes, patterns and paths spelled out. */
module OverlayTerms {
  import opened Bytes
  import opened Sorting
  import opened Overlay
  import opened OverlayApply

  // ----- paths -----

  predicate Turned(path: string, t: string) {
    |t| == |path| && forall i :: 0 <= i < |t| ==> t[i] == if path[i] == '\\' then '/' else path[i]
  }

  /** `w` is the path with its backslashes turned, less a leading `./`. */
  ghost predicate OnWire(path: string, w: string) {
    exists t: string :: Turned(path, t) && w == if "./" <= t then t[2..] else t
  }

  lemma {:induction false} SlashesTurned(s: string)
    ensures Turned(s, ForwardSlashes(s))
  {
    if s != "" {
      SlashesTurned(s[1..]);
    }
  }

  lemma TurnedOnce(path: string, a: string, b: string)
    requires Turned(path, a) && Turned(path, b)
    ensures a == b
  {
  }

  lemma WireIsNormalized(path: string, w: string)
    ensures OnWire(path, w) <==> w == NormalizeWirePath(path)
  {
    var p := ForwardSlashes(path);
    SlashesTurned(path);
    assert "./" <= p <==> |p| >= 2 && p[0] == '.' && p[1] == '/';
    if OnWire(path, w) {
      var t: string :| Turned(path, t) && w == if "./" <= t then t[2..] else t;
      TurnedOnce(path, t, p);
    }
  }

  /** Itself, something under a pattern that ends in a slash, or a directory named with a trailing double star and what is in it. */
  ghost predicate Included(w: string, pattern: string) {
    || w == pattern
    || (exists d: string, rest: string :: pattern == d + "/" && w == pattern + rest)
    || (exists d: string :: pattern == d + "/**" && (w == d || exists rest: string :: w == d + "/" + rest))
  }

  lemma IncludedMatches(w: string, pattern: string)
    ensures MatchInclude(w, pattern) <==> Included(w, pattern)
  {
    if EndsWith(pattern, "/") && StartsWith(w, pattern) {
      assert pattern == pattern[..|pattern| - 1] + "/" && w == pattern + w[|pattern|..];
    }
    if EndsWith(pattern, "/**") {
      var d := pattern[..|pattern| - 3];
      assert pattern == d + "/**";
      if Under(w, d) {
        assert w == d + "/" + w[|d| + 1..];
      }
    }
    PatternParts(w, pattern);
  }

  lemma PatternParts(w: string, pattern: string)
    ensures forall d: string, rest: string :: pattern == d + "/" && w == pattern + rest ==> EndsWith(pattern, "/") && StartsWith(w, pattern)
    ensures forall d: string :: pattern == d + "/**" ==> EndsWith(pattern, "/**") && pattern[..|pattern| - 3] == d
    ensures forall d: string, rest: string :: w == d + "/" + rest ==> Under(w, d)
  {
  }

  // ----- entries -----

  function Letter(xy: string, k: nat): char {
    if |xy| > k then xy[k] else ' '
  }

  /** A letter that is a change and not a deletion. */
  predicate ChangedAt(e: Entry, k: nat) {
    Letter(e.xy, k) != ' ' && Letter(e.xy, k) != '.' && Letter(e.xy, k) != 'D'
  }

  predicate DeletedAt(e: Entry, k: nat) {
    Letter(e.xy, k) == 'D'
  }

  /** In the index with mode 160000, or reported as a submodule. */
  ghost predicate IsSubmodule(e: Entry, modes: map<string, string>) {
    || (exists w: string :: OnWire(e.path, w) && w in modes && modes[w] == "160000")
    || (e.submodule.Some? && e.submodule.value != "" && e.submodule.value[0] == 'S')
  }

  predicate Renamed(e: Entry) {
    e.origPath.Some? && |e.origPath.value| > 0
  }

  /** Shipped are selected untracked and ignored paths, renamed and copied ones, and tracked ones with a change other than a deletion. */
  ghost predicate AsksToShip(e: Entry, p: string, policy: Policy, modes: map<string, string>) {
    && OnWire(e.path, p) && !IsSubmodule(e, modes)
    && match e.kind
       case Untracked => policy.includeUntracked
       case Ignored => exists k :: 0 <= k < |policy.includeIgnored| && Included(p, policy.includeIgnored[k])
       case Tracked => Renamed(e) || ChangedAt(e, 0) || ChangedAt(e, 1)
  }

  /** Removed are deleted submodules, what was renamed or copied away, and tracked paths with a deletion and no other change. */
  ghost predicate AsksToRemove(e: Entry, p: string, modes: map<string, string>) {
    if IsSubmodule(e, modes) then OnWire(e.path, p) && (DeletedAt(e, 0) || DeletedAt(e, 1))
    else if e.kind != Tracked then false
    else if Renamed(e) then OnWire(e.origPath.value, p)
    else OnWire(e.path, p) && (DeletedAt(e, 0) || DeletedAt(e, 1)) && !ChangedAt(e, 0) && !ChangedAt(e, 1)
  }

  lemma SubmoduleIsGitlink(e: Entry, modes: map<string, string>)
    ensures IsSubmodule(e, modes) <==> IsGitlink(e, modes)
  {
    hide OnWire, NormalizeWirePath;
    forall w: string
      ensures OnWire(e.path, w) <==> w == WirePath(e)
    {
      WireIsNormalized(e.path, w);
    }
    assert e.submodule.Some? && e.submodule.value != "" ==> (e.submodule.value[..1] == "S" <==> e.submodule.value[0] == 'S');
  }

  lemma ShippingInTerms(e: Entry, p: string, policy: Policy, modes: map<string, string>)
    ensures AsksToShip(e, p, policy, modes) <==> Ships(e, policy, modes) && WirePath(e) == p
  {
    hide OnWire, NormalizeWirePath, IsSubmodule, IsGitlink, Included, MatchInclude;
    WireIsNormalized(e.path, p);
    SubmoduleIsGitlink(e, modes);
    forall pattern
      ensures Included(p, pattern) <==> MatchInclude(p, pattern)
    {
      IncludedMatches(p, pattern);
    }
    if Selected(e, policy) && e.kind == Ignored && WirePath(e) == p {
      var pattern :| pattern in policy.includeIgnored && MatchInclude(p, pattern);
      var k :| 0 <= k < |policy.includeIgnored| && policy.includeIgnored[k] == pattern;
      assert Included(p, policy.includeIgnored[k]);
    }
    if AsksToShip(e, p, policy, modes) && e.kind == Ignored {
      var k :| 0 <= k < |policy.includeIgnored| && Included(p, policy.includeIgnored[k]);
      assert policy.includeIgnored[k] in policy.includeIgnored && MatchInclude(WirePath(e), policy.includeIgnored[k]);
    }
  }

  lemma RemovingInTerms(e: Entry, p: string, modes: map<string, string>)
    ensures AsksToRemove(e, p, modes) <==> Deletes(e, p, modes)
  {
    hide OnWire, NormalizeWirePath, IsSubmodule, IsGitlink;
    WireIsNormalized(e.path, p);
    SubmoduleIsGitlink(e, modes);
    if Renamed(e) {
      WireIsNormalized(e.origPath.value, p);
    }
  }

  // ----- pins -----

  ghost predicate ForPin(e: Entry, path: string, modes: map<string, string>) {
    IsSubmodule(e, modes) && OnWire(e.path, path)
  }

  /** Some entry deletes the submodule, and none behind it, that could pin it again, does not. */
  ghost predicate TakenAway(entries: seq<Entry>, pin: Pin, modes: map<string, string>) {
    exists i :: 0 <= i < |entries| && ForPin(entries[i], pin.path, modes) && (DeletedAt(entries[i], 0) || DeletedAt(entries[i], 1))
      && forall j :: i < j < |entries| && ForPin(entries[j], pin.path, modes) && !DeletedAt(entries[j], 0) && !DeletedAt(entries[j], 1) ==> pin.commit == ""
  }

  lemma TakenAwayGrows(entries: seq<Entry>, e: Entry, pin: Pin, modes: map<string, string>)
    ensures TakenAway(entries + [e], pin, modes) <==>
              if ForPin(e, pin.path, modes) && (DeletedAt(e, 0) || DeletedAt(e, 1)) then true
              else if ForPin(e, pin.path, modes) then pin.commit == "" && TakenAway(entries, pin, modes)
              else TakenAway(entries, pin, modes)
  {
    hide ForPin, DeletedAt;
    var all := entries + [e];
    assert all[|entries|] == e && forall j :: 0 <= j < |entries| ==> all[j] == entries[j];
    if TakenAway(entries, pin, modes) {
      var i :| 0 <= i < |entries| && ForPin(entries[i], pin.path, modes) && (DeletedAt(entries[i], 0) || DeletedAt(entries[i], 1))
        && forall j :: i < j < |entries| && ForPin(entries[j], pin.path, modes) && !DeletedAt(entries[j], 0) && !DeletedAt(entries[j], 1) ==> pin.commit == "";
      assert ForPin(all[i], pin.path, modes) && (DeletedAt(all[i], 0) || DeletedAt(all[i], 1));
    }
    if TakenAway(all, pin, modes) {
      var i :| 0 <= i < |all| && ForPin(all[i], pin.path, modes) && (DeletedAt(all[i], 0) || DeletedAt(all[i], 1))
        && forall j :: i < j < |all| && ForPin(all[j], pin.path, modes) && !DeletedAt(all[j], 0) && !DeletedAt(all[j], 1) ==> pin.commit == "";
      if i < |entries| {
        assert ForPin(entries[i], pin.path, modes) && (DeletedAt(entries[i], 0) || DeletedAt(entries[i], 1));
        forall j | i < j < |entries| && ForPin(entries[j], pin.path, modes) && !DeletedAt(entries[j], 0) && !DeletedAt(entries[j], 1)
          ensures pin.commit == ""
        {
          assert all[j] == entries[j];
        }
      }
    }
  }

  lemma {:induction false} TakenAwayIsUnpinned(entries: seq<Entry>, pin: Pin, modes: map<string, string>)
    ensures TakenAway(entries, pin, modes) <==> Unpinned(entries, pin, modes)
    decreases |entries|
  {
    hide TakenAway, IsSubmodule, IsGitlink, OnWire, NormalizeWirePath;
    if entries == [] {
      NothingTaken(pin, modes);
    } else {
      var before, e := entries[..|entries| - 1], entries[|entries| - 1];
      assert entries == before + [e];
      TakenAwayIsUnpinned(before, pin, modes);
      TakenAwayGrows(before, e, pin, modes);
      SubmoduleIsGitlink(e, modes);
      WireIsNormalized(e.path, pin.path);
    }
  }

  lemma NothingTaken(pin: Pin, modes: map<string, string>)
    ensures !TakenAway([], pin, modes)
  {
  }

  /** How many slashes a path has. */
  function Depth(path: string): nat {
    if |path| == 0 then 0 else Depth(path[..|path| - 1]) + if path[|path| - 1] == '/' then 1 else 0
  }

  lemma {:induction false} SlashesAppend(a: string, b: string)
    ensures Slashes(a + b) == Slashes(a) + Slashes(b)
    decreases |a|
  {
    if a == "" {
      assert a + b == b;
    } else {
      AppendTail(a, b);
      SlashesAppend(a[1..], b);
    }
  }

  lemma {:induction false} DepthIsSlashes(path: string)
    ensures Depth(path) == Slashes(path)
    decreases |path|
  {
    if path != "" {
      var before, last := path[..|path| - 1], path[|path| - 1..];
      DepthIsSlashes(before);
      assert path == before + last && last[1..] == "";
      SlashesAppend(before, last);
    }
  }

  // ----- the plan -----

  /** What a plan lists, and in which order, whatever the entries say. */
  lemma PlanInTerms(plan: Plan, entries: seq<Entry>, policy: Policy, modes: map<string, string>, commits: seq<Pin>,
                    order: (string, string) -> bool, locale: (string, string) -> bool)
    requires IsPlan(plan, entries, policy, modes, commits, order, locale)
    ensures forall p :: p in plan.files <==> exists i :: 0 <= i < |entries| && AsksToShip(entries[i], p, policy, modes)
    ensures forall p :: p in plan.deletions <==>
              (exists i :: 0 <= i < |entries| && AsksToRemove(entries[i], p, modes)) && p !in plan.files
    ensures forall pin :: pin in plan.gitlinks <==> pin in commits && !TakenAway(entries, pin, modes) && pin.path !in plan.deletions
    ensures forall i, j :: 0 <= i < j < |plan.files| ==> plan.files[i] != plan.files[j] && order(plan.files[i], plan.files[j])
    ensures forall i, j :: 0 <= i < j < |plan.deletions| ==> plan.deletions[i] != plan.deletions[j] && order(plan.deletions[i], plan.deletions[j])
    ensures forall i, j :: 0 <= i < j < |plan.gitlinks| ==>
              var a, b := plan.gitlinks[i].path, plan.gitlinks[j].path;
              a != b && (Depth(a) < Depth(b) || (Depth(a) == Depth(b) && locale(a, b)))
  {
    hide AsksToShip, AsksToRemove, Ships, Deletes, TakenAway, Unpinned, Depth, Slashes, WirePath;
    forall p
      ensures Shipped(entries, p, policy, modes) <==> exists i :: 0 <= i < |entries| && AsksToShip(entries[i], p, policy, modes)
      ensures Removed(entries, p, modes) <==> exists i :: 0 <= i < |entries| && AsksToRemove(entries[i], p, modes)
    {
      forall i | 0 <= i < |entries|
        ensures AsksToShip(entries[i], p, policy, modes) <==> Ships(entries[i], policy, modes) && WirePath(entries[i]) == p
        ensures AsksToRemove(entries[i], p, modes) <==> Deletes(entries[i], p, modes)
      {
        ShippingInTerms(entries[i], p, policy, modes);
        RemovingInTerms(entries[i], p, modes);
      }
    }
    forall pin
      ensures TakenAway(entries, pin, modes) <==> Unpinned(entries, pin, modes)
    {
      TakenAwayIsUnpinned(entries, pin, modes);
    }
    forall i, j | 0 <= i < j < |plan.gitlinks|
      ensures var a, b := plan.gitlinks[i].path, plan.gitlinks[j].path;
              a != b && (Depth(a) < Depth(b) || (Depth(a) == Depth(b) && locale(a, b)))
    {
      SortedAt(ByDepth(locale), plan.gitlinks, i, j);
      DepthIsSlashes(plan.gitlinks[i].path);
      DepthIsSlashes(plan.gitlinks[j].path);
    }
  }

  // ----- the worktree -----

  /** `p` is in the directory `d`, at any depth. */
  ghost predicate Within(p: string, d: string) {
    exists rest: string :: p == d + "/" + rest
  }

  lemma WithinIsUnder(p: string, d: string)
    ensures Within(p, d) <==> Under(p, d)
    ensures Within(p, d) <==> d in Parents(p)
  {
    if Under(p, d) {
      assert p == d + "/" + p[|d| + 1..];
    }
    ParentIsAbove(d, p);
  }

  /** A removal takes the path and all that is within it, and leaves the rest as it was. */
  lemma RemovalTakesTheSubtree(t: Tree, path: string)
    ensures var r := RemoveTree(t, path);
            && (forall p :: p in r.files <==> p in t.files && p != path && !Within(p, path))
            && (forall p :: p in r.files ==> r.files[p] == t.files[p])
            && (forall d :: d in r.dirs <==> d in t.dirs && d != path && !Within(d, path))
  {
    hide Within, Under;
    forall p
      ensures Within(p, path) <==> Under(p, path)
    {
      WithinIsUnder(p, path);
    }
  }

  /** A write succeeds exactly when no directory stands at the path and no file above it; then the file is there, and every directory above. */
  lemma WriteNeedsItsPlace(t: Tree, m: Member)
    ensures var r := WriteFile(t, m);
            && (r.Some? <==> m.path !in t.dirs && forall d :: d in t.files ==> !Within(m.path, d))
            && (r.Some? ==> r.value.files == t.files[m.path := m.content] && forall d :: d in r.value.dirs <==> d in t.dirs || Within(m.path, d))
  {
    hide Within, Parents;
    forall d
      ensures Within(m.path, d) <==> d in Parents(m.path)
    {
      WithinIsUnder(m.path, d);
    }
  }
}
