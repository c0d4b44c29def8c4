/** The overlay plan: what to ship, what to remove, what to pin. */
module Overlay {
  import opened Bytes
  import opened Sorting

  datatype Kind = Tracked | Untracked | Ignored

  /** One porcelain entry; `xy` is its index and worktree status. */
  datatype Entry = Entry(path: string, origPath: Option<string>, xy: string, kind: Kind, submodule: Option<string>)

  datatype Policy = Policy(includeUntracked: bool, includeIgnored: seq<string>)

  datatype Pin = Pin(path: string, commit: string)

  datatype Plan = Plan(files: seq<string>, deletions: seq<string>, gitlinks: seq<Pin>)

  // ----- paths -----

  function ForwardSlashes(s: string): (r: string)
    ensures |r| == |s|
  {
    if s == "" then "" else [if s[0] == '\\' then '/' else s[0]] + ForwardSlashes(s[1..])
  }

  /** `normalizeWirePath`: backslashes become slashes, and one leading `./` goes. */
  function NormalizeWirePath(path: string): string {
    var p := ForwardSlashes(path);
    if |p| >= 2 && p[0] == '.' && p[1] == '/' then p[2..] else p
  }

  predicate StartsWith(s: string, prefix: string) {
    |prefix| <= |s| && s[..|prefix|] == prefix
  }

  predicate EndsWith(s: string, suffix: string) {
    |suffix| <= |s| && s[|s| - |suffix|..] == suffix
  }

  /** `p` lies strictly below the directory `d`. */
  predicate Under(p: string, d: string) {
    |d| < |p| && p[..|d|] == d && p[|d|] == '/'
  }

  function MatchInclude(path: string, pattern: string): bool {
    if pattern == path then true
    else if EndsWith(pattern, "/") && StartsWith(path, pattern) then true
    else if EndsWith(pattern, "/**") then
      var prefix := pattern[..|pattern| - 3];
      path == prefix || Under(path, prefix)
    else false
  }

  function Slashes(path: string): nat {
    if path == "" then 0 else (if path[0] == '/' then 1 else 0) + Slashes(path[1..])
  }

  // ----- one entry -----

  function Side(xy: string, k: nat): char {
    if k < |xy| then xy[k] else ' '
  }

  predicate Meaningful(c: char) {
    c != ' ' && c != '.'
  }

  predicate IsDeletion(e: Entry) {
    Side(e.xy, 0) == 'D' || Side(e.xy, 1) == 'D'
  }

  predicate IsInteresting(e: Entry) {
    Meaningful(Side(e.xy, 0)) || Meaningful(Side(e.xy, 1))
  }

  function WirePath(e: Entry): string {
    NormalizeWirePath(e.path)
  }

  predicate HasOrigin(e: Entry) {
    e.origPath.Some? && e.origPath.value != ""
  }

  predicate IsGitlink(e: Entry, stageModes: map<string, string>) {
    || (WirePath(e) in stageModes && stageModes[WirePath(e)] == "160000")
    || (e.submodule.Some? && StartsWith(e.submodule.value, "S"))
  }

  /** A deletion on one side and another change on the other. */
  predicate DeletionAndMore(e: Entry) {
    IsDeletion(e) &&
    var other := if Side(e.xy, 0) == 'D' then Side(e.xy, 1) else Side(e.xy, 0);
    Meaningful(other) && other != 'D'
  }

  /** The policy takes this untracked or ignored path along. */
  predicate Selected(e: Entry, policy: Policy) {
    match e.kind
    case Tracked => false
    case Untracked => policy.includeUntracked
    case Ignored => exists pattern :: pattern in policy.includeIgnored && MatchInclude(WirePath(e), pattern)
  }

  /** The entry puts its path among the files to ship. */
  predicate Ships(e: Entry, policy: Policy, stageModes: map<string, string>) {
    !IsGitlink(e, stageModes) &&
    if e.kind != Tracked then Selected(e, policy)
    else HasOrigin(e) || (if IsDeletion(e) then DeletionAndMore(e) else IsInteresting(e))
  }

  /** The entry asks for `path` to be removed from the base. */
  predicate Deletes(e: Entry, path: string, stageModes: map<string, string>) {
    if IsGitlink(e, stageModes) then IsDeletion(e) && path == WirePath(e)
    else e.kind == Tracked &&
         if HasOrigin(e) then path == NormalizeWirePath(e.origPath.value)
         else IsDeletion(e) && !DeletionAndMore(e) && path == WirePath(e)
  }

  predicate Shipped(entries: seq<Entry>, path: string, policy: Policy, stageModes: map<string, string>) {
    exists i :: 0 <= i < |entries| && Ships(entries[i], policy, stageModes) && WirePath(entries[i]) == path
  }

  predicate Removed(entries: seq<Entry>, path: string, stageModes: map<string, string>) {
    exists i :: 0 <= i < |entries| && Deletes(entries[i], path, stageModes)
  }

  /** The last entry to touch this pin took it away. */
  predicate Unpinned(entries: seq<Entry>, pin: Pin, stageModes: map<string, string>) {
    if entries == [] then false
    else
      var e := entries[|entries| - 1];
      var before := Unpinned(entries[..|entries| - 1], pin, stageModes);
      if IsGitlink(e, stageModes) && WirePath(e) == pin.path
      then IsDeletion(e) || (pin.commit == "" && before)
      else before
  }

  // ----- sets and maps in insertion order -----

  /** Set.add. */
  function Add(s: seq<string>, x: string): (r: seq<string>)
    requires Distinct(s)
    ensures Distinct(r) && forall y :: y in r <==> y in s || y == x
  {
    if x in s then s else s + [x]
  }

  /** Set.delete. */
  function Discard(s: seq<string>, x: string): (r: seq<string>)
    requires Distinct(s)
    ensures Distinct(r) && forall y :: y in r <==> y in s && y != x
  {
    if s == [] then []
    else
      var rest := Discard(s[1..], x);
      assert s == [s[0]] + s[1..];
      assert s[0] !in s[1..];
      if s[0] == x then rest else [s[0]] + rest
  }

  predicate DistinctPaths(pins: seq<Pin>) {
    forall i, j :: 0 <= i < j < |pins| ==> pins[i].path != pins[j].path
  }

  /** Map.delete. */
  function DropPin(pins: seq<Pin>, path: string): (r: seq<Pin>)
    requires DistinctPaths(pins)
    ensures DistinctPaths(r) && forall pin :: pin in r <==> pin in pins && pin.path != path
  {
    if pins == [] then []
    else
      var rest := DropPin(pins[1..], path);
      assert forall pin :: pin in pins <==> pin == pins[0] || pin in pins[1..];
      if pins[0].path == path then rest else [pins[0]] + rest
  }

  /** Map.set: an existing key keeps its place. */
  function SetPin(pins: seq<Pin>, pin: Pin): (r: seq<Pin>)
    requires DistinctPaths(pins)
    ensures DistinctPaths(r) && forall q :: q in r <==> q == pin || (q in pins && q.path != pin.path)
  {
    if pins == [] then [pin]
    else
      assert forall q :: q in pins <==> q == pins[0] || q in pins[1..];
      if pins[0].path == pin.path then [pin] + pins[1..]
      else [pins[0]] + SetPin(pins[1..], pin)
  }

  function FindPin(pins: seq<Pin>, path: string): (r: Option<Pin>)
    ensures r.Some? ==> r.value in pins && r.value.path == path
    ensures r.None? ==> forall pin :: pin in pins ==> pin.path != path
  {
    if pins == [] then None
    else if pins[0].path == path then Some(pins[0])
    else FindPin(pins[1..], path)
  }

  // ----- orders -----

  ghost predicate TotalOrder(leq: (string, string) -> bool) {
    TotalPreorder(leq) && forall a, b :: leq(a, b) && leq(b, a) ==> a == b
  }

  /** Shallower pins first, then by the locale's order of paths. */
  function ByDepth(locale: (string, string) -> bool): (Pin, Pin) -> bool {
    (a: Pin, b: Pin) =>
      if Slashes(a.path) != Slashes(b.path) then Slashes(a.path) < Slashes(b.path) else locale(a.path, b.path)
  }

  lemma ByDepthIsTotal(locale: (string, string) -> bool)
    requires TotalPreorder(locale)
    ensures TotalPreorder(ByDepth(locale))
  {
    hide Slashes;
    forall a: Pin, b: Pin
      ensures ByDepth(locale)(a, b) || ByDepth(locale)(b, a)
    {
      assert locale(a.path, b.path) || locale(b.path, a.path);
    }
    forall a: Pin, b: Pin, c: Pin | ByDepth(locale)(a, b) && ByDepth(locale)(b, c)
      ensures ByDepth(locale)(a, c)
    {
      assert locale(a.path, b.path) && locale(b.path, c.path) ==> locale(a.path, c.path);
    }
  }

  /** A duplicate-free listing of exactly the paths that satisfy `member`, in order. */
  ghost predicate Lists(s: seq<string>, member: string -> bool, order: (string, string) -> bool) {
    Distinct(s) && Sorted(order, s) && forall p :: p in s <==> member(p)
  }

  /** The plan in terms of the entries alone. */
  ghost predicate IsPlan(plan: Plan, entries: seq<Entry>, policy: Policy, stageModes: map<string, string>, commits: seq<Pin>,
                         order: (string, string) -> bool, locale: (string, string) -> bool)
  {
    && Lists(plan.files, p => Shipped(entries, p, policy, stageModes), order)
    && Lists(plan.deletions, p => Removed(entries, p, stageModes) && !Shipped(entries, p, policy, stageModes), order)
    && (forall pin :: pin in plan.gitlinks <==>
          pin in commits && !Unpinned(entries, pin, stageModes) && pin.path !in plan.deletions)
    && DistinctPaths(plan.gitlinks) && Sorted(ByDepth(locale), plan.gitlinks)
  }

  /** Sets and the pin map after the first `entries`; a path in both sets is settled at the end. */
  ghost predicate SoFar(files: seq<string>, deletions: seq<string>, pins: seq<Pin>, entries: seq<Entry>, policy: Policy,
                        stageModes: map<string, string>, commits: seq<Pin>)
  {
    && Distinct(files) && Distinct(deletions) && DistinctPaths(pins)
    && (forall p :: p in files <==> Shipped(entries, p, policy, stageModes))
    && (forall p :: p in deletions ==> Removed(entries, p, stageModes))
    && (forall p :: Removed(entries, p, stageModes) ==> p in deletions || p in files)
    && (forall pin :: pin in pins <==> pin in commits && !Unpinned(entries, pin, stageModes))
  }

  lemma OneMoreEntry(entries: seq<Entry>, e: Entry, policy: Policy, stageModes: map<string, string>)
    ensures forall p :: Shipped(entries + [e], p, policy, stageModes) <==>
              Shipped(entries, p, policy, stageModes) || (Ships(e, policy, stageModes) && WirePath(e) == p)
    ensures forall p :: Removed(entries + [e], p, stageModes) <==> Removed(entries, p, stageModes) || Deletes(e, p, stageModes)
    ensures forall pin :: Unpinned(entries + [e], pin, stageModes) <==>
              if IsGitlink(e, stageModes) && WirePath(e) == pin.path
              then IsDeletion(e) || (pin.commit == "" && Unpinned(entries, pin, stageModes))
              else Unpinned(entries, pin, stageModes)
  {
    hide Ships, Deletes, IsGitlink, IsDeletion, WirePath;
    var all := entries + [e];
    assert all[|all| - 1] == e && all[..|all| - 1] == entries;
    forall p
      ensures Shipped(all, p, policy, stageModes) <==>
                Shipped(entries, p, policy, stageModes) || (Ships(e, policy, stageModes) && WirePath(e) == p)
    {
      if Shipped(entries, p, policy, stageModes) {
        var i :| 0 <= i < |entries| && Ships(entries[i], policy, stageModes) && WirePath(entries[i]) == p;
        assert all[i] == entries[i];
      }
    }
    forall p
      ensures Removed(all, p, stageModes) <==> Removed(entries, p, stageModes) || Deletes(e, p, stageModes)
    {
      if Removed(entries, p, stageModes) {
        var i :| 0 <= i < |entries| && Deletes(entries[i], p, stageModes);
        assert all[i] == entries[i];
      }
    }
  }

  /** One round of the loop over the entries. */
  method TakeEntry(e: Entry, policy: Policy, stageModes: map<string, string>, commits: seq<Pin>,
                   files0: seq<string>, deletions0: seq<string>, pins0: seq<Pin>, ghost before: seq<Entry>)
    returns (files: seq<string>, deletions: seq<string>, pins: seq<Pin>)
    requires DistinctPaths(commits) && SoFar(files0, deletions0, pins0, before, policy, stageModes, commits)
    ensures SoFar(files, deletions, pins, before + [e], policy, stageModes, commits)
  {
    hide Unpinned, Shipped, Removed, NormalizeWirePath, MatchInclude, Discard, Add, DropPin, SetPin, FindPin;
    files, deletions, pins := files0, deletions0, pins0;
    OneMoreEntry(before, e, policy, stageModes);
    var path := NormalizeWirePath(e.path);
    if IsGitlink(e, stageModes) {
      if IsDeletion(e) {
        deletions := Add(deletions, path);
        pins := DropPin(pins, path);
      } else {
        var found := FindPin(commits, path);
        if found.Some? && found.value.commit != "" {
          OnlyPin(commits, found.value);
          pins := SetPin(pins, Pin(path, found.value.commit));
        }
      }
      return;
    }
    if e.kind == Untracked {
      if policy.includeUntracked {
        files := Add(files, path);
      }
      return;
    }
    if e.kind == Ignored {
      if exists pattern :: pattern in policy.includeIgnored && MatchInclude(path, pattern) {
        files := Add(files, path);
      }
      return;
    }
    if HasOrigin(e) {
      deletions := Add(deletions, NormalizeWirePath(e.origPath.value));
      files := Add(files, path);
      return;
    }
    if IsDeletion(e) {
      deletions := Add(deletions, path);
      var x, y := Side(e.xy, 0), Side(e.xy, 1);
      var other := if x == 'D' then y else x;
      if other != ' ' && other != '.' && other != 'D' {
        files := Add(files, path);
        deletions := Discard(deletions, path);
      }
      return;
    }
    if IsInteresting(e) {
      files := Add(files, path);
    }
  }

  lemma OnlyPin(commits: seq<Pin>, pin: Pin)
    requires DistinctPaths(commits) && pin in commits
    ensures forall q :: q in commits && q.path == pin.path ==> q == pin
  {
  }

  method ComputeOverlayPlan(entries: seq<Entry>, policy: Policy, stageModes: map<string, string>, commits: seq<Pin>,
                            order: (string, string) -> bool, locale: (string, string) -> bool)
    returns (plan: Plan)
    requires DistinctPaths(commits) && TotalOrder(order) && TotalPreorder(locale)
    ensures IsPlan(plan, entries, policy, stageModes, commits, order, locale)
  {
    hide Shipped, Removed, Unpinned, Sort, Sorted, Add, Discard, DropPin, TotalPreorder, ByDepth, Distinct, DistinctPaths;
    var files: seq<string>, deletions: seq<string> := [], [];
    var pins: seq<Pin> := commits;
    NothingYet(policy, stageModes, commits);
    for i := 0 to |entries|
      invariant SoFar(files, deletions, pins, entries[..i], policy, stageModes, commits)
    {
      assert entries[..i] + [entries[i]] == entries[..i + 1];
      files, deletions, pins := TakeEntry(entries[i], policy, stageModes, commits, files, deletions, pins, entries[..i]);
    }
    assert entries[..|entries|] == entries;
    deletions := RemoveAllPaths(deletions, files);
    pins := DropAllPins(pins, deletions);
    ByDepthIsTotal(locale);
    Settle(files, order);
    Settle(deletions, order);
    SettlePins(pins, ByDepth(locale));
    plan := Plan(Sort(order, files), Sort(order, deletions), Sort(ByDepth(locale), pins));
  }

  lemma NothingYet(policy: Policy, stageModes: map<string, string>, commits: seq<Pin>)
    requires DistinctPaths(commits)
    ensures SoFar([], [], commits, [], policy, stageModes, commits)
  {
  }

  /** The first closing loop: a path cannot be both deleted and shipped. */
  method RemoveAllPaths(deletions: seq<string>, files: seq<string>) returns (left: seq<string>)
    requires Distinct(deletions)
    ensures Distinct(left) && forall p :: p in left <==> p in deletions && p !in files
  {
    left := deletions;
    for i := 0 to |files|
      invariant Distinct(left)
      invariant forall p :: p in left <==> p in deletions && p !in files[..i]
    {
      left := Discard(left, files[i]);
    }
  }

  /** The second closing loop: no pin survives on a deleted path. */
  method DropAllPins(pins: seq<Pin>, deletions: seq<string>) returns (left: seq<Pin>)
    requires DistinctPaths(pins)
    ensures DistinctPaths(left) && forall pin :: pin in left <==> pin in pins && pin.path !in deletions
  {
    left := pins;
    for i := 0 to |deletions|
      invariant DistinctPaths(left)
      invariant forall pin :: pin in left <==> pin in pins && pin.path !in deletions[..i]
    {
      left := DropPin(left, deletions[i]);
    }
  }

  lemma Settle(s: seq<string>, order: (string, string) -> bool)
    requires Distinct(s) && TotalPreorder(order)
    ensures Distinct(Sort(order, s)) && Sorted(order, Sort(order, s)) && forall p :: p in Sort(order, s) <==> p in s
  {
    hide TotalPreorder, Sorted, Sort;
    SortSorts(order, s);
    SortMembers(order, s);
    SortPermutes(order, s);
    StaysDistinct(s, Sort(order, s));
  }

  lemma SettlePins(pins: seq<Pin>, order: (Pin, Pin) -> bool)
    requires DistinctPaths(pins) && TotalPreorder(order)
    ensures DistinctPaths(Sort(order, pins)) && Sorted(order, Sort(order, pins)) && forall p :: p in Sort(order, pins) <==> p in pins
  {
    hide TotalPreorder, Sorted, Sort;
    SortSorts(order, pins);
    SortMembers(order, pins);
    SortPermutes(order, pins);
    StaysDistinct(pins, Sort(order, pins));
    var sorted := Sort(order, pins);
    forall i, j | 0 <= i < j < |sorted|
      ensures sorted[i].path != sorted[j].path
    {
      assert sorted[i] in pins && sorted[j] in pins && sorted[i] != sorted[j];
    }
  }

  // ----- consequences -----

  lemma {:induction false} UnderIsDeeper(p: string, d: string)
    requires Under(p, d)
    ensures Slashes(p) > Slashes(d)
    decreases |d|
  {
    if d == "" {
      assert p[0] == '/';
    } else {
      assert p[1..][..|d[1..]|] == d[1..];
      UnderIsDeeper(p[1..], d[1..]);
    }
  }

  /** A submodule's pin comes before the pins of the submodules inside it, and no pinned path is deleted or listed twice. */
  lemma ParentPinsFirst(plan: Plan, entries: seq<Entry>, policy: Policy, stageModes: map<string, string>, commits: seq<Pin>,
                        order: (string, string) -> bool, locale: (string, string) -> bool, i: nat, j: nat)
    requires IsPlan(plan, entries, policy, stageModes, commits, order, locale)
    requires i < |plan.gitlinks| && j < |plan.gitlinks| && Under(plan.gitlinks[j].path, plan.gitlinks[i].path)
    ensures i < j
    ensures plan.gitlinks[i].path !in plan.deletions && plan.gitlinks[j].path !in plan.deletions
  {
    UnderIsDeeper(plan.gitlinks[j].path, plan.gitlinks[i].path);
    assert plan.gitlinks[i] in plan.gitlinks && plan.gitlinks[j] in plan.gitlinks;
    SortedAt(ByDepth(locale), plan.gitlinks, j, i);
  }

  /** The plan is one value: the entries' meaning leaves the file and deletion lists no freedom, and they share no path. */
  lemma PlanIsDetermined(a: Plan, b: Plan, entries: seq<Entry>, policy: Policy, stageModes: map<string, string>, commits: seq<Pin>,
                         order: (string, string) -> bool, locale: (string, string) -> bool)
    requires TotalOrder(order) && TotalOrder(locale)
    requires IsPlan(a, entries, policy, stageModes, commits, order, locale) && IsPlan(b, entries, policy, stageModes, commits, order, locale)
    ensures a == b
    ensures forall p :: !(p in a.files && p in a.deletions)
  {
    hide Shipped, Removed, Unpinned, Slashes;
    SameListing(order, a.files, b.files);
    SameListing(order, a.deletions, b.deletions);
    ByDepthIsTotal(locale);
    SamePins(locale, a.gitlinks, b.gitlinks);
  }

  lemma SameListing(order: (string, string) -> bool, a: seq<string>, b: seq<string>)
    requires TotalOrder(order) && Distinct(a) && Distinct(b) && Sorted(order, a) && Sorted(order, b)
    requires forall p :: p in a <==> p in b
    ensures a == b
  {
    hide TotalPreorder, Sorted;
    SameMultiset(a, b);
    SortedIsUnique(order, a, b);
  }

  lemma SamePins(locale: (string, string) -> bool, a: seq<Pin>, b: seq<Pin>)
    requires TotalOrder(locale) && TotalPreorder(ByDepth(locale))
    requires DistinctPaths(a) && DistinctPaths(b) && Sorted(ByDepth(locale), a) && Sorted(ByDepth(locale), b)
    requires forall p :: p in a <==> p in b
    ensures a == b
  {
    hide TotalPreorder, Sorted, Slashes;
    SameMultiset(a, b);
    SortedIsUnique(ByDepth(locale), a, b);
  }
}
