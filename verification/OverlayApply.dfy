/** Applying an overlay to the base worktree: removals, then the shipped files. */
module OverlayApply {
  import opened Bytes
  import opened Sorting
  import opened Overlay

  type Content = seq<byte>

  /** Regular files by path, and the directories that exist. */
  datatype Tree = Tree(files: map<string, Content>, dirs: set<string>)

  datatype Member = Member(path: string, content: Content)

  predicate Covers(deletion: string, p: string) {
    p == deletion || Under(p, deletion)
  }

  /** `rm -r -f`: the path and everything below it, if anything. */
  function RemoveTree(t: Tree, path: string): Tree {
    Tree(map p | p in t.files && !Covers(path, p) :: t.files[p], set d | d in t.dirs && !Covers(path, d))
  }

  function RemoveAll(t: Tree, deletions: seq<string>): Tree
    decreases |deletions|
  {
    if deletions == [] then t else RemoveAll(RemoveTree(t, deletions[0]), deletions[1..])
  }

  function Parents(path: string): set<string> {
    set k | 0 <= k < |path| && path[k] == '/' :: path[..k]
  }

  /** Making the parent directories and writing the file; a file among the parents or a directory in its place stops it. */
  function WriteFile(t: Tree, m: Member): Option<Tree> {
    if m.path in t.dirs || exists d :: d in Parents(m.path) && d in t.files then None
    else Some(Tree(t.files[m.path := m.content], t.dirs + Parents(m.path)))
  }

  function WriteAll(t: Tree, members: seq<Member>): Option<Tree>
    decreases |members|
  {
    if members == [] then Some(t)
    else match WriteFile(t, members[0])
      case None => None
      case Some(next) => WriteAll(next, members[1..])
  }

  /** The worktree on disk. */
  class Worktree {
    var files: map<string, Content>
    var dirs: set<string>

    function State(): Tree
      reads this
    {
      Tree(files, dirs)
    }

    constructor (base: Tree)
      ensures State() == base
    {
      files, dirs := base.files, base.dirs;
    }

    method Remove(path: string)
      modifies this
      ensures State() == RemoveTree(old(State()), path)
    {
      files := map p | p in files && !Covers(path, p) :: files[p];
      dirs := set d | d in dirs && !Covers(path, d);
    }

    method Write(m: Member) returns (ok: bool)
      modifies this
      ensures ok == WriteFile(old(State()), m).Some?
      ensures State() == if ok then WriteFile(old(State()), m).value else old(State())
    {
      ok := !(m.path in dirs || exists d :: d in Parents(m.path) && d in files);
      if ok {
        files := files[m.path := m.content];
        dirs := dirs + Parents(m.path);
      }
    }

    /** Every deletion, then every archive member, in the order given; the first failure ends it. */
    method ApplyGitOverlay(deletions: seq<string>, members: seq<Member>) returns (ok: bool)
      modifies this
      ensures var result := WriteAll(RemoveAll(old(State()), deletions), members);
              ok == result.Some? && (ok ==> State() == result.value)
    {
      for i := 0 to |deletions|
        invariant RemoveAll(State(), deletions[i..]) == RemoveAll(old(State()), deletions)
      {
        assert deletions[i..][1..] == deletions[i + 1..];
        Remove(deletions[i]);
      }
      ghost var cleared := State();
      assert members[0..] == members;
      for i := 0 to |members|
        invariant WriteAll(State(), members[i..]) == WriteAll(cleared, members)
      {
        assert members[i..][1..] == members[i + 1..];
        ok := Write(members[i]);
        if !ok {
          return;
        }
      }
      ok := true;
    }
  }

  /** Capture reads every file of the plan from the working tree; one that is not there fails the capture. */
  function Capture(work: map<string, Content>, files: seq<string>): Option<seq<Member>> {
    if files == [] then Some([])
    else if files[0] !in work then None
    else match Capture(work, files[1..])
      case None => None
      case Some(rest) => Some([Member(files[0], work[files[0]])] + rest)
  }

  /** Capture on one machine and apply on another, the archive listing the plan's files in the order `listed`. */
  function Transfer(base: Tree, plan: Plan, listed: seq<string>, work: map<string, Content>): Option<Tree> {
    match Capture(work, listed)
    case None => None
    case Some(members) => WriteAll(RemoveAll(base, plan.deletions), members)
  }

  // ----- what a status says about the trees -----

  /** The base as checked out, the working tree, and the status, policy and index modes the plan is made from. */
  datatype Situation = Situation(base: Tree, work: map<string, Content>, entries: seq<Entry>, policy: Policy, stageModes: map<string, string>)

  /** Every directory above a file exists. */
  ghost predicate WholeTree(t: Tree) {
    forall p, d :: p in t.files && IsParent(d, p) ==> d in t.dirs
  }

  predicate IsParent(d: string, p: string) {
    d in Parents(p)
  }

  /** An untracked or ignored path. */
  predicate Unindexed(e: Entry, stageModes: map<string, string>) {
    !IsGitlink(e, stageModes) && e.kind != Tracked
  }

  predicate Indexed(e: Entry, stageModes: map<string, string>) {
    !IsGitlink(e, stageModes) && e.kind == Tracked
  }

  predicate IsUnmerged(e: Entry) {
    e.xy == "UU"
  }

  predicate IsRename(e: Entry) {
    HasOrigin(e) && Side(e.xy, 0) != 'C' && Side(e.xy, 1) != 'C'
  }

  function Origin(e: Entry): string
    requires HasOrigin(e)
  {
    NormalizeWirePath(e.origPath.value)
  }

  predicate UnindexedAt(entries: seq<Entry>, p: string, stageModes: map<string, string>) {
    exists i :: 0 <= i < |entries| && Unindexed(entries[i], stageModes) && WirePath(entries[i]) == p
  }

  /** The status has an entry for `p` itself that records a change. */
  predicate ReportedItself(entries: seq<Entry>, p: string, stageModes: map<string, string>) {
    exists i :: 0 <= i < |entries| && WirePath(entries[i]) == p && !IsGitlink(entries[i], stageModes)
                && (entries[i].kind != Tracked || IsInteresting(entries[i]))
  }

  /** `p` was the source of a rename, or stood in a submodule that is gone. */
  predicate ReportedGone(entries: seq<Entry>, p: string, stageModes: map<string, string>) {
    exists i :: 0 <= i < |entries| && GoneWith(entries[i], p, stageModes)
  }

  predicate GoneWith(e: Entry, p: string, stageModes: map<string, string>) {
    if IsGitlink(e, stageModes) then IsDeletion(e) && Covers(WirePath(e), p)
    else e.kind == Tracked && HasOrigin(e) && IsRename(e) && p == Origin(e)
  }

  ghost predicate NoPathUnderAnother(files: map<string, Content>) {
    forall p, d :: p in files && d in files ==> !Under(p, d)
  }

  /** What one entry's letters mean, following the documentation of porcelain format version 2. */
  ghost predicate EntryIsTrue(e: Entry, entries: seq<Entry>, work: map<string, Content>, stageModes: map<string, string>) {
    var p := WirePath(e);
    var x, y := Side(e.xy, 0), Side(e.xy, 1);
    if Unindexed(e, stageModes) then
      p in work
    else if Indexed(e, stageModes) && !IsUnmerged(e) then
      && (y == 'D' ==> p !in work)
      && (x == 'D' && y != 'D' ==> !Meaningful(y) && !HasOrigin(e) && (p in work ==> UnindexedAt(entries, p, stageModes)))
      && (x != 'D' && y != 'D' ==> p in work && !UnindexedAt(entries, p, stageModes))
      && (HasOrigin(e) && IsRename(e) && Origin(e) in work ==> UnindexedAt(entries, Origin(e), stageModes))
    else if Indexed(e, stageModes) then
      !HasOrigin(e) && !UnindexedAt(entries, p, stageModes)
    else
      true
  }

  /** The status describes how the working tree differs from the base, entry by entry and completely. */
  ghost predicate Faithful(s: Situation) {
    var (base, work, entries, stageModes) := (s.base, s.work, s.entries, s.stageModes);
    && WholeTree(base) && NoPathUnderAnother(base.files) && NoPathUnderAnother(work)
    && (forall i :: 0 <= i < |entries| ==> EntryIsTrue(entries[i], entries, work, stageModes))
    && (forall p :: Differs(base.files, work, p) ==> ReportedItself(entries, p, stageModes) || ReportedGone(entries, p, stageModes))
    // a path out of the index that the base still holds is also reported as deleted from the index
    && (forall p :: p in base.files && UnindexedAt(entries, p, stageModes) ==>
          exists d :: Covers(d, p) && Removed(entries, d, stageModes))
    // what the working tree has in the place of something deleted is reported itself
    && (forall p, d :: p in work && Removed(entries, d, stageModes) && Under(p, d) ==> ReportedItself(entries, p, stageModes))
    && (forall i :: 0 <= i < |entries| && IsGitlink(entries[i], stageModes) && IsDeletion(entries[i]) && WirePath(entries[i]) in work ==>
          ReportedItself(entries, WirePath(entries[i]), stageModes))
  }

  predicate Differs(base: map<string, Content>, work: map<string, Content>, p: string) {
    if p in base then p !in work || work[p] != base[p] else p in work
  }

  /** Untracked or ignored, and not taken along by the policy. */
  predicate Withheld(entries: seq<Entry>, p: string, policy: Policy, stageModes: map<string, string>) {
    UnindexedAt(entries, p, stageModes) &&
    !exists i :: 0 <= i < |entries| && Unindexed(entries[i], stageModes) && WirePath(entries[i]) == p && Selected(entries[i], policy)
  }

  /** The working tree without the untracked and ignored files the policy leaves behind. */
  function Wanted(s: Situation): map<string, Content> {
    map p | p in s.work && !Withheld(s.entries, p, s.policy, s.stageModes) :: s.work[p]
  }

  // ----- when the overlay is right -----

  /** Deleted in the worktree with an index change besides (MD, AD, RD), or unmerged and gone: shipped, yet not there to ship. */
  predicate ShipsNothing(e: Entry, work: map<string, Content>, stageModes: map<string, string>) {
    Indexed(e, stageModes) &&
    if IsUnmerged(e) then WirePath(e) !in work
    else Side(e.xy, 1) == 'D' && (HasOrigin(e) || (Meaningful(Side(e.xy, 0)) && Side(e.xy, 0) != 'D'))
  }

  /** A copy whose source is still wanted and has no entry of its own to ship it. */
  predicate LosesItsSource(e: Entry, s: Situation) {
    Indexed(e, s.stageModes) && HasOrigin(e) && !IsRename(e) && Origin(e) in s.work
    && !Shipped(s.entries, Origin(e), s.policy, s.stageModes) && !Withheld(s.entries, Origin(e), s.policy, s.stageModes)
  }

  /** A file to ship stands where the base has a directory that no deletion removes. */
  predicate HitsDirectory(base: Tree, plan: Plan) {
    exists p :: p in plan.files && p in base.dirs && !CoveredBy(plan.deletions, p)
  }

  predicate CoveredBy(deletions: seq<string>, p: string) {
    exists i :: 0 <= i < |deletions| && Covers(deletions[i], p)
  }

  ghost predicate Clean(s: Situation, plan: Plan) {
    && (forall i :: 0 <= i < |s.entries| ==> !ShipsNothing(s.entries[i], s.work, s.stageModes))
    && (forall i :: 0 <= i < |s.entries| ==> !LosesItsSource(s.entries[i], s))
    && !HitsDirectory(s.base, plan)
  }

  // ----- the pieces -----

  lemma {:induction false} RemoveAllDrops(t: Tree, deletions: seq<string>)
    ensures var r := RemoveAll(t, deletions);
            && (forall p :: p in r.files <==> p in t.files && !CoveredBy(deletions, p))
            && (forall p :: p in r.files ==> r.files[p] == t.files[p])
            && (forall d :: d in r.dirs <==> d in t.dirs && !CoveredBy(deletions, d))
    decreases |deletions|
  {
    hide Covers;
    if deletions != [] {
      RemoveAllDrops(RemoveTree(t, deletions[0]), deletions[1..]);
      forall p
        ensures CoveredBy(deletions, p) <==> Covers(deletions[0], p) || CoveredBy(deletions[1..], p)
      {
        CoveredCons(deletions, p);
      }
    }
  }

  lemma CoveredCons(deletions: seq<string>, p: string)
    requires deletions != []
    ensures CoveredBy(deletions, p) <==> Covers(deletions[0], p) || CoveredBy(deletions[1..], p)
  {
    hide Covers;
    if CoveredBy(deletions, p) {
      var i :| 0 <= i < |deletions| && Covers(deletions[i], p);
      assert i > 0 ==> deletions[1..][i - 1] == deletions[i];
    }
    if CoveredBy(deletions[1..], p) {
      var i :| 0 <= i < |deletions[1..]| && Covers(deletions[1..][i], p);
      assert deletions[i + 1] == deletions[1..][i];
    }
  }

  /** Overlaying the working tree's content for the listed paths. */
  ghost predicate Overlays(r: map<string, Content>, under: map<string, Content>, listed: seq<string>, work: map<string, Content>) {
    && (forall p :: p in r <==> p in listed || p in under)
    && (forall p :: p in r && p in listed ==> p in work && r[p] == work[p])
    && (forall p :: p in r && p !in listed ==> p in under && r[p] == under[p])
  }

  lemma ParentIsAbove(d: string, p: string)
    ensures IsParent(d, p) <==> Under(p, d)
  {
    if Under(p, d) {
      assert p[..|d|] == d;
    }
  }

  lemma {:induction false} CaptureNeedsAll(work: map<string, Content>, listed: seq<string>)
    ensures Capture(work, listed).Some? <==> forall p :: p in listed ==> p in work
    decreases |listed|
  {
    if listed != [] {
      CaptureNeedsAll(work, listed[1..]);
      assert forall p :: p in listed <==> p == listed[0] || p in listed[1..];
    }
  }

  /** Whenever every write succeeds, the files are the old ones overlaid. */
  lemma {:induction false} WritesOverlay(t: Tree, listed: seq<string>, work: map<string, Content>)
    requires Capture(work, listed).Some? && Distinct(listed)
    ensures var r := WriteAll(t, Capture(work, listed).value);
            r.Some? ==> Overlays(r.value.files, t.files, listed, work)
    decreases |listed|
  {
    if listed != [] {
      var members := Capture(work, listed).value;
      assert members[1..] == Capture(work, listed[1..]).value;
      assert forall p :: p in listed <==> p == listed[0] || p in listed[1..];
      var next := WriteFile(t, members[0]);
      if next.Some? {
        WritesOverlay(next.value, listed[1..], work);
      }
    }
  }

  /** A directory where a listed file should go stops the writes: directories are never removed once the writes begin. */
  lemma {:induction false} DirectoryStops(t: Tree, members: seq<Member>, k: nat)
    requires k < |members| && members[k].path in t.dirs
    ensures WriteAll(t, members).None?
    decreases |members|
  {
    hide Parents;
    if k > 0 && WriteFile(t, members[0]).Some? {
      DirectoryStops(WriteFile(t, members[0]).value, members[1..], k - 1);
    }
  }

  /** With no directory in the place of a listed path and no file above one, every write succeeds. */
  lemma {:induction false} WritesSucceed(t: Tree, listed: seq<string>, work: map<string, Content>)
    requires Capture(work, listed).Some? && Distinct(listed) && NoPathUnderAnother(work)
    requires forall p, d :: p in listed && IsParent(d, p) ==> d !in t.files
    requires forall p :: p in listed ==> p !in t.dirs
    ensures WriteAll(t, Capture(work, listed).value).Some?
    decreases |listed|
  {
    hide Parents, Under;
    if listed != [] {
      var members := Capture(work, listed).value;
      assert members[1..] == Capture(work, listed[1..]).value;
      assert members[0].path == listed[0];
      assert forall p :: p in listed <==> p == listed[0] || p in listed[1..];
      CaptureNeedsAll(work, listed);
      assert forall d :: d in Parents(listed[0]) ==> IsParent(d, listed[0]);
      var next := WriteFile(t, members[0]);
      forall p | p in listed[1..]
        ensures !IsParent(p, listed[0]) && !IsParent(listed[0], p)
      {
        ParentIsAbove(p, listed[0]);
        ParentIsAbove(listed[0], p);
      }
      WritesSucceed(next.value, listed[1..], work);
    }
  }

  lemma {:induction false} CapturedPaths(work: map<string, Content>, listed: seq<string>)
    requires Capture(work, listed).Some?
    ensures var members := Capture(work, listed).value;
            |members| == |listed| && forall k :: 0 <= k < |listed| ==> members[k].path == listed[k]
    decreases |listed|
  {
    if listed != [] {
      CapturedPaths(work, listed[1..]);
    }
  }
}
