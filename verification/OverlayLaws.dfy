/** When an overlay gives the working tree: exactly for clean statuses. */
module OverlayLaws {
  import opened Bytes
  import opened Sorting
  import opened Overlay
  import opened OverlayApply

  // ----- what each entry does to its path -----

  lemma SelectedIsShipped(s: Situation, p: string)
    requires UnindexedAt(s.entries, p, s.stageModes) && !Withheld(s.entries, p, s.policy, s.stageModes)
    ensures Shipped(s.entries, p, s.policy, s.stageModes)
  {
    hide Selected, IsGitlink, WirePath;
    var i :| 0 <= i < |s.entries| && Unindexed(s.entries[i], s.stageModes) && WirePath(s.entries[i]) == p && Selected(s.entries[i], s.policy);
    assert Ships(s.entries[i], s.policy, s.stageModes);
  }

  lemma OwnEntryShips(s: Situation, p: string)
    requires Faithful(s) && ReportedItself(s.entries, p, s.stageModes) && p in s.work
    requires !Withheld(s.entries, p, s.policy, s.stageModes)
    ensures Shipped(s.entries, p, s.policy, s.stageModes)
  {
    hide Selected, IsGitlink, WirePath, Withheld, NoPathUnderAnother, Under, Removed;
    var i :| 0 <= i < |s.entries| && WirePath(s.entries[i]) == p && !IsGitlink(s.entries[i], s.stageModes)
             && (s.entries[i].kind != Tracked || IsInteresting(s.entries[i]));
    assert EntryIsTrue(s.entries[i], s.entries, s.work, s.stageModes);
    if UnindexedAt(s.entries, p, s.stageModes) {
      SelectedIsShipped(s, p);
    } else {
      assert !Unindexed(s.entries[i], s.stageModes);
      assert Ships(s.entries[i], s.policy, s.stageModes);
    }
  }

  lemma OwnEntryRemoves(s: Situation, p: string)
    requires Faithful(s) && ReportedItself(s.entries, p, s.stageModes) && p !in s.work
    ensures Shipped(s.entries, p, s.policy, s.stageModes) || Removed(s.entries, p, s.stageModes)
  {
    hide Selected, IsGitlink, WirePath, Withheld, NoPathUnderAnother, Under;
    var i :| 0 <= i < |s.entries| && WirePath(s.entries[i]) == p && !IsGitlink(s.entries[i], s.stageModes)
             && (s.entries[i].kind != Tracked || IsInteresting(s.entries[i]));
    assert EntryIsTrue(s.entries[i], s.entries, s.work, s.stageModes);
    assert Ships(s.entries[i], s.policy, s.stageModes) || Deletes(s.entries[i], p, s.stageModes);
  }

  lemma GoneIsRemoved(s: Situation, p: string)
    requires ReportedGone(s.entries, p, s.stageModes)
    ensures exists d :: Covers(d, p) && Removed(s.entries, d, s.stageModes)
  {
    hide IsGitlink, WirePath, Under, NormalizeWirePath;
    var i :| 0 <= i < |s.entries| && GoneWith(s.entries[i], p, s.stageModes);
    var d := if IsGitlink(s.entries[i], s.stageModes) then WirePath(s.entries[i]) else p;
    assert Deletes(s.entries[i], d, s.stageModes);
    assert Covers(d, p) && Removed(s.entries, d, s.stageModes);
  }

  /** A wanted path named for removal is shipped too, unless a copy loses its source. */
  lemma RemovedButWanted(s: Situation, d: string, p: string)
    requires Faithful(s) && p in s.work && Covers(d, p) && Removed(s.entries, d, s.stageModes)
    requires !Withheld(s.entries, p, s.policy, s.stageModes)
    requires forall i :: 0 <= i < |s.entries| ==> !LosesItsSource(s.entries[i], s)
    ensures Shipped(s.entries, p, s.policy, s.stageModes)
  {
    hide Selected, IsGitlink, WirePath, Withheld, NoPathUnderAnother, Under, NormalizeWirePath, Shipped, ReportedItself, UnindexedAt;
    if d != p {
      OwnEntryShips(s, p);
    } else {
      var i :| 0 <= i < |s.entries| && Deletes(s.entries[i], p, s.stageModes);
      assert EntryIsTrue(s.entries[i], s.entries, s.work, s.stageModes);
      assert !LosesItsSource(s.entries[i], s);
      if IsGitlink(s.entries[i], s.stageModes) {
        OwnEntryShips(s, p);
      } else if UnindexedAt(s.entries, p, s.stageModes) {
        SelectedIsShipped(s, p);
      }
    }
  }

  lemma ShippedIsThere(s: Situation, p: string)
    requires Faithful(s) && Shipped(s.entries, p, s.policy, s.stageModes)
    requires forall i :: 0 <= i < |s.entries| ==> !ShipsNothing(s.entries[i], s.work, s.stageModes)
    ensures p in s.work
  {
    hide Selected, IsGitlink, WirePath, NoPathUnderAnother, Under, Removed, ReportedItself, ReportedGone, UnindexedAt, NormalizeWirePath;
    var i :| 0 <= i < |s.entries| && Ships(s.entries[i], s.policy, s.stageModes) && WirePath(s.entries[i]) == p;
    assert EntryIsTrue(s.entries[i], s.entries, s.work, s.stageModes);
    assert !ShipsNothing(s.entries[i], s.work, s.stageModes);
  }

  lemma ShippedIsWanted(s: Situation, p: string)
    requires Faithful(s) && Shipped(s.entries, p, s.policy, s.stageModes)
    ensures !Withheld(s.entries, p, s.policy, s.stageModes)
  {
    hide Selected, IsGitlink, WirePath, NoPathUnderAnother, Under, Removed, ReportedItself, ReportedGone, NormalizeWirePath;
    var i :| 0 <= i < |s.entries| && Ships(s.entries[i], s.policy, s.stageModes) && WirePath(s.entries[i]) == p;
    assert EntryIsTrue(s.entries[i], s.entries, s.work, s.stageModes);
    if UnindexedAt(s.entries, p, s.stageModes) {
      var j :| 0 <= j < |s.entries| && Unindexed(s.entries[j], s.stageModes) && WirePath(s.entries[j]) == p;
      assert EntryIsTrue(s.entries[j], s.entries, s.work, s.stageModes);
      assert Unindexed(s.entries[i], s.stageModes);
    }
  }

  lemma ShipsNothingShips(s: Situation, i: nat)
    requires Faithful(s) && i < |s.entries| && ShipsNothing(s.entries[i], s.work, s.stageModes)
    ensures Shipped(s.entries, WirePath(s.entries[i]), s.policy, s.stageModes) && WirePath(s.entries[i]) !in s.work
  {
    hide Selected, IsGitlink, WirePath, NoPathUnderAnother, Under, Removed, ReportedItself, ReportedGone, UnindexedAt, NormalizeWirePath;
    assert EntryIsTrue(s.entries[i], s.entries, s.work, s.stageModes);
    assert Ships(s.entries[i], s.policy, s.stageModes);
  }

  // ----- the plan against the trees -----

  ghost predicate Planned(plan: Plan, s: Situation) {
    && (forall p :: p in plan.files <==> Shipped(s.entries, p, s.policy, s.stageModes))
    && (forall p :: p in plan.deletions <==> Removed(s.entries, p, s.stageModes) && !Shipped(s.entries, p, s.policy, s.stageModes))
  }

  lemma UnderTrans(a: string, b: string, c: string)
    requires Under(a, b) && Covers(c, b)
    ensures Covers(c, a)
  {
    if c != b {
      assert a[..|b|][..|c|] == a[..|c|];
    }
  }

  lemma DeletedIsCovered(plan: Plan, d: string, p: string)
    requires d in plan.deletions && Covers(d, p)
    ensures CoveredBy(plan.deletions, p)
  {
  }

  /** A base path below something named for removal goes, or is itself shipped. */
  lemma RemovalReaches(s: Situation, plan: Plan, d: string, p: string)
    requires Planned(plan, s) && WholeTree(s.base) && !HitsDirectory(s.base, plan)
    requires Covers(d, p) && Removed(s.entries, d, s.stageModes) && p in s.base.files
    ensures CoveredBy(plan.deletions, p) || Shipped(s.entries, p, s.policy, s.stageModes)
  {
    hide Shipped, Removed, Parents, Under;
    if d in plan.deletions {
      DeletedIsCovered(plan, d, p);
    } else if d != p {
      assert d in plan.files;
      ParentIsAbove(d, p);
      assert CoveredBy(plan.deletions, d);
      var i :| 0 <= i < |plan.deletions| && Covers(plan.deletions[i], d);
      UnderTrans(p, d, plan.deletions[i]);
    }
  }

  /** A base file that survives the removals and is not shipped is unchanged and wanted. */
  lemma SurvivorIsWanted(s: Situation, plan: Plan, p: string)
    requires Faithful(s) && Planned(plan, s) && Clean(s, plan)
    requires p in s.base.files && !CoveredBy(plan.deletions, p) && p !in plan.files
    ensures p in s.work && s.work[p] == s.base.files[p] && !Withheld(s.entries, p, s.policy, s.stageModes)
  {
    hide Shipped, Removed, Parents, Under, CoveredBy, UnindexedAt, ReportedItself, ReportedGone, HitsDirectory, NoPathUnderAnother, ShipsNothing, LosesItsSource, EntryIsTrue, WholeTree;
    assert Covers(p, p);
    forall d | Covers(d, p) && Removed(s.entries, d, s.stageModes)
      ensures false
    {
      RemovalReaches(s, plan, d, p);
    }
    assert !UnindexedAt(s.entries, p, s.stageModes);
    NotWithheld(s, p);
    if ReportedGone(s.entries, p, s.stageModes) {
      GoneIsRemoved(s, p);
    } else if ReportedItself(s.entries, p, s.stageModes) {
      if p in s.work {
        OwnEntryShips(s, p);
      } else {
        OwnEntryRemoves(s, p);
      }
    }
    assert !Differs(s.base.files, s.work, p);
  }

  lemma NotWithheld(s: Situation, p: string)
    requires !UnindexedAt(s.entries, p, s.stageModes)
    ensures !Withheld(s.entries, p, s.policy, s.stageModes)
  {
  }

  /** A wanted path that is not shipped is in the base and survives the removals. */
  lemma WantedSurvives(s: Situation, plan: Plan, p: string)
    requires Faithful(s) && Planned(plan, s) && Clean(s, plan)
    requires p in s.work && !Withheld(s.entries, p, s.policy, s.stageModes) && p !in plan.files
    ensures p in s.base.files && !CoveredBy(plan.deletions, p)
  {
    hide Shipped, Removed, Parents, Under, UnindexedAt, ReportedItself, ReportedGone, HitsDirectory, NoPathUnderAnother, ShipsNothing, LosesItsSource, EntryIsTrue, Withheld, WholeTree;
    if CoveredBy(plan.deletions, p) {
      var i :| 0 <= i < |plan.deletions| && Covers(plan.deletions[i], p);
      assert plan.deletions[i] in plan.deletions;
      RemovedButWanted(s, plan.deletions[i], p);
    } else if p !in s.base.files {
      assert Differs(s.base.files, s.work, p);
      if ReportedItself(s.entries, p, s.stageModes) {
        OwnEntryShips(s, p);
      } else {
        GoneIsRemoved(s, p);
        var d :| Covers(d, p) && Removed(s.entries, d, s.stageModes);
        RemovedButWanted(s, d, p);
      }
    }
  }

  /** After the removals no file is left above a shipped path. */
  lemma NothingAbove(s: Situation, plan: Plan, d: string, p: string)
    requires Faithful(s) && Planned(plan, s) && Clean(s, plan) && p in plan.files && IsParent(d, p)
    ensures d !in s.base.files || CoveredBy(plan.deletions, d)
  {
    hide Shipped, Removed, Parents, UnindexedAt, ReportedItself, ReportedGone, HitsDirectory, ShipsNothing, LosesItsSource, EntryIsTrue, Withheld, WholeTree, CoveredBy;
    ShippedIsThere(s, p);
    ParentIsAbove(d, p);
    if d in s.base.files && d in plan.files {
      ShippedIsThere(s, d);
    } else if d in s.base.files && !CoveredBy(plan.deletions, d) {
      SurvivorIsWanted(s, plan, d);
    }
  }

  lemma CleanTransfers(s: Situation, plan: Plan, listed: seq<string>)
    requires Faithful(s) && Planned(plan, s) && Clean(s, plan)
    requires Distinct(listed) && forall p :: p in listed <==> p in plan.files
    ensures var r := Transfer(s.base, plan, listed, s.work); r.Some? && r.value.files == Wanted(s)
  {
    hide Shipped, Removed, IsParent, ShipsNothing, LosesItsSource, EntryIsTrue, Withheld, WholeTree, CoveredBy, Capture, WriteAll, RemoveAll, UnindexedAt, ReportedItself, ReportedGone, Covers, Under;
    forall p | p in listed
      ensures p in s.work && !Withheld(s.entries, p, s.policy, s.stageModes)
    {
      ShippedIsThere(s, p);
      ShippedIsWanted(s, p);
    }
    CaptureNeedsAll(s.work, listed);
    RemoveAllDrops(s.base, plan.deletions);
    var cleared := RemoveAll(s.base, plan.deletions);
    forall p, d | p in listed && IsParent(d, p)
      ensures d !in cleared.files
    {
      NothingAbove(s, plan, d, p);
    }
    WritesSucceed(cleared, listed, s.work);
    WritesOverlay(cleared, listed, s.work);
    forall p | p in cleared.files && p !in listed
      ensures p in s.work && s.work[p] == s.base.files[p] && !Withheld(s.entries, p, s.policy, s.stageModes)
    {
      SurvivorIsWanted(s, plan, p);
    }
    forall p | p in s.work && !Withheld(s.entries, p, s.policy, s.stageModes) && p !in listed
      ensures p in cleared.files
    {
      WantedSurvives(s, plan, p);
    }
  }

  /** A shipped path whose file is gone: the capture fails. */
  lemma MissingFileFails(s: Situation, plan: Plan, listed: seq<string>, i: nat)
    requires Faithful(s) && Planned(plan, s) && forall p :: p in listed <==> p in plan.files
    requires i < |s.entries| && ShipsNothing(s.entries[i], s.work, s.stageModes)
    ensures Transfer(s.base, plan, listed, s.work).None?
  {
    hide Shipped, Removed, ShipsNothing, WriteAll, RemoveAll, Capture, Faithful;
    CaptureNeedsAll(s.work, listed);
    ShipsNothingShips(s, i);
  }

  /** A shipped path where a directory stays: its write fails. */
  lemma DirectoryInTheWayFails(s: Situation, plan: Plan, listed: seq<string>)
    requires HitsDirectory(s.base, plan) && forall p :: p in listed <==> p in plan.files
    ensures Transfer(s.base, plan, listed, s.work).None?
  {
    hide CoveredBy, Capture, WriteAll, RemoveAll;
    if Capture(s.work, listed).Some? {
      RemoveAllDrops(s.base, plan.deletions);
      CapturedPaths(s.work, listed);
      var p :| p in plan.files && p in s.base.dirs && !CoveredBy(plan.deletions, p);
      var k :| 0 <= k < |listed| && listed[k] == p;
      DirectoryStops(RemoveAll(s.base, plan.deletions), Capture(s.work, listed).value, k);
    }
  }

  lemma TransferNeedsClean(s: Situation, plan: Plan, listed: seq<string>)
    requires Faithful(s) && Planned(plan, s)
    requires Distinct(listed) && forall p :: p in listed <==> p in plan.files
    requires var r := Transfer(s.base, plan, listed, s.work); r.Some? && r.value.files == Wanted(s)
    ensures Clean(s, plan)
  {
    hide Shipped, Removed, IsParent, ShipsNothing, EntryIsTrue, Withheld, WholeTree, CoveredBy, Capture, WriteAll, RemoveAll, UnindexedAt, ReportedItself, ReportedGone, Covers, Under, NormalizeWirePath, IsGitlink;
    CaptureNeedsAll(s.work, listed);
    RemoveAllDrops(s.base, plan.deletions);
    WritesOverlay(RemoveAll(s.base, plan.deletions), listed, s.work);
    forall i | 0 <= i < |s.entries|
      ensures !ShipsNothing(s.entries[i], s.work, s.stageModes)
    {
      if ShipsNothing(s.entries[i], s.work, s.stageModes) {
        MissingFileFails(s, plan, listed, i);
      }
    }
    forall i | 0 <= i < |s.entries|
      ensures !LosesItsSource(s.entries[i], s)
    {
      if LosesItsSource(s.entries[i], s) {
        LostSource(s, plan, i);
      }
    }
    if HitsDirectory(s.base, plan) {
      DirectoryInTheWayFails(s, plan, listed);
    }
  }

  lemma LostSource(s: Situation, plan: Plan, i: nat)
    requires Planned(plan, s) && i < |s.entries| && LosesItsSource(s.entries[i], s)
    ensures var p := Origin(s.entries[i]);
            p in Wanted(s) && p !in plan.files && CoveredBy(plan.deletions, p)
  {
    hide Shipped, NormalizeWirePath, IsGitlink, Withheld;
    var p := Origin(s.entries[i]);
    assert Deletes(s.entries[i], p, s.stageModes);
    assert Removed(s.entries, p, s.stageModes);
    DeletedIsCovered(plan, p, p);
  }

  /**
   * For a faithful status, sending the plan's files and removing its deletions turns the base into the
   * working tree, less what the policy withholds, exactly when the status is clean: nothing to ship is
   * missing, no copy loses its source, and no shipped file hits a directory left over from the base.
   * The order in which the archive lists the files does not matter.
   */
  lemma OverlayGivesTheWorkingTree(s: Situation, plan: Plan, commits: seq<Pin>, listed: seq<string>,
                                   order: (string, string) -> bool, locale: (string, string) -> bool)
    requires Faithful(s) && IsPlan(plan, s.entries, s.policy, s.stageModes, commits, order, locale)
    requires Distinct(listed) && forall p :: p in listed <==> p in plan.files
    ensures var r := Transfer(s.base, plan, listed, s.work);
            (r.Some? && r.value.files == Wanted(s)) <==> Clean(s, plan)
  {
    hide Shipped, Removed, Faithful, Clean, Transfer, Wanted, Unpinned;
    assert Planned(plan, s);
    var r := Transfer(s.base, plan, listed, s.work);
    if Clean(s, plan) {
      CleanTransfers(s, plan, listed);
    } else if r.Some? && r.value.files == Wanted(s) {
      TransferNeedsClean(s, plan, listed);
    }
  }

  // ----- the three ways to be unclean, each on a small faithful status -----

  const POLICY := Policy(true, [])

  const MODIFIED_THEN_GONE := Entry("a", None, "MD", Tracked, None)
  const DELETED_BELOW := Entry("a/x", None, ".D", Tracked, None)
  const FILE_ABOVE := Entry("a", None, "??", Untracked, None)
  const COPIED := Entry("b", Some("a"), "C.", Tracked, None)

  /** Modified in the index, then deleted from the worktree: every plan ships the file that is not there, and no transfer is made. */
  lemma ModifiedThenDeletedFails(plan: Plan, commits: seq<Pin>, listed: seq<string>, order: (string, string) -> bool, locale: (string, string) -> bool)
    requires IsPlan(plan, [MODIFIED_THEN_GONE], POLICY, map[], commits, order, locale)
    requires forall p :: p in listed <==> p in plan.files
    ensures var s := Situation(Tree(map["a" := [1]], {}), map[], [MODIFIED_THEN_GONE], POLICY, map[]);
            Faithful(s) && Transfer(s.base, plan, listed, s.work).None?
  {
    hide Transfer, Unpinned;
    var e := MODIFIED_THEN_GONE;
    var s := Situation(Tree(map["a" := [1]], {}), map[], [e], POLICY, map[]);
    assert ForwardSlashes("a") == "a";
    assert WirePath(e) == "a" && s.entries[0] == e;
    assert EntryIsTrue(e, [e], s.work, map[]);
    assert ReportedItself([e], "a", map[]);
    assert Parents("a") == {};
    assert Planned(plan, s);
    MissingFileFails(s, plan, listed, 0);
  }

  /** A copy of an unchanged file: every plan deletes the file it was copied from, and what arrives is not the working tree. */
  lemma CopyLosesItsSource(plan: Plan, commits: seq<Pin>, listed: seq<string>, order: (string, string) -> bool, locale: (string, string) -> bool)
    requires IsPlan(plan, [COPIED], POLICY, map[], commits, order, locale)
    requires Distinct(listed) && forall p :: p in listed <==> p in plan.files
    ensures var s := Situation(Tree(map["a" := [1]], {}), map["a" := [1], "b" := [1]], [COPIED], POLICY, map[]);
            && Faithful(s) && "a" in Wanted(s) && "a" in plan.deletions
            && var r := Transfer(s.base, plan, listed, s.work); !(r.Some? && r.value.files == Wanted(s))
  {
    hide Transfer, Unpinned;
    var e := COPIED;
    var s := Situation(Tree(map["a" := [1]], {}), map["a" := [1], "b" := [1]], [e], POLICY, map[]);
    assert ForwardSlashes("a") == "a" && ForwardSlashes("b") == "b";
    assert WirePath(e) == "b" && Origin(e) == "a" && s.entries[0] == e;
    assert EntryIsTrue(e, [e], s.work, map[]);
    assert ReportedItself([e], "b", map[]);
    assert Deletes(e, "a", map[]);
    assert Parents("a") == {};
    assert !UnindexedAt([e], "a", map[]);
    assert Planned(plan, s);
    assert LosesItsSource(s.entries[0], s);
    OverlayGivesTheWorkingTree(s, plan, commits, listed, order, locale);
  }

  /** A directory replaced by an untracked file: every plan removes what was in it, leaves the directory in the way, and the write fails. */
  lemma FileOverDirectoryFails(plan: Plan, commits: seq<Pin>, listed: seq<string>, order: (string, string) -> bool, locale: (string, string) -> bool)
    requires IsPlan(plan, [DELETED_BELOW, FILE_ABOVE], POLICY, map[], commits, order, locale)
    requires forall p :: p in listed <==> p in plan.files
    ensures var s := Situation(Tree(map["a/x" := [1]], {"a"}), map["a" := [2]], [DELETED_BELOW, FILE_ABOVE], POLICY, map[]);
            Faithful(s) && Transfer(s.base, plan, listed, s.work).None?
  {
    hide *;
    SmallStatus();
    var s := Situation(Tree(map["a/x" := [1]], {"a"}), map["a" := [2]], [DELETED_BELOW, FILE_ABOVE], POLICY, map[]);
    PlanHitsDirectory(plan, commits, order, locale);
    DirectoryInTheWayFails(s, plan, listed);
  }

  lemma SmallStatus()
    ensures Faithful(Situation(Tree(map["a/x" := [1]], {"a"}), map["a" := [2]], [DELETED_BELOW, FILE_ABOVE], POLICY, map[]))
  {
    hide WirePath, IsGitlink, Parents, HasOrigin, Side, IsInteresting, IsUnmerged;
    var e, f := DELETED_BELOW, FILE_ABOVE;
    var s := Situation(Tree(map["a/x" := [1]], {"a"}), map["a" := [2]], [e, f], POLICY, map[]);
    SmallPaths();
    SmallEntries();
    assert s.entries[0] == e && s.entries[1] == f;
    assert EntryIsTrue(e, [e, f], s.work, map[]) && EntryIsTrue(f, [e, f], s.work, map[]);
    assert ReportedItself([e, f], "a/x", map[]) && ReportedItself([e, f], "a", map[]);
  }

  lemma SmallEntries()
    ensures WirePath(DELETED_BELOW) == "a/x" && WirePath(FILE_ABOVE) == "a"
    ensures !IsGitlink(DELETED_BELOW, map[]) && !IsGitlink(FILE_ABOVE, map[]) && !HasOrigin(DELETED_BELOW)
    ensures Side(DELETED_BELOW.xy, 0) == '.' && Side(DELETED_BELOW.xy, 1) == 'D' && IsInteresting(DELETED_BELOW) && !IsUnmerged(DELETED_BELOW)
  {
    SmallPaths();
  }

  lemma PlanHitsDirectory(plan: Plan, commits: seq<Pin>, order: (string, string) -> bool, locale: (string, string) -> bool)
    requires IsPlan(plan, [DELETED_BELOW, FILE_ABOVE], POLICY, map[], commits, order, locale)
    ensures HitsDirectory(Tree(map["a/x" := [1]], {"a"}), plan)
  {
    hide Unpinned, Parents;
    var entries := [DELETED_BELOW, FILE_ABOVE];
    SmallPaths();
    assert entries[1] == FILE_ABOVE && Ships(FILE_ABOVE, POLICY, map[]) && WirePath(FILE_ABOVE) == "a";
    assert Shipped(entries, "a", POLICY, map[]);
    assert "a" in plan.files;
    forall i | 0 <= i < |plan.deletions|
      ensures !Covers(plan.deletions[i], "a")
    {
      assert plan.deletions[i] in plan.deletions;
      assert Removed(entries, plan.deletions[i], map[]);
    }
  }

  lemma SmallPaths()
    ensures ForwardSlashes("a/x") == "a/x" && ForwardSlashes("a") == "a" && Parents("a/x") == {"a"}
  {
    assert ForwardSlashes("x") == "x" && ForwardSlashes("/x") == "/x";
    assert "a/x"[..1] == "a";
  }
}
