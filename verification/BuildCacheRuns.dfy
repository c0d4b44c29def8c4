/** What every run of one build-cache key keeps. */
module BuildCacheRuns {
  import opened Bytes
  import opened BuildCache

  // ----- histories -----

  /** The key is published and the attempt is let in: a hit. */
  predicate IsHit(s: Slot, event: Event) {
    event.Acquiring? && event.canRead && s.lock != Held && Published(s.dir)
  }

  predicate IsMiss(s: Slot, event: Event) {
    event.Acquiring? && event.canRead && event.canWrite && s.lock != Held && !Published(s.dir)
  }

  /**
   * Users counted that no handle will ever take off, after one more event: one for a release that timed out, and
   * one for every handle out when the agent died. A publication or an eviction starts the count over, and so
   * does a hit on an unreadable meta file.
   */
  function NextLeaked(s: Slot, event: Event, leaked: int): int {
    match event
    case Promoting(works) => if works then 0 else leaked
    case Evicting => 0
    case Acquiring(_, _, _, _) => if IsHit(s, event) && Users(s.dir).None? then 0 else leaked
    case ReleasingHit(_, timedOut) => if timedOut then leaked + 1 else leaked
    case Crashing => leaked + HandlesOut(s)
    case CrashingInHit(fate) => if fate == Written && Users(s.dir).None? then 1 else leaked + HandlesOut(s) + if fate == Written then 1 else 0
    case CrashingInRelease(fate) => leaked + HandlesOut(s) - if fate == Written then 1 else 0
    case _ => leaked
  }

  function Leaked(retention: int, events: seq<Event>): int
    requires After(retention, events).Some?
  {
    if events == [] then 0
    else
      var before := events[..|events| - 1];
      NextLeaked(After(retention, before).value, events[|events| - 1], Leaked(retention, before))
  }

  /** The count begins at zero leaks: a publication, an eviction, or a hit or its crash writing the first count over an unreadable one. */
  predicate StartsCount(s: Slot, event: Event) {
    event == Promoting(true) || event == Evicting || (IsHit(s, event) && Users(s.dir).None?)
  }

  /** A release that timed out, or a crash that leaves a user of the key's count without its handle. */
  predicate Strands(s: Slot, event: Event) {
    match event
    case ReleasingHit(_, timedOut) => timedOut
    case Crashing => HandlesOut(s) > 0
    case CrashingInHit(fate) => HandlesOut(s) > 0 || fate == Written
    case CrashingInRelease(fate) => HandlesOut(s) > if fate == Written then 1 else 0
    case _ => false
  }

  /** Some event since the count began stranded a user. */
  predicate Stranded(retention: int, events: seq<Event>)
    requires After(retention, events).Some?
  {
    events != [] &&
    var before, last := events[..|events| - 1], events[|events| - 1];
    var s := After(retention, before).value;
    Strands(s, last) || (!StartsCount(s, last) && Stranded(retention, before))
  }

  /** How many pieces the writer had written when a round last removed its temporary directory. */
  function NextSwept(retention: int, s: Slot, event: Event, sweptAt: nat): nat {
    if IsMiss(s, event) then 0
    else if event == Sweeping && PastRetention(s, retention) then s.writer.value.next
    else sweptAt
  }

  function SweptAt(retention: int, events: seq<Event>): nat
    requires After(retention, events).Some?
  {
    if events == [] then 0
    else
      var before := events[..|events| - 1];
      NextSwept(retention, After(retention, before).value, events[|events| - 1], SweptAt(retention, before))
  }

  /** Since the last miss, and after the writer's first piece, a round met its temporary directory at or past the retention time. */
  predicate MetLate(retention: int, events: seq<Event>)
    requires After(retention, events).Some?
  {
    events != [] &&
    var last := events[|events| - 1];
    var s := After(retention, events[..|events| - 1]).value;
    if IsMiss(s, last) then false
    else if last == Sweeping && PastRetention(s, retention) && s.writer.value.next > 0 then true
    else MetLate(retention, events[..|events| - 1])
  }

  // ----- the invariant -----

  predicate From(lo: nat, i: nat) {
    lo <= i
  }

  /** The pieces from `lo` up to `hi`. */
  function Range(lo: nat, hi: nat): set<nat> {
    set i: nat | i < hi && From(lo, i)
  }

  predicate WriterIsSound(w: Writer, sweptAt: nat) {
    && sweptAt <= w.next <= w.total
    && (w.temp.Some? ==> w.temp.value.pieces == Range(sweptAt, w.next))
    && (w.temp.None? && w.phase != Over ==> sweptAt == w.next)
    && (w.phase == Staged || w.phase == Aside ==> w.next == w.total)
  }

  predicate Inv(s: Slot, leaked: int, sweptAt: nat) {
    && leaked >= 0
    && (s.writer.Some? <==> s.lock == Held)
    && (s.writer.Some? ==> s.hits == {} && WriterIsSound(s.writer.value, sweptAt))
    && (s.writer.Some? && (s.writer.value.phase != Over || s.writer.value.temp.Some?) ==> !Published(s.dir))
    && (s.hits != {} ==> Published(s.dir) && Users(s.dir).Some?)
    && (Users(s.dir).Some? ==> Published(s.dir) && Users(s.dir).value == leaked + HandlesOut(s))
    && !Published(s.backup) && Users(s.backup).None?
    && (Published(s.dir) ==> s.dir.value.copy.pieces == Range(sweptAt, s.dir.value.copy.total) && sweptAt <= s.dir.value.copy.total)
    && (Published(s.dir) && s.writer.Some? ==> Users(s.dir).Some?)
  }

  lemma AcquireKeeps(s: Slot, event: Event, leaked: int, sweptAt: nat, retention: int)
    requires Inv(s, leaked, sweptAt) && event.Acquiring? && Enabled(s, event)
    ensures Inv(Step(retention, s, event), NextLeaked(s, event, leaked), NextSwept(retention, s, event, sweptAt))
  {
    assert |s.hits + {event.handle}| == |s.hits| + 1;
    assert s.hits == {} ==> |s.hits| == 0;
    assert Range(0, 0) == {};
  }

  lemma ReleaseHitKeeps(s: Slot, handle: nat, timedOut: bool, leaked: int, sweptAt: nat)
    requires Inv(s, leaked, sweptAt) && handle in s.hits
    ensures Inv(ReleaseHit(s, handle, timedOut), if timedOut then leaked + 1 else leaked, sweptAt)
  {
    hide Range;
    assert s.hits == (s.hits - {handle}) + {handle};
    assert |s.hits - {handle}| == |s.hits| - 1;
  }

  lemma WriteKeeps(s: Slot, leaked: int, sweptAt: nat)
    requires Inv(s, leaked, sweptAt) && Enabled(s, Writing)
    ensures Inv(WriteNext(s), leaked, sweptAt)
  {
    var w := s.writer.value;
    assert Range(sweptAt, w.next) + {w.next} == Range(sweptAt, w.next + 1);
    assert w.temp.None? ==> {} + {w.next} == Range(sweptAt, w.next + 1);
  }

  lemma CrashKeeps(s: Slot, event: Event, leaked: int, sweptAt: nat, retention: int)
    requires Inv(s, leaked, sweptAt) && Enabled(s, event)
    requires event.Crashing? || event.CrashingInHit? || event.CrashingInRelease?
    ensures Inv(Step(retention, s, event), NextLeaked(s, event, leaked), sweptAt)
  {
    hide Range;
    assert |s.hits| == 0 <==> s.hits == {};
  }

  /** The moves of the miss writer and of what sweeps behind it. */
  lemma WriterMovesKeep(s: Slot, event: Event, leaked: int, sweptAt: nat, retention: int)
    requires Inv(s, leaked, sweptAt) && Enabled(s, event)
    requires event.Sweeping? || event.Refusing? || event.Staging? || event.MovingAside? || event.Promoting? || event.ReleasingMiss?
    ensures Inv(Step(retention, s, event), NextLeaked(s, event, leaked), NextSwept(retention, s, event, sweptAt))
  {
    hide Range, Acquire, ReleaseHit, Crash, WriteNext;
    assert Range(s.writer.value.next, s.writer.value.next) == {} by {
      EmptyRange(s.writer.value.next);
    }
  }

  lemma EmptyRange(n: nat)
    ensures Range(n, n) == {}
  {
  }

  lemma RoundsKeep(s: Slot, event: Event, leaked: int, sweptAt: nat, retention: int)
    requires Inv(s, leaked, sweptAt) && Enabled(s, event)
    requires event.Looking? || event.Evicting? || event.Reclaiming? || event.SweepingBackup? || event.Passing?
    ensures Inv(Step(retention, s, event), NextLeaked(s, event, leaked), sweptAt)
  {
    hide Range;
    assert s.hits != {} ==> |s.hits| > 0;
  }

  lemma StepKeeps(s: Slot, event: Event, leaked: int, sweptAt: nat, retention: int)
    requires Inv(s, leaked, sweptAt) && Enabled(s, event)
    ensures Inv(Step(retention, s, event), NextLeaked(s, event, leaked), NextSwept(retention, s, event, sweptAt))
  {
    hide Acquire, ReleaseHit, Range, WriteNext, Crash, ReleaseMiss, Inv;
    match event
    case Acquiring(_, _, _, _) => AcquireKeeps(s, event, leaked, sweptAt, retention);
    case ReleasingHit(handle, timedOut) => ReleaseHitKeeps(s, handle, timedOut, leaked, sweptAt);
    case Writing => WriteKeeps(s, leaked, sweptAt);
    case Crashing => CrashKeeps(s, event, leaked, sweptAt, retention);
    case CrashingInHit(_) => CrashKeeps(s, event, leaked, sweptAt, retention);
    case CrashingInRelease(_) => CrashKeeps(s, event, leaked, sweptAt, retention);
    case Looking => RoundsKeep(s, event, leaked, sweptAt, retention);
    case Evicting => RoundsKeep(s, event, leaked, sweptAt, retention);
    case Reclaiming => RoundsKeep(s, event, leaked, sweptAt, retention);
    case SweepingBackup => RoundsKeep(s, event, leaked, sweptAt, retention);
    case Passing(_) => RoundsKeep(s, event, leaked, sweptAt, retention);
    case _ => WriterMovesKeep(s, event, leaked, sweptAt, retention);
  }

  /** Every run of acquires, releases, job writes, publications, eviction rounds, passing time and crashes keeps the invariant. */
  lemma {:induction false} RunsKeep(retention: int, events: seq<Event>)
    requires After(retention, events).Some?
    ensures Inv(After(retention, events).value, Leaked(retention, events), SweptAt(retention, events))
    decreases |events|
  {
    hide Step, Enabled, Inv, NextLeaked, NextSwept;
    if events == [] {
      FreshHolds();
    } else {
      var before, last := events[..|events| - 1], events[|events| - 1];
      RunsKeep(retention, before);
      StepKeeps(After(retention, before).value, last, Leaked(retention, before), SweptAt(retention, before), retention);
    }
  }

  lemma FreshHolds()
    ensures Inv(FRESH, 0, 0)
  {
  }

  // ----- what follows -----

  /** In every run, a lock nobody holds leaves at least as many users counted as there are live hit handles. */
  lemma FreeLockCountsHandles(retention: int, events: seq<Event>)
    requires After(retention, events).Some? && After(retention, events).value.lock != Held
    ensures var s := After(retention, events).value;
            s.hits != {} ==> Users(s.dir).Some? && Users(s.dir).value >= |s.hits|
  {
    hide After, Leaked, SweptAt, Range;
    RunsKeep(retention, events);
  }

  /** In every run, an eviction round deletes a key only when no handle on it is live: no hit, and no miss writer. */
  lemma EvictionSparesLiveHandles(retention: int, events: seq<Event>)
    requires After(retention, events).Some? && Enabled(After(retention, events).value, Evicting)
    ensures After(retention, events).value.hits == {} && After(retention, events).value.writer.None?
  {
    hide After, Leaked, SweptAt, Range;
    RunsKeep(retention, events);
    var s := After(retention, events).value;
    assert s.hits != {} ==> |s.hits| > 0;
  }

  lemma LeaksExactlyWhenItStrands(s: Slot, event: Event, leaked: int)
    requires leaked >= 0 && Enabled(s, event)
    ensures NextLeaked(s, event, leaked) > 0 <==> Strands(s, event) || (!StartsCount(s, event) && leaked > 0)
  {
  }

  lemma {:induction false} LeakedExactlyWhenStranded(retention: int, events: seq<Event>)
    requires After(retention, events).Some?
    ensures Leaked(retention, events) > 0 <==> Stranded(retention, events)
    decreases |events|
  {
    hide Step, Enabled, Range, NextLeaked, Strands, StartsCount;
    if events != [] {
      var before := events[..|events| - 1];
      LeakedExactlyWhenStranded(retention, before);
      RunsKeep(retention, before);
      LeaksExactlyWhenItStrands(After(retention, before).value, events[|events| - 1], Leaked(retention, before));
    }
  }

  /**
   * In every run, a round evicts an idle published key exactly when its count of users can be read and, since
   * the count began, no release timed out and the agent never died with a handle of the key out.
   */
  lemma IdleKeyIsEvictableExactlyWhenNotStranded(retention: int, events: seq<Event>)
    requires After(retention, events).Some?
    ensures var s := After(retention, events).value;
            Published(s.dir) && s.hits == {} && s.writer.None? ==>
              (RoundEvicts(s) <==> Users(s.dir).Some? && !Stranded(retention, events))
  {
    hide After, Leaked, SweptAt, Range, Stranded;
    RunsKeep(retention, events);
    LeakedExactlyWhenStranded(retention, events);
  }

  /** Nothing happens but rounds, time and the reclaiming of a dead lock. */
  predicate OnlyRounds(events: seq<Event>) {
    forall i :: 0 <= i < |events| ==>
      events[i].Looking? || events[i].Evicting? || events[i].Sweeping? || events[i].SweepingBackup? || events[i].Passing? || events[i].Reclaiming?
  }

  /** Where the events lead from a state, or None when some step could not happen. */
  function Onward(retention: int, s: Slot, events: seq<Event>): Option<Slot>
    decreases |events|
  {
    if events == [] then Some(s)
    else if Enabled(s, events[0]) then Onward(retention, Step(retention, s, events[0]), events[1..])
    else None
  }

  lemma {:induction false} AfterGoesOnward(retention: int, events: seq<Event>, more: seq<Event>)
    requires After(retention, events).Some?
    ensures After(retention, events + more) == Onward(retention, After(retention, events).value, more)
    decreases |more|
  {
    hide Step, Enabled;
    if more == [] {
      assert events + more == events;
    } else {
      var one := events + [more[0]];
      assert one[..|one| - 1] == events && one + more[1..] == events + more;
      if After(retention, one).Some? {
        AfterGoesOnward(retention, one, more[1..]);
      } else {
        NoneAfter(retention, one, more[1..]);
      }
    }
  }

  lemma {:induction false} NoneAfter(retention: int, events: seq<Event>, more: seq<Event>)
    requires After(retention, events).None?
    ensures After(retention, events + more).None?
    decreases |more|
  {
    hide Step, Enabled;
    if more == [] {
      assert events + more == events;
    } else {
      var all := events + more;
      assert all[..|all| - 1] == events + more[..|more| - 1];
      NoneAfter(retention, events, more[..|more| - 1]);
    }
  }

  /** A key with a user left over, or an unreadable count, outlives any number of rounds. */
  lemma {:induction false} StuckKeyStays(retention: int, s: Slot, rounds: seq<Event>)
    requires Published(s.dir) && s.writer.None? && s.lock != Held && !s.candidate && (Users(s.dir).None? || Users(s.dir).value > 0)
    requires OnlyRounds(rounds)
    ensures Onward(retention, s, rounds).Some? ==> Onward(retention, s, rounds).value.dir == s.dir
    decreases |rounds|
  {
    if rounds != [] && Enabled(s, rounds[0]) {
      StuckKeyStays(retention, Step(retention, s, rounds[0]), rounds[1..]);
    }
  }

  /** In every run, a crash while a hit is out strands its key: published, without a live handle, and spared by every later round. */
  lemma CrashStrandsAKeyInUse(retention: int, events: seq<Event>, rounds: seq<Event>)
    requires After(retention, events).Some? && After(retention, events).value.hits != {}
    requires OnlyRounds(rounds) && After(retention, events + [Crashing] + rounds).Some?
    ensures var s, t := After(retention, events).value, After(retention, events + [Crashing] + rounds).value;
            Published(t.dir) && t.dir == s.dir && After(retention, events + [Crashing]).value.hits == {}
  {
    hide Leaked, SweptAt, Range, OnlyRounds, NextLeaked;
    var s := After(retention, events).value;
    RunsKeep(retention, events);
    assert |s.hits| > 0;
    var crashed := events + [Crashing];
    assert crashed[..|crashed| - 1] == events;
    AfterGoesOnward(retention, crashed, rounds);
    StuckKeyStays(retention, After(retention, crashed).value, rounds);
  }

  const PUBLISHED_ONCE := [Acquiring(true, true, 0, 0), Staging, MovingAside(true), Promoting(true), ReleasingMiss]

  lemma PublishedOnceIsIdle(retention: int)
    ensures After(retention, PUBLISHED_ONCE) == Some(Slot(Some(Dir(true, Some(0), NO_COPY)), None, Free, {}, None, false, 0))
  {
    var e := PUBLISHED_ONCE;
    assert e[..4][..3][..2][..1] == [e[0]] && e[..4][..3][..2] == [e[0], e[1]] && e[..4][..3] == [e[0], e[1], e[2]];
    assert e[..4] == [e[0], e[1], e[2], e[3]];
    assert e[..4][..3][..2][..1][..0] == [];
    assert After(retention, []) == Some(FRESH);
    assert After(retention, e[..4][..3][..2][..1]).Some?;
    assert After(retention, e[..4][..3][..2]).Some?;
    assert After(retention, e[..4][..3]).Some?;
    assert After(retention, e[..4]).Some?;
  }

  /** The agent dies with a hit out: the count can be read, one user leaked, and no round evicts. */
  lemma LeakedUserStaysCounted(retention: int)
    ensures var events := PUBLISHED_ONCE + [Acquiring(true, true, 0, 0), Crashing];
            && After(retention, events).Some?
            && var s := After(retention, events).value;
               Published(s.dir) && s.hits == {} && s.writer.None? && Users(s.dir) == Some(1) && Stranded(retention, events) && !RoundEvicts(s)
  {
    hide Leaked, Stranded;
    var more := [Acquiring(true, true, 0, 0), Crashing];
    PublishedOnceIsIdle(retention);
    AfterGoesOnward(retention, PUBLISHED_ONCE, more);
    assert more[1..] == [Crashing] && more[1..][1..] == [];
    RunsKeep(retention, PUBLISHED_ONCE + more);
    IdleKeyIsEvictableExactlyWhenNotStranded(retention, PUBLISHED_ONCE + more);
  }

  /** The agent dies writing the count of a hit: no user leaked, nothing can be read, and no round evicts. */
  lemma TornCountIsNeverEvicted(retention: int)
    ensures var events := PUBLISHED_ONCE + [CrashingInHit(Torn), Reclaiming];
            && After(retention, events).Some?
            && var s := After(retention, events).value;
               Published(s.dir) && s.hits == {} && s.writer.None? && s.lock == Free && Users(s.dir).None? && !RoundEvicts(s)
  {
    var more := [CrashingInHit(Torn), Reclaiming];
    PublishedOnceIsIdle(retention);
    AfterGoesOnward(retention, PUBLISHED_ONCE, more);
    assert more[1..] == [Reclaiming] && more[1..][1..] == [];
  }

  /**
   * In every run, the only step that publishes a key is the rename of a miss writer whose job wrote its last
   * piece, into a key that was not published and has no hit; the copy then has exactly the pieces written
   * since a round last removed the temporary directory.
   */
  lemma PublishFillsAnUnpublishedKey(retention: int, events: seq<Event>, event: Event)
    requires After(retention, events).Some? && Enabled(After(retention, events).value, event)
    requires !Published(After(retention, events).value.dir) && Published(Step(retention, After(retention, events).value, event).dir)
    ensures var s := After(retention, events).value;
            var copy := Step(retention, s, event).dir.value.copy;
            && event == Promoting(true) && s.hits == {} && s.writer.Some?
            && s.writer.value.next == s.writer.value.total == copy.total
            && copy.pieces == Range(SweptAt(retention, events), copy.total)
  {
    hide After, Leaked, SweptAt, Range;
    RunsKeep(retention, events);
  }

  /** A publication never replaces a published copy. */
  lemma PublishedCopyStays(retention: int, events: seq<Event>, event: Event)
    requires After(retention, events).Some? && Enabled(After(retention, events).value, event) && Published(After(retention, events).value.dir)
    ensures var s := After(retention, events).value;
            Published(Step(retention, s, event).dir) ==> Step(retention, s, event).dir.value.copy == s.dir.value.copy
  {
    hide After, Leaked, SweptAt, Range;
    RunsKeep(retention, events);
  }

  lemma {:induction false} SweptExactlyWhenMetLate(retention: int, events: seq<Event>)
    requires After(retention, events).Some?
    ensures SweptAt(retention, events) > 0 <==> MetLate(retention, events)
    decreases |events|
  {
    hide Step, Enabled;
    if events != [] {
      var before := events[..|events| - 1];
      SweptExactlyWhenMetLate(retention, before);
      RunsKeep(retention, before);
    }
  }

  /**
   * In every run, a published copy is the job's whole output exactly when, from its first piece on, no round met
   * the writer's temporary directory at or past the retention time.
   */
  lemma PublishedCopyIsWholeExactlyWhenNotMetLate(retention: int, events: seq<Event>)
    requires After(retention, events).Some? && Published(After(retention, events).value.dir)
    ensures var copy := After(retention, events).value.dir.value.copy;
            copy.pieces == Range(0, copy.total) <==> !MetLate(retention, events)
  {
    hide After, Leaked, SweptAt, MetLate;
    RunsKeep(retention, events);
    SweptExactlyWhenMetLate(retention, events);
    var copy := After(retention, events).value.dir.value.copy;
    if SweptAt(retention, events) > 0 {
      assert From(0, 0);
      assert 0 in Range(0, copy.total);
    }
  }

  /** A round comes by between two pieces, the retention time after the directory was made: the second piece is published alone. */
  lemma SweptCopyIsPublishedIncomplete(retention: nat)
    ensures var events := [Acquiring(true, true, 0, 2), Writing, Passing(retention), Sweeping, Writing, Staging, MovingAside(true), Promoting(true)];
            && After(retention, events).Some? && MetLate(retention, events)
            && Published(After(retention, events).value.dir)
            && After(retention, events).value.dir.value.copy == Copy({1}, 2)
  {
    hide MetLate, SweptAt, Leaked, Step;
    var events := [Acquiring(true, true, 0, 2), Writing, Passing(retention), Sweeping, Writing, Staging, MovingAside(true), Promoting(true)];
    assert [] + events == events && After(retention, []) == Some(FRESH);
    AfterGoesOnward(retention, [], events);
    FirstPieceSwept(retention, [Writing, Staging, MovingAside(true), Promoting(true)]);
    assert events == [Acquiring(true, true, 0, 2), Writing, Passing(retention), Sweeping] + [Writing, Staging, MovingAside(true), Promoting(true)];
    SecondPieceAlone(retention);
    PublishedCopyIsWholeExactlyWhenNotMetLate(retention, events);
    assert From(0, 0);
    assert 0 in Range(0, 2);
  }

  lemma OneStepOnward(retention: int, s: Slot, events: seq<Event>, event: Event, rest: seq<Event>)
    requires events == [event] + rest && Enabled(s, event)
    ensures Onward(retention, s, events) == Onward(retention, Step(retention, s, event), rest)
  {
    hide Step, Enabled;
    assert events[1..] == rest;
  }

  function SweptOnce(clock: int): Slot {
    FRESH.(dir := Some(EMPTY_DIR), lock := Held, writer := Some(Writer(2, 1, None, Filling)), clock := clock)
  }

  lemma FirstPieceSwept(retention: nat, rest: seq<Event>)
    ensures Onward(retention, FRESH, [Acquiring(true, true, 0, 2), Writing, Passing(retention), Sweeping] + rest)
            == Onward(retention, SweptOnce(retention), rest)
  {
    hide Onward;
    var s := FRESH;
    var tail := [Acquiring(true, true, 0, 2), Writing, Passing(retention), Sweeping] + rest;
    OneStepOnward(retention, s, tail, Acquiring(true, true, 0, 2), [Writing, Passing(retention), Sweeping] + rest);
    s := Step(retention, s, Acquiring(true, true, 0, 2));
    OneStepOnward(retention, s, [Writing, Passing(retention), Sweeping] + rest, Writing, [Passing(retention), Sweeping] + rest);
    s := Step(retention, s, Writing);
    OneStepOnward(retention, s, [Passing(retention), Sweeping] + rest, Passing(retention), [Sweeping] + rest);
    s := Step(retention, s, Passing(retention));
    OneStepOnward(retention, s, [Sweeping] + rest, Sweeping, rest);
  }

  lemma SecondPieceAlone(retention: nat)
    ensures var end := Onward(retention, SweptOnce(retention), [Writing, Staging, MovingAside(true), Promoting(true)]);
            end.Some? && end.value.dir == Some(Dir(true, Some(1), Copy({1}, 2)))
  {
    var s := SweptOnce(retention);
    assert {} + {1} == {1};
    OneStepOnward(retention, s, [Writing, Staging, MovingAside(true), Promoting(true)], Writing, [Staging, MovingAside(true), Promoting(true)]);
    s := Step(retention, s, Writing);
    OneStepOnward(retention, s, [Staging, MovingAside(true), Promoting(true)], Staging, [MovingAside(true), Promoting(true)]);
    s := Step(retention, s, Staging);
    OneStepOnward(retention, s, [MovingAside(true), Promoting(true)], MovingAside(true), [Promoting(true)]);
    s := Step(retention, s, MovingAside(true));
    OneStepOnward(retention, s, [Promoting(true)], Promoting(true), []);
  }

  /** The whole of `publishIfAllowed`, whichever of its renames fail, is the run of its moves. */
  lemma PublishIsItsMoves(retention: int, s: Slot, leaked: int, sweptAt: nat, succeeded: bool, canWrite: bool, aside: bool, renamed: bool)
    requires Inv(s, leaked, sweptAt) && s.writer.Some? && s.writer.value.phase == Filling
    requires succeeded ==> s.writer.value.next == s.writer.value.total
    ensures var moves := if !succeeded || !canWrite || s.writer.value.temp.None? then [Refusing]
                         else if s.dir.Some? && !aside then [Staging, MovingAside(false)]
                         else [Staging, MovingAside(true), Promoting(renamed)];
            Onward(retention, s, moves) == Some(Publish(s, succeeded, canWrite, aside, renamed))
  {
    hide Range;
    if !succeeded || !canWrite || s.writer.value.temp.None? {
      assert [Refusing][1..] == [];
    } else if s.dir.Some? && !aside {
      var moves := [Staging, MovingAside(false)];
      assert moves[1..] == [MovingAside(false)] && moves[1..][1..] == [];
    } else {
      var staged := Stage(s);
      var moved := MoveAside(staged);
      OneStepOnward(retention, s, [Staging, MovingAside(true), Promoting(renamed)], Staging, [MovingAside(true), Promoting(renamed)]);
      OneStepOnward(retention, staged, [MovingAside(true), Promoting(renamed)], MovingAside(true), [Promoting(renamed)]);
      OneStepOnward(retention, moved, [Promoting(renamed)], Promoting(renamed), []);
    }
  }
}
