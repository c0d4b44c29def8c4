/** What a job is told when it asks for a key, and what the answers of a run stand for. */
module CacheAnswers {
  import opened Bytes
  import opened BuildCache
  import opened BuildCacheRuns

  predicate Has(s: Slot) {
    s.dir.Some? && s.dir.value.published
  }

  /** The count in the meta file; a missing or unreadable one counts nobody. */
  function Counted(s: Slot): int {
    if s.dir.Some? && s.dir.value.users.Some? then s.dir.value.users.value else 0
  }

  /**
   * `Hit` and `Miss` are told exactly when reading is allowed, no living lock is in the way and the key is, or is
   * not, published; a `Miss` needs writing allowed as well. A hit counts one user more and leaves the lock free; a
   * miss keeps the lock and has a new, empty temporary directory. The two refusals give out nothing.
   */
  lemma AcquireAnswers(s: Slot, canRead: bool, canWrite: bool, handle: nat, total: nat)
    ensures var (t, mode) := Acquire(s, canRead, canWrite, handle, total);
            && (mode == Hit <==> canRead && s.lock != Held && Has(s))
            && (mode == Miss <==> canRead && s.lock != Held && !Has(s) && canWrite)
            && (mode == WriteDisabled <==> canRead && s.lock != Held && !Has(s) && !canWrite)
            && (mode == ReadDisabled <==> !canRead || s.lock == Held)
            && t.hits == (if mode == Hit then s.hits + {handle} else s.hits)
            && t.writer == (if mode == Miss then Some(Writer(total, 0, Some(Temp({}, s.clock)), Filling)) else s.writer)
            && (mode == Hit ==> t.lock == Free && t.dir == Some(Dir(true, Some(Counted(s) + 1), s.dir.value.copy)))
            && (mode == Miss ==> t.lock == Held)
            && (mode == WriteDisabled ==> t.lock == Free)
            && (mode == ReadDisabled ==> t.lock == s.lock)
            && (mode != Hit && s.dir.Some? ==> t.dir == s.dir)
            && (mode != Hit && s.dir.None? ==> t.dir == (if canRead then Some(Dir(false, None, Copy({}, 0))) else None))
            && t.backup == s.backup && t.candidate == s.candidate && t.clock == s.clock
  {
  }

  /** A hit given back takes one user off a readable count, never below zero, unless the lock cannot be had; a miss does so on its published key. */
  lemma ReleaseAnswers(s: Slot, handle: nat, timedOut: bool)
    ensures var t := ReleaseHit(s, handle, timedOut);
            && t.hits == s.hits - {handle} && t.writer == s.writer
            && (timedOut || s.lock == Held ==> t.lock == s.lock && Counted(t) == Counted(s))
            && (!timedOut && s.lock != Held ==> t.lock == Free && Counted(t) == if Counted(s) > 1 then Counted(s) - 1 else 0)
    ensures var t := ReleaseMiss(s);
            && t.writer.None? && t.lock == Free && t.hits == s.hits
            && Counted(t) == if !Has(s) then Counted(s) else if Counted(s) > 1 then Counted(s) - 1 else 0
  {
  }

  // ----- the answers of a run -----

  /** The `i`th event asked, and was answered `mode`. */
  predicate Told(retention: int, events: seq<Event>, i: nat, mode: Mode) {
    && i < |events| && events[i].Acquiring? && After(retention, events[..i]).Some?
    && Acquire(After(retention, events[..i]).value, events[i].canRead, events[i].canWrite, events[i].handle, events[i].total).1 == mode
  }

  predicate Dies(event: Event) {
    event.Crashing? || event.CrashingInHit? || event.CrashingInRelease?
  }

  /** What the `i`th event was given, `event` gives back or loses. */
  predicate Ends(given: Event, mode: Mode, event: Event) {
    || Dies(event)
    || (mode == Hit && given.Acquiring? && event.ReleasingHit? && event.handle == given.handle)
    || (mode == Miss && event.ReleasingMiss?)
  }

  /** Told `mode` at the `i`th event, and nothing since has ended it. */
  predicate Out(retention: int, events: seq<Event>, i: nat, mode: Mode) {
    Told(retention, events, i, mode) && forall j :: i < j < |events| ==> !Ends(events[i], mode, events[j])
  }

  /** Told `Hit` with this handle, and nothing since has ended it. */
  predicate HitOut(retention: int, events: seq<Event>, i: nat, handle: nat) {
    Out(retention, events, i, Hit) && events[i].handle == handle
  }

  lemma {:induction false} BeforeIsReached(retention: int, events: seq<Event>, i: nat)
    requires After(retention, events).Some? && i <= |events|
    ensures After(retention, events[..i]).Some?
    decreases |events|
  {
    hide Step, Enabled;
    if i == |events| {
      assert events[..i] == events;
    } else {
      var before := events[..|events| - 1];
      assert events[..i] == before[..i];
      BeforeIsReached(retention, before, i);
    }
  }

  lemma OutBefore(retention: int, events: seq<Event>, i: nat, mode: Mode)
    requires i + 1 < |events|
    ensures var before := events[..|events| - 1];
            Out(retention, events, i, mode) <==> Out(retention, before, i, mode) && !Ends(events[i], mode, events[|events| - 1])
  {
    hide After, Acquire, Ends;
    var before := events[..|events| - 1];
    assert before[..i] == events[..i] && before[i] == events[i];
    assert forall j :: i < j < |before| ==> before[j] == events[j];
    if Out(retention, before, i, mode) && !Ends(events[i], mode, events[|events| - 1]) {
      forall j | i < j < |events|
        ensures !Ends(events[i], mode, events[j])
      {
        if j < |before| {
          assert before[j] == events[j];
        }
      }
    }
    if Out(retention, events, i, mode) {
      forall j | i < j < |before|
        ensures !Ends(before[i], mode, before[j])
      {
        assert before[j] == events[j];
      }
    }
  }

  lemma HitStep(retention: int, s: Slot, event: Event, handle: nat)
    requires Enabled(s, event)
    ensures var t := Step(retention, s, event);
            handle in t.hits <==>
              || (event.Acquiring? && event.handle == handle && Acquire(s, event.canRead, event.canWrite, event.handle, event.total).1 == Hit)
              || (handle in s.hits && !Dies(event) && !(event.ReleasingHit? && event.handle == handle))
  {
  }

  lemma MissStep(retention: int, s: Slot, event: Event)
    requires Enabled(s, event)
    ensures var t := Step(retention, s, event);
            t.writer.Some? <==>
              || (event.Acquiring? && Acquire(s, event.canRead, event.canWrite, event.handle, event.total).1 == Miss)
              || (s.writer.Some? && !Dies(event) && !event.ReleasingMiss?)
  {
  }

  /** In every run, the live handles are the hits told and neither given back nor lost; the writer is the miss told and neither given back nor lost. */
  lemma {:induction false} HandlesAreAnswers(retention: int, events: seq<Event>, handle: nat)
    requires After(retention, events).Some?
    ensures var s := After(retention, events).value;
            && (handle in s.hits <==> exists i: nat :: HitOut(retention, events, i, handle))
            && (s.writer.Some? <==> exists i: nat :: Out(retention, events, i, Miss))
    decreases |events|
  {
    hide Step, Enabled, Acquire, Dies, Ends, Out, HitOut;
    OutIsInside(retention, events);
    if events == [] {
      NothingOut(retention);
    } else {
      var n: nat := |events| - 1;
      var before, last := events[..n], events[n];
      HandlesAreAnswers(retention, before, handle);
      HitStep(retention, After(retention, before).value, last, handle);
      MissStep(retention, After(retention, before).value, last);
      LastHit(retention, events, handle);
      LastOut(retention, events, Miss);
      HitsCarryOver(retention, events, handle);
      MissCarriesOver(retention, events);
      assert HitOut(retention, events, n, handle) ==> exists i: nat :: HitOut(retention, events, i, handle);
      assert Out(retention, events, n, Miss) ==> exists i: nat :: Out(retention, events, i, Miss);
    }
  }

  lemma OutIsInside(retention: int, events: seq<Event>)
    ensures forall i: nat, mode :: Out(retention, events, i, mode) ==> i < |events|
    ensures forall i: nat, handle :: HitOut(retention, events, i, handle) ==> i < |events|
  {
    hide After, Acquire, Ends;
  }

  lemma NothingOut(retention: int)
    ensures forall i: nat, mode :: !Out(retention, [], i, mode)
    ensures forall i: nat, handle :: !HitOut(retention, [], i, handle)
    ensures After(retention, []) == Some(FRESH)
  {
  }

  lemma LastOut(retention: int, events: seq<Event>, mode: Mode)
    requires events != [] && After(retention, events).Some?
    ensures var n := |events| - 1;
            var s, e := After(retention, events[..n]).value, events[n];
            Out(retention, events, n, mode) <==> e.Acquiring? && Acquire(s, e.canRead, e.canWrite, e.handle, e.total).1 == mode
  {
    hide Acquire, Ends, Step, Enabled;
  }

  lemma LastHit(retention: int, events: seq<Event>, handle: nat)
    requires events != [] && After(retention, events).Some?
    ensures var n := |events| - 1;
            var s, e := After(retention, events[..n]).value, events[n];
            HitOut(retention, events, n, handle) <==>
              e.Acquiring? && e.handle == handle && Acquire(s, e.canRead, e.canWrite, e.handle, e.total).1 == Hit
  {
    hide Acquire, Ends, Step, Enabled, After;
    LastOut(retention, events, Hit);
  }

  lemma HitsCarryOver(retention: int, events: seq<Event>, handle: nat)
    requires events != []
    ensures var n := |events| - 1;
            var before, last := events[..n], events[n];
            (exists i: nat :: i < n && HitOut(retention, events, i, handle)) <==>
            (exists i: nat :: HitOut(retention, before, i, handle)) && !Dies(last) && !(last.ReleasingHit? && last.handle == handle)
  {
    hide After, Acquire;
    var n: nat := |events| - 1;
    var before, last := events[..n], events[n];
    forall i: nat | i < n
      ensures HitOut(retention, events, i, handle) <==> HitOut(retention, before, i, handle) && !Ends(events[i], Hit, last)
      ensures before[i] == events[i]
    {
      assert before[i] == events[i];
      OutBefore(retention, events, i, Hit);
    }
  }

  lemma MissCarriesOver(retention: int, events: seq<Event>)
    requires events != []
    ensures var n := |events| - 1;
            var before, last := events[..n], events[n];
            (exists i: nat :: i < n && Out(retention, events, i, Miss)) <==>
            (exists i: nat :: Out(retention, before, i, Miss)) && !Dies(last) && !last.ReleasingMiss?
  {
    hide After, Acquire;
    var n: nat := |events| - 1;
    var before, last := events[..n], events[n];
    forall i: nat | i < n
      ensures Out(retention, events, i, Miss) <==> Out(retention, before, i, Miss) && !Ends(events[i], Miss, last)
      ensures before[i] == events[i]
    {
      OutBefore(retention, events, i, Miss);
    }
  }

  /** What the `i`th event was told is still out at the `j`th, and the `j`th is refused. */
  lemma LaterIsRefused(retention: int, events: seq<Event>, i: nat, j: nat, mode: Mode)
    requires After(retention, events).Some? && i < j < |events| && (mode == Hit || mode == Miss) && Out(retention, events, i, mode)
    ensures !Told(retention, events, j, Miss)
    ensures mode == Miss ==> !Told(retention, events, j, Hit)
  {
    hide Step, Enabled, Leaked, SweptAt, Range, After, Ends, HandlesOut;
    var before := events[..j];
    BeforeIsReached(retention, events, j);
    assert before[..i] == events[..i] && before[i] == events[i];
    assert forall k :: i < k < j ==> before[k] == events[k];
    assert Out(retention, before, i, mode);
    assert mode == Hit ==> HitOut(retention, before, i, events[i].handle);
    HandlesAreAnswers(retention, before, if events[i].Acquiring? then events[i].handle else 0);
    RunsKeep(retention, before);
  }

  /** In every run, a miss shares its key with nobody: while it is out, no hit is out and no other miss. */
  lemma MissIsAlone(retention: int, events: seq<Event>, i: nat, j: nat)
    requires After(retention, events).Some? && i != j && Out(retention, events, i, Miss)
    ensures !Out(retention, events, j, Hit) && !Out(retention, events, j, Miss)
  {
    hide After, Acquire, Ends, Step, Enabled;
    if i < j < |events| {
      LaterIsRefused(retention, events, i, j, Miss);
    } else if j < i {
      if Out(retention, events, j, Hit) {
        LaterIsRefused(retention, events, j, i, Hit);
      } else if Out(retention, events, j, Miss) {
        LaterIsRefused(retention, events, j, i, Miss);
      }
    }
  }
}
