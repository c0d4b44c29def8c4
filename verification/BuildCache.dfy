/** One key of the build cache: counted hits, an exclusive miss writer, publication, eviction, crashes. */
module BuildCache {
  import opened Bytes

  /** The pieces of a published copy, and how many the job wrote in all. */
  datatype Copy = Copy(pieces: set<nat>, total: nat)

  /** `users` is the `active_users` of meta.json, None while that file is missing or unreadable. */
  datatype Dir = Dir(published: bool, users: Option<int>, copy: Copy)

  /** Where the miss writer is: its job still writing, then the three moves of a publication, then waiting to be released. */
  datatype Phase = Filling | Staged | Aside | Over

  /** The writer's temporary directory: the pieces in it, and its modification time. */
  datatype Temp = Temp(pieces: set<nat>, modified: int)

  /** A job that is to write `total` pieces and has written `next` of them. */
  datatype Writer = Writer(total: nat, next: nat, temp: Option<Temp>, phase: Phase)

  /** A lock file is absent, held by the living, or left by the dead. */
  datatype Lock = Free | Held | Dead

  /** `hits` are the live hit handles; `candidate` is the eviction round's first look; `clock` is the time in milliseconds. */
  datatype Slot = Slot(dir: Option<Dir>, backup: Option<Dir>, lock: Lock, hits: set<nat>, writer: Option<Writer>, candidate: bool, clock: int)

  datatype Mode = Hit | Miss | ReadDisabled | WriteDisabled

  const NO_COPY := Copy({}, 0)
  const EMPTY_DIR := Dir(false, None, NO_COPY)
  const NO_TEMP: Option<Temp> := None

  predicate Published(dir: Option<Dir>) {
    dir.Some? && dir.value.published
  }

  function Users(dir: Option<Dir>): Option<int> {
    if dir.Some? then dir.value.users else None
  }

  /** `mkdir` of the key's directory, which every attempt at the lock begins with. */
  function WithDir(s: Slot): Slot {
    if s.dir.None? then s.(dir := Some(EMPTY_DIR)) else s
  }

  /** One user more; without a readable count, the first. */
  function OneUserMore(dir: Dir): Dir {
    dir.(users := Some((if dir.users.Some? then dir.users.value else 0) + 1))
  }

  /** One user fewer, never below zero; without a readable count nothing is written. */
  function OneUserFewer(dir: Option<Dir>): Option<Dir> {
    if Users(dir).None? then dir
    else
      var left := Users(dir).value - 1;
      Some(dir.value.(users := Some(if left > 0 then left else 0)))
  }

  function Acquire(s: Slot, canRead: bool, canWrite: bool, handle: nat, total: nat): (Slot, Mode) {
    if !canRead then (s, ReadDisabled)
    else
      var t := WithDir(s);
      if s.lock == Held then (t, ReadDisabled)
      else if Published(t.dir) then (t.(dir := Some(OneUserMore(t.dir.value)), lock := Free, hits := t.hits + {handle}), Hit)
      else if !canWrite then (t.(lock := Free), WriteDisabled)
      else (t.(lock := Held, writer := Some(Writer(total, 0, Some(Temp({}, s.clock)), Filling))), Miss)
  }

  /** A hit is given back; when the lock cannot be had, its user stays counted. */
  function ReleaseHit(s: Slot, handle: nat, timedOut: bool): Slot {
    var t := WithDir(s).(hits := s.hits - {handle});
    if timedOut || s.lock == Held then t else t.(lock := Free, dir := OneUserFewer(t.dir))
  }

  function ReleaseMiss(s: Slot): Slot {
    s.(dir := if Published(s.dir) then OneUserFewer(s.dir) else s.dir, lock := Free, writer := None)
  }

  // ----- publication, move by move -----

  predicate CanStage(w: Writer) {
    w.phase == Filling && w.next == w.total && w.temp.Some?
  }

  /** The meta file and the marker go into the temporary directory; an old backup goes. */
  function Stage(s: Slot): Slot
    requires s.writer.Some? && s.writer.value.temp.Some?
  {
    var w := s.writer.value;
    s.(backup := None, writer := Some(w.(phase := Staged, temp := Some(w.temp.value.(modified := s.clock)))))
  }

  /** Not published: the temporary directory is discarded. */
  function Refuse(s: Slot): Slot
    requires s.writer.Some?
  {
    s.(writer := Some(s.writer.value.(phase := Over, temp := NO_TEMP)))
  }

  function MoveAside(s: Slot): Slot
    requires s.writer.Some?
  {
    s.(backup := if s.dir.Some? then s.dir else s.backup, dir := None, writer := Some(s.writer.value.(phase := Aside)))
  }

  /** The rename aside failed: the staged directory stays where it is, and so does the key. */
  function GiveUp(s: Slot): Slot
    requires s.writer.Some?
  {
    s.(writer := Some(s.writer.value.(phase := Over)))
  }

  /** The rename that publishes needs the temporary directory there and nothing but an empty directory in the way. */
  predicate CanPromote(s: Slot)
    requires s.writer.Some?
  {
    s.writer.value.temp.Some? && !Published(s.dir)
  }

  function Promote(s: Slot): Slot
    requires s.writer.Some? && s.writer.value.temp.Some?
  {
    var w := s.writer.value;
    s.(dir := Some(Dir(true, Some(1), Copy(w.temp.value.pieces, w.total))), backup := None,
       writer := Some(w.(phase := Over, temp := NO_TEMP)))
  }

  /** The rename failed: what was moved aside comes back if its place is free. */
  function RollBack(s: Slot): Slot
    requires s.writer.Some?
  {
    s.(dir := if s.backup.Some? && !Published(s.dir) then s.backup else s.dir, backup := None,
       writer := Some(s.writer.value.(phase := Over)))
  }

  /**
   * `publishIfAllowed`, when nothing else happens in between: `aside` and `renamed` are what the file system answers
   * to the rename of an existing key and to the rename that publishes.
   */
  function Publish(s: Slot, succeeded: bool, canWrite: bool, aside: bool, renamed: bool): Slot
    requires s.writer.Some?
  {
    if !succeeded || !canWrite || s.writer.value.temp.None? then Refuse(s)
    else if s.dir.Some? && !aside then GiveUp(Stage(s))
    else if renamed then Promote(MoveAside(Stage(s)))
    else RollBack(MoveAside(Stage(s)))
  }

  // ----- an eviction round -----

  /** The first look: published, no living lock (a dead one is reclaimed), and a readable count of no users. */
  function Look(s: Slot): Slot {
    if !Published(s.dir) || s.lock == Held then s.(candidate := false)
    else s.(lock := Free, candidate := Users(s.dir).Some? && Users(s.dir).value <= 0)
  }

  /** The second look, right before the deletion: no living lock, and no user counted. */
  predicate StillInactive(s: Slot) {
    s.lock != Held && !(Users(s.dir).Some? && Users(s.dir).value > 0)
  }

  function Evict(s: Slot): Slot {
    s.(dir := None, lock := Free, candidate := false)
  }

  /** A round whose two looks find the key as it is now deletes it. */
  predicate RoundEvicts(s: Slot) {
    Look(s).candidate && StillInactive(Look(s))
  }

  /** The round's sweep of temporary directories: this one goes if it was last modified the retention time ago. */
  function Sweep(s: Slot, retention: int): Slot
    requires s.writer.Some?
  {
    if PastRetention(s, retention) then s.(writer := Some(s.writer.value.(temp := NO_TEMP))) else s
  }

  predicate PastRetention(s: Slot, retention: int) {
    s.writer.Some? && s.writer.value.temp.Some? && s.clock - s.writer.value.temp.value.modified >= retention
  }

  // ----- the store's methods -----

  class CacheSlot {
    var dir: Option<Dir>
    var backup: Option<Dir>
    var lock: Lock
    var hits: set<nat>
    var writer: Option<Writer>
    var candidate: bool
    var clock: int

    function State(): Slot
      reads this
    {
      Slot(dir, backup, lock, hits, writer, candidate, clock)
    }

    constructor (now: int)
      ensures State() == Slot(None, None, Free, {}, None, false, now)
    {
      dir, backup, lock, hits, writer, candidate, clock := None, None, Free, {}, None, false, now;
    }

    /** The lock file is created, an orphan's first removed; a live holder makes the attempt time out. */
    method AcquireExclusiveLock() returns (ok: bool)
      modifies this
      ensures ok == (old(lock) != Held)
      ensures State() == WithDir(old(State())).(lock := Held)
    {
      if dir.None? {
        dir := Some(EMPTY_DIR);
      }
      ok := lock != Held;
      if lock == Dead {
        lock := Free;
      }
      if lock == Free {
        lock := Held;
      }
    }

    method AcquireForJob(canRead: bool, canWrite: bool, handle: nat, total: nat) returns (mode: Mode)
      modifies this
      ensures (State(), mode) == Acquire(old(State()), canRead, canWrite, handle, total)
      ensures mode == Hit <==> canRead && old(lock != Held && dir.Some? && dir.value.published)
      ensures mode == Miss <==> canRead && canWrite && old(lock != Held && !(dir.Some? && dir.value.published))
      ensures mode == WriteDisabled <==> canRead && !canWrite && old(lock != Held && !(dir.Some? && dir.value.published))
      ensures hits == old(hits) + (if mode == Hit then {handle} else {})
      ensures writer == if mode == Miss then Some(Writer(total, 0, Some(Temp({}, clock)), Filling)) else old(writer)
      ensures mode != ReadDisabled ==> lock == if mode == Miss then Held else Free
    {
      if !canRead {
        return ReadDisabled;
      }
      var ok := AcquireExclusiveLock();
      if !ok {
        return ReadDisabled;
      }
      if Published(dir) {
        var users := if dir.value.users.Some? then dir.value.users.value else 0;
        dir := Some(dir.value.(users := Some(users + 1)));
        lock := Free;
        hits := hits + {handle};
        return Hit;
      }
      if !canWrite {
        lock := Free;
        return WriteDisabled;
      }
      writer := Some(Writer(total, 0, Some(Temp({}, clock)), Filling));
      return Miss;
    }

    method ReleaseHitHandle(handle: nat)
      modifies this
      ensures State() == ReleaseHit(old(State()), handle, false)
    {
      hits := hits - {handle};
      var ok := AcquireExclusiveLock();
      if !ok {
        return;
      }
      dir := OneUserFewer(dir);
      lock := Free;
    }

    method ReleaseMissHandle()
      requires writer.Some?
      modifies this
      ensures State() == ReleaseMiss(old(State()))
    {
      writer := None;
      if Published(dir) {
        dir := OneUserFewer(dir);
      }
      lock := Free;
    }

    method PublishIfAllowed(succeeded: bool, canWrite: bool, aside: bool, renamed: bool) returns (ok: bool)
      requires writer.Some?
      modifies this
      ensures State() == Publish(old(State()), succeeded, canWrite, aside, renamed)
      ensures !ok <==> succeeded && canWrite && old(writer.value.temp.Some?) && !((aside || old(dir.None?)) && renamed)
    {
      var w := writer.value;
      if !succeeded || !canWrite || w.temp.None? {
        writer := Some(w.(phase := Over, temp := NO_TEMP));
        return true;
      }
      backup := None;
      w := w.(temp := Some(w.temp.value.(modified := clock)));
      if dir.Some? {
        if !aside {
          writer := Some(w.(phase := Over));
          return false;
        }
        backup := dir;
        dir := None;
      }
      if !renamed {
        if backup.Some? {
          dir := backup;
        }
        backup := None;
        writer := Some(w.(phase := Over));
        return false;
      }
      writer := Some(w.(phase := Over, temp := NO_TEMP));
      dir := Some(Dir(true, Some(1), Copy(w.temp.value.pieces, w.total)));
      backup := None;
      return true;
    }

    method LookForEviction()
      modifies this
      ensures State() == Look(old(State()))
    {
      candidate := false;
      if !Published(dir) || lock == Held {
        return;
      }
      lock := Free;
      candidate := dir.value.users.Some? && dir.value.users.value <= 0;
    }

    /** The recheck and the deletion at the end of an eviction round. */
    method EvictIfInactive() returns (evicted: bool)
      modifies this
      ensures evicted == StillInactive(old(State()))
      ensures State() == if evicted then Evict(old(State())) else old(State()).(lock := if old(lock) == Dead then Free else old(lock))
    {
      evicted := false;
      if lock == Held {
        return;
      }
      lock := Free;
      if dir.Some? && dir.value.users.Some? && dir.value.users.value > 0 {
        return;
      }
      dir := None;
      candidate := false;
      evicted := true;
    }
  }

  // ----- runs -----

  /** What a crash inside a locked section leaves of the meta file: as it was, torn, or as the section was writing it. */
  datatype Fate = Kept | Torn | Written

  datatype Event =
    | Acquiring(canRead: bool, canWrite: bool, handle: nat, total: nat)
    | ReleasingHit(handle: nat, timedOut: bool)
    | ReleasingMiss
    /** The job writes its next piece into the temporary directory, making it again if it is gone. */
    | Writing
    | Refusing
    | Staging
    | MovingAside(works: bool)
    | Promoting(works: bool)
    | Reclaiming
    /** An eviction round passes by the temporary directory, a backup, the key for its first look and for its second. */
    | Sweeping
    | SweepingBackup
    | Looking
    | Evicting
    | Passing(time: nat)
    /** The agent dies between sections. */
    | Crashing
    /** The agent dies in the section that counts a hit, or in one that takes a user off. */
    | CrashingInHit(fate: Fate)
    | CrashingInRelease(fate: Fate)

  predicate Enabled(s: Slot, event: Event) {
    match event
    case Acquiring(_, _, handle, _) => handle !in s.hits
    case ReleasingHit(handle, _) => handle in s.hits
    case ReleasingMiss => s.writer.Some? && (s.writer.value.phase == Filling || s.writer.value.phase == Over)
    case Writing => s.writer.Some? && s.writer.value.phase == Filling && s.writer.value.next < s.writer.value.total
    case Refusing => s.writer.Some? && s.writer.value.phase == Filling
    case Staging => s.writer.Some? && CanStage(s.writer.value)
    case MovingAside(works) => s.writer.Some? && s.writer.value.phase == Staged && (works || s.dir.Some?)
    case Promoting(works) => s.writer.Some? && s.writer.value.phase == Aside && (works ==> CanPromote(s))
    case Reclaiming => s.lock == Dead
    case Sweeping => s.writer.Some?
    case SweepingBackup => true
    case Looking => true
    case Evicting => s.candidate && StillInactive(s)
    case Passing(_) => true
    case Crashing => true
    case CrashingInHit(_) => s.lock != Held && Published(s.dir)
    case CrashingInRelease(_) => Published(s.dir) && (HandlesOut(s) > 0)
  }

  /** Users a living handle stands for: the hits, and a publisher until it is released. */
  function HandlesOut(s: Slot): nat {
    |s.hits| + if s.writer.Some? && Published(s.dir) then 1 else 0
  }

  function WriteNext(s: Slot): Slot
    requires s.writer.Some?
  {
    var w := s.writer.value;
    var temp := if w.temp.Some? then w.temp.value else Temp({}, s.clock);
    s.(writer := Some(w.(temp := Some(temp.(pieces := temp.pieces + {w.next})), next := w.next + 1)))
  }

  /** Every handle dies; a lock that was held is left behind. */
  function Crash(s: Slot, dir: Option<Dir>, locked: bool): Slot {
    s.(dir := dir, lock := if locked || s.lock == Held then Dead else s.lock, hits := {}, writer := None, candidate := false)
  }

  function AfterFate(fate: Fate, kept: Option<Dir>, written: Option<Dir>): Option<Dir> {
    match fate
    case Kept => kept
    case Torn => if kept.Some? then Some(kept.value.(users := None)) else kept
    case Written => written
  }

  function Step(retention: int, s: Slot, event: Event): Slot
    requires Enabled(s, event)
  {
    match event
    case Acquiring(canRead, canWrite, handle, total) => Acquire(s, canRead, canWrite, handle, total).0
    case ReleasingHit(handle, timedOut) => ReleaseHit(s, handle, timedOut)
    case ReleasingMiss => ReleaseMiss(s)
    case Writing => WriteNext(s)
    case Refusing => Refuse(s)
    case Staging => Stage(s)
    case MovingAside(works) => if works then MoveAside(s) else GiveUp(s)
    case Promoting(works) => if works then Promote(s) else RollBack(s)
    case Reclaiming => s.(lock := Free)
    case Sweeping => Sweep(s, retention)
    case SweepingBackup => s.(backup := None)
    case Looking => Look(s)
    case Evicting => Evict(s)
    case Passing(time) => s.(clock := s.clock + time)
    case Crashing => Crash(s, s.dir, false)
    case CrashingInHit(fate) => Crash(s, AfterFate(fate, s.dir, Some(OneUserMore(s.dir.value))), true)
    case CrashingInRelease(fate) => Crash(s, AfterFate(fate, s.dir, OneUserFewer(s.dir)), true)
  }

  const FRESH := Slot(None, None, Free, {}, None, false, 0)

  /** Where a run from an empty store ends, or None when some step of it could not happen. */
  function After(retention: int, events: seq<Event>): Option<Slot> {
    if events == [] then Some(FRESH)
    else
      var before := After(retention, events[..|events| - 1]);
      var last := events[|events| - 1];
      if before.Some? && Enabled(before.value, last) then Some(Step(retention, before.value, last)) else None
  }
}
