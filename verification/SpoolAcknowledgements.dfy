/** The sender's runs against the acknowledgements they were given, read off the events. */
module SpoolAcknowledgements {
  import opened Bytes
  import opened Spool
  import opened SpoolSending
  import Sorting

  // ----- what the events acknowledge -----

  /** The sequence an event names as acknowledged, if it names one. */
  function Named(event: Event): Option<int> {
    match event
    case Ack(sequence, _) => Some(sequence)
    case Adopt(resume) => resume
    case _ => None
  }

  /** The opening cursor or some event of the run named this sequence, or a later one. */
  ghost predicate Acknowledged(acked: int, events: seq<Event>, sequence: int) {
    sequence <= 0 || sequence <= acked || exists i :: 0 <= i < |events| && Named(events[i]).Some? && sequence <= Named(events[i]).value
  }

  /**
   * Where the acknowledgements of a run stand: the largest sequence acknowledged since the connection was last
   * adopted at one, that one included, and never below zero.
   */
  function Standing(acked: int, events: seq<Event>): int {
    if events == [] then (if acked > 0 then acked else 0)
    else
      var last := |events| - 1;
      var before := Standing(acked, events[..last]);
      match events[last]
      case Ack(sequence, _) => if sequence > before then sequence else before
      case Adopt(resume) => if resume.None? then before else if resume.value > 0 then resume.value else 0
      case _ => before
  }

  lemma AcknowledgedLater(acked: int, events: seq<Event>, sequence: int)
    requires events != [] && Acknowledged(acked, events[..|events| - 1], sequence)
    ensures Acknowledged(acked, events, sequence)
  {
    var last := |events| - 1;
    if sequence > 0 && sequence > acked {
      var i :| 0 <= i < |events[..last]| && Named(events[..last][i]).Some? && sequence <= Named(events[..last][i]).value;
      assert events[i] == events[..last][i];
    }
  }

  /** Where they stand was itself named, so it is never above the largest sequence named. */
  lemma {:induction false} StandingWasNamed(acked: int, events: seq<Event>)
    ensures Standing(acked, events) >= 0 && Acknowledged(acked, events, Standing(acked, events))
    decreases |events|
  {
    if events != [] {
      var last := |events| - 1;
      StandingWasNamed(acked, events[..last]);
      AcknowledgedLater(acked, events, Standing(acked, events[..last]));
      assert Named(events[last]).Some? ==> Acknowledged(acked, events, Named(events[last]).value);
    }
  }

  // ----- the cursor -----

  lemma PumpLeavesCursor(s: Sender, outcomes: seq<bool>)
    ensures Pump(s, outcomes).sender.lastAcked == s.lastAcked
  {
    PumpAccounts(s, outcomes);
  }

  lemma StepMovesCursor(y: System, event: Event, maxQueue: int)
    requires Enabled(y, event) && y.sender.lastAcked >= 0
    ensures Step(y, event, maxQueue).sender.lastAcked ==
              match event
              case Ack(sequence, _) => if sequence > y.sender.lastAcked then sequence else y.sender.lastAcked
              case Adopt(resume) => if resume.None? then y.sender.lastAcked else if resume.value > 0 then resume.value else 0
              case _ => y.sender.lastAcked
  {
    hide Pump, Sorting.Sort, DropAcked;
    forall s: Sender, outcomes
      ensures Pump(s, outcomes).sender.lastAcked == s.lastAcked
    {
      PumpLeavesCursor(s, outcomes);
    }
  }

  /** In every run the sender's cursor is where the acknowledgements stand. */
  lemma {:induction false} CursorStands(disk: seq<Chunk>, acked: int, events: seq<Event>, maxQueue: int)
    requires After(Opened(disk, acked), events, maxQueue).Some?
    ensures After(Opened(disk, acked), events, maxQueue).value.sender.lastAcked == Standing(acked, events) >= 0
    decreases |events|
  {
    hide Step, Enabled;
    if events != [] {
      var last := |events| - 1;
      CursorStands(disk, acked, events[..last], maxQueue);
      StepMovesCursor(After(Opened(disk, acked), events[..last], maxQueue).value, events[last], maxQueue);
    }
  }

  /**
   * In every run the cursor is at a sequence that was named, and each chunk ever enqueued was acknowledged by some
   * event or by the opening cursor, or is queued, or was taken by the wire, or is ahead of a running replay, or is owed one.
   */
  lemma NothingUnacknowledgedIsLost(disk: seq<Chunk>, acked: int, events: seq<Event>, maxQueue: int)
    requires Rising(disk) && After(Opened(disk, acked), events, maxQueue).Some?
    ensures var y := After(Opened(disk, acked), events, maxQueue).value;
            && Acknowledged(acked, events, y.sender.lastAcked)
            && forall c :: c in y.enqueued ==>
                 || Acknowledged(acked, events, c.sequence)
                 || c in y.sender.queue || c in y.accepted || y.sender.needsReplay
                 || exists i :: 0 <= i < |y.replays| && c in y.replays[i]
  {
    hide After, Rising, Standing;
    SenderLosesNothing(disk, acked, events, maxQueue);
    CursorStands(disk, acked, events, maxQueue);
    StandingWasNamed(acked, events);
    var y := After(Opened(disk, acked), events, maxQueue).value;
    forall c | c in y.enqueued && c.sequence <= y.sender.lastAcked
      ensures Acknowledged(acked, events, c.sequence)
    {
      UpToNamed(acked, events, y.sender.lastAcked, c.sequence);
    }
    assert forall c :: c in y.enqueued ==> Cared(y, c);
  }

  lemma UpToNamed(acked: int, events: seq<Event>, named: int, sequence: int)
    requires Acknowledged(acked, events, named) && sequence <= named
    ensures Acknowledged(acked, events, sequence)
  {
  }

  // ----- owed replays -----

  /** A replay that just started has every chunk on disk above the cursor, in order, and nothing else. */
  ghost predicate ReplaysAll(replay: seq<Chunk>, disk: seq<Chunk>, cursor: int) {
    Rising(replay) && forall c :: c in replay <==> c in disk && c.sequence > cursor
  }

  lemma {:induction false} AboveRises(disk: seq<Chunk>, sequence: int)
    requires Rising(disk)
    ensures Rising(Above(disk, sequence))
    decreases |disk|
  {
    if disk != [] {
      AboveRises(disk[1..], sequence);
      AboveMembers(disk[1..], sequence);
      var rest := Above(disk[1..], sequence);
      assert forall i :: 0 <= i < |rest| ==> rest[i] in rest;
    }
  }

  /**
   * An acknowledgement starts a replay exactly when one is owed and the queue it leaves has room, and then none is
   * owed any more; adopting a connection always starts one; nothing else does. An offer comes to owe one only
   * when an unacknowledged chunk that is not queued meets a full queue.
   */
  lemma OwedReplayIsPaid(y: System, event: Event, maxQueue: int)
    requires Inv(y, maxQueue) && Enabled(y, event)
    ensures var z := Step(y, event, maxQueue);
            var starts := match event
                          case Ack(_, _) => y.sender.needsReplay && |z.sender.queue| < maxQueue
                          case Adopt(_) => true
                          case _ => false;
            && (starts ==> |z.replays| == |y.replays| + 1 && z.replays[..|y.replays|] == y.replays
                           && ReplaysAll(z.replays[|y.replays|], y.disk, z.sender.lastAcked))
            && (!starts ==> |z.replays| == |y.replays|)
            && (event.Ack? ==> (z.sender.needsReplay <==> y.sender.needsReplay && !starts))
            && (z.sender.needsReplay && !y.sender.needsReplay ==>
                  |y.sender.queue| >= maxQueue
                  && (event.Offer? ==> event.chunk.sequence > y.sender.lastAcked
                                       && forall i :: 0 <= i < |y.sender.queue| ==> y.sender.queue[i].sequence != event.chunk.sequence))
  {
    hide Pump, Sorting.Sort, DropAcked, Rising, Above;
    forall s: Sender, outcomes
      ensures Pump(s, outcomes).sender.needsReplay == s.needsReplay && Pump(s, outcomes).sender.lastAcked == s.lastAcked
    {
      PumpAccounts(s, outcomes);
    }
    var cursor := Step(y, event, maxQueue).sender.lastAcked;
    AboveRises(y.disk, cursor);
    AboveMembers(y.disk, cursor);
  }
}
