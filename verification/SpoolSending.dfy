/** The bounded in-memory sender over the durable spool, and what its runs never lose. */
module SpoolSending {
  import opened Bytes
  import opened ChunkIndex
  import opened Spool
  import Sorting

  /** The sender's fields, as a value. */
  datatype Sender = Sender(queue: seq<Chunk>, lastAcked: int, needsReplay: bool)

  function BySequence(): (Chunk, Chunk) -> bool {
    (a: Chunk, b: Chunk) => a.sequence <= b.sequence
  }

  predicate Queued(queue: seq<Chunk>, sequence: int) {
    exists i :: 0 <= i < |queue| && queue[i].sequence == sequence
  }

  /** What a call hands to the wire: the sender after it, the chunks the wire took, and the outcomes left. */
  datatype Sent = Sent(sender: Sender, accepted: seq<Chunk>, outcomes: seq<bool>)

  /** `pump`, against the outcomes the wire is going to report; with none left the wire is down. */
  function Pump(s: Sender, outcomes: seq<bool>): Sent
    decreases |s.queue|
  {
    if s.queue == [] then Sent(s, [], outcomes)
    else if s.queue[0].sequence <= s.lastAcked then Pump(s.(queue := s.queue[1..]), outcomes)
    else if outcomes == [] then Sent(s, [], [])
    else if !outcomes[0] then Sent(s, [], outcomes[1..])
    else
      var later := Pump(s.(queue := s.queue[1..]), outcomes[1..]);
      later.(accepted := [s.queue[0]] + later.accepted)
  }

  function Enqueue(s: Sender, chunk: Chunk, maxQueue: int, outcomes: seq<bool>): Sent {
    if chunk.sequence <= s.lastAcked then Sent(s, [], outcomes)
    else if Queued(s.queue, chunk.sequence) then Sent(s, [], outcomes)
    else if |s.queue| >= maxQueue then Sent(s.(needsReplay := true), [], outcomes)
    else Pump(s.(queue := Sorting.Sort(BySequence(), s.queue + [chunk])), outcomes)
  }

  /** The queue without the acknowledged chunks at its head. */
  function DropAcked(queue: seq<Chunk>, acked: int): seq<Chunk> {
    if queue != [] && queue[0].sequence <= acked then DropAcked(queue[1..], acked) else queue
  }

  /** `onAck`, and whether it starts a replay. */
  function OnAck(s: Sender, sequence: int, maxQueue: int, outcomes: seq<bool>): (Sent, bool) {
    var acked := if sequence > s.lastAcked then sequence else s.lastAcked;
    var sent := Pump(s.(lastAcked := acked, queue := DropAcked(s.queue, acked)), outcomes);
    if sent.sender.needsReplay && |sent.sender.queue| < maxQueue
    then (sent.(sender := sent.sender.(needsReplay := false)), true)
    else (sent, false)
  }

  function SetAcked(s: Sender, sequence: int): Sender {
    s.(lastAcked := if sequence > 0 then sequence else 0)
  }

  // ----- the class -----

  /** The connection: outcomes it will report, and what it has taken. */
  class Wire {
    var outcomes: seq<bool>
    ghost var accepted: seq<Chunk>

    constructor (outcomes: seq<bool>)
      ensures this.outcomes == outcomes && accepted == []
    {
      this.outcomes := outcomes;
      accepted := [];
    }

    method Send(chunk: Chunk) returns (ok: bool)
      modifies this
      ensures ok == (old(outcomes) != [] && old(outcomes)[0])
      ensures outcomes == if old(outcomes) == [] then [] else old(outcomes)[1..]
      ensures accepted == if ok then old(accepted) + [chunk] else old(accepted)
    {
      ok := |outcomes| > 0 && outcomes[0];
      if |outcomes| > 0 {
        outcomes := outcomes[1..];
      }
      if ok {
        accepted := accepted + [chunk];
      }
    }
  }

  class SpoolSender {
    const maxQueue: int
    const wire: Wire
    var queue: seq<Chunk>
    var lastAcked: int
    var pumping: bool
    var needsReplay: bool

    function State(): Sender
      reads this
    {
      Sender(queue, lastAcked, needsReplay)
    }

    constructor (maxQueue: int, wire: Wire)
      ensures this.maxQueue == maxQueue && this.wire == wire
      ensures State() == Sender([], 0, false) && !pumping
    {
      this.maxQueue := maxQueue;
      this.wire := wire;
      queue, lastAcked, pumping, needsReplay := [], 0, false, false;
    }

    /** This object and its wire are as `sent` says, the wire having taken `sent.accepted` on top of `taken`. */
    ghost predicate Is(sent: Sent, taken: seq<Chunk>)
      reads this, wire
    {
      State() == sent.sender && wire.outcomes == sent.outcomes && wire.accepted == taken + sent.accepted
    }

    method PumpQueue()
      requires !pumping
      modifies this, wire
      ensures Is(Pump(old(State()), old(wire.outcomes)), old(wire.accepted)) && !pumping
    {
      if pumping {
        return;
      }
      pumping := true;
      ghost var goal := Pump(State(), wire.outcomes);
      ghost var taken := wire.accepted;
      assert taken + goal.accepted == wire.accepted + goal.accepted;
      while |queue| > 0
        invariant goal.sender == Pump(State(), wire.outcomes).sender && goal.outcomes == Pump(State(), wire.outcomes).outcomes
        invariant taken + goal.accepted == wire.accepted + Pump(State(), wire.outcomes).accepted
        decreases |queue|
      {
        var chunk := queue[0];
        if chunk.sequence <= lastAcked {
          queue := queue[1..];
          continue;
        }
        Assoc(wire.accepted, [chunk], Pump(Sender(queue[1..], lastAcked, needsReplay), if wire.outcomes == [] then [] else wire.outcomes[1..]).accepted);
        var ok := wire.Send(chunk);
        if !ok {
          assert wire.accepted + [] == wire.accepted;
          pumping := false;
          return;
        }
        queue := queue[1..];
      }
      assert wire.accepted + [] == wire.accepted;
      pumping := false;
    }

    method EnqueueChunk(chunk: Chunk)
      requires !pumping
      modifies this, wire
      ensures Is(Enqueue(old(State()), chunk, maxQueue, old(wire.outcomes)), old(wire.accepted)) && !pumping
    {
      assert wire.accepted + [] == wire.accepted;
      if chunk.sequence <= lastAcked {
        return;
      }
      if exists i :: 0 <= i < |queue| && queue[i].sequence == chunk.sequence {
        return;
      }
      if |queue| >= maxQueue {
        needsReplay := true;
        return;
      }
      queue := Sorting.Sort(BySequence(), queue + [chunk]);
      PumpQueue();
    }

    method Acknowledge(sequence: int) returns (startsReplay: bool)
      requires !pumping
      modifies this, wire
      ensures var (sent, starts) := OnAck(old(State()), sequence, maxQueue, old(wire.outcomes));
              Is(sent, old(wire.accepted)) && startsReplay == starts && !pumping
    {
      if sequence > lastAcked {
        lastAcked := sequence;
      }
      ghost var whole := queue;
      while |queue| > 0
        invariant DropAcked(whole, lastAcked) == DropAcked(queue, lastAcked)
        invariant !pumping && needsReplay == old(needsReplay)
        invariant lastAcked == if sequence > old(lastAcked) then sequence else old(lastAcked)
        invariant wire.outcomes == old(wire.outcomes) && wire.accepted == old(wire.accepted)
        decreases |queue|
      {
        if queue[0].sequence > lastAcked {
          break;
        }
        queue := queue[1..];
      }
      PumpQueue();
      startsReplay := false;
      if needsReplay && |queue| < maxQueue {
        needsReplay := false;
        startsReplay := true;
      }
    }

    method SeedAcked(sequence: int)
      modifies this`lastAcked
      ensures State() == SetAcked(old(State()), sequence)
    {
      lastAcked := if sequence > 0 then sequence else 0;
    }

    /** A replay left to itself: every chunk the spool hands over, enqueued in turn. */
    method StartReplay(chunks: seq<Chunk>)
      requires !pumping
      modifies this, wire
      ensures Is(Replay(old(State()), chunks, maxQueue, old(wire.outcomes)), old(wire.accepted)) && !pumping
    {
      ghost var goal := Replay(State(), chunks, maxQueue, wire.outcomes);
      ghost var taken := wire.accepted;
      assert chunks[0..] == chunks;
      for i := 0 to |chunks|
        invariant !pumping
        invariant goal.sender == Replay(State(), chunks[i..], maxQueue, wire.outcomes).sender
        invariant goal.outcomes == Replay(State(), chunks[i..], maxQueue, wire.outcomes).outcomes
        invariant taken + goal.accepted == wire.accepted + Replay(State(), chunks[i..], maxQueue, wire.outcomes).accepted
      {
        ghost var sent := Enqueue(State(), chunks[i], maxQueue, wire.outcomes);
        ghost var later := Replay(sent.sender, chunks[i + 1..], maxQueue, sent.outcomes);
        Assoc(wire.accepted, sent.accepted, later.accepted);
        assert chunks[i..][1..] == chunks[i + 1..];
        EnqueueChunk(chunks[i]);
      }
      assert wire.accepted + [] == wire.accepted;
    }
  }

  function Replay(s: Sender, chunks: seq<Chunk>, maxQueue: int, outcomes: seq<bool>): Sent
    decreases |chunks|
  {
    if chunks == [] then Sent(s, [], outcomes)
    else
      var sent := Enqueue(s, chunks[0], maxQueue, outcomes);
      var later := Replay(sent.sender, chunks[1..], maxQueue, sent.outcomes);
      later.(accepted := sent.accepted + later.accepted)
  }

  // ----- runs -----

  /**
   * The sender among everything that moves around it: the chunks durably on disk, those ever handed
   * to `enqueue`, those the wire took, and for each running replay the chunks it has yet to enqueue.
   */
  datatype System = System(sender: Sender, disk: seq<Chunk>, enqueued: set<Chunk>, accepted: set<Chunk>, replays: seq<seq<Chunk>>)

  /** One step. `outcomes` is what the wire reports to the sends the step makes. */
  datatype Event =
    | Write(chunk: Chunk)
    | Offer(chunk: Chunk, outcomes: seq<bool>)
    | Ack(sequence: int, outcomes: seq<bool>)
    | Adopt(resume: Option<int>)
    | ReplayStep(which: nat, outcomes: seq<bool>)

  /** Appends continue the numbering; only chunks already on disk are offered; a replay step needs a chunk left. */
  predicate Enabled(y: System, event: Event) {
    match event
    case Write(chunk) => y.disk == [] || y.disk[|y.disk| - 1].sequence < chunk.sequence
    case Offer(chunk, _) => chunk in y.disk
    case Ack(_, _) => true
    case Adopt(_) => true
    case ReplayStep(which, _) => which < |y.replays| && y.replays[which] != []
  }

  function Above(disk: seq<Chunk>, sequence: int): seq<Chunk> {
    if disk == [] then []
    else (if disk[0].sequence > sequence then [disk[0]] else []) + Above(disk[1..], sequence)
  }

  function Members(s: seq<Chunk>): set<Chunk> {
    set c | c in s
  }

  function Took(y: System, sent: Sent): System {
    y.(sender := sent.sender, accepted := y.accepted + Members(sent.accepted))
  }

  function Step(y: System, event: Event, maxQueue: int): System
    requires Enabled(y, event)
  {
    match event
    case Write(chunk) => y.(disk := y.disk + [chunk])
    case Offer(chunk, outcomes) =>
      Took(y, Enqueue(y.sender, chunk, maxQueue, outcomes)).(enqueued := y.enqueued + {chunk})
    case Ack(sequence, outcomes) =>
      var (sent, starts) := OnAck(y.sender, sequence, maxQueue, outcomes);
      Took(y, sent).(replays := if starts then y.replays + [Above(y.disk, sent.sender.lastAcked)] else y.replays)
    case Adopt(resume) =>
      var s := if resume.Some? then SetAcked(y.sender, resume.value) else y.sender;
      y.(sender := s, replays := y.replays + [Above(y.disk, s.lastAcked)])
    case ReplayStep(which, outcomes) =>
      var chunk := y.replays[which][0];
      Took(y, Enqueue(y.sender, chunk, maxQueue, outcomes)).(replays := y.replays[which := y.replays[which][1..]])
  }

  /** A sender just opened over a spool that already holds `disk`, its cursor seeded from the saved acknowledgement. */
  function Opened(disk: seq<Chunk>, acked: int): System {
    System(SetAcked(Sender([], 0, false), acked), disk, {}, {}, [])
  }

  /** Where a run ends, or None when some step of it could not happen. */
  function After(start: System, events: seq<Event>, maxQueue: int): Option<System> {
    if events == [] then Some(start)
    else
      var last := |events| - 1;
      var before := After(start, events[..last], maxQueue);
      if before.Some? && Enabled(before.value, events[last]) then Some(Step(before.value, events[last], maxQueue)) else None
  }

  // ----- the invariant -----

  predicate Rising(queue: seq<Chunk>) {
    forall i, j :: 0 <= i < j < |queue| ==> queue[i].sequence < queue[j].sequence
  }

  predicate Ahead(replays: seq<seq<Chunk>>, c: Chunk) {
    exists i :: 0 <= i < |replays| && c in replays[i]
  }

  predicate Held(y: System, c: Chunk) {
    c.sequence <= y.sender.lastAcked || c in y.sender.queue || c in y.accepted || y.sender.needsReplay
  }

  predicate Cared(y: System, c: Chunk) {
    Held(y, c) || Ahead(y.replays, c)
  }

  predicate Inv(y: System, maxQueue: int) {
    && Rising(y.disk) && Rising(y.sender.queue)
    && (y.sender.queue == [] || |y.sender.queue| <= maxQueue)
    && (forall c :: c in y.sender.queue ==> c in y.disk)
    && (forall c :: c in y.enqueued ==> c in y.disk && Cared(y, c))
    && (forall i, c :: 0 <= i < |y.replays| && c in y.replays[i] ==> c in y.disk)
  }

  /** How many chunks a pump takes off the queue. */
  function Popped(s: Sender, outcomes: seq<bool>): (k: nat)
    ensures k <= |s.queue|
    decreases |s.queue|
  {
    if s.queue == [] then 0
    else if s.queue[0].sequence <= s.lastAcked then 1 + Popped(s.(queue := s.queue[1..]), outcomes)
    else if outcomes == [] || !outcomes[0] then 0
    else 1 + Popped(s.(queue := s.queue[1..]), outcomes[1..])
  }

  /** Pumping loses nothing: what leaves the head of the queue is exactly what the wire took, in order, and what was acknowledged. */
  lemma {:induction false} PumpAccounts(s: Sender, outcomes: seq<bool>)
    ensures var k := Popped(s, outcomes);
            && Pump(s, outcomes).sender == s.(queue := s.queue[k..])
            && Pump(s, outcomes).accepted == Above(s.queue[..k], s.lastAcked)
    decreases |s.queue|
  {
    if s.queue == [] || (s.queue[0].sequence > s.lastAcked && (outcomes == [] || !outcomes[0])) {
      assert s.queue[0..] == s.queue;
    } else {
      var rest := s.(queue := s.queue[1..]);
      var left := if s.queue[0].sequence <= s.lastAcked then outcomes else outcomes[1..];
      PumpAccounts(rest, left);
      TakeMore(s.queue, Popped(rest, left));
    }
  }

  lemma TakeMore<T>(s: seq<T>, k: nat)
    requires s != [] && k <= |s[1..]|
    ensures s[1..][k..] == s[1 + k..]
    ensures s[..1 + k] != [] && s[..1 + k][0] == s[0] && s[..1 + k][1..] == s[1..][..k]
  {
  }

  /** A queue cut anywhere: the suffix rises, and every member is on one side. */
  lemma RisingSuffix(queue: seq<Chunk>, k: nat)
    requires Rising(queue) && k <= |queue|
    ensures Rising(queue[k..])
    ensures forall c :: c in queue <==> c in queue[..k] || c in queue[k..]
  {
    CutJoins([], queue, k);
    assert queue == queue[..k] + queue[k..];
  }

  /** What pumping a rising queue leaves behind. */
  lemma PumpKeeps(s: Sender, outcomes: seq<bool>)
    requires Rising(s.queue)
    ensures var sent := Pump(s, outcomes);
            && sent.sender.lastAcked == s.lastAcked && sent.sender.needsReplay == s.needsReplay
            && Rising(sent.sender.queue) && |sent.sender.queue| <= |s.queue|
            && (forall c :: c in sent.sender.queue ==> c in s.queue)
            && (forall c :: c in s.queue ==> c in sent.sender.queue || c.sequence <= s.lastAcked || c in sent.accepted)
  {
    hide Pump, Above, Popped, Rising;
    PumpAccounts(s, outcomes);
    var k := Popped(s, outcomes);
    RisingSuffix(s.queue, k);
    AboveMembers(s.queue[..k], s.lastAcked);
  }

  lemma {:induction false} DropAckedKeeps(queue: seq<Chunk>, acked: int)
    requires Rising(queue)
    ensures var left := DropAcked(queue, acked);
            && Rising(left) && |left| <= |queue|
            && (forall c :: c in left ==> c in queue)
            && (forall c :: c in queue ==> c in left || c.sequence <= acked)
    decreases |queue|
  {
    if queue != [] && queue[0].sequence <= acked {
      DropAckedKeeps(queue[1..], acked);
      assert forall c :: c in queue ==> c == queue[0] || c in queue[1..];
    }
  }

  /** Sorting a new chunk into a rising queue gives a rising queue of the same chunks and that one. */
  lemma SortInto(queue: seq<Chunk>, chunk: Chunk)
    requires Rising(queue) && !Queued(queue, chunk.sequence)
    ensures var sorted := Sorting.Sort(BySequence(), queue + [chunk]);
            && Rising(sorted) && |sorted| == |queue| + 1
            && (forall c :: c in sorted <==> c in queue || c == chunk)
  {
    var all := queue + [chunk];
    var sorted := Sorting.Sort(BySequence(), all);
    forall a, b | a in all && b in all && a.sequence == b.sequence
      ensures a == b
    {
      assert a != chunk && b != chunk ==> a in queue && b in queue;
    }
    Sorting.SortSorts(BySequence(), all);
    Sorting.SortPermutes(BySequence(), all);
    Sorting.SortMembers(BySequence(), all);
    Sorting.StaysDistinct(all, sorted);
    forall i, j | 0 <= i < j < |sorted|
      ensures sorted[i].sequence < sorted[j].sequence
    {
      assert sorted[i] in all && sorted[j] in all && sorted[i] != sorted[j];
    }
  }

  /** Offering a chunk, from outside or from a replay: the sender's part of the invariant. */
  lemma EnqueueAccounts(s: Sender, chunk: Chunk, maxQueue: int, outcomes: seq<bool>)
    requires Rising(s.queue) && (s.queue == [] || |s.queue| <= maxQueue)
    ensures var sent := Enqueue(s, chunk, maxQueue, outcomes);
            var q := sent.sender.queue;
            && sent.sender.lastAcked == s.lastAcked && (s.needsReplay ==> sent.sender.needsReplay)
            && Rising(q) && (q == [] || |q| <= maxQueue)
            && (forall c :: c in q ==> c in s.queue || c == chunk)
            && (forall c :: c in s.queue ==> c in q || c.sequence <= s.lastAcked || c in sent.accepted)
            && (chunk.sequence <= s.lastAcked || chunk in q || chunk in sent.accepted || sent.sender.needsReplay || Queued(s.queue, chunk.sequence))
  {
    hide Pump, Sorting.Sort, Rising, Queued;
    if chunk.sequence > s.lastAcked && !Queued(s.queue, chunk.sequence) && |s.queue| < maxQueue {
      SortInto(s.queue, chunk);
      var t := s.(queue := Sorting.Sort(BySequence(), s.queue + [chunk]));
      PumpKeeps(t, outcomes);
    }
  }

  /** Two chunks on disk with one sequence are one chunk. */
  lemma SameSequence(disk: seq<Chunk>, a: Chunk, b: Chunk)
    requires Rising(disk) && a in disk && b in disk && a.sequence == b.sequence
    ensures a == b
  {
    var i :| 0 <= i < |disk| && disk[i] == a;
    var j :| 0 <= j < |disk| && disk[j] == b;
  }

  lemma {:induction false} AboveMembers(disk: seq<Chunk>, sequence: int)
    ensures forall c :: c in Above(disk, sequence) <==> c in disk && c.sequence > sequence
    decreases |disk|
  {
    if disk != [] {
      AboveMembers(disk[1..], sequence);
      assert forall c :: c in disk <==> c == disk[0] || c in disk[1..];
    }
  }

  /** A step that only enqueues one chunk keeps every other chunk cared for. */
  lemma OfferKeeps(y: System, chunk: Chunk, maxQueue: int, outcomes: seq<bool>)
    requires Inv(y, maxQueue) && chunk in y.disk
    ensures var z := Took(y, Enqueue(y.sender, chunk, maxQueue, outcomes));
            Inv(z, maxQueue) && Held(z, chunk)
  {
    hide Enqueue, Rising;
    var sent := Enqueue(y.sender, chunk, maxQueue, outcomes);
    var z := Took(y, sent);
    EnqueueAccounts(y.sender, chunk, maxQueue, outcomes);
    if Queued(y.sender.queue, chunk.sequence) {
      var i :| 0 <= i < |y.sender.queue| && y.sender.queue[i].sequence == chunk.sequence;
      SameSequence(y.disk, y.sender.queue[i], chunk);
    }
    forall c | c in y.enqueued
      ensures Cared(z, c)
    {
      assert Cared(y, c);
    }
  }

  /** Starting a replay of everything on disk above the acknowledged sequence cares for every chunk. */
  lemma ReplayCares(y: System, maxQueue: int, s: Sender)
    requires Rising(y.disk) && (forall c :: c in y.enqueued ==> c in y.disk)
    requires Rising(s.queue) && (s.queue == [] || |s.queue| <= maxQueue) && (forall c :: c in s.queue ==> c in y.disk)
    requires forall i, c :: 0 <= i < |y.replays| && c in y.replays[i] ==> c in y.disk
    ensures Inv(y.(sender := s, replays := y.replays + [Above(y.disk, s.lastAcked)]), maxQueue)
  {
    hide Above, Rising;
    var z := y.(sender := s, replays := y.replays + [Above(y.disk, s.lastAcked)]);
    AboveMembers(y.disk, s.lastAcked);
    assert z.replays[|y.replays|] == Above(y.disk, s.lastAcked);
    forall c | c in z.enqueued
      ensures Cared(z, c)
    {
      if c.sequence > s.lastAcked {
        assert c in z.replays[|y.replays|];
      }
    }
  }

  lemma AckAccounts(s: Sender, sequence: int, maxQueue: int, outcomes: seq<bool>)
    requires Rising(s.queue) && (s.queue == [] || |s.queue| <= maxQueue)
    ensures var (sent, starts) := OnAck(s, sequence, maxQueue, outcomes);
            var q := sent.sender.queue;
            && sent.sender.lastAcked >= s.lastAcked
            && (starts || sent.sender.needsReplay == s.needsReplay)
            && Rising(q) && (q == [] || |q| <= maxQueue)
            && (forall c :: c in q ==> c in s.queue)
            && (forall c :: c in s.queue ==> c in q || c.sequence <= sent.sender.lastAcked || c in sent.accepted)
  {
    hide Pump, DropAcked, Rising;
    var acked := if sequence > s.lastAcked then sequence else s.lastAcked;
    DropAckedKeeps(s.queue, acked);
    PumpKeeps(s.(lastAcked := acked, queue := DropAcked(s.queue, acked)), outcomes);
  }

  lemma AckKeeps(y: System, sequence: int, outcomes: seq<bool>, maxQueue: int)
    requires Inv(y, maxQueue)
    ensures Inv(Step(y, Ack(sequence, outcomes), maxQueue), maxQueue)
  {
    hide OnAck, Above, Rising;
    var (sent, starts) := OnAck(y.sender, sequence, maxQueue, outcomes);
    AckAccounts(y.sender, sequence, maxQueue, outcomes);
    var z := Took(y, sent);
    if starts {
      ReplayCares(z, maxQueue, sent.sender);
    } else {
      forall c | c in z.enqueued
        ensures Cared(z, c)
      {
        assert Cared(y, c);
      }
    }
  }

  lemma HeadLeaves(replays: seq<seq<Chunk>>, which: nat, c: Chunk)
    requires which < |replays| && replays[which] != [] && c != replays[which][0] && Ahead(replays, c)
    ensures Ahead(replays[which := replays[which][1..]], c)
  {
    var i :| 0 <= i < |replays| && c in replays[i];
    var left := replays[which := replays[which][1..]];
    var j :| 0 <= j < |replays[i]| && replays[i][j] == c;
    assert i == which ==> left[i][j - 1] == c;
    assert c in left[i];
  }

  /** Taking a chunk off a replay leaves it to be cared for by the enqueue of the same step. */
  lemma ReplayStepKeeps(y: System, which: nat, outcomes: seq<bool>, maxQueue: int)
    requires Inv(y, maxQueue) && which < |y.replays| && y.replays[which] != []
    ensures Inv(Step(y, ReplayStep(which, outcomes), maxQueue), maxQueue)
  {
    hide Enqueue, Rising, Ahead;
    var chunk, rest := y.replays[which][0], y.replays[which][1..];
    assert chunk in y.replays[which];
    OfferKeeps(y, chunk, maxQueue, outcomes);
    var z := Took(y, Enqueue(y.sender, chunk, maxQueue, outcomes));
    var w := z.(replays := y.replays[which := rest]);
    forall c | c in w.enqueued
      ensures Cared(w, c)
    {
      assert Cared(z, c);
      if c != chunk && Ahead(y.replays, c) {
        HeadLeaves(y.replays, which, c);
      }
    }
    forall i, c | 0 <= i < |w.replays| && c in w.replays[i]
      ensures c in w.disk
    {
      assert c in y.replays[i];
    }
  }

  lemma RisingMore(disk: seq<Chunk>, chunk: Chunk)
    requires Rising(disk) && (disk == [] || disk[|disk| - 1].sequence < chunk.sequence)
    ensures Rising(disk + [chunk]) && forall c :: c in disk ==> c in disk + [chunk]
  {
  }

  lemma StepKeeps(y: System, event: Event, maxQueue: int)
    requires Inv(y, maxQueue) && Enabled(y, event)
    ensures Inv(Step(y, event, maxQueue), maxQueue)
  {
    hide Enqueue, OnAck, Above, Rising;
    match event
    case Write(chunk) =>
      RisingMore(y.disk, chunk);
      var z := y.(disk := y.disk + [chunk]);
      assert forall c :: c in y.enqueued ==> Cared(y, c) && (Cared(y, c) ==> Cared(z, c));
    case Offer(chunk, outcomes) =>
      OfferKeeps(y, chunk, maxQueue, outcomes);
      var z := Took(y, Enqueue(y.sender, chunk, maxQueue, outcomes));
      var w := z.(enqueued := y.enqueued + {chunk});
      assert forall c :: Cared(z, c) ==> Cared(w, c);
    case Ack(sequence, outcomes) =>
      AckKeeps(y, sequence, outcomes, maxQueue);
    case Adopt(resume) =>
      ReplayCares(y, maxQueue, if resume.Some? then SetAcked(y.sender, resume.value) else y.sender);
    case ReplayStep(which, outcomes) =>
      ReplayStepKeeps(y, which, outcomes, maxQueue);
  }

  /**
   * In every run, each chunk ever enqueued is acknowledged, queued, taken by the wire, still ahead
   * of a running replay, or owed a replay; and the queue stays rising, without repeats, and bounded.
   */
  lemma {:induction false} SenderLosesNothing(disk: seq<Chunk>, acked: int, events: seq<Event>, maxQueue: int)
    requires Rising(disk) && After(Opened(disk, acked), events, maxQueue).Some?
    ensures Inv(After(Opened(disk, acked), events, maxQueue).value, maxQueue)
    decreases |events|
  {
    hide Step, Enabled;
    if events == [] {
      OpenedHolds(disk, acked, maxQueue);
    } else {
      var last := |events| - 1;
      SenderLosesNothing(disk, acked, events[..last], maxQueue);
      StepKeeps(After(Opened(disk, acked), events[..last], maxQueue).value, events[last], maxQueue);
    }
  }

  lemma OpenedHolds(disk: seq<Chunk>, acked: int, maxQueue: int)
    requires Rising(disk)
    ensures Inv(Opened(disk, acked), maxQueue)
  {
  }

  // ----- what replay does not promise -----

  /** Exactly when an enqueue reaches the pump: the chunk is new, unacknowledged, and there is room. */
  predicate Pumps(s: Sender, chunk: Chunk, maxQueue: int) {
    chunk.sequence > s.lastAcked && !Queued(s.queue, chunk.sequence) && |s.queue| < maxQueue
  }

  /**
   * With a wire that takes everything, an enqueue on a sender that is behind sends something exactly
   * when it reaches the pump; otherwise the queue waits untouched.
   */
  lemma EnqueueSendsExactlyWhenItPumps(s: Sender, chunk: Chunk, maxQueue: int, outcomes: seq<bool>)
    requires Rising(s.queue) && |outcomes| > |s.queue| && forall i :: 0 <= i < |outcomes| ==> outcomes[i]
    ensures var sent := Enqueue(s, chunk, maxQueue, outcomes);
            && (sent.accepted != [] <==> Pumps(s, chunk, maxQueue))
            && (Pumps(s, chunk, maxQueue) ==> sent.sender.queue == [])
            && (!Pumps(s, chunk, maxQueue) ==> sent.sender.queue == s.queue)
  {
    hide Pump, Sorting.Sort, Rising;
    if Pumps(s, chunk, maxQueue) {
      SortInto(s.queue, chunk);
      var t := s.(queue := Sorting.Sort(BySequence(), s.queue + [chunk]));
      PumpDrains(t, outcomes);
      PumpKeeps(t, outcomes);
      assert chunk in t.queue;
    }
  }

  lemma {:induction false} PumpDrains(s: Sender, outcomes: seq<bool>)
    requires |outcomes| >= |s.queue| && forall i :: 0 <= i < |outcomes| ==> outcomes[i]
    ensures Pump(s, outcomes).sender.queue == []
    decreases |s.queue|
  {
    if s.queue != [] {
      PumpDrains(s.(queue := s.queue[1..]), if s.queue[0].sequence <= s.lastAcked then outcomes else outcomes[1..]);
    }
  }

  predicate Willing(outcomes: seq<bool>, sends: int) {
    |outcomes| >= sends && forall i :: 0 <= i < |outcomes| ==> outcomes[i]
  }

  /** Nothing in the queue or the replay is still unacknowledged. */
  ghost predicate NothingOwed(s: Sender, chunks: seq<Chunk>) {
    forall c :: c in s.queue || c in chunks ==> c.sequence <= s.lastAcked
  }

  /** Every unacknowledged chunk of the queue and of the replay reached the wire. */
  ghost predicate Delivers(s: Sender, chunks: seq<Chunk>, accepted: seq<Chunk>) {
    forall c :: (c in s.queue || c in chunks) && c.sequence > s.lastAcked ==> Queued(accepted, c.sequence)
  }

  predicate SomePumps(s: Sender, chunks: seq<Chunk>, maxQueue: int) {
    exists i :: 0 <= i < |chunks| && Pumps(s, chunks[i], maxQueue)
  }

  lemma {:induction false} PumpSendsAll(s: Sender, outcomes: seq<bool>)
    requires Willing(outcomes, |s.queue|)
    ensures var sent := Pump(s, outcomes);
            && sent.sender == s.(queue := [])
            && Willing(sent.outcomes, |outcomes| - |s.queue|)
            && forall c :: c in s.queue && c.sequence > s.lastAcked ==> Queued(sent.accepted, c.sequence)
    decreases |s.queue|
  {
    if s.queue != [] {
      var acked := s.queue[0].sequence <= s.lastAcked;
      var later := Pump(s.(queue := s.queue[1..]), if acked then outcomes else outcomes[1..]);
      PumpSendsAll(s.(queue := s.queue[1..]), if acked then outcomes else outcomes[1..]);
      if !acked {
        QueuedCons(s.queue[0], later.accepted);
      }
      assert forall c :: c in s.queue ==> c == s.queue[0] || c in s.queue[1..];
    }
  }

  lemma QueuedCons(head: Chunk, accepted: seq<Chunk>)
    ensures Queued([head] + accepted, head.sequence)
    ensures forall n :: Queued(accepted, n) ==> Queued([head] + accepted, n)
  {
    assert ([head] + accepted)[0] == head;
    QueuedAppend([head], accepted);
  }

  lemma QueuedAppend(a: seq<Chunk>, b: seq<Chunk>)
    ensures forall n :: Queued(a, n) || Queued(b, n) ==> Queued(a + b, n)
  {
    forall n | Queued(a, n) || Queued(b, n)
      ensures Queued(a + b, n)
    {
      if Queued(a, n) {
        var i :| 0 <= i < |a| && a[i].sequence == n;
        assert (a + b)[i] == a[i];
      } else {
        var i :| 0 <= i < |b| && b[i].sequence == n;
        assert (a + b)[|a| + i] == b[i];
      }
    }
  }

  /** One enqueue against a willing wire: either it pumps, and the queue and the chunk are sent, or nothing moves. */
  lemma WillingEnqueue(s: Sender, chunk: Chunk, maxQueue: int, outcomes: seq<bool>)
    requires Rising(s.queue) && Willing(outcomes, |s.queue| + 1)
    ensures var sent := Enqueue(s, chunk, maxQueue, outcomes);
            if Pumps(s, chunk, maxQueue) then
              && sent.sender == s.(queue := []) && Willing(sent.outcomes, |outcomes| - |s.queue| - 1)
              && Delivers(s, [chunk], sent.accepted)
            else
              && sent.accepted == [] && sent.outcomes == outcomes
              && sent.sender.queue == s.queue && sent.sender.lastAcked == s.lastAcked
  {
    hide Pump, Sorting.Sort, Rising;
    if Pumps(s, chunk, maxQueue) {
      SortInto(s.queue, chunk);
      PumpSendsAll(s.(queue := Sorting.Sort(BySequence(), s.queue + [chunk])), outcomes);
    }
  }

  lemma {:induction false} NoPumpNoSend(s: Sender, chunks: seq<Chunk>, maxQueue: int, outcomes: seq<bool>)
    requires !SomePumps(s, chunks, maxQueue)
    ensures Replay(s, chunks, maxQueue, outcomes).accepted == []
    ensures Replay(s, chunks, maxQueue, outcomes).sender.queue == s.queue
    decreases |chunks|
  {
    if chunks != [] {
      assert !Pumps(s, chunks[0], maxQueue);
      var sent := Enqueue(s, chunks[0], maxQueue, outcomes);
      forall i | 0 <= i < |chunks[1..]|
        ensures !Pumps(sent.sender, chunks[1..][i], maxQueue)
      {
        assert !Pumps(s, chunks[i + 1], maxQueue);
      }
      NoPumpNoSend(sent.sender, chunks[1..], maxQueue, sent.outcomes);
    }
  }

  /** With an empty queue and some room, a replay sends all it hands over. */
  lemma {:induction false} EmptyQueueSendsAll(s: Sender, chunks: seq<Chunk>, maxQueue: int, outcomes: seq<bool>)
    requires s.queue == [] && maxQueue > 0 && Willing(outcomes, |chunks|)
    ensures Delivers(s, chunks, Replay(s, chunks, maxQueue, outcomes).accepted)
    decreases |chunks|
  {
    hide Enqueue;
    if chunks != [] {
      var sent := Enqueue(s, chunks[0], maxQueue, outcomes);
      WillingEnqueue(s, chunks[0], maxQueue, outcomes);
      EmptyQueueSendsAll(sent.sender, chunks[1..], maxQueue, sent.outcomes);
      QueuedAppend(sent.accepted, Replay(sent.sender, chunks[1..], maxQueue, sent.outcomes).accepted);
      assert forall c :: c in chunks ==> c == chunks[0] || c in chunks[1..];
      assert chunks[0] in [chunks[0]];
    }
  }

  lemma {:induction false} OnePumpSendsAll(s: Sender, chunks: seq<Chunk>, maxQueue: int, outcomes: seq<bool>)
    requires Rising(s.queue) && Willing(outcomes, |s.queue| + |chunks|) && SomePumps(s, chunks, maxQueue)
    ensures Delivers(s, chunks, Replay(s, chunks, maxQueue, outcomes).accepted)
    decreases |chunks|
  {
    hide Enqueue, Rising;
    var sent := Enqueue(s, chunks[0], maxQueue, outcomes);
    var later := Replay(sent.sender, chunks[1..], maxQueue, sent.outcomes);
    WillingEnqueue(s, chunks[0], maxQueue, outcomes);
    assert forall c :: c in chunks ==> c == chunks[0] || c in chunks[1..];
    QueuedAppend(sent.accepted, later.accepted);
    if Pumps(s, chunks[0], maxQueue) {
      EmptyQueueSendsAll(sent.sender, chunks[1..], maxQueue, sent.outcomes);
      assert chunks[0] in [chunks[0]];
    } else {
      PumpsLater(s, sent.sender, chunks, maxQueue);
      OnePumpSendsAll(sent.sender, chunks[1..], maxQueue, sent.outcomes);
      QueuedIsDelivered(s, sent.sender, chunks, maxQueue, later.accepted);
    }
  }

  lemma PumpsLater(s: Sender, t: Sender, chunks: seq<Chunk>, maxQueue: int)
    requires chunks != [] && SomePumps(s, chunks, maxQueue) && !Pumps(s, chunks[0], maxQueue)
    requires t.queue == s.queue && t.lastAcked == s.lastAcked
    ensures SomePumps(t, chunks[1..], maxQueue)
  {
    var i :| 0 <= i < |chunks| && Pumps(s, chunks[i], maxQueue);
    assert chunks[1..][i - 1] == chunks[i];
  }

  /** A chunk passed over while there is room is in the queue already, and goes out with it. */
  lemma QueuedIsDelivered(s: Sender, t: Sender, chunks: seq<Chunk>, maxQueue: int, accepted: seq<Chunk>)
    requires chunks != [] && SomePumps(s, chunks, maxQueue) && !Pumps(s, chunks[0], maxQueue)
    requires t.queue == s.queue && t.lastAcked == s.lastAcked && Delivers(t, chunks[1..], accepted)
    ensures Delivers(s, chunks, accepted)
  {
    var head := chunks[0];
    if head.sequence > s.lastAcked {
      var i :| 0 <= i < |s.queue| && s.queue[i].sequence == head.sequence;
      assert s.queue[i] in t.queue;
    }
    assert forall c :: c in chunks ==> c == head || c in chunks[1..];
  }

  /**
   * Against a wire that takes everything, a replay delivers every unacknowledged chunk of the queue and of
   * the replay exactly when there is none, or one of the replayed chunks reaches the pump: it is new and
   * unacknowledged, and the queue has room.
   */
  lemma ReplayDeliversExactlyWhenSomethingPumps(s: Sender, chunks: seq<Chunk>, maxQueue: int, outcomes: seq<bool>)
    requires Rising(s.queue) && Willing(outcomes, |s.queue| + |chunks|)
    ensures Delivers(s, chunks, Replay(s, chunks, maxQueue, outcomes).accepted) <==>
              NothingOwed(s, chunks) || SomePumps(s, chunks, maxQueue)
  {
    hide Replay, Rising;
    if SomePumps(s, chunks, maxQueue) {
      OnePumpSendsAll(s, chunks, maxQueue, outcomes);
    } else {
      NoPumpNoSend(s, chunks, maxQueue, outcomes);
    }
  }

  /** The reconnect after a failed send: the queue has room, the replay brings back what is queued, and nothing is sent. */
  lemma QueuedChunkReplaysSilently(c: Chunk, maxQueue: int, outcomes: seq<bool>)
    requires c.sequence > 0 && maxQueue > 1
    ensures var s := Sender([c], 0, false);
            && Replay(s, [c], maxQueue, outcomes).accepted == []
            && !Delivers(s, [c], Replay(s, [c], maxQueue, outcomes).accepted)
  {
    var s := Sender([c], 0, false);
    assert s.queue[0].sequence == c.sequence;
    assert !SomePumps(s, [c], maxQueue);
    NoPumpNoSend(s, [c], maxQueue, outcomes);
    assert c in s.queue;
  }

  /** A whole replay against a full queue sends nothing, however healthy the wire. */
  lemma {:induction false} FullQueueReplaysSilently(s: Sender, chunks: seq<Chunk>, maxQueue: int, outcomes: seq<bool>)
    requires |s.queue| >= maxQueue
    ensures var sent := Replay(s, chunks, maxQueue, outcomes);
            sent.accepted == [] && sent.sender.queue == s.queue && sent.outcomes == outcomes
    decreases |chunks|
  {
    if chunks != [] {
      var sent := Enqueue(s, chunks[0], maxQueue, outcomes);
      FullQueueReplaysSilently(sent.sender, chunks[1..], maxQueue, sent.outcomes);
    }
  }
}
