/**
 A pipe with its senders and one receiver, as atomic steps under the mutex:
 the sender draws, then queues, then notifies; the receiver looks, sleeps on
 the condition variable, wakes for whatever reason and looks again.  Sends do
 not overlap (the socket's own mutex), time passes between any two steps, and
 packets due at the same time leave in any order.
 */
module PipeProtocol {
  import opened Words
  import opened Faults
  import opened DatagramPipe

  datatype Receiver = Away | Ready | Asleep | AsleepUntil(deadline: int)

  /** `Queued`: the packets are in the queue, the lock is held and nobody has been notified yet. */
  datatype Sender = Idle | Drawn | Queued

  /** One call of `send`, dropped or not: when it read the clock, with what, and what it queues. */
  datatype SendRecord = SendRecord(now: int, bytes: Bytes, decision: Decision, batch: seq<Packet>)

  datatype System = System(
    clock: int,
    queue: multiset<Packet>,
    sender: Sender,
    receiver: Receiver,
    sends: seq<SendRecord>,
    received: seq<Packet>
  )

  datatype Step =
    | Tick(dt: nat)
    | Begin(bytes: Bytes, decision: Decision)
    | Push
    | Notify
    | Recv            // the receiver calls `recv`
    | Look(look: Look)
    | Wake            // the wait ends: notified late, timed out, or for no reason

  predicate Sleeping(r: Receiver) { r.Asleep? || r.AsleepUntil? }

  function Begun(s: System, bytes: Bytes, d: Decision): SendRecord {
    SendRecord(s.clock, bytes, d, Batch(s.clock, bytes, d, |s.sends|))
  }

  /** After a look the receiver sleeps, or leaves with a packet. */
  function Looked(s: System, look: Look, left: multiset<Packet>): System {
    match look
    case Empty => s.(queue := left, receiver := Asleep)
    case NotDue(arrival) => s.(queue := left, receiver := AsleepUntil(arrival))
    case Got(p) => s.(queue := left, receiver := Away, received := s.received + [p])
  }

  ghost predicate Next(o: Options, s: System, step: Step, s': System) {
    match step
    case Tick(dt) => s' == s.(clock := s.clock + dt)
    case Begin(bytes, d) =>
      && s.sender.Idle? && Feasible(o, d)
      && s' == s.(sender := if d.Dropped? then Idle else Drawn, sends := s.sends + [Begun(s, bytes, d)])
    case Push =>
      && s.sender.Drawn? && |s.sends| > 0
      && s' == s.(sender := Queued, queue := s.queue + multiset(s.sends[|s.sends| - 1].batch))
    case Notify =>
      && s.sender.Queued?
      && s' == s.(sender := Idle, receiver := if Sleeping(s.receiver) then Ready else s.receiver)
    case Recv =>
      s.receiver.Away? && s' == s.(receiver := Ready)
    case Look(look) =>
      && s.receiver.Ready? && !s.sender.Queued?
      && Looks(s.queue, s.clock, look, s'.queue)
      && s' == Looked(s, look, s'.queue)
    case Wake =>
      Sleeping(s.receiver) && s' == s.(receiver := Ready)
  }

  function Start(clock: int): System {
    System(clock, multiset{}, Idle, Away, [], [])
  }

  ghost predicate Reaches(o: Options, s: System, steps: seq<Step>, r: System)
    decreases |steps|
  {
    if steps == [] then s == r
    else exists s' :: Next(o, s, steps[0], s') && Reaches(o, s', steps[1..], r)
  }

  // No lost wakeup

  /**
   While nobody is about to notify, a receiver asleep without a deadline faces
   an empty queue, and one with a deadline will wake when the first packet is due.
   */
  ghost predicate NoLostWakeup(s: System) {
    !s.sender.Queued? ==>
      && (s.receiver.Asleep? ==> s.queue == multiset{})
      && (s.receiver.AsleepUntil? ==> exists p :: Least(s.queue, p) && p.arrival == s.receiver.deadline)
  }

  lemma WakeupStep(o: Options, s: System, step: Step, s': System)
    requires NoLostWakeup(s) && Next(o, s, step, s')
    ensures NoLostWakeup(s')
  {
    hide Batch, Feasible;
  }

  lemma {:induction false} WakeupRun(o: Options, s: System, steps: seq<Step>, r: System)
    requires NoLostWakeup(s) && Reaches(o, s, steps, r)
    ensures NoLostWakeup(r)
    decreases |steps|
  {
    hide Next, NoLostWakeup;
    if steps != [] {
      var s' :| Next(o, s, steps[0], s') && Reaches(o, s', steps[1..], r);
      WakeupStep(o, s, steps[0], s');
      WakeupRun(o, s', steps[1..], r);
    }
  }

  /** No wakeup is lost, in any interleaving. */
  lemma NoWakeupIsLost(o: Options, clock: int, steps: seq<Step>, r: System)
    requires Reaches(o, Start(clock), steps, r)
    ensures NoLostWakeup(r)
  {
    WakeupRun(o, Start(clock), steps, r);
  }

  /** A look at a queue with a due packet takes one that is due and arrives no later than any other. */
  lemma LookTakesDue(o: Options, s: System, look: Look, s': System, p: Packet)
    requires Next(o, s, Look(look), s') && p in s.queue && p.arrival <= s.clock
    ensures look.Got? && Least(s.queue, look.packet) && look.packet.arrival <= s.clock
    ensures s'.received == s.received + [look.packet]
  {}

  /**
   A receiver in `recv` never sleeps past a due packet: if one is due and no
   notification is about to come, a sleeping receiver's deadline has passed,
   and as soon as it runs it takes a packet that is due and arrives no later
   than any other.
   */
  lemma DuePacketIsTaken(o: Options, clock: int, steps: seq<Step>, r: System, p: Packet, s: System, look: Look, s': System)
    requires Reaches(o, Start(clock), steps, r) && !r.sender.Queued?
    requires p in r.queue && p.arrival <= r.clock && !r.receiver.Away?
    requires if Sleeping(r.receiver) then Next(o, r, Wake, s) else s == r
    requires Next(o, s, Look(look), s')
    ensures Sleeping(r.receiver) ==> r.receiver.AsleepUntil? && r.receiver.deadline <= r.clock
    ensures look.Got? && Least(r.queue, look.packet) && look.packet.arrival <= r.clock
    ensures s'.received == r.received + [look.packet]
  {
    NoWakeupIsLost(o, clock, steps, r);
    LookTakesDue(o, s, look, s', p);
  }

  /** Such a look is always possible: the lock is free and the queue has a least packet. */
  lemma LookIsPossible(o: Options, s: System)
    requires s.receiver.Ready? && !s.sender.Queued?
    ensures exists look, s' :: Next(o, s, Look(look), s')
  {
    var look: Look, left: multiset<Packet>;
    if s.queue == multiset{} {
      look, left := Empty, s.queue;
    } else {
      LeastExists(s.queue);
      var p :| Least(s.queue, p);
      if p.arrival > s.clock {
        look, left := NotDue(p.arrival), s.queue;
      } else {
        look, left := Got(p), s.queue - multiset{p};
      }
    }
    var s' := Looked(s, look, left);
    assert Next(o, s, Look(look), s');
  }
}
