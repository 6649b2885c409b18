/** What a pipe keeps, and the order in which packets leave it, over whole runs. */
module PipeOrdering {
  import opened Words
  import opened Faults
  import opened DatagramPipe
  import opened PipeProtocol

  /** All packets of the given sends, in order. */
  function Flat(sends: seq<SendRecord>): seq<Packet> {
    if sends == [] then [] else Flat(sends[..|sends| - 1]) + sends[|sends| - 1].batch
  }

  lemma FlatSnoc(sends: seq<SendRecord>, r: SendRecord)
    ensures Flat(sends + [r]) == Flat(sends) + r.batch
  {
    assert (sends + [r])[..|sends|] == sends;
  }

  /** Send number `k` queues what its decision says, and the decision keeps to the options. */
  ghost predicate AsDecided(o: Options, r: SendRecord, k: nat) {
    Feasible(o, r.decision) && r.batch == Batch(r.now, r.bytes, r.decision, k)
  }

  ghost predicate AllAsDecided(o: Options, sends: seq<SendRecord>) {
    forall k | 0 <= k < |sends| :: AsDecided(o, sends[k], k)
  }

  /** The shape of what send number `k` queues. */
  ghost predicate Shaped(o: Options, r: SendRecord, k: nat) {
    && (r.decision.Dropped? <==> r.batch == [])
    && (r.decision.Sent? ==> |r.batch| == 1 + |r.decision.replays|)
    && (forall c | 0 <= c < |r.batch| :: r.batch[c].origin == k && r.batch[c].copy == c && r.batch[c].bytes == r.batch[0].bytes)
    && (forall c | 0 <= c < |r.batch| ::
          if c == 0 then r.now + o.minLatency <= r.batch[c].arrival <= r.now + o.maxLatency
          else r.now + 2 * o.minLatency <= r.batch[c].arrival <= r.now + 2 * o.maxLatency)
  }

  ghost predicate AllShaped(o: Options, sends: seq<SendRecord>) {
    forall k | 0 <= k < |sends| :: Shaped(o, sends[k], k)
  }

  lemma AllShapes(o: Options, sends: seq<SendRecord>)
    requires AllAsDecided(o, sends)
    ensures AllShaped(o, sends)
  {
    hide Batch, Feasible;
    forall k | 0 <= k < |sends| ensures Shaped(o, sends[k], k) {
      var r := sends[k];
      BatchShape(o, r.now, r.bytes, r.decision, k);
    }
  }

  /** Clock readings never go back. */
  ghost predicate Timely(sends: seq<SendRecord>, clock: int) {
    && (forall i, j | 0 <= i < j < |sends| :: sends[i].now <= sends[j].now)
    && (forall i | 0 <= i < |sends| :: sends[i].now <= clock)
  }

  /** The sends whose packets have reached the queue. */
  function Pushed(s: System): seq<SendRecord> {
    if s.sender.Drawn? && |s.sends| > 0 then s.sends[..|s.sends| - 1] else s.sends
  }

  /** Nothing is lost, invented or duplicated between `send` and `recv`. */
  ghost predicate Conserved(s: System) {
    s.queue + multiset(s.received) == multiset(Flat(Pushed(s)))
  }

  /**
   A packet taken arrived no later than the packets that were queued when it
   was taken: those of sends up to its own that are still queued, and those
   taken after it.
   */
  ghost predicate InOrder(s: System) {
    && (forall i, p | 0 <= i < |s.received| && p in s.queue && p.origin <= s.received[i].origin ::
          s.received[i].arrival <= p.arrival)
    && (forall i, j | 0 <= i < j < |s.received| && s.received[j].origin <= s.received[i].origin ::
          s.received[i].arrival <= s.received[j].arrival)
  }

  ghost predicate Inv(o: Options, s: System) {
    && AllAsDecided(o, s.sends)
    && Timely(s.sends, s.clock)
    && (s.sender.Drawn? ==> |s.sends| > 0)
    && Conserved(s)
    && InOrder(s)
  }

  /** A packet is found where its labels say. */
  lemma {:induction false} InFlat(o: Options, sends: seq<SendRecord>, p: Packet)
    requires AllShaped(o, sends)
    ensures p in Flat(sends) <==>
              p.origin < |sends| && p.copy < |sends[p.origin].batch| && sends[p.origin].batch[p.copy] == p
    decreases |sends|
  {
    if sends != [] {
      var n := |sends| - 1;
      assert forall k | 0 <= k < n :: Shaped(o, sends[..n][k], k);
      InFlat(o, sends[..n], p);
      assert p in sends[n].batch ==> p.origin == n && sends[n].batch[p.copy] == p by {
        assert Shaped(o, sends[n], n);
      }
    }
  }

  lemma Tracked(o: Options, s: System, p: Packet)
    requires AllShaped(o, s.sends) && Conserved(s)
    ensures p in s.queue || p in s.received <==>
              p.origin < |Pushed(s)| && p.copy < |s.sends[p.origin].batch| && s.sends[p.origin].batch[p.copy] == p
  {
    var sends := Pushed(s);
    assert forall k | 0 <= k < |sends| :: sends[k] == s.sends[k];
    InFlat(o, sends, p);
    assert p in multiset(s.received) <==> p in s.received;
    assert p in multiset(Flat(sends)) <==> p in Flat(sends);
    assert p in s.queue + multiset(s.received) <==> p in s.queue || p in multiset(s.received);
  }

  lemma PushedSame(s: System, s': System)
    requires s'.sends == s.sends && (s'.sender.Drawn? <==> s.sender.Drawn?)
    ensures Pushed(s') == Pushed(s)
  {}

  /** Beginning a send pushes nothing yet, even if that is all it ever pushes. */
  lemma BeginPushed(o: Options, s: System, bytes: Bytes, d: Decision, s': System)
    requires Next(o, s, Begin(bytes, d), s')
    ensures Flat(Pushed(s')) == Flat(Pushed(s))
  {
    var r := Begun(s, bytes, d);
    DroppedBegun(s, bytes, d);
    FlatSnoc(s.sends, r);
    hide Begun, Flat, Feasible;
    assert Flat(s.sends) + [] == Flat(s.sends);
    assert (s.sends + [r])[..|s.sends|] == s.sends;
  }

  lemma DroppedBegun(s: System, bytes: Bytes, d: Decision)
    ensures d.Dropped? ==> Begun(s, bytes, d).batch == []
  {}

  /** Pushing adds the packets of the last send. */
  lemma PushPushed(o: Options, s: System, s': System)
    requires Next(o, s, Push, s')
    ensures Flat(Pushed(s')) == Flat(Pushed(s)) + s.sends[|s.sends| - 1].batch
  {
    var n := |s.sends| - 1;
    assert s.sends == s.sends[..n] + [s.sends[n]];
    FlatSnoc(s.sends[..n], s.sends[n]);
    hide Flat;
  }

  lemma StartInv(o: Options, clock: int)
    ensures Inv(o, Start(clock))
  {}

  lemma DecidedSnoc(o: Options, sends: seq<SendRecord>, r: SendRecord)
    requires AllAsDecided(o, sends) && AsDecided(o, r, |sends|)
    ensures AllAsDecided(o, sends + [r])
  {
    hide AsDecided;
  }

  lemma TimelySnoc(sends: seq<SendRecord>, clock: int, r: SendRecord)
    requires Timely(sends, clock) && r.now == clock
    ensures Timely(sends + [r], clock)
  {}

  lemma BeginInv(o: Options, s: System, bytes: Bytes, d: Decision, s': System)
    requires Inv(o, s) && Next(o, s, Begin(bytes, d), s')
    ensures Inv(o, s')
  {
    var r := Begun(s, bytes, d);
    DecidedSnoc(o, s.sends, r);
    TimelySnoc(s.sends, s.clock, r);
    BeginPushed(o, s, bytes, d, s');
    hide AllAsDecided, Timely, Flat, Pushed, Begun, Feasible;
    assert s'.sends == s.sends + [r] && s'.queue == s.queue && s'.received == s.received && s'.clock == s.clock;
    hide Next, InOrder;
    InOrderSame(s, s');
  }

  lemma InOrderSame(s: System, s': System)
    requires InOrder(s) && s'.queue == s.queue && s'.received == s.received
    ensures InOrder(s')
  {}

  /** Newly queued packets belong to a later send than every packet received. */
  lemma PushInOrder(s: System, s': System, batch: seq<Packet>, n: nat)
    requires InOrder(s) && s'.received == s.received && s'.queue == s.queue + multiset(batch)
    requires forall p | p in batch :: p.origin == n
    requires forall i | 0 <= i < |s.received| :: s.received[i].origin < n
    ensures InOrder(s')
  {
    assert forall p | p in s'.queue && p.origin < n :: p in s.queue;
  }

  /** The packets about to be pushed are those of the last send, and those received are of earlier ones. */
  lemma PushOrigins(o: Options, s: System)
    requires Inv(o, s) && s.sender.Drawn?
    ensures var n := |s.sends| - 1;
            && (forall p | p in s.sends[n].batch :: p.origin == n)
            && (forall i | 0 <= i < |s.received| :: s.received[i].origin < n)
  {
    var n := |s.sends| - 1;
    AllShapes(o, s.sends);
    assert |Pushed(s)| == n;
    assert Shaped(o, s.sends[n], n);
    hide Flat, Pushed, AllAsDecided, Timely, InOrder;
    forall i | 0 <= i < |s.received| ensures s.received[i].origin < n {
      Tracked(o, s, s.received[i]);
    }
  }

  lemma PushInv(o: Options, s: System, s': System)
    requires Inv(o, s) && Next(o, s, Push, s')
    ensures Inv(o, s')
  {
    var batch := s.sends[|s.sends| - 1].batch;
    PushPushed(o, s, s');
    PushOrigins(o, s);
    hide Flat, Pushed, AllAsDecided, Timely, InOrder;
    PushInOrder(s, s', batch, |s.sends| - 1);
    PushConserved(s.queue, s.received, Flat(Pushed(s)), batch);
  }

  lemma PushConserved(queue: multiset<Packet>, received: seq<Packet>, flow: seq<Packet>, batch: seq<Packet>)
    requires queue + multiset(received) == multiset(flow)
    ensures queue + multiset(batch) + multiset(received) == multiset(flow + batch)
  {}

  lemma GotInOrder(s: System, p: Packet, s': System)
    requires InOrder(s) && Least(s.queue, p)
    requires s'.queue == s.queue - multiset{p} && s'.received == s.received + [p]
    ensures InOrder(s')
  {
    var n := |s.received|;
    forall q | q in s'.queue ensures q in s.queue && p.arrival <= q.arrival {}
    forall i, j | 0 <= i < j < |s'.received| && s'.received[j].origin <= s'.received[i].origin
      ensures s'.received[i].arrival <= s'.received[j].arrival
    {
      assert s'.received[i] == s.received[i] && (j == n ==> s'.received[j] == p) && (j < n ==> s'.received[j] == s.received[j]);
    }
    forall i, q | 0 <= i < |s'.received| && q in s'.queue && q.origin <= s'.received[i].origin
      ensures s'.received[i].arrival <= q.arrival
    {
      assert (i == n ==> s'.received[i] == p) && (i < n ==> s'.received[i] == s.received[i]);
    }
  }

  lemma GotInv(o: Options, s: System, p: Packet, s': System)
    requires Inv(o, s) && Next(o, s, Look(Got(p)), s')
    ensures Inv(o, s')
  {
    hide Next, Least, Flat, Pushed, AllAsDecided, Timely, InOrder;
    GotStep(o, s, p, s');
    GotInOrder(s, p, s');
    GotConserved(s.queue, s.received, p);
    PushedSame(s, s');
  }

  lemma GotStep(o: Options, s: System, p: Packet, s': System)
    requires Next(o, s, Look(Got(p)), s')
    ensures Least(s.queue, p) && s' == s.(queue := s.queue - multiset{p}, receiver := Away, received := s.received + [p])
  {
    assert s' == Looked(s, Got(p), s.queue - multiset{p});
  }

  /** Taking a packet moves it from the queue to those received. */
  lemma GotConserved(queue: multiset<Packet>, received: seq<Packet>, p: Packet)
    requires Least(queue, p)
    ensures (queue - multiset{p}) + multiset(received + [p]) == queue + multiset(received)
  {}

  /** The other steps leave the sends, the queue and what was received alone. */
  lemma QuietInv(o: Options, s: System, s': System)
    requires Inv(o, s) && s'.clock >= s.clock
    requires s'.sends == s.sends && s'.queue == s.queue && s'.received == s.received
    requires s'.sender.Drawn? <==> s.sender.Drawn?
    ensures Inv(o, s')
  {
    hide Flat, AllAsDecided;
  }

  lemma StepInv(o: Options, s: System, step: Step, s': System)
    requires Inv(o, s) && Next(o, s, step, s')
    ensures Inv(o, s')
  {
    hide Inv;
    match step {
      case Begin(bytes, d) => BeginInv(o, s, bytes, d, s');
      case Push => PushInv(o, s, s');
      case Look(look) =>
        if look.Got? {
          GotInv(o, s, look.packet, s');
        } else {
          QuietInv(o, s, s');
        }
      case _ => QuietInv(o, s, s');
    }
  }

  lemma {:induction false} RunInv(o: Options, s: System, steps: seq<Step>, r: System)
    requires Inv(o, s) && Reaches(o, s, steps, r)
    ensures Inv(o, r)
    decreases |steps|
  {
    hide Next, Inv;
    if steps != [] {
      var s' :| Next(o, s, steps[0], s') && Reaches(o, s', steps[1..], r);
      StepInv(o, s, steps[0], s');
      RunInv(o, s', steps[1..], r);
    }
  }

  /** The calls of `send` in a run. */
  function Begins(steps: seq<Step>): seq<Step> {
    if steps == [] then [] else (if steps[0].Begin? then [steps[0]] else []) + Begins(steps[1..])
  }

  /** The calls of `send` a state records. */
  function Recorded(sends: seq<SendRecord>): seq<Step> {
    seq(|sends|, k requires 0 <= k < |sends| => Begin(sends[k].bytes, sends[k].decision))
  }

  lemma BeginsCons(steps: seq<Step>)
    requires steps != []
    ensures Begins(steps) == (if steps[0].Begin? then [steps[0]] else []) + Begins(steps[1..])
  {}

  lemma RunNone(o: Options, s: System, r: System)
    requires Reaches(o, s, [], r)
    ensures r == s && Begins([]) == []
  {}

  lemma FirstState(o: Options, s: System, steps: seq<Step>, r: System) returns (s': System)
    requires Reaches(o, s, steps, r) && steps != []
    ensures Next(o, s, steps[0], s') && Reaches(o, s', steps[1..], r)
  {
    hide Next;
    s' :| Next(o, s, steps[0], s') && Reaches(o, s', steps[1..], r);
  }

  lemma BeginRecorded(o: Options, s: System, step: Step, s': System)
    requires Next(o, s, step, s')
    ensures Recorded(s'.sends) == Recorded(s.sends) + if step.Begin? then [step] else []
  {
    hide Batch, Feasible;
    assert step.Begin? ==> s'.sends == s.sends + [Begun(s, step.bytes, step.decision)];
  }

  /** A run records the calls of `send` it makes, with their bytes and decisions, one after the other. */
  lemma {:induction false} SendsAreThoseBegun(o: Options, s: System, steps: seq<Step>, r: System)
    requires Reaches(o, s, steps, r)
    ensures Recorded(r.sends) == Recorded(s.sends) + Begins(steps)
    decreases |steps|
  {
    hide Next, Recorded, Reaches, Begins;
    if steps == [] {
      RunNone(o, s, r);
    } else {
      var s' := FirstState(o, s, steps, r);
      BeginRecorded(o, s, steps[0], s');
      SendsAreThoseBegun(o, s', steps[1..], r);
      BeginsCons(steps);
    }
  }

  /**
   Conservation: over any run, the packets queued and received together are
   exactly those pushed, and each call of `send` pushed the bytes it was given
   as its decision says: nothing, or an original and its copies at the
   latencies decided, all of them within the options.
   */
  lemma PacketsAreConserved(o: Options, clock: int, steps: seq<Step>, r: System)
    requires Reaches(o, Start(clock), steps, r)
    ensures r.queue + multiset(r.received) == multiset(Flat(Pushed(r)))
    ensures Recorded(r.sends) == Begins(steps)
    ensures forall k | 0 <= k < |r.sends| ::
              && Feasible(o, r.sends[k].decision)
              && r.sends[k].batch == Batch(r.sends[k].now, r.sends[k].bytes, r.sends[k].decision, k)
  {
    hide Feasible, Batch, Flat, Begins, Reaches;
    StartInv(o, clock);
    RunInv(o, Start(clock), steps, r);
    SendsAreThoseBegun(o, Start(clock), steps, r);
    forall k | 0 <= k < |r.sends| ensures AsDecided(o, r.sends[k], k) {}
  }

  // Never early

  /** Every packet taken was due by now. */
  ghost predicate AllDue(s: System) {
    forall i | 0 <= i < |s.received| :: s.received[i].arrival <= s.clock
  }

  lemma StartDue(clock: int)
    ensures AllDue(Start(clock))
  {}

  lemma DueByNow(s: System, i: nat)
    requires AllDue(s) && i < |s.received|
    ensures s.received[i].arrival <= s.clock
  {}

  lemma StepDue(o: Options, s: System, step: Step, s': System)
    requires AllDue(s) && Next(o, s, step, s')
    ensures AllDue(s')
  {
    hide Batch, Feasible;
  }

  lemma {:induction false} RunDue(o: Options, s: System, steps: seq<Step>, r: System)
    requires AllDue(s) && Reaches(o, s, steps, r)
    ensures AllDue(r)
    decreases |steps|
  {
    hide Next, AllDue;
    if steps != [] {
      var s' :| Next(o, s, steps[0], s') && Reaches(o, s', steps[1..], r);
      StepDue(o, s, steps[0], s');
      RunDue(o, s', steps[1..], r);
    }
  }

  /**
   No packet is received before it arrives: in every reachable state, and so at
   the moment of each reception, the clock has reached the arrival of every
   packet received, which is its send's reading plus the latency decided for
   an original, and plus twice the one drawn for a copy.
   */
  lemma NothingIsEarly(o: Options, clock: int, steps: seq<Step>, r: System, i: nat)
    requires Reaches(o, Start(clock), steps, r) && i < |r.received|
    ensures var p := r.received[i]; p.arrival <= r.clock && p.origin < |r.sends|
    ensures var p := r.received[i]; var send := r.sends[p.origin];
            && send.decision.Sent? && p.copy <= |send.decision.replays| && p.bytes == send.bytes
            && p.arrival == send.now + if p.copy == 0 then send.decision.latency
                                       else 2 * send.decision.replays[p.copy - 1]
  {
    hide *;
    StartInv(o, clock);
    StartDue(clock);
    RunDue(o, Start(clock), steps, r);
    RunInv(o, Start(clock), steps, r);
    DueByNow(r, i);
    ReceivedWasSent(o, r, i);
    PacketOfDecision(o, r.sends[r.received[i].origin], r.received[i]);
  }

  lemma ReceivedWasSent(o: Options, r: System, i: nat)
    requires Inv(o, r) && i < |r.received|
    ensures var p := r.received[i];
            && p.origin < |r.sends| && AsDecided(o, r.sends[p.origin], p.origin)
            && p.copy < |r.sends[p.origin].batch| && r.sends[p.origin].batch[p.copy] == p
  {
    AllShapes(o, r.sends);
    hide Shaped, AllShaped, AsDecided, Flat;
    Tracked(o, r, r.received[i]);
  }

  lemma PacketOfDecision(o: Options, send: SendRecord, p: Packet)
    requires AsDecided(o, send, p.origin) && p.copy < |send.batch| && send.batch[p.copy] == p
    ensures send.decision.Sent? && p.copy <= |send.decision.replays| && p.bytes == send.bytes
    ensures p.arrival == send.now + if p.copy == 0 then send.decision.latency else 2 * send.decision.replays[p.copy - 1]
  {
    hide Batch, Feasible;
    BatchShape(o, send.now, send.bytes, send.decision, p.origin);
  }

  // Order

  /** Latencies are not negative and in order. */
  ghost predicate Causal(o: Options) { 0 <= o.minLatency <= o.maxLatency }

  /**
   Bounded reordering: when the original of send `b` has been received, the
   original of every send that was not dropped and read the clock more than
   `max - min` before it was received earlier.
   */
  lemma BoundedReordering(o: Options, clock: int, steps: seq<Step>, r: System, a: nat, j: nat) returns (i: nat)
    requires Causal(o) && Reaches(o, Start(clock), steps, r)
    requires j < |r.received| && r.received[j].copy == 0 && r.received[j].origin < |r.sends|
    requires a < |r.sends| && r.sends[a].decision.Sent?
    requires r.sends[a].now + (o.maxLatency - o.minLatency) < r.sends[r.received[j].origin].now
    ensures i < j && |r.sends[a].batch| > 0 && r.received[i] == r.sends[a].batch[0]
  {
    StartInv(o, clock);
    RunInv(o, Start(clock), steps, r);
    AllShapes(o, r.sends);
    var b := r.received[j].origin;
    Tracked(o, r, r.received[j]);
    OriginalsApart(o, r, a, b);
    var p := r.sends[a].batch[0];
    hide Flat, Shaped, AllShaped, AllAsDecided, Timely, Causal;
    Tracked(o, r, p);
    hide Pushed, Conserved;
    assert p !in r.queue;
    i :| 0 <= i < |r.received| && r.received[i] == p;
  }

  /** Originals of sends further apart than latencies vary arrive in the order sent. */
  lemma OriginalsApart(o: Options, r: System, a: nat, b: nat)
    requires Causal(o) && AllShaped(o, r.sends) && Timely(r.sends, r.clock)
    requires a < |r.sends| && b < |r.sends| && r.sends[a].decision.Sent? && |r.sends[b].batch| > 0
    requires r.sends[a].now + (o.maxLatency - o.minLatency) < r.sends[b].now
    ensures a < b && |r.sends[a].batch| > 0 && r.sends[a].batch[0].origin == a && r.sends[a].batch[0].copy == 0
    ensures r.sends[a].batch[0].arrival < r.sends[b].batch[0].arrival
  {
    assert Shaped(o, r.sends[a], a) && Shaped(o, r.sends[b], b);
  }

  /**
   Bounded staleness: a packet of one send is never received after a packet,
   original or copy, of a send that read the clock more than `2 max - min` later.
   */
  lemma BoundedStaleness(o: Options, clock: int, steps: seq<Step>, r: System, i: nat, j: nat)
    requires Causal(o) && Reaches(o, Start(clock), steps, r)
    requires i < j < |r.received|
    ensures r.received[i].origin < |r.sends| && r.received[j].origin < |r.sends|
    ensures r.sends[r.received[i].origin].now <= r.sends[r.received[j].origin].now + 2 * o.maxLatency - o.minLatency
  {
    StartInv(o, clock);
    RunInv(o, Start(clock), steps, r);
    AllShapes(o, r.sends);
    Tracked(o, r, r.received[i]);
    Tracked(o, r, r.received[j]);
    var a, b := r.received[j].origin, r.received[i].origin;
    assert Shaped(o, r.sends[a], a) && Shaped(o, r.sends[b], b);
  }

  // First in, first out

  /**
   No send is replayed, and those not dropped read the clock more than
   `max - min` apart.  With one fixed latency: the readings increase strictly.
   */
  ghost predicate Spaced(o: Options, sends: seq<SendRecord>) {
    && (forall k | 0 <= k < |sends| :: |sends[k].batch| <= 1)
    && (forall i, j | 0 <= i < j < |sends| && sends[i].decision.Sent? && sends[j].decision.Sent? ::
          sends[i].now + (o.maxLatency - o.minLatency) < sends[j].now)
  }

  ghost predicate Increasing(flow: seq<Packet>) {
    forall i, j | 0 <= i < j < |flow| :: flow[i].arrival < flow[j].arrival
  }

  /** What was received is what was sent first, and the rest is queued. */
  ghost predicate InFlow(flow: seq<Packet>, received: seq<Packet>, queue: multiset<Packet>) {
    && |received| <= |flow|
    && received == flow[..|received|]
    && queue == multiset(flow[|received|..])
  }

  ghost predicate Fifo(s: System) {
    InFlow(Flat(Pushed(s)), s.received, s.queue)
  }

  lemma {:induction false} FlatIncreasing(o: Options, sends: seq<SendRecord>)
    requires AllShaped(o, sends) && Spaced(o, sends)
    ensures Increasing(Flat(sends))
    decreases |sends|
  {
    if sends != [] {
      var n := |sends| - 1;
      var init, last := sends[..n], sends[n];
      assert AllShaped(o, init) by {
        forall k | 0 <= k < |init| ensures Shaped(o, init[k], k) { assert Shaped(o, sends[k], k); }
      }
      FlatIncreasing(o, init);
      forall p, q | p in Flat(init) && q in last.batch ensures p.arrival < q.arrival {
        InFlat(o, init, p);
        assert Shaped(o, sends[p.origin], p.origin) && Shaped(o, last, n);
      }
      var flow := Flat(sends);
      forall i, j | 0 <= i < j < |flow| ensures flow[i].arrival < flow[j].arrival {
        if j >= |Flat(init)| {
          assert flow[j] in last.batch && flow[i] in Flat(init);
        }
      }
    }
  }

  /** The packet to arrive first is the first of an increasing flow. */
  lemma LeastIsFirst(flow: seq<Packet>, p: Packet)
    requires Increasing(flow) && Least(multiset(flow), p)
    ensures flow != [] && p == flow[0]
  {
    assert p in flow && flow[0] in multiset(flow);
  }

  lemma InFlowPush(flow: seq<Packet>, received: seq<Packet>, queue: multiset<Packet>, batch: seq<Packet>)
    requires InFlow(flow, received, queue)
    ensures InFlow(flow + batch, received, queue + multiset(batch))
  {
    var n := |received|;
    assert (flow + batch)[n..] == flow[n..] + batch && (flow + batch)[..n] == flow[..n];
  }

  lemma DropFirst(flow: seq<Packet>, n: nat)
    requires n < |flow|
    ensures multiset(flow[n..]) - multiset{flow[n]} == multiset(flow[n + 1..])
    ensures flow[..n + 1] == flow[..n] + [flow[n]]
  {
    assert flow[n..] == [flow[n]] + flow[n + 1..];
    assert multiset(flow[n..]) == multiset{flow[n]} + multiset(flow[n + 1..]);
  }

  lemma IncreasingTail(flow: seq<Packet>, n: nat)
    requires Increasing(flow) && n <= |flow|
    ensures Increasing(flow[n..])
  {}

  lemma InFlowGot(flow: seq<Packet>, received: seq<Packet>, queue: multiset<Packet>, p: Packet)
    requires InFlow(flow, received, queue) && Increasing(flow) && Least(queue, p)
    ensures InFlow(flow, received + [p], queue - multiset{p})
  {
    hide Increasing, Least;
    IncreasingTail(flow, |received|);
    LeastIsFirst(flow[|received|..], p);
    DropFirst(flow, |received|);
  }

  lemma PushedIncreasing(o: Options, s: System)
    requires AllShaped(o, s.sends) && Spaced(o, s.sends)
    ensures Increasing(Flat(Pushed(s)))
  {
    assert AllShaped(o, Pushed(s)) by {
      forall k | 0 <= k < |Pushed(s)| ensures Shaped(o, Pushed(s)[k], k) { assert Shaped(o, s.sends[k], k); }
    }
    FlatIncreasing(o, Pushed(s));
  }

  lemma PushFifo(o: Options, s: System, s': System)
    requires Fifo(s) && Next(o, s, Push, s')
    ensures Fifo(s')
  {
    PushPushed(o, s, s');
    InFlowPush(Flat(Pushed(s)), s.received, s.queue, s.sends[|s.sends| - 1].batch);
    hide Flat, Pushed, InFlow;
  }

  lemma StepFifo(o: Options, s: System, step: Step, s': System)
    requires AllShaped(o, s.sends) && Fifo(s) && Next(o, s, step, s') && Spaced(o, s.sends)
    ensures Fifo(s')
  {
    hide Flat, InFlow, AllShaped, Spaced, Pushed;
    match step {
      case Begin(bytes, d) => BeginPushed(o, s, bytes, d, s');
      case Push => PushFifo(o, s, s');
      case Look(look) =>
        PushedSame(s, s');
        if look.Got? {
          PushedIncreasing(o, s);
          InFlowGot(Flat(Pushed(s)), s.received, s.queue, look.packet);
        }
      case _ => PushedSame(s, s');
    }
  }

  lemma SendsGrow(o: Options, s: System, step: Step, s': System)
    requires Next(o, s, step, s')
    ensures s.sends <= s'.sends
  {}

  lemma {:induction false} SendsGrowRun(o: Options, s: System, steps: seq<Step>, r: System)
    requires Reaches(o, s, steps, r)
    ensures s.sends <= r.sends
    decreases |steps|
  {
    hide Next;
    if steps != [] {
      var s' :| Next(o, s, steps[0], s') && Reaches(o, s', steps[1..], r);
      SendsGrow(o, s, steps[0], s');
      SendsGrowRun(o, s', steps[1..], r);
    }
  }

  lemma SpacedPrefix(o: Options, a: seq<SendRecord>, b: seq<SendRecord>)
    requires a <= b && Spaced(o, b)
    ensures Spaced(o, a)
  {}

  lemma InvShaped(o: Options, s: System)
    requires Inv(o, s)
    ensures AllShaped(o, s.sends)
  {
    AllShapes(o, s.sends);
  }

  lemma {:induction false} FifoRun(o: Options, s: System, steps: seq<Step>, r: System)
    requires Inv(o, s) && Fifo(s) && Reaches(o, s, steps, r) && Spaced(o, r.sends)
    ensures Fifo(r)
    decreases |steps|
  {
    SendsGrowRun(o, s, steps, r);
    SpacedPrefix(o, s.sends, r.sends);
    hide Next, Inv, Fifo, Spaced;
    if steps != [] {
      var s' :| Next(o, s, steps[0], s') && Reaches(o, s', steps[1..], r);
      StepInv(o, s, steps[0], s');
      assert AllShaped(o, s.sends) by { InvShaped(o, s); }
      StepFifo(o, s, steps[0], s');
      FifoRun(o, s', steps[1..], r);
    }
  }

  /**
   Without replays, and with clock readings further apart than latencies vary,
   a pipe is first in first out: what has been received is exactly a prefix of
   the packets of the sends that were not dropped, in the order sent.
   */
  lemma FirstInFirstOut(o: Options, clock: int, steps: seq<Step>, r: System)
    requires Reaches(o, Start(clock), steps, r) && Spaced(o, r.sends)
    ensures r.received <= Flat(Pushed(r))
    ensures r.queue == multiset(Flat(Pushed(r))[|r.received|..])
  {
    StartInv(o, clock);
    FifoRun(o, Start(clock), steps, r);
  }

  // The bounds are tight

  lemma {:induction false} OneMoreStep(o: Options, s: System, steps: seq<Step>, m: System, step: Step, r: System)
    requires Reaches(o, s, steps, m) && Next(o, m, step, r)
    ensures Reaches(o, s, steps + [step], r)
    decreases |steps|
  {
    hide Next;
    if steps == [] {
      assert ([] + [step])[1..] == [] && Reaches(o, r, [], r);
      assert ([] + [step])[0] == step;
    } else {
      var s' :| Next(o, s, steps[0], s') && Reaches(o, s', steps[1..], m);
      OneMoreStep(o, s', steps[1..], m, step, r);
      assert (steps + [step])[0] == steps[0] && (steps + [step])[1..] == steps[1..] + [step];
    }
  }

  /** After a whole send, from reading the clock to the notification, with nothing in between. */
  function AfterSend(s: System, bytes: Bytes, d: Decision): System {
    var r := Begun(s, bytes, d);
    s.(sends := s.sends + [r], queue := s.queue + multiset(r.batch))
  }

  lemma SendRuns(o: Options, s: System, steps: seq<Step>, m: System, bytes: Bytes, d: Decision) returns (steps': seq<Step>)
    requires Reaches(o, s, steps, m) && m.sender.Idle? && m.receiver.Away?
    requires d.Sent? && Feasible(o, d)
    ensures Reaches(o, s, steps', AfterSend(m, bytes, d))
  {
    var m1 := m.(sender := Drawn, sends := m.sends + [Begun(m, bytes, d)]);
    var m2 := m1.(sender := Queued, queue := m.queue + multiset(Begun(m, bytes, d).batch));
    assert Next(o, m, Begin(bytes, d), m1) && Next(o, m1, Push, m2) && Next(o, m2, Notify, AfterSend(m, bytes, d));
    hide Next, Reaches, AfterSend, Begun;
    OneMoreStep(o, s, steps, m, Begin(bytes, d), m1);
    OneMoreStep(o, s, steps + [Begin(bytes, d)], m1, Push, m2);
    steps' := steps + [Begin(bytes, d)] + [Push] + [Notify];
    OneMoreStep(o, s, steps + [Begin(bytes, d)] + [Push], m2, Notify, AfterSend(m, bytes, d));
  }

  /** After one whole call of `recv` that finds `p` due and first. */
  function AfterRecv(s: System, p: Packet): System {
    s.(queue := s.queue - multiset{p}, received := s.received + [p])
  }

  lemma RecvRuns(o: Options, s: System, steps: seq<Step>, m: System, p: Packet) returns (steps': seq<Step>)
    requires Reaches(o, s, steps, m) && m.receiver.Away? && !m.sender.Queued?
    requires Least(m.queue, p) && p.arrival <= m.clock
    ensures Reaches(o, s, steps', AfterRecv(m, p))
  {
    var m1 := m.(receiver := Ready);
    assert Next(o, m, Recv, m1) && Next(o, m1, Look(Got(p)), AfterRecv(m, p));
    hide Next, Reaches;
    OneMoreStep(o, s, steps, m, Recv, m1);
    steps' := steps + [Recv] + [Look(Got(p))];
    OneMoreStep(o, s, steps + [Recv], m1, Look(Got(p)), AfterRecv(m, p));
  }

  lemma TickRuns(o: Options, s: System, steps: seq<Step>, m: System, dt: nat) returns (steps': seq<Step>)
    requires Reaches(o, s, steps, m)
    ensures Reaches(o, s, steps', m.(clock := m.clock + dt))
  {
    hide Reaches;
    steps' := steps + [Tick(dt)];
    OneMoreStep(o, s, steps, m, Tick(dt), m.(clock := m.clock + dt));
  }

  /** Two sends `gap` apart, decided as given. */
  function TwoSends(clock: int, bytes: Bytes, gap: nat, first: Decision, second: Decision): System {
    var s1 := AfterSend(Start(clock), bytes, first);
    AfterSend(s1.(clock := clock + gap), bytes, second)
  }

  lemma TwoSendsRun(o: Options, clock: int, bytes: Bytes, gap: nat, first: Decision, second: Decision)
    returns (steps: seq<Step>)
    requires first.Sent? && Feasible(o, first) && second.Sent? && Feasible(o, second)
    ensures Reaches(o, Start(clock), steps, TwoSends(clock, bytes, gap, first, second))
  {
    var s0 := Start(clock);
    var s1 := AfterSend(s0, bytes, first);
    AfterSendQuiet(s0, bytes, first);
    hide Reaches, AfterSend, Feasible;
    ReachesNone(o, s0);
    steps := SendRuns(o, s0, [], s0, bytes, first);
    steps := TickRuns(o, s0, steps, s1, gap);
    steps := SendRuns(o, s0, steps, s1.(clock := clock + gap), bytes, second);
  }

  lemma ReachesNone(o: Options, s: System)
    ensures Reaches(o, s, [], s)
  {}

  lemma AfterSendQuiet(s: System, bytes: Bytes, d: Decision)
    ensures var s' := AfterSend(s, bytes, d); s'.sender == s.sender && s'.receiver == s.receiver && s'.clock == s.clock
  {}

  lemma TwoSendsQueue(clock: int, bytes: Bytes, gap: nat, first: Decision, second: Decision)
    ensures var s := TwoSends(clock, bytes, gap, first, second);
            var b0 := Batch(clock, bytes, first, 0);
            var b1 := Batch(clock + gap, bytes, second, 1);
            && s.queue == multiset(b0) + multiset(b1)
            && |s.sends| == 2
            && s.sends[0].batch == b0 && s.sends[1].batch == b1
            && s.sends[0].now == clock && s.sends[1].now == clock + gap
            && s.sender.Idle? && s.receiver.Away? && s.clock == clock + gap && s.received == []
  {
    hide Batch;
  }

  lemma SingleBatch(now: int, bytes: Bytes, latency: int, origin: nat)
    ensures Batch(now, bytes, Sent(latency, []), origin) == [Packet(now + latency, bytes, origin, 0)]
  {}

  lemma ReplayedBatch(now: int, bytes: Bytes, latency: int, replay: int, origin: nat)
    ensures Batch(now, bytes, Sent(latency, [replay]), origin)
         == [Packet(now + latency, bytes, origin, 0), Packet(now + replay * 2, bytes, origin, 1)]
  {}

  lemma TwoQueued(p: Packet, q: Packet)
    ensures multiset([p]) + multiset([q]) == multiset{q, p}
  {}

  /** The first of two due packets leaves. */
  lemma OneRecvRun(o: Options, s: System, steps: seq<Step>, m: System, q: Packet, t: Packet)
    returns (steps': seq<Step>, r: System)
    requires Reaches(o, s, steps, m) && m.receiver.Away? && !m.sender.Queued?
    requires m.queue == multiset{q, t}
    requires q.arrival <= t.arrival && q.arrival <= m.clock
    ensures Reaches(o, s, steps', r)
    ensures r.sends == m.sends && r.received == m.received + [q] && r.queue == multiset{t}
  {
    LeastOfTwo(q, t);
    r := AfterRecv(m, q);
    hide Reaches, Least;
    steps' := RecvRuns(o, s, steps, m, q);
  }

  /** A slow packet, and a fast one sent `gap` later. */
  lemma SlowThenFast(o: Options, clock: int, bytes: Bytes, gap: nat) returns (s: System, slow: Packet, fast: Packet)
    ensures s == TwoSends(clock, bytes, gap, Sent(o.maxLatency, []), Sent(o.minLatency, []))
    ensures slow.arrival == clock + o.maxLatency && fast.arrival == clock + gap + o.minLatency
    ensures s.queue == multiset{fast, slow} && |s.sends| == 2
    ensures s.sends[0].batch == [slow] && s.sends[1].batch == [fast]
    ensures s.sends[0].now == clock && s.sends[1].now == clock + gap
    ensures s.sender.Idle? && s.receiver.Away? && s.clock == clock + gap && s.received == []
  {
    var d0, d1 := Sent(o.maxLatency, []), Sent(o.minLatency, []);
    s := TwoSends(clock, bytes, gap, d0, d1);
    TwoSendsQueue(clock, bytes, gap, d0, d1);
    SingleBatch(clock, bytes, o.maxLatency, 0);
    SingleBatch(clock + gap, bytes, o.minLatency, 1);
    hide TwoSends, Batch;
    slow, fast := s.sends[0].batch[0], s.sends[1].batch[0];
    TwoQueued(slow, fast);
  }

  /**
   A send that reads the clock no more than `max - min` after another can
   overtake it: some run receives the second while the first is still queued.
   */
  lemma OvertakingIsPossible(o: Options, clock: int, bytes: Bytes, gap: nat) returns (steps: seq<Step>, r: System)
    requires Causal(o) && gap <= o.maxLatency - o.minLatency
    ensures Reaches(o, Start(clock), steps, r)
    ensures |r.sends| == 2 && r.sends[1].now == r.sends[0].now + gap
    ensures |r.sends[0].batch| == |r.sends[1].batch| == 1
    ensures r.received == [r.sends[1].batch[0]] && r.sends[0].batch[0] in r.queue
  {
    var s, slow, fast := SlowThenFast(o, clock, bytes, gap);
    hide TwoSends, Reaches, Start;
    steps := TwoSendsRun(o, clock, bytes, gap, Sent(o.maxLatency, []), Sent(o.minLatency, []));
    steps := TickRuns(o, Start(clock), steps, s, o.minLatency);
    steps, r := OneRecvRun(o, Start(clock), steps, s.(clock := s.clock + o.minLatency), fast, slow);
  }

  lemma LeastOfThree(p: Packet, q: Packet, t: Packet)
    requires p.arrival <= q.arrival <= t.arrival
    ensures Least(multiset{p, q, t}, p) && multiset{p, q, t} - multiset{p} == multiset{q, t}
  {}

  lemma LeastOfTwo(q: Packet, t: Packet)
    requires q.arrival <= t.arrival
    ensures Least(multiset{q, t}, q) && multiset{q, t} - multiset{q} == multiset{t}
    ensures Least(multiset{t}, t)
  {}

  lemma ThreeQueued(p: Packet, q: Packet, t: Packet)
    ensures multiset([p, t]) + multiset([q]) == multiset{p, q, t}
  {}

  /** Three due packets leave in order of arrival. */
  lemma ThreeRecvsRun(o: Options, s: System, steps: seq<Step>, m: System, p: Packet, q: Packet, t: Packet)
    returns (steps': seq<Step>, r: System)
    requires Reaches(o, s, steps, m) && m.receiver.Away? && !m.sender.Queued?
    requires m.queue == multiset{p, q, t}
    requires p.arrival <= q.arrival <= t.arrival <= m.clock
    ensures Reaches(o, s, steps', r)
    ensures r.sends == m.sends && r.received == m.received + [p] + [q] + [t]
  {
    LeastOfThree(p, q, t);
    LeastOfTwo(q, t);
    hide Reaches, Least;
    var m1 := AfterRecv(m, p);
    var m2 := AfterRecv(m1, q);
    r := AfterRecv(m2, t);
    steps' := RecvRuns(o, s, steps, m, p);
    steps' := RecvRuns(o, s, steps', m1, q);
    steps' := RecvRuns(o, s, steps', m2, t);
  }

  /** A packet with a slow copy, and another packet sent `gap` later. */
  lemma CopiedThenPlain(o: Options, clock: int, bytes: Bytes, gap: nat)
    returns (s: System, first: Packet, plain: Packet, copied: Packet)
    ensures s == TwoSends(clock, bytes, gap, Sent(o.minLatency, [o.maxLatency]), Sent(o.minLatency, []))
    ensures first.arrival == clock + o.minLatency && copied.arrival == clock + o.maxLatency * 2
    ensures plain.arrival == clock + gap + o.minLatency
    ensures s.queue == multiset{first, plain, copied} && |s.sends| == 2
    ensures s.sends[0].batch == [first, copied] && s.sends[1].batch == [plain]
    ensures s.sends[0].now == clock && s.sends[1].now == clock + gap
    ensures s.sender.Idle? && s.receiver.Away? && s.clock == clock + gap && s.received == []
  {
    var d0, d1 := Sent(o.minLatency, [o.maxLatency]), Sent(o.minLatency, []);
    s := TwoSends(clock, bytes, gap, d0, d1);
    TwoSendsQueue(clock, bytes, gap, d0, d1);
    ReplayedBatch(clock, bytes, o.minLatency, o.maxLatency, 0);
    SingleBatch(clock + gap, bytes, o.minLatency, 1);
    hide TwoSends, Batch;
    first, plain, copied := s.sends[0].batch[0], s.sends[1].batch[0], s.sends[0].batch[1];
    ThreeQueued(first, plain, copied);
  }

  /**
   A copy of a send can arrive after any packet of a send no more than
   `2 max - min` later: some run receives the later send and then the copy.
   */
  lemma StalenessIsPossible(o: Options, clock: int, bytes: Bytes, gap: nat) returns (steps: seq<Step>, r: System)
    requires Causal(o) && gap <= 2 * o.maxLatency - o.minLatency
    ensures Reaches(o, Start(clock), steps, r)
    ensures |r.sends| == 2 && r.sends[1].now == r.sends[0].now + gap
    ensures |r.sends[0].batch| == 2 && |r.sends[1].batch| == 1
    ensures r.received == [r.sends[0].batch[0], r.sends[1].batch[0], r.sends[0].batch[1]]
  {
    var s, first, plain, copied := CopiedThenPlain(o, clock, bytes, gap);
    hide TwoSends, Reaches, Start;
    var dt := 2 * o.maxLatency;
    steps := TwoSendsRun(o, clock, bytes, gap, Sent(o.minLatency, [o.maxLatency]), Sent(o.minLatency, []));
    steps := TickRuns(o, Start(clock), steps, s, dt);
    steps, r := ThreeRecvsRun(o, Start(clock), steps, s.(clock := s.clock + dt), first, plain, copied);
  }

  // Draining the queue

  ghost predicate Sorted(ps: seq<Packet>) {
    forall i, j | 0 <= i < j < |ps| :: ps[i].arrival <= ps[j].arrival
  }

  /** The packets all arrive no later than any in the queue. */
  ghost predicate Below(ps: seq<Packet>, queue: multiset<Packet>) {
    forall i, p | 0 <= i < |ps| && p in queue :: ps[i].arrival <= p.arrival
  }

  /** What a run without pushes took from the queue, in order. */
  ghost predicate Drained(s: System, r: System, taken: seq<Packet>) {
    && r.received == s.received + taken
    && s.queue == multiset(taken) + r.queue
    && Sorted(taken) && Below(taken, r.queue)
  }

  lemma DrainedNone(s: System, s': System)
    requires s'.queue == s.queue && s'.received == s.received
    ensures Drained(s, s', [])
  {
    assert s.received + [] == s.received;
  }

  lemma DrainedOne(s: System, s': System, p: Packet)
    requires Least(s.queue, p) && s'.queue == s.queue - multiset{p} && s'.received == s.received + [p]
    ensures Drained(s, s', [p])
  {
    assert forall q | q in s'.queue :: q in s.queue;
  }

  /** Packets below a queue come before what that queue is split into. */
  lemma SortedAppend(a: seq<Packet>, b: seq<Packet>, rest: multiset<Packet>)
    requires Sorted(a) && Sorted(b) && Below(a, multiset(b) + rest) && Below(b, rest)
    ensures Sorted(a + b) && Below(a + b, rest)
  {
    forall i, j | 0 <= i < |a| && 0 <= j < |b| ensures a[i].arrival <= b[j].arrival {
      assert b[j] in multiset(b) + rest;
    }
    forall i, p | 0 <= i < |a| && p in rest ensures a[i].arrival <= p.arrival {
      assert p in multiset(b) + rest;
    }
  }

  lemma MultisetSplit(a: seq<Packet>, b: seq<Packet>, rest: multiset<Packet>)
    ensures multiset(a) + (multiset(b) + rest) == multiset(a + b) + rest
  {}

  lemma DrainedAppend(s: System, m: System, r: System, a: seq<Packet>, b: seq<Packet>)
    requires Drained(s, m, a) && Drained(m, r, b)
    ensures Drained(s, r, a + b)
  {
    hide Sorted, Below;
    SortedAppend(a, b, r.queue);
    MultisetSplit(a, b, r.queue);
    assert s.received + a + b == s.received + (a + b);
  }

  lemma StepDrains(o: Options, s: System, step: Step, s': System) returns (taken: seq<Packet>)
    requires Next(o, s, step, s') && !step.Push?
    ensures Drained(s, s', taken)
  {
    if step.Look? && step.look.Got? {
      taken := [step.look.packet];
      DrainedOne(s, s', step.look.packet);
    } else {
      taken := [];
      DrainedNone(s, s');
    }
  }

  /** While nothing is pushed, whatever else happens, packets leave in order of arrival and before all that stay. */
  lemma {:induction false} QuietRunDrainsInOrder(o: Options, s: System, steps: seq<Step>, r: System) returns (taken: seq<Packet>)
    requires Reaches(o, s, steps, r) && forall i | 0 <= i < |steps| :: !steps[i].Push?
    ensures Drained(s, r, taken)
    decreases |steps|
  {
    hide Next, Drained;
    if steps == [] {
      taken := [];
      DrainedNone(s, r);
    } else {
      var s' :| Next(o, s, steps[0], s') && Reaches(o, s', steps[1..], r);
      var first := StepDrains(o, s, steps[0], s');
      var rest := QuietRunDrainsInOrder(o, s', steps[1..], r);
      DrainedAppend(s, s', r, first, rest);
      taken := first + rest;
    }
  }

  /** The receiver gets from wherever it is to its next look. */
  lemma ReadyRuns(o: Options, s: System, steps: seq<Step>, m: System) returns (steps': seq<Step>)
    requires Reaches(o, s, steps, m)
    ensures Reaches(o, s, steps', m.(receiver := Ready))
    ensures steps <= steps' && forall i | |steps| <= i < |steps'| :: !steps'[i].Push?
  {
    var m1 := m.(receiver := Ready);
    hide Reaches;
    if m.receiver.Ready? {
      steps' := steps;
    } else if m.receiver.Away? {
      OneMoreStep(o, s, steps, m, Recv, m1);
      steps' := steps + [Recv];
    } else {
      OneMoreStep(o, s, steps, m, Wake, m1);
      steps' := steps + [Wake];
    }
  }

  /** Some further steps without a push take the first packet. */
  lemma TakeFirst(o: Options, s: System, steps: seq<Step>, m: System, p: Packet) returns (steps': seq<Step>, m': System)
    requires Reaches(o, s, steps, m) && !m.sender.Queued? && Least(m.queue, p)
    ensures Reaches(o, s, steps', m') && m'.sender == m.sender && m'.queue == m.queue - multiset{p}
    ensures steps <= steps' && forall i | |steps| <= i < |steps'| :: !steps'[i].Push?
  {
    hide Reaches;
    var dt := if p.arrival > m.clock then p.arrival - m.clock else 0;
    var m1 := m.(receiver := Ready);
    var m2 := m1.(clock := m.clock + dt);
    m' := Looked(m2, Got(p), m2.queue - multiset{p});
    steps' := ReadyRuns(o, s, steps, m);
    OneMoreStep(o, s, steps', m1, Tick(dt), m2);
    steps' := steps' + [Tick(dt)];
    OneMoreStep(o, s, steps', m2, Look(Got(p)), m');
    steps' := steps' + [Look(Got(p))];
  }

  lemma {:induction false} EmptyQueue(o: Options, s: System, steps: seq<Step>, m: System) returns (steps': seq<Step>, r: System)
    requires Reaches(o, s, steps, m) && !m.sender.Queued?
    requires forall i | 0 <= i < |steps| :: !steps[i].Push?
    ensures Reaches(o, s, steps', r) && r.queue == multiset{}
    ensures forall i | 0 <= i < |steps'| :: !steps'[i].Push?
    decreases |m.queue|
  {
    hide Reaches;
    if m.queue == multiset{} {
      return steps, m;
    }
    LeastExists(m.queue);
    var p :| Least(m.queue, p);
    var more, m' := TakeFirst(o, s, steps, m, p);
    steps', r := EmptyQueue(o, s, more, m');
  }

  /**
   From every state in which nobody is about to notify, whatever the receiver
   is doing, some steps without a push empty the queue, and what they add to
   what was received is exactly the packets queued, in order of arrival.
   */
  lemma QueueCanBeDrained(o: Options, s: System) returns (steps: seq<Step>, r: System, taken: seq<Packet>)
    requires !s.sender.Queued?
    ensures Reaches(o, s, steps, r) && r.queue == multiset{}
    ensures r.received == s.received + taken && multiset(taken) == s.queue && Sorted(taken)
  {
    ReachesNone(o, s);
    steps, r := EmptyQueue(o, s, [], s);
    taken := QuietRunDrainsInOrder(o, s, steps, r);
  }
}
