/**
 The faults of a whole simulation: sockets are created, and packets sent to
 them and received, in any order.
 */
module SimulatorRuns {
  import opened Faults
  import opened DatagramPipe
  import opened FaultDeterminism
  import Xoshiro
  import SplitMix

  /** The simulator's generator, and the pipes of its sockets in the order they were created. */
  datatype World = World(rng: State, pipes: seq<PipeState>)

  datatype SimEvent =
    | Create
    | At(socket: nat, event: Event)

  ghost predicate CanOccur(o: Options, w: World, e: SimEvent)
    requires Ordered(o)
  {
    e.At? ==> e.socket < |w.pipes| && CanHappen(o, w.pipes[e.socket], e.event)
  }

  ghost function After(o: Options, w: World, e: SimEvent): World
    requires Ordered(o) && CanOccur(o, w, e)
  {
    match e
    case Create =>
      World(Xoshiro.StepN(w.rng, 4), w.pipes + [PipeState(Xoshiro.Draws(w.rng, 4), multiset{}, 0)])
    case At(k, event) =>
      w.(pipes := w.pipes[k := AfterEvent(o, w.pipes[k], event)])
  }

  ghost predicate Simulates(o: Options, w: World, events: seq<SimEvent>)
    requires Ordered(o)
    decreases |events|
  {
    events == [] || (CanOccur(o, w, events[0]) && Simulates(o, After(o, w, events[0]), events[1..]))
  }

  /** The sends to socket `k`, as they go in the simulation. */
  ghost function SendsTo(o: Options, w: World, events: seq<SimEvent>, k: nat): seq<Record>
    requires Ordered(o) && Simulates(o, w, events)
    decreases |events|
  {
    if events == [] then []
    else
      (if events[0].At? && events[0].socket == k then SentBy(o, w.pipes[k], events[0].event) else [])
      + SendsTo(o, After(o, w, events[0]), events[1..], k)
  }

  /** The events at one socket. */
  function EventsAt(events: seq<SimEvent>, k: nat): seq<Event>
    decreases |events|
  {
    if events == [] then []
    else (if events[0].At? && events[0].socket == k then [events[0].event] else []) + EventsAt(events[1..], k)
  }

  /** The pipe of socket `k`: as it is, or as it will be created. */
  function PipeOf(w: World, k: nat): PipeState {
    if k < |w.pipes| then w.pipes[k] else PipeState(SocketSeed(w.rng, k - |w.pipes|), multiset{}, 0)
  }

  /** The first socket to come takes the next four words, whichever comes after it the words after those. */
  lemma SeedsShift(s: State, k: nat)
    ensures SocketSeed(s, 0) == Xoshiro.Draws(s, 4)
    ensures SocketSeed(Xoshiro.StepN(s, 4), k) == SocketSeed(s, k + 1)
  {
    hide Xoshiro.StepN, Xoshiro.Draws;
    AfterSocketsIs(Xoshiro.StepN(s, 4), k);
    AfterSocketsIs(s, k + 1);
    Xoshiro.StepNAdd(s, 4, 4 * k);
  }

  /** Only what happens at a socket touches its pipe, created or still to come. */
  lemma PipeAfter(o: Options, w: World, e: SimEvent, k: nat)
    requires Ordered(o) && CanOccur(o, w, e)
    ensures PipeOf(After(o, w, e), k)
         == if e.At? && e.socket == k then AfterEvent(o, w.pipes[k], e.event) else PipeOf(w, k)
  {
    hide AfterEvent, SocketSeed, Xoshiro.StepN, Xoshiro.Draws;
    if e.Create? && k >= |w.pipes| {
      if k == |w.pipes| {
        SeedsShift(w.rng, 0);
      } else {
        SeedsShift(w.rng, k - |w.pipes| - 1);
      }
    }
  }

  /** Seen from one socket, the simulation is a run of its pipe alone. */
  lemma {:induction false} OneSocketAlone(o: Options, w: World, events: seq<SimEvent>, k: nat)
    requires Ordered(o) && Simulates(o, w, events)
    ensures Possible(o, PipeOf(w, k), EventsAt(events, k))
    ensures SendsTo(o, w, events, k) == Sends(o, PipeOf(w, k), EventsAt(events, k))
    decreases |events|
  {
    hide AfterEvent, CanHappen, SentBy, SocketSeed, After;
    if events != [] {
      var e := events[0];
      PipeAfter(o, w, e, k);
      OneSocketAlone(o, After(o, w, e), events[1..], k);
      var here, rest := EventsAt(events, k), EventsAt(events[1..], k);
      if e.At? && e.socket == k {
        assert here[0] == e.event && here[1..] == rest;
      } else {
        assert here == rest;
      }
    }
  }

  /** The simulator as its constructor leaves it. */
  function Seeded(seed: bv64): World { World(SplitMix.Draws(seed, SplitMix.DEFAULT_GAMMA, 4), []) }

  /**
   Two simulations with the same seed and options: however creations, sends to
   other sockets, receives, clocks and payloads differ, the `n`-th sends to the
   `k`-th sockets are dropped alike, delayed alike, replayed as often and with
   the same delays.
   */
  lemma SimulatorIsDeterministic(o: Options, seed: bv64, events1: seq<SimEvent>, events2: seq<SimEvent>, k: nat, n: nat)
    requires Ordered(o) && Simulates(o, Seeded(seed), events1) && Simulates(o, Seeded(seed), events2)
    requires n < |SendsTo(o, Seeded(seed), events1, k)| && n < |SendsTo(o, Seeded(seed), events2, k)|
    ensures var r1 := SendsTo(o, Seeded(seed), events1, k)[n]; var r2 := SendsTo(o, Seeded(seed), events2, k)[n];
            && r1.decision == r2.decision
            && |r1.batch| == |r2.batch|
            && forall i | 0 <= i < |r1.batch| :: r1.batch[i].arrival - r1.now == r2.batch[i].arrival - r2.now
  {
    hide Seeded, PipeOf, Simulates, SendsTo, EventsAt, Possible, Sends;
    var w := Seeded(seed);
    OneSocketAlone(o, w, events1, k);
    OneSocketAlone(o, w, events2, k);
    FaultsAreDeterministic(o, PipeOf(w, k), EventsAt(events1, k), PipeOf(w, k), EventsAt(events2, k), n);
  }
}
