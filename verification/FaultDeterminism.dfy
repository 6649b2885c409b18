/**
 Determinism of the injected faults: the seeding of the simulator and of its
 sockets, and the decisions of two pipes seeded alike.
 */
module FaultDeterminism {
  import opened Words
  import opened Faults
  import opened DatagramPipe
  import Xoshiro
  import SplitMix

  // Seeding

  class Simulator {
    const rng: Xoshiro.Generator

    /** The generator takes its four words from a `split_mix` started at the configured seed. */
    constructor (seed: bv64)
      ensures rng.Valid() && fresh(rng) && fresh(rng.words)
      ensures rng.View() == SplitMix.Draws(seed, SplitMix.DEFAULT_GAMMA, 4)
    {
      hide SplitMix.Draws, SplitMix.SeedAt;
      var source := new SplitMix.Source(seed);
      var g := new Xoshiro.Generator();
      g.SeedFromSplitMix(source);
      rng := g;
    }

    /** The constructor of a datagram socket, with the pipe it receives from. */
    method NewSocket(options: Options) returns (inbound: Pipe)
      requires rng.Valid()
      modifies rng.words
      ensures inbound.Valid() && fresh(inbound) && inbound.options == options && inbound.packets == multiset{}
      ensures inbound.rng.View() == Xoshiro.Draws(old(rng.View()), 4)
      ensures rng.View() == Xoshiro.StepN(old(rng.View()), 4)
    {
      hide Xoshiro.Draws, Xoshiro.StepN;
      inbound := new Pipe(options);
      inbound.rng.SeedFrom(rng);
    }
  }

  /** The simulator's generator after `k` sockets were created. */
  function AfterSockets(s: State, k: nat): State {
    if k == 0 then s else Xoshiro.StepN(AfterSockets(s, k - 1), 4)
  }

  /** The state the `k`-th socket's pipe starts in. */
  function SocketSeed(s: State, k: nat): State { Xoshiro.Draws(AfterSockets(s, k), 4) }

  lemma {:induction false} AfterSocketsIs(s: State, k: nat)
    ensures AfterSockets(s, k) == Xoshiro.StepN(s, 4 * k)
    decreases k
  {
    hide Xoshiro.StepN;
    if k == 0 {
      Xoshiro.StepNNone(s);
    } else {
      AfterSocketsIs(s, k - 1);
      Xoshiro.StepNAdd(s, 4 * (k - 1), 4);
    }
  }

  /** The `k`-th socket created takes words 4k to 4k + 3 of the simulator's stream. */
  lemma SocketTakesItsWords(s: State, k: nat)
    ensures SocketSeed(s, k) == Xoshiro.Draws(s, 4 * k + 4)[4 * k..]
  {
    hide Xoshiro.StepN, Xoshiro.Draws;
    AfterSocketsIs(s, k);
    Xoshiro.DrawsAdd(s, 4 * k, 4);
  }

  /** Simulators in different states give every socket a different seed. */
  lemma SocketSeedInjective(s: State, t: State, k: nat)
    requires SocketSeed(s, k) == SocketSeed(t, k)
    ensures s == t
  {
    hide Xoshiro.StepN, Xoshiro.Draws, Xoshiro.Recover;
    AfterSocketsIs(s, k);
    AfterSocketsIs(t, k);
    Xoshiro.RecoverDraws(AfterSockets(s, k));
    Xoshiro.RecoverDraws(AfterSockets(t, k));
    Xoshiro.StepNInjective(s, t, 4 * k);
  }

  /** A socket's generator starts all-zero only if the simulator's did. */
  lemma SocketSeedZero(s: State, k: nat)
    ensures SocketSeed(s, k) == Xoshiro.ZERO <==> s == Xoshiro.ZERO
  {
    hide Xoshiro.StepN, Xoshiro.Draws;
    AfterSocketsIs(Xoshiro.ZERO, k);
    Xoshiro.StepNZero(4 * k);
    Xoshiro.DrawsZero();
    if SocketSeed(s, k) == Xoshiro.ZERO {
      SocketSeedInjective(s, Xoshiro.ZERO, k);
    }
  }

  // Two pipes seeded alike

  /** The replay loop of each of the next `n` sends ends. */
  ghost predicate AllHalt(o: Options, s: State, n: nat)
    requires Ordered(o)
    decreases n
  {
    n > 0 ==> SendHalts(o, s) && AllHalt(o, Decide(o, s).1, n - 1)
  }

  /** The decisions of the next `n` sends: a function of the generator's state alone. */
  ghost function Decisions(o: Options, s: State, n: nat): (ds: seq<Decision>)
    requires Ordered(o) && AllHalt(o, s, n)
    ensures |ds| == n
    decreases n
  {
    if n == 0 then [] else [Decide(o, s).0] + Decisions(o, Decide(o, s).1, n - 1)
  }

  /** What happens to a pipe: a send, or a look by the receiver with whatever it finds. */
  datatype Event =
    | SendEvent(bytes: Bytes, now: int)
    | LookEvent(now: int, look: Look, left: multiset<Packet>)

  datatype PipeState = PipeState(rng: State, packets: multiset<Packet>, sends: nat)

  /** A send as it went: when, with what, what was decided, and what was queued. */
  datatype Record = Record(now: int, bytes: Bytes, decision: Decision, batch: seq<Packet>)

  function CountSends(events: seq<Event>): nat
    decreases |events|
  {
    if events == [] then 0 else (if events[0].SendEvent? then 1 else 0) + CountSends(events[1..])
  }

  ghost function AfterSend(o: Options, st: PipeState, bytes: Bytes, now: int): (PipeState, Record)
    requires Ordered(o) && SendHalts(o, st.rng)
  {
    var (d, s) := Decide(o, st.rng);
    var batch := Batch(now, bytes, d, st.sends);
    (PipeState(s, st.packets + multiset(batch), st.sends + 1), Record(now, bytes, d, batch))
  }

  ghost predicate CanHappen(o: Options, st: PipeState, event: Event)
    requires Ordered(o)
  {
    match event
    case SendEvent(bytes, now) => SendHalts(o, st.rng)
    case LookEvent(now, look, left) => Looks(st.packets, now, look, left)
  }

  ghost function AfterEvent(o: Options, st: PipeState, event: Event): PipeState
    requires Ordered(o) && CanHappen(o, st, event)
  {
    match event
    case SendEvent(bytes, now) => AfterSend(o, st, bytes, now).0
    case LookEvent(now, look, left) => st.(packets := left)
  }

  /** The send an event is, as it goes, if it is one. */
  ghost function SentBy(o: Options, st: PipeState, event: Event): seq<Record>
    requires Ordered(o) && CanHappen(o, st, event)
  {
    if event.SendEvent? then [AfterSend(o, st, event.bytes, event.now).1] else []
  }

  /** The events can happen, one after the other. */
  ghost predicate Possible(o: Options, st: PipeState, events: seq<Event>)
    requires Ordered(o)
    decreases |events|
  {
    events == [] || (CanHappen(o, st, events[0]) && Possible(o, AfterEvent(o, st, events[0]), events[1..]))
  }

  /** The sends of a run, in order. */
  ghost function Sends(o: Options, st: PipeState, events: seq<Event>): (rs: seq<Record>)
    requires Ordered(o) && Possible(o, st, events)
    ensures |rs| == CountSends(events)
    decreases |events|
  {
    if events == [] then []
    else SentBy(o, st, events[0]) + Sends(o, AfterEvent(o, st, events[0]), events[1..])
  }

  /** The state of the generator after `k` sends. */
  ghost function AfterSends(o: Options, s: State, k: nat): State
    requires Ordered(o) && AllHalt(o, s, k)
    decreases k
  {
    if k == 0 then s else AfterSends(o, Decide(o, s).1, k - 1)
  }

  /** The `k`-th decision is the one taken in the state after `k` sends. */
  lemma {:induction false} KthDecision(o: Options, s: State, n: nat, k: nat)
    requires Ordered(o) && AllHalt(o, s, n) && k < n
    ensures AllHalt(o, s, k) && SendHalts(o, AfterSends(o, s, k))
    ensures Decisions(o, s, n)[k] == Decide(o, AfterSends(o, s, k)).0
    decreases k
  {
    hide Decide, SendHalts;
    if k > 0 {
      KthDecision(o, Decide(o, s).1, n - 1, k - 1);
    }
  }

  /**
   The decisions of a run are those of its first state, each send queued what
   its decision says, and it was dropped exactly when the drop draw of its
   state said so.
   */
  lemma SendsFollowDecisions(o: Options, st: PipeState, events: seq<Event>)
    requires Ordered(o) && Possible(o, st, events)
    ensures var n := CountSends(events); var rs := Sends(o, st, events);
            && AllHalt(o, st.rng, n)
            && (forall k | 0 <= k < n :: rs[k].decision == Decisions(o, st.rng, n)[k])
            && (forall k | 0 <= k < n ::
                  rs[k].batch == Batch(rs[k].now, rs[k].bytes, rs[k].decision, st.sends + k))
            && (forall k | 0 <= k < n ::
                  AllHalt(o, st.rng, k) && (rs[k].batch == [] <==> o.drop(AfterSends(o, st.rng, k)).0))
  {
    hide Decide, SendHalts, Batch, Possible, Sends, Decisions, AllHalt, AfterSends;
    SendsDecided(o, st, events);
    var n, rs := CountSends(events), Sends(o, st, events);
    forall k | 0 <= k < n
      ensures AllHalt(o, st.rng, k) && (rs[k].batch == [] <==> o.drop(AfterSends(o, st.rng, k)).0)
    {
      KthDecision(o, st.rng, n, k);
      DroppedIffDrawn(o, AfterSends(o, st.rng, k));
      EmptyBatch(rs[k].now, rs[k].bytes, rs[k].decision, st.sends + k);
    }
  }

  lemma EmptyBatch(now: int, bytes: Bytes, d: Decision, origin: nat)
    ensures Batch(now, bytes, d, origin) == [] <==> d.Dropped?
  {}

  lemma {:induction false} SendsDecided(o: Options, st: PipeState, events: seq<Event>)
    requires Ordered(o) && Possible(o, st, events)
    ensures var n := CountSends(events); var rs := Sends(o, st, events);
            && AllHalt(o, st.rng, n)
            && (forall k | 0 <= k < n :: rs[k].decision == Decisions(o, st.rng, n)[k])
            && (forall k | 0 <= k < n ::
                  rs[k].batch == Batch(rs[k].now, rs[k].bytes, rs[k].decision, st.sends + k))
    decreases |events|
  {
    hide Decide, SendHalts, Batch, Looks;
    if events != [] {
      match events[0] {
        case SendEvent(bytes, now) =>
          var (st', r) := AfterSend(o, st, bytes, now);
          SendsDecided(o, st', events[1..]);
          var n, rs := CountSends(events), Sends(o, st, events);
          var rest := Sends(o, st', events[1..]);
          assert AllHalt(o, st.rng, n);
          forall k | 0 <= k < n
            ensures rs[k].decision == Decisions(o, st.rng, n)[k]
            ensures rs[k].batch == Batch(rs[k].now, rs[k].bytes, rs[k].decision, st.sends + k)
          {
            if k > 0 {
              assert rs[k] == rest[k - 1];
            }
          }
        case LookEvent(now, look, left) =>
          SendsDecided(o, st.(packets := left), events[1..]);
      }
    }
  }

  lemma {:induction false} DecisionsPrefix(o: Options, s: State, m: nat, n: nat, k: nat)
    requires Ordered(o) && AllHalt(o, s, m) && AllHalt(o, s, n) && k < m && k < n
    ensures Decisions(o, s, m)[k] == Decisions(o, s, n)[k]
    decreases k
  {
    hide Decide, SendHalts;
    if k > 0 {
      DecisionsPrefix(o, Decide(o, s).1, m - 1, n - 1, k - 1);
    }
  }

  /** How long after the clock reading the `i`-th packet of a send arrives. */
  function Offset(d: Decision, i: nat): int
    requires d.Sent? && i <= |d.replays|
  {
    if i == 0 then d.latency else d.replays[i - 1] * 2
  }

  lemma BatchOffsets(d: Decision, now: int, bytes: Bytes, origin: nat)
    ensures var b := Batch(now, bytes, d, origin);
            && |b| == (if d.Dropped? then 0 else 1 + |d.replays|)
            && forall i | 0 <= i < |b| :: b[i].arrival == now + Offset(d, i)
  {}

  /** Two sends decided alike queue as many packets, each at the same distance from its clock reading. */
  lemma SameOffsets(d: Decision, now1: int, bytes1: Bytes, origin1: nat, now2: int, bytes2: Bytes, origin2: nat)
    ensures var b1 := Batch(now1, bytes1, d, origin1); var b2 := Batch(now2, bytes2, d, origin2);
            && |b1| == |b2|
            && forall i | 0 <= i < |b1| :: b1[i].arrival - now1 == b2[i].arrival - now2
  {
    hide Batch, Offset;
    BatchOffsets(d, now1, bytes1, origin1);
    BatchOffsets(d, now2, bytes2, origin2);
  }

  /**
   Two pipes with the same options and the same generator state: whatever the
   clocks, the payloads and the receives in between, the `k`-th sends of both
   are dropped alike, delayed alike, replayed as often and with the same delays.
   */
  lemma FaultsAreDeterministic(o: Options, st1: PipeState, events1: seq<Event>,
                               st2: PipeState, events2: seq<Event>, k: nat)
    requires Ordered(o) && st1.rng == st2.rng
    requires Possible(o, st1, events1) && Possible(o, st2, events2)
    requires k < CountSends(events1) && k < CountSends(events2)
    ensures var r1 := Sends(o, st1, events1)[k]; var r2 := Sends(o, st2, events2)[k];
            && r1.decision == r2.decision
            && |r1.batch| == |r2.batch|
            && forall i | 0 <= i < |r1.batch| :: r1.batch[i].arrival - r1.now == r2.batch[i].arrival - r2.now
  {
    hide Decide, Batch, Possible, Sends, Decisions, AllHalt;
    SendsFollowDecisions(o, st1, events1);
    SendsFollowDecisions(o, st2, events2);
    DecisionsPrefix(o, st1.rng, CountSends(events1), CountSends(events2), k);
    var r1, r2 := Sends(o, st1, events1)[k], Sends(o, st2, events2)[k];
    SameOffsets(r1.decision, r1.now, r1.bytes, st1.sends + k, r2.now, r2.bytes, st2.sends + k);
  }
}
