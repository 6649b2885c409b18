/** One datagram pipe: what `send` queues, and what one look of `recv` at the queue finds. */
module DatagramPipe {
  import opened Words
  import opened Faults
  import Xoshiro

  /**
   A queued packet.  `origin` (which call of `send`) and `copy` (0 for the
   original) only name packets; nothing the pipe does depends on them.
   */
  datatype Packet = Packet(arrival: int, bytes: Bytes, origin: nat, copy: nat)

  /** The replays of a packet sent at `now`: each latency drawn counts double. */
  function Copies(p: Packet, now: int, latencies: seq<int>): seq<Packet> {
    seq(|latencies|, i requires 0 <= i < |latencies| => p.(arrival := now + latencies[i] * 2, copy := i + 1))
  }

  /** What one call of `send` queues, given when it read the clock. */
  function Batch(now: int, bytes: Bytes, d: Decision, origin: nat): seq<Packet> {
    match d
    case Dropped => []
    case Sent(latency, replays) =>
      var p := Packet(now + latency, bytes, origin, 0);
      [p] + Copies(p, now, replays)
  }

  /** No packet of the queue arrives before `p`: the queue's order is by arrival, flipped. */
  ghost predicate Least(queue: multiset<Packet>, p: Packet) {
    p in queue && forall q | q in queue :: p.arrival <= q.arrival
  }

  /** What `recv` finds with the lock held: nothing, a packet not yet due, or a packet it takes. */
  datatype Look = Empty | NotDue(arrival: int) | Got(packet: Packet)

  ghost predicate Looks(queue: multiset<Packet>, now: int, look: Look, queue': multiset<Packet>) {
    match look
    case Empty => queue == multiset{} && queue' == queue
    case NotDue(arrival) => queue' == queue && arrival > now && exists p :: Least(queue, p) && p.arrival == arrival
    case Got(p) => Least(queue, p) && p.arrival <= now && queue' == queue - multiset{p}
  }

  lemma {:induction false} LeastExists(queue: multiset<Packet>)
    requires queue != multiset{}
    ensures exists p :: Least(queue, p)
    decreases |queue|
  {
    var p :| p in queue;
    var rest := queue - multiset{p};
    assert queue == rest + multiset{p};
    if rest == multiset{} {
      assert forall q | q in queue :: q == p;
      assert Least(queue, p);
    } else {
      LeastExists(rest);
      var q :| Least(rest, q);
      assert forall r | r in queue :: r == p || r in rest;
      assert Least(queue, if p.arrival <= q.arrival then p else q);
    }
  }

  /** A send that is not dropped: its words are drawn for the latency, for the count and for the replays, in this order. */
  lemma DecideSent(o: Options, s: Xoshiro.State, s1: Xoshiro.State, count: nat, latencies: seq<int>)
    requires Ordered(o) && o.drop(s) == (false, s1) && StopsAt(o, Xoshiro.Step(s1), count)
    requires latencies == Latencies(o, Xoshiro.StepN(Xoshiro.Step(s1), count + 1), count)
    ensures SendHalts(o, s)
    ensures Decide(o, s) == (Sent(Latency(o, Xoshiro.Output(s1)), latencies),
                             Xoshiro.StepN(Xoshiro.StepN(Xoshiro.Step(s1), count + 1), count))
  {
    hide Xoshiro.Step, Xoshiro.Output, Xoshiro.StepN, Latency, Latencies, StopsAt;
    StopsOnce(o, Xoshiro.Step(s1), count, Replays(o, Xoshiro.Step(s1)));
  }

  lemma BatchSize(now: int, bytes: Bytes, d: Decision, origin: nat)
    ensures |multiset(Batch(now, bytes, d, origin))| == if d.Dropped? then 0 else 1 + |d.replays|
  {
    var b := Batch(now, bytes, d, origin);
    assert |multiset(b)| == |b|;
  }

  class Pipe {
    var packets: multiset<Packet>
    const options: Options
    const rng: Xoshiro.Generator
    var sends: nat  // how often `send` was called: the `origin` of the next packets

    ghost predicate Valid() { rng.Valid() }

    constructor (options: Options)
      ensures Valid() && fresh(rng) && fresh(rng.words)
      ensures this.options == options && packets == multiset{} && sends == 0 && rng.View() == Xoshiro.ZERO
    {
      this.options := options;
      packets, sends := multiset{}, 0;
      rng := new Xoshiro.Generator();
    }

    /** The copies of `p` and the latencies drawn for them. */
    method DrawReplays(p: Packet, now: int, count: nat) returns (replays: seq<Packet>, ghost drawn: seq<int>)
      requires Valid() && Ordered(options) && p.copy == 0
      modifies rng.words
      ensures drawn == Latencies(options, old(rng.View()), count)
      ensures rng.View() == Xoshiro.StepN(old(rng.View()), count)
      ensures replays == Copies(p, now, drawn)
    {
      hide Xoshiro.Step, Xoshiro.Output, Xoshiro.StepN, Latency;
      ghost var s := rng.View();
      Xoshiro.StepNNone(s);
      replays, drawn := [], [];
      while |replays| < count
        invariant |drawn| == |replays| <= count
        invariant drawn == Latencies(options, s, |drawn|) && rng.View() == Xoshiro.StepN(s, |drawn|)
        invariant replays == Copies(p, now, drawn)
      {
        var w := rng.Next();
        Xoshiro.DrawsSnoc(s, |drawn|);
        var l: int := Latency(options, w);
        replays := replays + [p.(arrival := now + l * 2, copy := |replays| + 1)];
        drawn := drawn + [l];
      }
    }

    /** The critical section of `send`, up to the notification. */
    method Push(p: Packet, replays: seq<Packet>)
      modifies this`packets
      ensures packets == old(packets) + multiset([p] + replays)
    {
      packets := packets + multiset{p};
      assert replays[..0] == [];
      for i := 0 to |replays|
        invariant packets == old(packets) + multiset{p} + multiset(replays[..i])
      {
        packets := packets + multiset{replays[i]};
        assert replays[..i + 1] == replays[..i] + [replays[i]];
      }
      assert replays[..|replays|] == replays;
    }

    /**
     Queues what the next decision of the generator asks for.  `bound` says
     that the replay loop ends.
     */
    method Send(bytes: Bytes, now: int, ghost bound: nat) returns (ghost d: Decision)
      requires Valid() && Ordered(options)
      requires var (dropped, s) := options.drop(rng.View()); !dropped ==> StopsAt(options, Xoshiro.Step(s), bound)
      modifies this`packets, this`sends, rng.words
      ensures SendHalts(options, old(rng.View()))
      ensures (d, rng.View()) == Decide(options, old(rng.View()))
      ensures packets == old(packets) + multiset(Batch(now, bytes, d, old(sends)))
      ensures sends == old(sends) + 1
      ensures var (dropped, s) := options.drop(old(rng.View()));
              if dropped then packets == old(packets) && rng.View() == s
              else
                && d.Sent? && StopsAt(options, Xoshiro.Step(s), |d.replays|)
                && |packets| == |old(packets)| + 1 + |d.replays|
    {
      hide Xoshiro.Step, Xoshiro.Output, Xoshiro.StepN, Latency, Latencies, StopsAt, Copies;
      ghost var s0 := rng.View();
      var origin := sends;
      sends := sends + 1;
      var (dropped, s1) := options.drop(rng.words[..]);
      rng.SetState(s1);
      if dropped {
        d := Dropped;
        return;
      }
      var v := rng.Next();
      var latency := Latency(options, v);
      var p := Packet(now + latency, bytes, origin, 0);

      ghost var s2 := rng.View();
      var count := ReplayCount(options, rng, bound);
      var replays, drawn := DrawReplays(p, now, count);
      Push(p, replays);
      d := Sent(latency, drawn);
      DecideSent(options, s0, s1, count, drawn);
      BatchSize(now, bytes, d, origin);
    }

    /** One pass of the loop of `recv`, up to the wait it ends in or the packet it returns. */
    method LookOnce(now: int) returns (look: Look)
      requires Valid()
      modifies this`packets
      ensures Looks(old(packets), now, look, packets)
    {
      if packets == multiset{} {
        return Empty;
      }
      LeastExists(packets);
      var p :| p in packets && forall q | q in packets :: p.arrival <= q.arrival;
      assert Least(packets, p);
      if p.arrival > now {
        return NotDue(p.arrival);
      }
      packets := packets - multiset{p};
      return Got(p);
    }
  }

  /** `recv_from`: the caller's buffer holds at most `limit` bytes, and the rest of the datagram is lost. */
  function Truncated(data: Bytes, limit: nat): (r: Bytes)
    ensures r <= data && |r| == if limit < |data| then limit else |data|
  {
    if limit < |data| then data[..limit] else data
  }

  /** What a send queues: an original in range, and copies with the same bytes in twice the range. */
  lemma BatchShape(o: Options, now: int, bytes: Bytes, d: Decision, origin: nat)
    requires Feasible(o, d)
    ensures var b := Batch(now, bytes, d, origin);
            && (d.Dropped? <==> b == [])
            && (d.Sent? ==> |b| == 1 + |d.replays|)
            && (forall i | 0 <= i < |b| :: b[i].bytes == bytes && b[i].origin == origin && b[i].copy == i)
            && (d.Sent? ==> b[0].arrival == now + d.latency)
            && (forall i | 1 <= i < |b| :: b[i].arrival == now + 2 * d.replays[i - 1])
            && (d.Sent? ==> now + o.minLatency <= b[0].arrival <= now + o.maxLatency)
            && (forall i | 1 <= i < |b| :: now + 2 * o.minLatency <= b[i].arrival <= now + 2 * o.maxLatency)
  {}
}
