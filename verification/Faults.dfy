/** Range sampling and the fault options of a datagram pipe. */
module Faults {
  import opened Words
  import Xoshiro

  type State = Xoshiro.State

  // Range sampling

  /** A drawn word as an unsigned number. */
  function Value(v: bv64): uint64 { v as int }

  function SampleUnsigned(v: uint64, first: uint64, last: uint64): uint64
    requires first != last
  {
    var width := Wrap64(last - first);
    Wrap64(first + v % width)
  }

  /** The bounds are converted to unsigned and the result back. */
  function SampleSigned(v: uint64, first: int64, last: int64): int64
    requires first != last
  {
    AsInt64(SampleUnsigned(v, Wrap64(first), Wrap64(last)))
  }

  /** Wrapping forgets multiples of 2^64 and nothing else. */
  lemma WrapShift(x: int, k: int)
    requires 0 <= x + k * TWO_64 < TWO_64
    ensures Wrap64(x) == x + k * TWO_64
  {}

  lemma WrapSigned(x: int64)
    ensures Wrap64(x) == if x < 0 then x + TWO_64 else x
    ensures AsInt64(Wrap64(x)) == x
  {
    WrapShift(x, if x < 0 then 1 else 0);
  }

  /** With its bounds in order a sample is the offset `v % (last - first)` from the first, whatever their signs. */
  lemma SampleIsOffset(v: uint64, first: int64, last: int64)
    requires first < last
    ensures SampleSigned(v, first, last) == first + v % (last - first)
    ensures first <= SampleSigned(v, first, last) < last
  {
    hide Wrap64, AsInt64, SampleSigned;
    WidthIs(first, last);
    SampleOfWidth(v, first, last);
    ModRange(v, last - first);
    OffsetBack(first, v % (last - first));
  }

  lemma SampleOfWidth(v: uint64, first: int64, last: int64)
    requires first < last && Wrap64(Wrap64(last) - Wrap64(first)) == last - first
    ensures SampleSigned(v, first, last) == AsInt64(Wrap64(Wrap64(first) + v % (last - first)))
  {
    hide Wrap64, AsInt64;
  }

  lemma ModRange(v: nat, width: nat)
    requires width > 0
    ensures 0 <= v % width < width
  {}

  lemma WidthIs(first: int64, last: int64)
    requires first < last
    ensures Wrap64(Wrap64(last) - Wrap64(first)) == last - first
  {
    hide Wrap64;
    WrapSigned(first);
    WrapSigned(last);
    WrapShift(Wrap64(last) - Wrap64(first), if first < 0 <= last then 1 else 0);
  }

  lemma OffsetBack(first: int64, offset: int)
    requires 0 <= offset && first + offset < TWO_63
    ensures AsInt64(Wrap64(Wrap64(first) + offset)) == first + offset
  {
    hide Wrap64;
    WrapSigned(first);
    WrapSigned(first + offset);
    WrapShift(Wrap64(first) + offset, if first < 0 <= first + offset then -1 else 0);
  }

  lemma SmallMod(v: nat, width: nat)
    requires v < width
    ensures v % width == v
  {}

  /** Some word gives the sample `x`. */
  ghost predicate Reached(first: int64, last: int64, x: int64)
    requires first != last
  {
    exists v: uint64 :: SampleSigned(v, first, last) == x
  }

  /** Samples lie in the range for every word drawn exactly when the bounds are in order, and all of it is reached. */
  lemma SampleRange(first: int64, last: int64)
    requires first != last
    ensures (forall v: uint64 :: first <= SampleSigned(v, first, last) < last) <==> first < last
    ensures first < last ==> forall x: int64 | first <= x < last :: Reached(first, last, x)
  {
    hide SampleSigned;
    if first < last {
      forall v: uint64 ensures first <= SampleSigned(v, first, last) < last {
        SampleIsOffset(v, first, last);
      }
      forall x: int64 | first <= x < last ensures Reached(first, last, x) {
        var v: uint64 := x - first;
        SampleIsOffset(v, first, last);
        SmallMod(v, last - first);
      }
    } else {
      var v: uint64 := 0;
      assert !(first <= SampleSigned(v, first, last) < last);
    }
  }

  // Fault options

  /**
   `drop` stands for `std::bernoulli_distribution`: any function from the state
   of the generator to a decision and the state it leaves.
   */
  datatype Options = Options(
    minLatency: int64,
    maxLatency: int64,
    drop: State -> (bool, State),
    pReplay: real
  )

  /** A range of latencies in order, and a probability for which the threshold does not overflow. */
  ghost predicate Ordered(o: Options) {
    o.minLatency <= o.maxLatency < TWO_63 - 1 && 0.0 <= o.pReplay < 1.0
  }

  function Latency(o: Options, v: bv64): int64
    requires Ordered(o)
  {
    SampleSigned(Value(v), o.minLatency, o.maxLatency + 1)
  }

  lemma LatencyInRange(o: Options, v: bv64)
    requires Ordered(o)
    ensures o.minLatency <= Latency(o, v) <= o.maxLatency
  {
    SampleIsOffset(Value(v), o.minLatency, o.maxLatency + 1);
  }

  /** A latency is the word's offset from the minimum, and every latency of the range is some word's. */
  lemma LatencyIsOffset(o: Options, v: bv64)
    requires Ordered(o)
    ensures Latency(o, v) == o.minLatency + (v as int) % (o.maxLatency - o.minLatency + 1)
  {
    hide SampleSigned;
    SampleIsOffset(Value(v), o.minLatency, o.maxLatency + 1);
  }

  lemma EveryLatencyDrawn(o: Options, latency: int64)
    requires Ordered(o) && o.minLatency <= latency <= o.maxLatency
    ensures exists v :: Latency(o, v) == latency
  {
    hide Latency;
    var x: uint64 := latency - o.minLatency;
    var v := WordOf(x);
    LatencyIsOffset(o, v);
    SmallMod(x, o.maxLatency - o.minLatency + 1);
    assert Latency(o, v) == latency;
  }

  function Threshold(p: real): uint64
    requires 0.0 <= p < 1.0
  {
    (p * TWO_64 as real).Floor
  }

  /** `gen_bool` */
  predicate GenBool(v: bv64, p: real)
    requires 0.0 <= p < 1.0
  {
    Threshold(p) == TWO_64 - 1 || Value(v) < Threshold(p)
  }

  /**
   Short of a threshold of all ones, a word asks for another replay exactly
   when one more than its value is at most `p` of all 2^64 words.
   */
  lemma GenBoolIs(v: bv64, p: real)
    requires 0.0 <= p && p * TWO_64 as real < (TWO_64 - 1) as real
    ensures p < 1.0
    ensures GenBool(v, p) <==> (v as int + 1) as real <= p * TWO_64 as real
  {
    assert Threshold(p) < TWO_64 - 1;
  }

  /** From there on every word asks for one. */
  lemma GenBoolAlways(v: bv64, p: real)
    requires p < 1.0 && (TWO_64 - 1) as real <= p * TWO_64 as real
    ensures 0.0 <= p && GenBool(v, p)
  {}

  /** A word that asks for a replay does so at any larger probability. */
  lemma GenBoolMonotone(v: bv64, p: real, q: real)
    requires 0.0 <= p <= q < 1.0 && GenBool(v, p)
    ensures GenBool(v, q)
  {
    assert p * TWO_64 as real <= q * TWO_64 as real;
  }

  /** The `k`-th word drawn from `s` is the first that does not ask for another replay. */
  predicate StopsAt(o: Options, s: State, k: nat)
    requires Ordered(o)
  {
    && !GenBool(Xoshiro.Output(Xoshiro.StepN(s, k)), o.pReplay)
    && (forall j | 0 <= j < k :: GenBool(Xoshiro.Output(Xoshiro.StepN(s, j)), o.pReplay))
  }

  /** The replay loop ends: some word stops it. */
  ghost predicate Halts(o: Options, s: State)
    requires Ordered(o)
  {
    exists k: nat :: StopsAt(o, s, k)
  }

  lemma StopsOnce(o: Options, s: State, k: nat, m: nat)
    requires Ordered(o) && StopsAt(o, s, k) && StopsAt(o, s, m)
    ensures k == m
  {
    hide GenBool, Xoshiro.Output, Xoshiro.StepN;
    var first := if k < m then k else m;
    assert GenBool(Xoshiro.Output(Xoshiro.StepN(s, first)), o.pReplay) <==> k != m;
  }

  lemma NeverAtZero(o: Options)
    requires Ordered(o)
    ensures o.pReplay == 0.0 ==> forall v: bv64 :: !GenBool(v, o.pReplay)
  {
    if o.pReplay == 0.0 {
      assert Threshold(o.pReplay) == 0;
    }
  }

  /** `replay_count`: counts draws until one stops it; `bound` says that one will. */
  method ReplayCount(o: Options, rng: Xoshiro.Generator, ghost bound: nat) returns (n: nat)
    requires Ordered(o) && rng.Valid() && StopsAt(o, rng.View(), bound)
    modifies rng.words
    ensures StopsAt(o, old(rng.View()), n)
    ensures rng.View() == Xoshiro.StepN(old(rng.View()), n + 1)
    ensures o.pReplay == 0.0 ==> n == 0
  {
    NeverAtZero(o);
    hide Xoshiro.Output, Xoshiro.Step, GenBool;
    ghost var s := rng.View();
    n := 0;
    while true
      invariant n <= bound && rng.View() == Xoshiro.StepN(s, n)
      invariant forall j | 0 <= j < n :: GenBool(Xoshiro.Output(Xoshiro.StepN(s, j)), o.pReplay)
      decreases bound - n
    {
      var v := rng.Next();
      Xoshiro.DrawsSnoc(s, n);
      if !GenBool(v, o.pReplay) {
        return;
      }
      n := n + 1;
    }
  }

  // What becomes of one send

  /** Dropped, or delayed by `latency` and replayed with the given latencies, each to be doubled. */
  datatype Decision = Dropped | Sent(latency: int, replays: seq<int>)

  /** Every latency lies in the range of the options. */
  ghost predicate Feasible(o: Options, d: Decision) {
    d.Sent? ==>
      && o.minLatency <= d.latency <= o.maxLatency
      && (forall i | 0 <= i < |d.replays| :: o.minLatency <= d.replays[i] <= o.maxLatency)
  }

  /** Some draw ends the replay loop of a send from this state, if it gets that far. */
  ghost predicate SendHalts(o: Options, s: State)
    requires Ordered(o)
  {
    !o.drop(s).0 ==> Halts(o, Xoshiro.Step(o.drop(s).1))
  }

  /** The number of replays, and the latencies drawn for them. */
  ghost function Replays(o: Options, s: State): (n: nat)
    requires Ordered(o) && Halts(o, s)
    ensures StopsAt(o, s, n)
  {
    var n: nat :| StopsAt(o, s, n);
    n
  }

  function Latencies(o: Options, s: State, n: nat): (ls: seq<int>)
    requires Ordered(o)
    ensures |ls| == n
    decreases n
  {
    if n == 0 then [] else Latencies(o, s, n - 1) + [Latency(o, Xoshiro.Output(Xoshiro.StepN(s, n - 1)))]
  }

  /** The decision `send` takes from a state of the generator, and the state it leaves. */
  ghost function Decide(o: Options, s: State): (Decision, State)
    requires Ordered(o) && SendHalts(o, s)
  {
    var (dropped, s1) := o.drop(s);
    if dropped then (Dropped, s1)
    else
      var s2 := Xoshiro.Step(s1);
      var n := Replays(o, s2);
      var s3 := Xoshiro.StepN(s2, n + 1);
      (Sent(Latency(o, Xoshiro.Output(s1)), Latencies(o, s3, n)), Xoshiro.StepN(s3, n))
  }

  /** A send is dropped exactly when the drop draw says so, and then nothing else is drawn. */
  lemma DroppedIffDrawn(o: Options, s: State)
    requires Ordered(o) && SendHalts(o, s)
    ensures Decide(o, s).0.Dropped? <==> o.drop(s).0
    ensures o.drop(s).0 ==> Decide(o, s).1 == o.drop(s).1
  {
    hide Latency, Latencies, Xoshiro.Output, Xoshiro.StepN, Xoshiro.Step, StopsAt;
  }

  lemma {:induction false} LatenciesAre(o: Options, s: State, n: nat)
    requires Ordered(o)
    ensures forall i | 0 <= i < n :: Latencies(o, s, n)[i] == Latency(o, Xoshiro.Output(Xoshiro.StepN(s, i)))
    decreases n
  {
    hide Latency, Xoshiro.Output, Xoshiro.StepN;
    if n > 0 {
      LatenciesAre(o, s, n - 1);
    }
  }

  /** The words after a drop draw: one for the latency, `n + 1` for the count, `n` for the latencies of the replays. */
  lemma WordsOfSend(s1: State, n: nat)
    ensures var s2 := Xoshiro.Step(s1); var s3 := Xoshiro.StepN(s2, n + 1); var ws := Xoshiro.Draws(s1, 2 * n + 2);
            && Xoshiro.StepN(s3, n) == Xoshiro.StepN(s1, 2 * n + 2)
            && ws[0] == Xoshiro.Output(s1)
            && (forall i | 1 <= i <= n + 1 :: ws[i] == Xoshiro.Output(Xoshiro.StepN(s2, i - 1)))
            && (forall i | n + 2 <= i < 2 * n + 2 :: ws[i] == Xoshiro.Output(Xoshiro.StepN(s3, i - n - 2)))
  {
    hide Xoshiro.Output, Xoshiro.StepN, Xoshiro.Step, Xoshiro.Draws;
    var s2, m := Xoshiro.Step(s1), 2 * n + 2;
    Xoshiro.StepNNone(s1);
    Xoshiro.DrawsSnoc(s1, 0);
    Xoshiro.StepNAdd(s1, 1, n + 1);
    Xoshiro.StepNAdd(s1, n + 2, n);
    Xoshiro.DrawsAt(s1, m, 0);
    forall i | 1 <= i <= n + 1 ensures Xoshiro.Draws(s1, m)[i] == Xoshiro.Output(Xoshiro.StepN(s2, i - 1)) {
      Xoshiro.DrawsAt(s1, m, i);
      Xoshiro.StepNAdd(s1, 1, i - 1);
    }
    forall i | n + 2 <= i < m
      ensures Xoshiro.Draws(s1, m)[i] == Xoshiro.Output(Xoshiro.StepN(Xoshiro.StepN(s2, n + 1), i - n - 2))
    {
      Xoshiro.DrawsAt(s1, m, i);
      Xoshiro.StepNAdd(s1, n + 2, i - n - 2);
    }
  }

  /**
   What a send that is not dropped makes of the words after the drop draw: the
   first is its latency, those up to the first that asks for no replay are
   counted, and as many follow for the latencies of the replays.
   */
  lemma SendReadsItsWords(o: Options, s: State)
    requires Ordered(o) && SendHalts(o, s) && !o.drop(s).0
    ensures Decide(o, s).0.Sent?
    ensures var (d, s') := Decide(o, s); var s1 := o.drop(s).1; var n := |d.replays|;
            var ws := Xoshiro.Draws(s1, 2 * n + 2);
            && s' == Xoshiro.StepN(s1, 2 * n + 2)
            && d.latency == Latency(o, ws[0])
            && (forall i | 1 <= i <= n :: GenBool(ws[i], o.pReplay)) && !GenBool(ws[n + 1], o.pReplay)
            && (forall i | 0 <= i < n :: d.replays[i] == Latency(o, ws[n + 2 + i]))
  {
    hide Latency, Latencies, Xoshiro.Output, Xoshiro.StepN, Xoshiro.Step, Xoshiro.Draws, GenBool;
    var s1 := o.drop(s).1;
    var s2 := Xoshiro.Step(s1);
    var n := Replays(o, s2);
    WordsOfSend(s1, n);
    LatenciesAre(o, Xoshiro.StepN(s2, n + 1), n);
  }

  lemma {:induction false} LatenciesInRange(o: Options, s: State, n: nat)
    requires Ordered(o)
    ensures forall i | 0 <= i < n :: o.minLatency <= Latencies(o, s, n)[i] <= o.maxLatency
    decreases n
  {
    hide Latency, Xoshiro.Output, Xoshiro.StepN;
    if n > 0 {
      LatenciesInRange(o, s, n - 1);
      LatencyInRange(o, Xoshiro.Output(Xoshiro.StepN(s, n - 1)));
    }
  }

  /** Every decision keeps to the range of the options. */
  lemma DecisionsFeasible(o: Options, s: State)
    requires Ordered(o) && SendHalts(o, s)
    ensures Feasible(o, Decide(o, s).0)
  {
    hide Latency, Latencies, Xoshiro.Output, Xoshiro.StepN, Xoshiro.Step, StopsAt;
    var (dropped, s1) := o.drop(s);
    if !dropped {
      var s2 := Xoshiro.Step(s1);
      var n := Replays(o, s2);
      LatencyInRange(o, Xoshiro.Output(s1));
      LatenciesInRange(o, Xoshiro.StepN(s2, n + 1), n);
    }
  }
}
