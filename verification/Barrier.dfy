/**
 The reusable barrier.  `Barrier` holds the counters and the two critical
 sections of `wait`; `BarrierRuns` lets any number of threads run them in any
 order, with a condition variable that may wake a thread at any time.
 */
module Barrier {

  /** The counters that the mutex protects. */
  datatype Counters = Counters(count: nat, current: nat, epoch: nat)

  predicate LastArrival(c: Counters) { c.current == 1 }

  /** The counters after one more arrival. */
  function Arrived(c: Counters): Counters
    requires c.current != 0
  {
    if LastArrival(c) then c.(current := c.count, epoch := c.epoch + 1) else c.(current := c.current - 1)
  }

  /** The test of the loop: the epoch a thread waits out is over. */
  predicate Over(c: Counters, seen: nat) { seen != c.epoch }

  class Barrier {
    const count: nat
    var current: nat
    var epoch: nat
    ghost var arrivals: nat  // entries so far

    /** The counters are the quotient and the remainder of the arrivals. */
    ghost predicate Valid()
      reads this
    {
      1 <= current <= count && arrivals == epoch * count + (count - current)
    }

    function View(): Counters
      reads this
    {
      Counters(count, current, epoch)
    }

    constructor (count: nat)
      ensures arrivals == 0 && View() == Counters(count, count, 0)
      ensures Valid() <==> count >= 1
    {
      this.count, current, epoch, arrivals := count, count, 0, 0;
    }

    /**
     From taking the lock to returning (`last`, after notifying every waiter)
     or to the first test of the loop.  The arrival is the last exactly when it
     completes a round of `count`; otherwise the thread waits out `seen`, the
     number of rounds completed.
     */
    method Arrive() returns (last: bool, seen: nat)
      requires Valid()
      modifies this
      ensures Valid() && arrivals == old(arrivals) + 1
      ensures View() == Arrived(old(View()))
      ensures last == LastArrival(old(View()))
      ensures last <==> arrivals % count == 0
      ensures !last ==> seen == epoch == arrivals / count
    {
      assert current != 0;
      current := current - 1;
      arrivals := arrivals + 1;
      DivideArrivals(old(epoch), count, count - current, arrivals);
      if current == 0 {
        current := count;
        epoch := epoch + 1;
        return true, epoch;
      }
      return false, epoch;
    }

    /**
     What a woken thread does once it holds the lock again: it leaves exactly
     when `count` threads have arrived in the epoch it waited out and in each
     one before it.
     */
    method Retest(seen: nat) returns (leaves: bool)
      requires Valid() && seen <= epoch
      ensures leaves <==> arrivals >= (seen + 1) * count
      ensures leaves <==> Over(View(), seen)
    {
      leaves := seen != epoch;
      if leaves {
        MulMonotone(seen + 1, epoch, count);
      } else {
        assert (seen + 1) * count == epoch * count + count;
      }
    }
  }

  lemma MulMonotone(a: nat, b: nat, k: nat)
    requires a <= b
    ensures a * k <= b * k
  {}

  /** Quotient and remainder of the arrivals, with a full round counted as the next quotient. */
  lemma DivideArrivals(q: nat, count: nat, r: nat, arrivals: nat)
    requires arrivals == q * count + r && 1 <= r <= count
    ensures arrivals % count == 0 <==> r == count
    ensures r < count ==> arrivals / count == q
  {
    var q', r' := arrivals / count, arrivals % count;
    assert arrivals == count * q' + r';
    assert (q' + 1) * count == count * q' + count;
    assert (q + 1) * count == q * count + count && (q + 2) * count == q * count + 2 * count;
    if q' < q {
      MulMonotone(q' + 1, q, count);
    } else if q' > q + 1 {
      MulMonotone(q + 2, q', count);
    }
  }
}

module BarrierRuns {
  import opened Barrier

  datatype Tid = Tid(n: int)

  /** A thread is not in `wait`, or in it, waiting out `seen`, asleep or woken. */
  datatype Thread = Outside | Inside(seen: nat, asleep: bool)

  datatype System = System(
    c: Counters,
    threads: map<Tid, Thread>,
    completed: map<Tid, nat>,  // calls of `wait` that returned, by thread
    arrivals: nat              // calls of `wait` that entered
  )

  datatype Step =
    | Arrive(t: Tid)
    | Wake(t: Tid)     // by the condition variable, for whatever reason
    | Retest(t: Tid)   // the woken thread holds the lock again

  predicate Enabled(s: System, step: Step) {
    && step.t in s.threads && step.t in s.completed
    && match step
       case Arrive(t) => s.threads[t].Outside?
       case Wake(t) => s.threads[t].Inside? && s.threads[t].asleep
       case Retest(t) => s.threads[t].Inside? && !s.threads[t].asleep
  }

  /** `notify_all` */
  function NotifyAll(threads: map<Tid, Thread>): map<Tid, Thread> {
    map t | t in threads :: if threads[t].Inside? then threads[t].(asleep := false) else threads[t]
  }

  function Complete(s: System, t: Tid): System
    requires t in s.completed
  {
    s.(threads := s.threads[t := Outside], completed := s.completed[t := s.completed[t] + 1])
  }

  /** One step; an arrival meets the assertion `current_ != 0` first. */
  function Next(s: System, step: Step): System
    requires Enabled(s, step)
    requires step.Arrive? ==> s.c.current != 0
  {
    match step
    case Arrive(t) =>
      var s' := s.(c := Arrived(s.c), arrivals := s.arrivals + 1);
      if LastArrival(s.c) then Complete(s'.(threads := NotifyAll(s.threads)), t)
      else s'.(threads := s.threads[t := Inside(s.c.epoch, true)])
    case Wake(t) =>
      s.(threads := s.threads[t := s.threads[t].(asleep := false)])
    case Retest(t) =>
      if Over(s.c, s.threads[t].seen) then Complete(s, t)
      else s.(threads := s.threads[t := s.threads[t].(asleep := true)])
  }

  function Start(count: nat, ids: set<Tid>): System {
    System(Counters(count, count, 0), map t | t in ids :: Outside, map t | t in ids :: 0, 0)
  }

  /** The state after the given steps, if each was enabled and no assertion failed. */
  ghost predicate Reaches(s: System, steps: seq<Step>, r: System)
    decreases |steps|
  {
    if steps == [] then s == r
    else
      && Enabled(s, steps[0])
      && (steps[0].Arrive? ==> s.c.current != 0)
      && Reaches(Next(s, steps[0]), steps[1..], r)
  }

  /** The threads waiting out the current epoch. */
  function Gathered(s: System): set<Tid> {
    set t | t in s.threads && s.threads[t].Inside? && s.threads[t].seen == s.c.epoch
  }

  /** Holds for any number of threads. */
  ghost predicate Inv(s: System) {
    && s.threads.Keys == s.completed.Keys
    && 1 <= s.c.current <= s.c.count
    && s.arrivals == s.c.epoch * s.c.count + (s.c.count - s.c.current)
    && |Gathered(s)| == s.c.count - s.c.current
    && (forall t | t in s.threads && s.threads[t].Inside? ::
          && s.threads[t].seen <= s.c.epoch
          && (s.threads[t].asleep ==> s.threads[t].seen == s.c.epoch))
  }

  /** Holds besides when there are exactly `count` threads. */
  ghost predicate InStep(s: System) {
    && s.threads.Keys == s.completed.Keys
    && |s.threads.Keys| == s.c.count
    && (forall t | t in s.threads ::
          match s.threads[t]
          case Outside => s.completed[t] == s.c.epoch
          case Inside(seen, _) => s.completed[t] == seen && seen <= s.c.epoch <= seen + 1)
  }

  lemma StartInv(count: nat, ids: set<Tid>)
    requires count >= 1
    ensures Inv(Start(count, ids))
  {
    assert Gathered(Start(count, ids)) == {};
  }

  /** After the last arrival nobody sleeps and nobody waits out a later epoch. */
  lemma LastArrivalThreads(s: System, t: Tid)
    requires Enabled(s, Arrive(t)) && s.c.current != 0 && LastArrival(s.c)
    ensures var s' := Next(s, Arrive(t));
            && s'.threads.Keys == s.threads.Keys
            && forall u | u in s'.threads && s'.threads[u].Inside? ::
                 s.threads[u].Inside? && s'.threads[u].seen == s.threads[u].seen && !s'.threads[u].asleep
  {}

  lemma LastArrivalInv(s: System, t: Tid)
    requires Inv(s) && Enabled(s, Arrive(t)) && LastArrival(s.c)
    ensures Inv(Next(s, Arrive(t)))
  {
    var s' := Next(s, Arrive(t));
    LastArrivalThreads(s, t);
    assert s'.threads.Keys == s'.completed.Keys == s.threads.Keys;
    assert Gathered(s') == {};
    assert (s.c.epoch + 1) * s.c.count == s.c.epoch * s.c.count + s.c.count;
    hide Next;
  }

  lemma EarlierArrivalInv(s: System, t: Tid)
    requires Inv(s) && Enabled(s, Arrive(t)) && !LastArrival(s.c)
    ensures Inv(Next(s, Arrive(t)))
  {
    var s' := Next(s, Arrive(t));
    assert s'.threads.Keys == s.threads.Keys;
    assert t !in Gathered(s) && Gathered(s') == Gathered(s) + {t};
  }

  lemma WakeInv(s: System, t: Tid)
    requires Inv(s) && Enabled(s, Wake(t))
    ensures Inv(Next(s, Wake(t)))
  {
    var s' := Next(s, Wake(t));
    assert s'.threads.Keys == s.threads.Keys;
    assert Gathered(s') == Gathered(s);
  }

  lemma RetestInv(s: System, t: Tid)
    requires Inv(s) && Enabled(s, Retest(t))
    ensures Inv(Next(s, Retest(t)))
  {
    var s' := Next(s, Retest(t));
    assert s'.threads.Keys == s.threads.Keys;
    assert Gathered(s') == Gathered(s);
  }

  lemma StepInv(s: System, step: Step)
    requires Inv(s) && Enabled(s, step)
    ensures Inv(Next(s, step)) && Next(s, step).threads.Keys == s.threads.Keys && Next(s, step).c.count == s.c.count
  {
    assert Next(s, step).threads.Keys == s.threads.Keys;
    hide Inv, Gathered;
    match step {
      case Arrive(t) =>
        if LastArrival(s.c) {
          LastArrivalInv(s, t);
        } else {
          EarlierArrivalInv(s, t);
        }
      case Wake(t) => WakeInv(s, t);
      case Retest(t) => RetestInv(s, t);
    }
  }

  /** At the last arrival every other thread is waiting out the current epoch. */
  lemma LastArrivalGathersAll(s: System, t: Tid)
    requires Inv(s) && InStep(s) && t in s.threads && s.threads[t].Outside? && LastArrival(s.c)
    ensures forall u | u in s.threads && u != t :: u in Gathered(s)
  {
    var others := s.threads.Keys - {t};
    assert |others| == |Gathered(s)|;
    SubsetOfSameSize(Gathered(s), others);
  }

  lemma SizeMonotone(a: set<Tid>, b: set<Tid>)
    requires forall x | x in a :: x in b
    ensures |a| <= |b|
  {
    assert b == a + (b - a);
  }

  lemma SubsetOfSameSize(a: set<Tid>, b: set<Tid>)
    requires a <= b && |a| == |b|
    ensures forall x | x in b :: x in a
  {
    assert b == a + (b - a);
  }

  lemma LastArrivalInStep(s: System, t: Tid)
    requires Inv(s) && InStep(s) && Enabled(s, Arrive(t)) && LastArrival(s.c)
    ensures InStep(Next(s, Arrive(t)))
  {
    LastArrivalGathersAll(s, t);
    assert Next(s, Arrive(t)).threads.Keys == s.threads.Keys;
  }

  lemma RetestInStep(s: System, t: Tid)
    requires InStep(s) && Enabled(s, Retest(t))
    ensures InStep(Next(s, Retest(t)))
  {
    assert Next(s, Retest(t)).threads.Keys == s.threads.Keys;
  }

  lemma StepInStep(s: System, step: Step)
    requires Inv(s) && InStep(s) && Enabled(s, step)
    ensures InStep(Next(s, step))
  {
    assert Next(s, step).threads.Keys == s.threads.Keys;
    if step.Arrive? && LastArrival(s.c) {
      LastArrivalInStep(s, step.t);
    } else if step.Retest? {
      RetestInStep(s, step.t);
    }
  }

  /**
   With any number of threads, in every reachable state: the assertion holds
   at the next entry, arrivals are counted exactly, and no thread sleeps on a
   past epoch.
   */
  lemma {:induction false} AnyRun(s: System, steps: seq<Step>, r: System)
    requires Inv(s) && Reaches(s, steps, r)
    ensures Inv(r) && r.threads.Keys == s.threads.Keys && r.c.count == s.c.count
    ensures InStep(s) ==> InStep(r)
    decreases |steps|
  {
    if steps != [] {
      StepInv(s, steps[0]);
      if InStep(s) {
        StepInStep(s, steps[0]);
      }
      AnyRun(Next(s, steps[0]), steps[1..], r);
    }
  }

  lemma ArrivalsAreCounted(count: nat, ids: set<Tid>, steps: seq<Step>, r: System)
    requires count >= 1 && Reaches(Start(count, ids), steps, r)
    ensures r.c.current != 0
    ensures r.arrivals == r.c.epoch * count + (count - r.c.current)
    ensures forall t | t in r.threads && r.threads[t].Inside? && r.threads[t].asleep :: r.threads[t].seen == r.c.epoch
  {
    StartInv(count, ids);
    AnyRun(Start(count, ids), steps, r);
  }

  /** A thread returns from waiting out an epoch only after `count` arrivals in each epoch up to it. */
  lemma NobodyLeavesEarly(count: nat, ids: set<Tid>, steps: seq<Step>, r: System, t: Tid)
    requires count >= 1 && Reaches(Start(count, ids), steps, r)
    requires Enabled(r, Retest(t)) && Next(r, Retest(t)).threads[t].Outside?
    ensures r.arrivals >= (r.threads[t].seen + 1) * count
  {
    StartInv(count, ids);
    AnyRun(Start(count, ids), steps, r);
    MulMonotone(r.threads[t].seen + 1, r.c.epoch, count);
  }

  lemma StartInStep(count: nat, ids: set<Tid>)
    requires |ids| == count
    ensures InStep(Start(count, ids))
  {
    assert Start(count, ids).threads.Keys == ids;
  }

  /** With exactly `count` threads looping, the waits any two have completed differ by at most one. */
  lemma Lockstep(count: nat, ids: set<Tid>, steps: seq<Step>, r: System, t: Tid, u: Tid)
    requires count >= 1 && |ids| == count && Reaches(Start(count, ids), steps, r)
    requires t in r.completed && u in r.completed
    ensures r.completed[t] <= r.completed[u] + 1
  {
    StartInv(count, ids);
    StartInStep(count, ids);
    AnyRun(Start(count, ids), steps, r);
  }

  ghost predicate AllAsleep(s: System) {
    forall t | t in s.threads :: s.threads[t].Inside? && s.threads[t].asleep
  }

  lemma EnoughThreadsNeverAllAsleep(count: nat, ids: set<Tid>, steps: seq<Step>, r: System)
    requires 1 <= count <= |ids| && Reaches(Start(count, ids), steps, r)
    ensures !AllAsleep(r)
  {
    StartInv(count, ids);
    AnyRun(Start(count, ids), steps, r);
    assert r.threads.Keys == Start(count, ids).threads.Keys == ids;
    if AllAsleep(r) {
      forall t | t in ids ensures t in Gathered(r) { assert t in r.threads; }
      SizeMonotone(ids, Gathered(r));
    }
  }

  /** Some run puts every thread to sleep for good. */
  ghost predicate CanDeadlock(count: nat, ids: set<Tid>) {
    exists steps, r :: Reaches(Start(count, ids), steps, r) && AllAsleep(r)
  }

  /** The threads of `todo` arrive one after the other, and fall asleep. */
  lemma {:induction false} TooFewFallAsleep(s: System, todo: set<Tid>) returns (steps: seq<Step>, r: System)
    requires s.threads.Keys == s.completed.Keys && todo <= s.threads.Keys && s.c.current > |todo|
    requires forall t | t in s.threads :: if t in todo then s.threads[t].Outside? else s.threads[t] == Inside(s.c.epoch, true)
    ensures Reaches(s, steps, r) && AllAsleep(r)
    decreases todo
  {
    if |todo| == 0 {
      return [], s;
    }
    var t :| t in todo;
    var s' := Next(s, Arrive(t));
    assert |todo - {t}| == |todo| - 1;
    steps, r := TooFewFallAsleep(s', todo - {t});
    assert ([Arrive(t)] + steps)[1..] == steps;
    steps := [Arrive(t)] + steps;
  }

  /** The barrier can put every thread to sleep for good exactly when there are fewer threads than its count. */
  lemma DeadlockIffTooFew(count: nat, ids: set<Tid>)
    requires count >= 1
    ensures CanDeadlock(count, ids) <==> |ids| < count
  {
    if |ids| < count {
      assert Start(count, ids).threads.Keys == ids;
      var steps, r := TooFewFallAsleep(Start(count, ids), ids);
      assert CanDeadlock(count, ids);
    } else {
      forall steps, r | Reaches(Start(count, ids), steps, r) ensures !AllAsleep(r) {
        EnoughThreadsNeverAllAsleep(count, ids, steps, r);
      }
    }
  }

  // Progress

  /** A thread that is not waiting out the current epoch. */
  lemma SomeoneMissing(s: System) returns (t: Tid)
    requires Inv(s) && |s.threads.Keys| >= s.c.count
    ensures t in s.threads && t !in Gathered(s)
  {
    if s.threads.Keys <= Gathered(s) {
      SizeMonotone(s.threads.Keys, Gathered(s));
    }
    t :| t in s.threads.Keys && t !in Gathered(s);
  }

  /** The steps that bring such a thread back into `wait`: it first leaves, if it is still in it from an earlier epoch. */
  lemma Rejoin(s: System, t: Tid) returns (steps: seq<Step>, r: System)
    requires Inv(s) && t in s.threads && t !in Gathered(s)
    ensures Reaches(s, steps, r) && Inv(r) && r.threads.Keys == s.threads.Keys && r.c == Arrived(s.c)
    ensures forall u | u in Gathered(s) ::
              && u in r.threads && r.completed[u] == s.completed[u]
              && r.threads[u] == if LastArrival(s.c) then Inside(s.c.epoch, false) else s.threads[u]
  {
    var m := s;
    steps := [Arrive(t)];
    if s.threads[t].Inside? {
      m := Next(s, Retest(t));
      RetestInv(s, t);
      assert Reaches(m, [Arrive(t)], Next(m, Arrive(t)));
      assert ([Retest(t)] + steps)[1..] == steps;
      steps := [Retest(t)] + steps;
    }
    r := Next(m, Arrive(t));
    assert Reaches(m, [Arrive(t)], r);
    StepInv(m, Arrive(t));
  }

  /** With enough threads some steps complete the round, wake every thread that waits it out and let none of them go earlier. */
  lemma {:induction false} NextRound(s: System) returns (steps: seq<Step>, r: System)
    requires Inv(s) && |s.threads.Keys| >= s.c.count
    ensures Reaches(s, steps, r) && r.c.epoch == s.c.epoch + 1
    ensures forall u | u in Gathered(s) ::
              && u in r.threads && r.threads[u] == Inside(s.c.epoch, false)
              && u in r.completed && u in s.completed && r.completed[u] == s.completed[u]
    decreases s.c.current
  {
    var t := SomeoneMissing(s);
    steps, r := Rejoin(s, t);
    if !LastArrival(s.c) {
      var m := r;
      assert forall u | u in Gathered(s) :: u in Gathered(m);
      var more: seq<Step>;
      more, r := NextRound(m);
      ReachesOn(s, steps, m, more, r);
      steps := steps + more;
    }
  }

  lemma {:induction false} ReachesOn(s: System, steps: seq<Step>, m: System, more: seq<Step>, r: System)
    requires Reaches(s, steps, m) && Reaches(m, more, r)
    ensures Reaches(s, steps + more, r)
    decreases |steps|
  {
    if steps == [] {
      assert steps + more == more;
    } else {
      assert (steps + more)[0] == steps[0] && (steps + more)[1..] == steps[1..] + more;
      ReachesOn(Next(s, steps[0]), steps[1..], m, more, r);
    }
  }

  /** With at least `count` threads, every reachable state can go on to the next round. */
  lemma RoundsGoOn(count: nat, ids: set<Tid>, steps: seq<Step>, s: System) returns (more: seq<Step>, r: System)
    requires 1 <= count <= |ids| && Reaches(Start(count, ids), steps, s)
    ensures Reaches(s, more, r) && r.c.epoch == s.c.epoch + 1
  {
    ReachableInv(count, ids, steps, s);
    more, r := NextRound(s);
  }

  lemma ReachableInv(count: nat, ids: set<Tid>, steps: seq<Step>, s: System)
    requires count >= 1 && Reaches(Start(count, ids), steps, s)
    ensures Inv(s) && s.threads.Keys == ids && s.c.count == count
  {
    StartInv(count, ids);
    AnyRun(Start(count, ids), steps, s);
    assert Start(count, ids).threads.Keys == ids;
  }

  /** A woken thread whose epoch is over leaves at its next test. */
  lemma Leaves(s: System, t: Tid) returns (r: System)
    requires t in s.threads && t in s.completed
    requires s.threads[t].Inside? && !s.threads[t].asleep && s.threads[t].seen != s.c.epoch
    ensures Reaches(s, [Retest(t)], r) && t in r.threads && r.threads[t].Outside?
    ensures t in r.completed && r.completed[t] == s.completed[t] + 1
  {
    r := Next(s, Retest(t));
    assert Reaches(r, [], r);
  }

  /** And every thread in `wait`, whichever epoch it waits out, can get out of it. */
  lemma WaiterCanReturn(count: nat, ids: set<Tid>, steps: seq<Step>, s: System, t: Tid) returns (more: seq<Step>, r: System)
    requires 1 <= count <= |ids| && Reaches(Start(count, ids), steps, s)
    requires t in s.threads && s.threads[t].Inside?
    ensures Reaches(s, more, r) && t in r.threads && r.threads[t].Outside?
    ensures t in s.completed && t in r.completed && r.completed[t] == s.completed[t] + 1
  {
    ReachableInv(count, ids, steps, s);
    if t in Gathered(s) {
      var m: System;
      more, m := NextRound(s);
      hide Reaches, Inv;
      r := Leaves(m, t);
      ReachesOn(s, more, m, [Retest(t)], r);
      more := more + [Retest(t)];
    } else {
      hide Reaches;
      r := Leaves(s, t);
      more := [Retest(t)];
    }
  }
}
