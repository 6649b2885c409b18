/**
 What interposition means: the tracee and the world evolve as on a machine
 without registers, stops or substituted calls, on which a call with a hook is
 answered by the hook unless the hook passes it on.  A tracee can also be killed
 in a substituted call.
 */
module InterposeIdeal {
  import opened Words
  import opened Optional
  import opened Interpose

  datatype Phase = Running | Calling(call: Call) | Waiting | Answered(result: uint64) | Over

  datatype Ideal<W> = Ideal(world: W, phase: Phase, results: seq<uint64>)

  /** The tracee runs to its next call, and the call is dispatched. */
  function Dispatch<W>(env: Env<W>, table: Table<W>, w: W, results: seq<uint64>): Ideal<W> {
    var (s, w1) := env.user(w);
    match s
    case Ends => Ideal(w1, Over, results)
    case Interrupted => Ideal(w1, Running, results)
    case Enters(c) =>
      match table(c.nr)
      case None => Ideal(w1, Calling(c), results)
      case Some(hook) =>
        var (r, w2) := hook(w1, c.args);
        match r
        case Handle(v) => Ideal(w2, Answered(v), results)
        case Passthrough => Ideal(w2, Calling(c), results)
  }

  function Serve<W>(k: (KernelStop, W), results: seq<uint64>): Ideal<W> {
    match k.0
    case Returns(v) => Ideal(k.1, Answered(v), results)
    case Paused => Ideal(k.1, Waiting, results)
    case Dies => Ideal(k.1, Over, results)
  }

  function IdealRound<W>(env: Env<W>, table: Table<W>, i: Ideal<W>): Ideal<W> {
    match i.phase
    case Running => Dispatch(env, table, i.world, i.results)
    case Calling(c) => Serve(env.kernel(i.world, c), i.results)
    case Waiting => Serve(env.unpause(i.world), i.results)
    case Answered(v) => Dispatch(env, table, env.deliver(i.world, v), i.results + [v])
    case Over => i
  }

  function IdealRounds<W>(env: Env<W>, table: Table<W>, i: Ideal<W>, n: nat): Ideal<W>
    decreases n
  {
    if n == 0 || i.phase == Over then i else IdealRounds(env, table, IdealRound(env, table, i), n - 1)
  }

  /** The phase a stop stands for. */
  function PhaseOf<W>(m: Machine<W>): Phase {
    match m.stop
    case InUser => Running
    case AtEntry => Calling(Call(m.regs.origRax, m.regs.args))
    case InKernel => Waiting
    case AtExit => Answered(m.regs.rax)
    case Gone => Over
  }

  function Abstract<W>(m: Machine<W>): Ideal<W> { Ideal(m.world, PhaseOf(m), m.log.results) }

  /** `gettid` returns at once and changes nothing, unless the tracee dies in it. */
  ghost predicate GettidIsNoop<W(!new)>(env: Env<W>) {
    forall w, args :: var k := env.kernel(w, Call(GETTID, args)); k.0.Dies? || (k.0.Returns? && k.1 == w)
  }

  /** The tracee can die in this call. */
  ghost predicate CanDieIn<W(!new)>(env: Env<W>, c: Call) {
    exists w :: env.kernel(w, c).0.Dies?
  }

  /** The tracee is gone because the kernel killed it in the `gettid` of a call that was handled. */
  ghost predicate KilledInGettid<W(!new)>(env: Env<W>, m: Machine<W>) {
    && m.stop == Gone
    && |m.log.fates| > 0 && m.log.fates[|m.log.fates| - 1].Handled?
    && |m.log.kernel| > 0 && m.log.kernel[|m.log.kernel| - 1].nr == GETTID
    && CanDieIn(env, m.log.kernel[|m.log.kernel| - 1])
  }

  /** The machine is where the ideal one is, or the tracee was killed so and saw the first results of the ideal one. */
  ghost predicate Follows<W(!new)>(env: Env<W>, m: Machine<W>, i: Ideal<W>) {
    Abstract(m) == i || (KilledInGettid(env, m) && m.log.results <= i.results)
  }

  /** Answering a call through `gettid` and the registers is answering it. */
  lemma ReplacedAnswers<W(!new)>(env: Env<W>, m: Machine<W>, v: uint64)
    requires GettidIsNoop(env) && m.stop == AtEntry
    requires |m.log.fates| > 0 && m.log.fates[|m.log.fates| - 1].Handled?
    ensures Follows(env, Replaced(env, m, v), Ideal(m.world, Answered(v), m.log.results))
  {
    var k := env.kernel(m.world, Call(GETTID, m.regs.args));
    assert k.0.Dies? || (k.0.Returns? && k.1 == m.world);
  }

  lemma RoundIsIdeal<W(!new)>(env: Env<W>, table: Table<W>, m: Machine<W>)
    requires GettidIsNoop(env)
    ensures Follows(env, Round(env, table, m), IdealRound(env, table, Abstract(m)))
  {
    hide Replaced;
    var e := Resumed(env, m);
    if e.stop == AtEntry {
      var hook := table(e.regs.origRax);
      if hook.Some? {
        var (r, h) := RunHook(hook.value, e);
        if r.Handle? {
          ReplacedAnswers(env, Decide(h, Handled(r.result)), r.result);
        }
      }
    }
  }

  lemma {:induction false} IdealResultsGrow<W>(env: Env<W>, table: Table<W>, i: Ideal<W>, n: nat)
    ensures i.results <= IdealRounds(env, table, i, n).results
    decreases n
  {
    if n > 0 && i.phase != Over {
      IdealResultsGrow(env, table, IdealRound(env, table, i), n - 1);
    }
  }

  lemma FollowsSame<W(!new)>(env: Env<W>, m: Machine<W>)
    ensures Follows(env, m, Abstract(m))
  {}

  /** A tracee killed in a substituted call stays so, while the ideal machine goes on. */
  lemma KilledStays<W(!new)>(env: Env<W>, table: Table<W>, m: Machine<W>, i: Ideal<W>, n: nat)
    requires Follows(env, m, i) && Abstract(m) != i
    ensures Follows(env, Rounds(env, table, m, n), IdealRounds(env, table, i, n))
  {
    IdealResultsGrow(env, table, i, n);
  }

  /**
   Over any number of rounds, for any tracee, kernel and hooks, the world and
   every result the tracee sees are those of the ideal machine, or the tracee
   died in a substituted call and had seen the first of those results.
   */
  lemma {:induction false} InterpositionIsIdeal<W(!new)>(env: Env<W>, table: Table<W>, m: Machine<W>, n: nat)
    requires GettidIsNoop(env)
    ensures Follows(env, Rounds(env, table, m, n), IdealRounds(env, table, Abstract(m), n))
    decreases n
  {
    hide Round, IdealRound, Follows;
    if n == 0 || m.stop == Gone {
      FollowsSame(env, m);
    } else {
      RoundIsIdeal(env, table, m);
      var m', i' := Round(env, table, m), IdealRound(env, table, Abstract(m));
      if Abstract(m') == i' {
        InterpositionIsIdeal(env, table, m', n - 1);
      } else {
        KilledStays(env, table, m', i', n - 1);
      }
    }
  }

  /** If nothing dies in `gettid` there is no difference at all. */
  lemma AlwaysIdeal<W(!new)>(env: Env<W>, table: Table<W>, m: Machine<W>, n: nat)
    requires GettidIsNoop(env) && forall c: Call | c.nr == GETTID :: !CanDieIn(env, c)
    ensures Abstract(Rounds(env, table, m, n)) == IdealRounds(env, table, Abstract(m), n)
  {
    InterpositionIsIdeal(env, table, m, n);
  }
}
