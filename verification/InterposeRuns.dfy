/** Interposition over whole runs: the hooks, the kernel and the tracee stay in step. */
module InterposeRuns {
  import opened Words
  import opened Optional
  import opened Interpose

  /** `gettid` never stops the tracee in between: it returns, or the tracee dies in it. */
  ghost predicate GettidNeverPauses<W(!new)>(env: Env<W>) {
    forall w, args :: !env.kernel(w, Call(GETTID, args)).0.Paused?
  }

  /** What a hook must have returned for a call to meet its fate. */
  function ResultOf(f: Fate): HookResult {
    if f.Handled? then Handle(f.result) else Passthrough
  }

  /** One run of the hook for each call that has one, in order, each returning what the call's fate says. */
  function HookRuns<W>(table: Table<W>, calls: seq<Call>, fates: seq<Fate>): seq<(Call, HookResult)>
    requires |calls| == |fates|
  {
    if calls == [] then []
    else
      var n := |calls| - 1;
      HookRuns(table, calls[..n], fates[..n]) + if table(calls[n].nr) == None then [] else [(calls[n], ResultOf(fates[n]))]
  }

  /** The call the kernel executes: `gettid` in place of a call that was handled. */
  function Executed(c: Call, f: Fate): Call {
    if f.Handled? then Call(GETTID, c.args) else c
  }

  /** What the tracee sees: the hook's result if it handled the call, else the kernel's answer. */
  function Seen(f: Fate, answer: uint64): uint64 {
    if f.Handled? then f.result else answer
  }

  /** Every call so far has its fate: the hook ran once for each hooked call and for nothing else. */
  ghost predicate Decided<W>(table: Table<W>, log: Log) {
    && |log.fates| == |log.calls|
    && log.hooked == HookRuns(table, log.calls, log.fates)
    && (forall i | 0 <= i < |log.calls| :: log.fates[i].Unhooked? <==> table(log.calls[i].nr) == None)
  }

  /** The first `k` calls reached the kernel, which answered `a` of them; the tracee saw `r` results. */
  ghost predicate Served(log: Log, k: nat, a: nat, r: nat) {
    && |log.kernel| == k && |log.answers| == a && |log.results| == r
    && r <= a <= k <= |log.calls| == |log.fates|
    && (forall i | 0 <= i < k :: log.kernel[i] == Executed(log.calls[i], log.fates[i]))
    && (forall i | 0 <= i < r :: log.results[i] == Seen(log.fates[i], log.answers[i]))
  }

  /** How far the last call has got, by the kind of stop; no call is ever more than one behind. */
  ghost predicate InPhase<W>(m: Machine<W>) {
    var n := |m.log.calls|;
    match m.stop
    case InUser => Served(m.log, n, n, n)
    case AtEntry =>
      && n > 0 && Served(m.log, n - 1, n - 1, n - 1)
      && !m.log.fates[n - 1].Handled?
      && Call(m.regs.origRax, m.regs.args) == m.log.calls[n - 1]
    case InKernel =>
      n > 0 && Served(m.log, n, n - 1, n - 1) && !m.log.fates[n - 1].Handled?
    case AtExit =>
      n > 0 && Served(m.log, n, n, n - 1) && m.regs.rax == Seen(m.log.fates[n - 1], m.log.answers[n - 1])
    case Gone => Served(m.log, n, n, n) || (n > 0 && Served(m.log, n, n - 1, n - 1))
  }

  ghost predicate InStep<W>(table: Table<W>, m: Machine<W>) {
    Decided(table, m.log) && InPhase(m)
  }

  /** Between the stop at an entry and the tracer's decision, the newest call has no fate yet. */
  ghost predicate Undecided<W>(table: Table<W>, m: Machine<W>) {
    var n := |m.log.calls|;
    && m.stop == AtEntry && n > 0
    && Call(m.regs.origRax, m.regs.args) == m.log.calls[n - 1]
    && Decided(table, m.log.(calls := m.log.calls[..n - 1]))
    && Served(m.log.(calls := m.log.calls[..n - 1]), n - 1, n - 1, n - 1)
  }

  lemma EnterUserStays<W>(env: Env<W>, table: Table<W>, m: Machine<W>)
    requires Decided(table, m.log) && Served(m.log, |m.log.calls|, |m.log.calls|, |m.log.calls|)
    ensures var m' := EnterUser(env, m); if m'.stop == AtEntry then Undecided(table, m') else InStep(table, m')
  {
    hide HookRuns;
    var m' := EnterUser(env, m);
    if m'.stop == AtEntry {
      assert m'.log.calls[..|m.log.calls|] == m.log.calls;
    }
  }

  lemma LeaveKernelStays<W>(table: Table<W>, m: Machine<W>, k: (KernelStop, W))
    requires Decided(table, m.log)
    requires var n := |m.log.calls|; n > 0 && Served(m.log, n, n - 1, n - 1) && !m.log.fates[n - 1].Handled?
    ensures InStep(table, LeaveKernel(m, k))
  {
    hide HookRuns;
  }

  /** Resuming a tracee in step: it meets a new call, or everything so far stays in step. */
  lemma ResumedStays<W>(env: Env<W>, table: Table<W>, m: Machine<W>)
    requires InStep(table, m)
    ensures var m' := Resumed(env, m); Undecided(table, m') || (m'.stop != AtEntry && InStep(table, m'))
  {
    hide HookRuns, EnterUser, LeaveKernel;
    match m.stop {
      case AtEntry =>
        var c := Call(m.regs.origRax, m.regs.args);
        LeaveKernelStays(table, m.(log := m.log.(kernel := m.log.kernel + [c])), env.kernel(m.world, c));
        LeaveKernelNotEntry(m.(log := m.log.(kernel := m.log.kernel + [c])), env.kernel(m.world, c));
      case InKernel =>
        LeaveKernelStays(table, m, env.unpause(m.world));
        LeaveKernelNotEntry(m, env.unpause(m.world));
      case AtExit =>
        EnterUserStays(env, table, m.(world := env.deliver(m.world, m.regs.rax), log := m.log.(results := m.log.results + [m.regs.rax])));
      case InUser =>
        EnterUserStays(env, table, m);
      case Gone =>
    }
  }

  lemma LeaveKernelNotEntry<W>(m: Machine<W>, k: (KernelStop, W))
    ensures LeaveKernel(m, k).stop != AtEntry
  {}

  /** Replacing a call just decided: the kernel runs `gettid`, and the exit stop, if the tracee lives, shows the result. */
  lemma ReplacedStays<W(!new)>(env: Env<W>, table: Table<W>, m: Machine<W>, v: uint64)
    requires GettidNeverPauses(env) && m.stop == AtEntry && Decided(table, m.log)
    requires var n := |m.log.calls|;
             n > 0 && Served(m.log, n - 1, n - 1, n - 1) && m.log.fates[n - 1] == Handled(v)
             && m.regs.args == m.log.calls[n - 1].args
    ensures InStep(table, Replaced(env, m, v))
  {
    hide HookRuns;
    var c := Call(GETTID, m.regs.args);
    var k := env.kernel(m.world, c).0;
    assert !k.Paused?;
    var m' := Replaced(env, m, v);
    assert m'.log.kernel == m.log.kernel + [c];
    if k.Returns? {
      assert m'.log.answers == m.log.answers + [k.answer];
    }
  }

  lemma HookRunsSnoc<W>(table: Table<W>, calls: seq<Call>, fates: seq<Fate>, c: Call, f: Fate)
    requires |calls| == |fates|
    ensures HookRuns(table, calls + [c], fates + [f])
         == HookRuns(table, calls, fates) + if table(c.nr) == None then [] else [(c, ResultOf(f))]
  {
    assert (calls + [c])[..|calls|] == calls && (fates + [f])[..|fates|] == fates;
  }

  /** The log once the newest call has met its fate. */
  function Met<W>(table: Table<W>, log: Log, f: Fate): Log
    requires |log.calls| > 0
  {
    var c := log.calls[|log.calls| - 1];
    log.(fates := log.fates + [f], hooked := log.hooked + if table(c.nr) == None then [] else [(c, ResultOf(f))])
  }

  lemma MetStays<W>(table: Table<W>, log: Log, f: Fate)
    requires |log.calls| > 0
    requires var n := |log.calls|; var before := log.(calls := log.calls[..n - 1]);
             Decided(table, before) && Served(before, n - 1, n - 1, n - 1)
    requires f.Unhooked? <==> table(log.calls[|log.calls| - 1].nr) == None
    ensures Decided(table, Met(table, log, f)) && Served(Met(table, log, f), |log.calls| - 1, |log.calls| - 1, |log.calls| - 1)
  {
    var n := |log.calls|;
    var c := log.calls[n - 1];
    assert log.calls == log.calls[..n - 1] + [c];
    HookRunsSnoc(table, log.calls[..n - 1], log.fates, c, f);
    hide HookRuns;
  }

  /** The decision on a new call brings the machine back in step; a handled call is already answered. */
  lemma TrappedStays<W(!new)>(env: Env<W>, table: Table<W>, m: Machine<W>)
    requires GettidNeverPauses(env) && Undecided(table, m)
    ensures InStep(table, Trapped(env, table, m))
  {
    hide Replaced, HookRuns, GettidNeverPauses;
    var c := m.log.calls[|m.log.calls| - 1];
    if table(c.nr) == None {
      MetStays(table, m.log, Unhooked);
    } else {
      var (r, h) := RunHook(table(c.nr).value, m);
      var f := if r.Handle? then Handled(r.result) else Passed;
      MetStays(table, m.log, f);
      hide Decided;
      assert Decide(h, f).log == Met(table, m.log, f);
      if r.Handle? {
        ReplacedStays(env, table, Decide(h, f), r.result);
      }
    }
  }

  lemma RoundStays<W(!new)>(env: Env<W>, table: Table<W>, m: Machine<W>)
    requires GettidNeverPauses(env) && InStep(table, m)
    ensures InStep(table, Round(env, table, m))
  {
    hide InStep, Undecided, Resumed;
    ResumedStays(env, table, m);
    if Undecided(table, Resumed(env, m)) {
      TrappedStays(env, table, Resumed(env, m));
    }
  }

  /** The worker starts at a stop within `execve`, which has no hook. */
  function Start<W>(w: W, regs: Regs, exec: Call): Machine<W> {
    Machine(w, InKernel, regs, Log([exec], [Unhooked], [], [exec], [], []))
  }

  /**
   For any tracee, kernel, hook table and number of rounds: every hooked call's
   hook runs exactly once and no other does; a handled call reaches the kernel
   only as `gettid` and gives the tracee the hook's result; any other call
   reaches the kernel unchanged and gives the tracee the kernel's answer; and
   entry and exit stops never get out of step.
   */
  lemma {:induction false} InterpositionStaysInStep<W(!new)>(env: Env<W>, table: Table<W>, m: Machine<W>, rounds: nat)
    requires GettidNeverPauses(env) && InStep(table, m)
    ensures InStep(table, Rounds(env, table, m, rounds))
    decreases rounds
  {
    hide InStep, Round;
    if rounds > 0 && m.stop != Gone {
      RoundStays(env, table, m);
      InterpositionStaysInStep(env, table, Round(env, table, m), rounds - 1);
    }
  }

  lemma StartInStep<W(!new)>(table: Table<W>, w: W, regs: Regs, exec: Call)
    requires table(exec.nr) == None
    ensures InStep(table, Start(w, regs, exec))
  {
    assert HookRuns(table, [exec], [Unhooked]) == [] by {
      assert [exec][..0] == [] && [Unhooked][..0] == [];
      assert HookRuns(table, [], []) == [];
    }
  }

  lemma EveryRun<W(!new)>(env: Env<W>, table: Table<W>, w: W, regs: Regs, exec: Call, rounds: nat)
    requires GettidNeverPauses(env) && table(exec.nr) == None
    ensures var log := Rounds(env, table, Start(w, regs, exec), rounds).log;
            && |log.fates| == |log.calls|
            && log.hooked == HookRuns(table, log.calls, log.fates)
            && (forall i | 0 <= i < |log.calls| :: log.fates[i].Unhooked? <==> table(log.calls[i].nr) == None)
            && |log.results| <= |log.answers| <= |log.kernel| <= |log.calls| <= |log.results| + 1
            && (forall i | 0 <= i < |log.kernel| :: log.kernel[i] == Executed(log.calls[i], log.fates[i]))
            && (forall i | 0 <= i < |log.results| :: log.results[i] == Seen(log.fates[i], log.answers[i]))
  {
    var m := Start(w, regs, exec);
    StartInStep(table, w, regs, exec);
    hide Start, Rounds;
    InterpositionStaysInStep(env, table, m, rounds);
  }

  /** No call stops the tracee again before it returns or the tracee dies. */
  ghost predicate NeverPauses<W(!new)>(env: Env<W>) {
    forall w, c :: !env.kernel(w, c).0.Paused?
  }

  lemma ResultsGrow<W(!new)>(env: Env<W>, table: Table<W>, m: Machine<W>)
    ensures m.log.results <= Round(env, table, m).log.results
    ensures m.stop == AtExit ==> Round(env, table, m).log.results == m.log.results + [m.regs.rax]
  {}

  /** A call left to the kernel is answered in the next round. */
  lemma KernelAnswers<W(!new)>(env: Env<W>, table: Table<W>, m: Machine<W>)
    requires NeverPauses(env) && m.stop == AtEntry
    ensures Round(env, table, m).stop == AtExit || Round(env, table, m).stop == Gone
  {
    assert !env.kernel(m.world, Call(m.regs.origRax, m.regs.args)).0.Paused?;
  }

  lemma TwoRounds<W>(env: Env<W>, table: Table<W>, m: Machine<W>)
    ensures var m1 := Round(env, table, m);
            Rounds(env, table, m, 2) == if m.stop == Gone then m else if m1.stop == Gone then m1 else Round(env, table, m1)
  {
    hide Round;
    var m1 := Round(env, table, m);
    assert Rounds(env, table, m1, 1) == if m1.stop == Gone then m1 else Rounds(env, table, Round(env, table, m1), 0);
  }

  /**
   If the kernel never pauses within a call, every call stopped at its entry or
   exit, handled or not, has its result delivered to the tracee within two
   rounds of the worker, unless the tracee is gone by then.
   */
  lemma DeliveredWithinTwoRounds<W(!new)>(env: Env<W>, table: Table<W>, m: Machine<W>)
    requires NeverPauses(env) && InStep(table, m)
    requires m.stop == AtEntry || m.stop == AtExit
    ensures var r := Rounds(env, table, m, 2);
            r.stop == Gone || |r.log.results| >= |m.log.calls|
  {
    TwoRounds(env, table, m);
    var m1 := Round(env, table, m);
    ResultsGrow(env, table, m);
    ResultsGrow(env, table, m1);
    if m.stop == AtEntry {
      KernelAnswers(env, table, m);
    }
    hide Round;
  }
}
