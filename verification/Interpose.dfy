/**
 System-call interposition.  A tracee under ptrace stops at the entry and at
 the exit of each system call, and now and then for other reasons.  The worker
 resumes it from stop to stop; at an entry it runs the hook, and to answer the
 call itself it turns it into `gettid` and patches the result at the exit.
 */
module Interpose {
  import opened Words
  import opened Optional

  const GETTID: uint64 := 186

  /** The kernel leaves -ENOSYS in `rax` at an entry stop. */
  const AT_ENTRY: uint64 := TWO_64 - 38

  datatype Call = Call(nr: uint64, args: seq<uint64>)

  datatype Regs = Regs(origRax: uint64, rax: uint64, args: seq<uint64>)

  // The tracee and the kernel: any functions of the world, which holds the
  // memory and private state of both and the simulator's replica

  datatype UserStop = Enters(call: Call) | Interrupted | Ends

  datatype KernelStop = Returns(answer: uint64) | Paused | Dies

  datatype Env<!W> = Env(
    deliver: (W, uint64) -> W,                               // the tracee sees its result
    user: W -> (UserStop, W),                                // runs to the next stop outside the kernel
    kernel: (W, Call) -> (KernelStop, W),                    // executes a call to the next stop
    unpause: W -> (KernelStop, W)                            // ...and on from a stop within it
  )

  datatype HookResult = Handle(result: uint64) | Passthrough

  type Hook<!W> = (W, seq<uint64>) -> (HookResult, W)

  type Table<!W> = uint64 -> Option<Hook<W>>

  /** What the tracer did with a call. */
  datatype Fate = Unhooked | Passed | Handled(result: uint64)

  /** What happened so far, in order. */
  datatype Log = Log(
    calls: seq<Call>,                 // calls the tracee made
    fates: seq<Fate>,                 // what the tracer did with them
    hooked: seq<(Call, HookResult)>,  // what was passed to a hook, and what the hook returned
    kernel: seq<Call>,                // calls the kernel executed
    answers: seq<uint64>,             // what it returned
    results: seq<uint64>              // what the tracee saw
  )

  datatype Stop = AtEntry | AtExit | InUser | InKernel | Gone

  datatype Machine<W> = Machine(world: W, stop: Stop, regs: Regs, log: Log)

  // The stops of ptrace(2)

  function EnterUser<W>(env: Env<W>, m: Machine<W>): Machine<W> {
    var (s, w) := env.user(m.world);
    match s
    case Enters(c) =>
      m.(world := w, stop := AtEntry, regs := Regs(c.nr, AT_ENTRY, c.args), log := m.log.(calls := m.log.calls + [c]))
    case Interrupted => m.(world := w, stop := InUser)
    case Ends => m.(world := w, stop := Gone)
  }

  function LeaveKernel<W>(m: Machine<W>, k: (KernelStop, W)): Machine<W> {
    match k.0
    case Returns(v) =>
      m.(world := k.1, stop := AtExit, regs := m.regs.(rax := v), log := m.log.(answers := m.log.answers + [v]))
    case Paused => m.(world := k.1, stop := InKernel)
    case Dies => m.(world := k.1, stop := Gone)
  }

  /** PTRACE_SYSCALL and the wait for the next stop. */
  function Resumed<W>(env: Env<W>, m: Machine<W>): Machine<W> {
    match m.stop
    case AtEntry =>
      var c := Call(m.regs.origRax, m.regs.args);
      LeaveKernel(m.(log := m.log.(kernel := m.log.kernel + [c])), env.kernel(m.world, c))
    case InKernel => LeaveKernel(m, env.unpause(m.world))
    case AtExit =>
      EnterUser(env, m.(world := env.deliver(m.world, m.regs.rax), log := m.log.(results := m.log.results + [m.regs.rax])))
    case InUser => EnterUser(env, m)
    case Gone => m
  }

  /** The tracee at the end of `replace_syscall_with_result`. */
  function Replaced<W>(env: Env<W>, m: Machine<W>, result: uint64): Machine<W> {
    var regs := m.regs.(origRax := GETTID, rax := GETTID);
    Resumed(env, m.(regs := regs)).(regs := regs.(origRax := result, rax := result))
  }

  /** The hook runs on the world and the arguments of the call. */
  function RunHook<W>(hook: Hook<W>, m: Machine<W>): (HookResult, Machine<W>) {
    var (r, w) := hook(m.world, m.regs.args);
    (r, m.(world := w, log := m.log.(hooked := m.log.hooked + [(Call(m.regs.origRax, m.regs.args), r)])))
  }

  function Decide<W>(m: Machine<W>, f: Fate): Machine<W> {
    m.(log := m.log.(fates := m.log.fates + [f]))
  }

  function Trapped<W>(env: Env<W>, table: Table<W>, m: Machine<W>): Machine<W> {
    if m.stop != AtEntry then m
    else
      match table(m.regs.origRax)
      case None => Decide(m, Unhooked)
      case Some(hook) =>
        var (r, h) := RunHook(hook, m);
        match r
        case Handle(v) => Replaced(env, Decide(h, Handled(v)), v)
        case Passthrough => Decide(h, Passed)
  }

  /** One round of the worker's loop. */
  function Round<W>(env: Env<W>, table: Table<W>, m: Machine<W>): Machine<W> {
    Trapped(env, table, Resumed(env, m))
  }

  function Rounds<W>(env: Env<W>, table: Table<W>, m: Machine<W>, n: nat): Machine<W>
    decreases n
  {
    if n == 0 || m.stop == Gone then m else Rounds(env, table, Round(env, table, m), n - 1)
  }

  // The worker as code

  class Child<!W> {
    const env: Env<W>
    var m: Machine<W>

    constructor (env: Env<W>, m: Machine<W>)
      ensures this.env == env && this.m == m
    {
      this.env, this.m := env, m;
    }

    method SyscallAndWait()
      modifies this
      ensures m == Resumed(env, old(m))
    {
      m := Resumed(env, m);
    }

    method SetRegs(regs: Regs)
      modifies this
      ensures m == old(m).(regs := regs)
    {
      m := m.(regs := regs);
    }
  }

  method ReplaceSyscallWithResult<W>(child: Child<W>, result: uint64)
    modifies child
    ensures child.m == Replaced(child.env, old(child.m), result)
    ensures child.m.regs.rax == child.m.regs.origRax == result && child.m.regs.args == old(child.m.regs.args)
    ensures old(child.m.stop) == AtEntry ==>
              child.m.log.kernel == old(child.m.log.kernel) + [Call(GETTID, old(child.m.regs.args))]
  {
    var regs := child.m.regs;
    regs := regs.(origRax := GETTID, rax := GETTID);
    child.SetRegs(regs);
    child.SyscallAndWait();
    regs := regs.(origRax := result, rax := result);
    child.SetRegs(regs);
  }

  method HandleTrapped<W>(child: Child<W>, table: Table<W>)
    modifies child
    ensures child.m == Trapped(child.env, table, old(child.m))
  {
    var m := child.m;
    if m.stop != AtEntry {
      return;
    }
    var hook := table(m.regs.origRax);
    if hook == None {
      child.m := Decide(m, Unhooked);
      return;
    }
    var (result, h) := RunHook(hook.value, m);
    match result {
      case Handle(v) =>
        child.m := Decide(h, Handled(v));
        ReplaceSyscallWithResult(child, v);
      case Passthrough =>
        child.m := Decide(h, Passed);
    }
  }

  /** The worker's loop, observed after any number of rounds. */
  method Worker<W>(child: Child<W>, table: Table<W>, rounds: nat)
    modifies child
    ensures child.m == Rounds(child.env, table, old(child.m), rounds)
  {
    var i := 0;
    while i < rounds && child.m.stop != Gone
      invariant i <= rounds
      invariant Rounds(child.env, table, child.m, rounds - i) == Rounds(child.env, table, old(child.m), rounds)
    {
      child.SyscallAndWait();
      if child.m.stop == AtEntry || child.m.stop == AtExit {
        HandleTrapped(child, table);
      }
      i := i + 1;
    }
  }
}
