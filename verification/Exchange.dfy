/** Two user processes running dual scripts on the kernel itself. */
module Exchange {
  import opened Bytes
  import opened Limits
  import opened RunQueue
  import opened Channel
  import opened Liveness
  import opened Machine

  // A fork is a move of whoever runs, here of a third process, and takes the lowest free slot.
  predicate ByKernel(u: Setup, y: Sys, mv: Move)
    requires |y.c.s.pst| == PROCESS_LIMIT
  {
    mv.Env? && mv.e.Forked? ==>
      && y.c.current != u.a && y.c.current != u.b && y.c.current < PROCESS_LIMIT && y.c.s.pst[y.c.current] != TERMINATED
      && LowestFree(y.c.s, mv.e.p)
  }

  predicate AllByKernel(u: Setup, y: Sys, mvs: seq<Move>)
    requires AllAllowed(u, y, mvs)
    decreases |mvs|
  {
    mvs == [] || (|y.c.s.pst| == PROCESS_LIMIT && ByKernel(u, y, mvs[0]) && AllByKernel(u, Do(u, y, mvs[0]), mvs[1..]))
  }

  // The same registers but for the result of a system call.
  predicate SameButR0(c: Ctx, d: Ctx) {
    |c.gpr| == |d.gpr| == 13 && d == c.(gpr := c.gpr[0 := d.gpr[0]])
  }

  /** Every interleaving of channel calls, timer interrupts, and forks, signals, kills and exits of other
      processes, carried out by the kernel's own in-place operations, follows the exchange of module
      Channel step by step: no call's requirement is ever violated, the scheduler always terminates,
      what the processes receive is what that run says, and both keep their registers but for the
      results of their calls. A call that leaves -1 in register 0 is made again when its caller runs next. */
  method Follow(k: Kernel, m: nat, u: Setup, mvs: seq<Move>) returns (pa: nat, pb: nat, got: seq<seq<byte>>)
    requires k.Valid() && m < MSGCHAN_LIMIT
    requires var y0 := Sys(k.CoreOf(m), 0, 0, []);
             Initial(u, y0) && AllAllowed(u, y0, mvs) && AllByKernel(u, y0, mvs)
    modifies k, k.pcb, k.rq, k.mq
    ensures k.Valid()
    ensures Sys(k.CoreOf(m), pa, pb, got) == Run(u, Sys(old(k.CoreOf(m)), 0, 0, []), mvs)
    ensures SameButR0(old(k.ContextOf(u.a)), k.ContextOf(u.a)) && SameButR0(old(k.ContextOf(u.b)), k.ContextOf(u.b))
  {
    hide QueueOk, SomeRuns, Turn, Tick, Idle, InFlight, TrySend, TryReceive, Pids, States, ByKernel;
    pa, pb, got := 0, 0, [];
    ghost var y0 := Sys(k.CoreOf(m), 0, 0, []);
    InitialInv(u, y0);
    assert mvs[0..] == mvs;
    for i := 0 to |mvs|
      invariant SameButR0(old(k.ContextOf(u.a)), k.ContextOf(u.a)) && SameButR0(old(k.ContextOf(u.b)), k.ContextOf(u.b))
      invariant k.Valid() && Inv(u, Sys(k.CoreOf(m), pa, pb, got))
      invariant AllAllowed(u, Sys(k.CoreOf(m), pa, pb, got), mvs[i..])
      invariant AllByKernel(u, Sys(k.CoreOf(m), pa, pb, got), mvs[i..])
      invariant Run(u, Sys(k.CoreOf(m), pa, pb, got), mvs[i..]) == Run(u, y0, mvs)
    {
      ghost var y := Sys(k.CoreOf(m), pa, pb, got);
      assert mvs[i..][0] == mvs[i] && mvs[i..][1..] == mvs[i + 1..];
      StepInv(u, y, mvs[i]);
      pa, pb, got := Advance(k, m, u, mvs[i], pa, pb, got);
    }
  }

  lemma InitialInv(u: Setup, y: Sys)
    requires Initial(u, y)
    ensures Inv(u, y)
  {
    assert Idle(u, y, 0);
  }

  // One move of the interleaving.
  method Advance(k: Kernel, m: nat, u: Setup, mv: Move, pa0: nat, pb0: nat, got0: seq<seq<byte>>)
    returns (pa: nat, pb: nat, got: seq<seq<byte>>)
    requires k.Valid() && m < MSGCHAN_LIMIT
    requires var y := Sys(k.CoreOf(m), pa0, pb0, got0); Inv(u, y) && Allowed(u, y, mv) && ByKernel(u, y, mv)
    modifies k, k.pcb, k.rq, k.mq
    ensures k.Valid()
    ensures Sys(k.CoreOf(m), pa, pb, got) == Do(u, Sys(old(k.CoreOf(m)), pa0, pb0, got0), mv)
    ensures SameButR0(old(k.ContextOf(u.a)), k.ContextOf(u.a)) && SameButR0(old(k.ContextOf(u.b)), k.ContextOf(u.b))
  {
    hide QueueOk, SomeRuns, Turn, Tick, TrySend, TryReceive, Pids, States;
    pa, pb, got := pa0, pb0, got0;
    ghost var y := Sys(k.CoreOf(m), pa, pb, got);
    CallFacts(u, y);
    match mv {
      case Interrupt =>
        k.Scheduler();
      case Env(e) =>
        AdvanceOthers(k, m, u, e, pa, pb, got);
      case Exit =>
        ExitInv(u, y);
        k.SvcRaise(SIGKILL);
      case Call =>
        pa, pb, got := AdvanceCall(k, m, u, pa, pb, got);
    }
  }

  // A move of the processes that take no part.
  method AdvanceOthers(k: Kernel, m: nat, u: Setup, e: Event, ghost pa: nat, ghost pb: nat, ghost got: seq<seq<byte>>)
    requires k.Valid() && m < MSGCHAN_LIMIT
    requires var y := Sys(k.CoreOf(m), pa, pb, got); Inv(u, y) && Allowed(u, y, Env(e)) && ByKernel(u, y, Env(e))
    modifies k`rqSize, k`cpu, k.pcb, k.rq
    ensures k.Valid() && k.CoreOf(m) == Do(u, Sys(old(k.CoreOf(m)), pa, pb, got), Env(e)).c
    ensures k.ContextOf(u.a) == old(k.ContextOf(u.a)) && k.ContextOf(u.b) == old(k.ContextOf(u.b))
  {
    hide QueueOk, SomeRuns, Turn, Tick, Pids, States;
    match e {
      case Forked(p) => Branch(k, m, u, p);
      case Stopped(p) => k.Kill(p, SIGWAIT);
      case Continued(p) => k.Kill(p, SIGCONT);
      case Killed(p) => k.Kill(p, SIGKILL);
    }
  }

  // The register value at which msgsend and msgreceive call again: -1 as a C int.
  const NO_RESULT: word := 0xFFFF_FFFF

  // A channel call by one of the two, if it is running and has one to make.
  method AdvanceCall(k: Kernel, m: nat, u: Setup, pa0: nat, pb0: nat, got0: seq<seq<byte>>)
    returns (pa: nat, pb: nat, got: seq<seq<byte>>)
    requires k.Valid() && m < MSGCHAN_LIMIT
    requires Inv(u, Sys(k.CoreOf(m), pa0, pb0, got0))
    modifies k, k.pcb, k.rq, k.mq
    ensures k.Valid()
    ensures Sys(k.CoreOf(m), pa, pb, got) == Do(u, Sys(old(k.CoreOf(m)), pa0, pb0, got0), Call)
    ensures SameButR0(old(k.ContextOf(u.a)), k.ContextOf(u.a)) && SameButR0(old(k.ContextOf(u.b)), k.ContextOf(u.b))
  {
    hide QueueOk, SomeRuns, Turn, Tick, TrySend, TryReceive, Pids, States;
    pa, pb, got := pa0, pb0, got0;
    CallFacts(u, Sys(k.CoreOf(m), pa, pb, got));
    if k.current == u.a && pa < |u.msgs| {
      if u.script[pa] {
        var r := k.SvcSend(m, u.msgs[pa]);
        pa := if k.Result(u.a) == NO_RESULT then pa else pa + 1;
      } else {
        var r := k.SvcReceive(m, |u.msgs[pa]|);
        if k.Result(u.a) != NO_RESULT {
          got := got + [r.data];
          pa := pa + 1;
        }
      }
    } else if k.current == u.b && pb < |u.msgs| {
      if u.script[pb] {
        var r := k.SvcReceive(m, |u.msgs[pb]|);
        if k.Result(u.b) != NO_RESULT {
          got := got + [r.data];
          pb := pb + 1;
        }
      } else {
        var r := k.SvcSend(m, u.msgs[pb]);
        pb := if k.Result(u.b) == NO_RESULT then pb else pb + 1;
      }
    }
  }

  // A fork by the running process, which is neither of the two.
  method Branch(k: Kernel, m: nat, u: Setup, ghost p: nat)
    requires k.Valid() && m < MSGCHAN_LIMIT && k.current != u.a && k.current != u.b
    requires LowestFree(k.Queue(), p) && k.pcb[k.current].pst != TERMINATED && p != u.a && p != u.b
    modifies k`rqSize, k`cpu, k.pcb, k.rq
    ensures k.Valid() && k.CoreOf(m) == Core(Step(old(k.Queue()), Forked(p)), k.current, old(k.mq[m]))
    ensures k.ContextOf(u.a) == old(k.ContextOf(u.a)) && k.ContextOf(u.b) == old(k.ContextOf(u.b))
  {
    hide QueueOk, Pids;
    assert Available(k.Queue());
    var r := k.SvcFork();
  }

  // What the kernel's calls need, in any reachable state.
  lemma CallFacts(u: Setup, y: Sys)
    requires Inv(u, y)
    ensures SomeRuns(y.c.s) && NonEmptyQueue(y.c.s)
    ensures y.c.ch.qnum > 0 ==> 0 <= y.c.ch.lspid < PROCESS_LIMIT
    ensures Calls(u, y) && Attempt(u, y).1 == Failed ==> SomeRuns(Attempt(u, y).0.s)
    ensures Calls(u, y) ==> y.c.s.pst[y.c.current] != TERMINATED
  {
    SchedulerFinds(u, y);
    if Calls(u, y) && Attempt(u, y).1 == Failed {
      FailedCall(u, y);
    }
  }

  predicate NonEmptyQueue(s: Sched) {
    s.q != []
  }

  // ----- from boot on -----

  // After boot, two forks and an mq_open: processes 0, 1 and 2 queued, the first one running.
  function BootState(name: int): (y: Sys)
    ensures |y.c.s.pst| == PROCESS_LIMIT
  {
    var pst := [EXECUTING, EXECUTING, EXECUTING] + seq(PROCESS_LIMIT - 3, _ => TERMINATED);
    Sys(Core(Sched([0, 1, 2], pst), 0, Chan(name, 0, 0, 0, 0, seq(QBUF, _ => 0))), 0, 0, [])
  }

  // Processes 0 to n - 1 queued in order, all others TERMINATED.
  function BootQueue(n: nat): (s: Sched)
    requires n <= PROCESS_LIMIT
    ensures |s.pst| == PROCESS_LIMIT && |s.q| == n
  {
    Sched(seq(n, i requires 0 <= i < n => i), seq(PROCESS_LIMIT, i => if i < n then EXECUTING else TERMINATED))
  }

  lemma NextBoot(n: nat, r: nat)
    requires 1 <= n < PROCESS_LIMIT
    ensures Available(BootQueue(n)) && Step(BootQueue(n), Forked(n)) == BootQueue(n + 1)
    ensures LowestFree(BootQueue(n), r) ==> r == n
    ensures BootQueue(n).pst[0] == EXECUTING
  {
    var s := BootQueue(n);
    assert s.pst[n] == TERMINATED;
    assert LowestFree(s, n);
    assert Step(s, Forked(n)).q == BootQueue(n + 1).q;
    assert Step(s, Forked(n)).pst == BootQueue(n + 1).pst;
  }

  // The first process forks while none has ended.
  method Spawn(k: Kernel, ghost n: nat)
    requires k.Valid() && 1 <= n < PROCESS_LIMIT && k.Queue() == BootQueue(n) && k.current == 0
    modifies k`rqSize, k`cpu, k.pcb, k.rq
    ensures k.Valid() && k.Queue() == BootQueue(n + 1) && k.mq[..] == old(k.mq[..])
  {
    hide QueueOk, Pids, BootQueue, Step, LowestFree, Available;
    NextBoot(n, n);
    var r := k.SvcFork();
    NextBoot(n, r);
  }

  // Boot, two children, a channel.
  method StartUp(boot: Ctx, name: int) returns (k: Kernel, m: int)
    requires |boot.gpr| == 13
    ensures fresh(k) && fresh(k.pcb) && fresh(k.rq) && fresh(k.mq)
    ensures k.Valid() && 0 <= m < MSGCHAN_LIMIT && k.CoreOf(m) == BootState(name).c
  {
    hide QueueOk, Pids, States, BootQueue;
    k := new Kernel(boot);
    BootQueues(name);
    Spawn(k, 1);
    Spawn(k, 2);
    ghost var zero := Chan(0, 0, 0, 0, 0, seq(QBUF, _ => 0));
    assert forall i | 0 <= i < MSGCHAN_LIMIT :: k.mq[i] == k.mq[..][i] == zero;
    label opening:
    m := k.MqOpen(name);
    assert old@opening(k.mq[0].name) == 0;
    assert k.mq[m] == k.mq[..][m] == zero.(name := name);
  }

  lemma BootQueues(name: int)
    ensures BootQueue(1) == Sched([0], [EXECUTING] + seq(PROCESS_LIMIT - 1, _ => TERMINATED))
    ensures BootQueue(3) == BootState(name).c.s
  {
    assert BootQueue(1).q == [0] && BootQueue(3).q == [0, 1, 2];
    assert BootQueue(1).pst == [EXECUTING] + seq(PROCESS_LIMIT - 1, _ => TERMINATED);
    assert BootQueue(3).pst == BootState(name).c.s.pst;
  }

  /** From power-on: the kernel boots, forks two children and opens a channel, and the children run
      dual scripts over it. Under every interleaving the completed receives are the first messages in
      order, and once the scheduler has been called 2 n * PROCESS_LIMIT times in a prompt run, and
      PROCESS_LIMIT times more for each exit, both scripts are done and all n messages have arrived. */
  method FirstMeeting(boot: Ctx, name: int, u: Setup, mvs: seq<Move>) returns (k: Kernel, got: seq<seq<byte>>)
    requires |boot.gpr| == 13 && u.a == 1 && u.b == 2
    requires AllAllowed(u, BootState(name), mvs) && AllByKernel(u, BootState(name), mvs)
    ensures k.Valid() && got <= u.msgs
    ensures Prompt(u, BootState(name), mvs, false)
              && SchedulerCalls(u, BootState(name), mvs) >= (2 * |u.msgs| + ExitMoves(mvs)) * PROCESS_LIMIT ==>
              got == u.msgs
  {
    hide QueueOk, SomeRuns, Run, Prompt, SchedulerCalls, ExitMoves, AllAllowed, AllByKernel;
    var m;
    k, m := StartUp(boot, name);
    BootIsInitial(u, name);
    var pa, pb;
    pa, pb, got := Follow(k, m, u, mvs);
    ExactlyOnce(u, BootState(name), mvs);
    if Prompt(u, BootState(name), mvs, false)
       && SchedulerCalls(u, BootState(name), mvs) >= (2 * |u.msgs| + ExitMoves(mvs)) * PROCESS_LIMIT
    {
      Completes(u, BootState(name), mvs);
      assert u.msgs[..|u.msgs|] == u.msgs;
    }
  }

  lemma BootIsInitial(u: Setup, name: int)
    requires u.a == 1 && u.b == 2
    ensures Initial(u, BootState(name)) && Headed(BootState(name))
  {
  }
}
