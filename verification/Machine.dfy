/** The kernel's process table, ready queue and message channels, updated in place. */
module Machine {
  import opened Bytes
  import opened Limits
  import opened RunQueue
  import opened Channel

  const MSGCHAN_LIMIT: nat := 32

  datatype Signal = SIGKILL | SIGWAIT | SIGCONT | SIGPRI0

  datatype Ctx = Ctx(cpsr: word, pc: word, gpr: seq<word>, sp: word, lr: word)

  // An int stored in a register.
  function AsWord(v: int): word {
    v % 0x1_0000_0000
  }

  // A system call's result goes to register 0 of its caller.
  function WithR0(c: Ctx, v: int): Ctx
    requires |c.gpr| == 13
  {
    c.(gpr := c.gpr[0 := AsWord(v)])
  }

  datatype Pcb = Pcb(pid: int, prt: int, ctx: Ctx, pst: Status)

  function Pids(rq: seq<int>): (q: seq<nat>)
    ensures |q| == |rq|
    ensures forall i | 0 <= i < |rq| :: rq[i] >= 0 ==> q[i] == rq[i]
  {
    seq(|rq|, i requires 0 <= i < |rq| => if rq[i] >= 0 then rq[i] else 0)
  }

  function States(pcb: seq<Pcb>): (v: seq<Status>)
    ensures |v| == |pcb|
    ensures forall p | 0 <= p < |pcb| :: v[p] == pcb[p].pst
  {
    seq(|pcb|, p requires 0 <= p < |pcb| => pcb[p].pst)
  }

  class Kernel {
    const pcb: array<Pcb>
    // rq[i] is the pid of the queued process, or NULL.
    const rq: array<int>
    var rqSize: nat
    var current: nat
    // The registers saved on entry to the kernel, and restored on leaving it.
    var cpu: Ctx
    const mq: array<Chan>

    ghost predicate Shape()
      reads this, pcb, rq, mq
    {
      && pcb.Length == PROCESS_LIMIT && rq.Length == PROCESS_LIMIT && mq.Length == MSGCHAN_LIMIT
      && rqSize <= PROCESS_LIMIT && current < PROCESS_LIMIT && |cpu.gpr| == 13
      && (forall i | 0 <= i < PROCESS_LIMIT ::
            if i < rqSize then 0 <= rq[i] < PROCESS_LIMIT && pcb[rq[i]].pid == rq[i] else rq[i] == NULL)
      && (forall p | 0 <= p < PROCESS_LIMIT :: |pcb[p].ctx.gpr| == 13)
      && (forall i | 0 <= i < MSGCHAN_LIMIT :: |mq[i].buf| == QBUF)
    }

    // The queue and the states as a value.
    ghost function Queue(): (s: Sched)
      requires Shape()
      reads this, pcb, rq, mq
      ensures |s.q| == rqSize && |s.pst| == PROCESS_LIMIT
    {
      Sched(Pids(rq[..rqSize]), States(pcb[..]))
    }

    ghost predicate Valid()
      reads this, pcb, rq, mq
    {
      Shape() && QueueOk(Queue())
    }

    /** The context of process p: the live registers if it is running, else what its entry holds. */
    ghost function ContextOf(p: nat): Ctx
      requires pcb.Length == PROCESS_LIMIT && p < PROCESS_LIMIT
      reads this, pcb
    {
      if p == current then cpu else pcb[p].ctx
    }

    // Register 0 as process p finds it when it runs.
    function Result(p: nat): word
      requires Shape() && p < PROCESS_LIMIT
      reads this, pcb, rq, mq
    {
      if p == current then cpu.gpr[0] else pcb[p].ctx.gpr[0]
    }

    ghost function CoreOf(m: nat): Core
      requires Shape() && m < MSGCHAN_LIMIT
      reads this, pcb, rq, mq
    {
      Core(Queue(), current, mq[m])
    }

    /** kernel_handler_rst: process 0 alone, running. */
    constructor (boot: Ctx)
      requires |boot.gpr| == 13
      ensures Valid() && fresh(pcb) && fresh(rq) && fresh(mq)
      ensures Queue() == Sched([0], [EXECUTING] + seq(PROCESS_LIMIT - 1, _ => TERMINATED))
      ensures current == 0 && cpu == boot
      ensures pcb.Length == rq.Length == 8 && mq.Length == 32 && forall i | 0 <= i < 32 :: |mq[i].buf| == 64
      ensures forall i | 0 <= i < MSGCHAN_LIMIT :: mq[i] == Chan(0, 0, 0, 0, 0, seq(QBUF, _ => 0))
    {
      var zero := Ctx(0, 0, seq(13, _ => 0), 0, 0);
      pcb := new Pcb[PROCESS_LIMIT](_ => Pcb(0, 0, zero, TERMINATED));
      rq := new int[PROCESS_LIMIT](_ => NULL);
      mq := new Chan[MSGCHAN_LIMIT](_ => Chan(0, 0, 0, 0, 0, seq(QBUF, _ => 0)));
      current, cpu, rqSize := 0, boot, 0;
      new;
      hide QueueOk;
      pcb[0] := Pcb(0, 0, boot, EXECUTING);
      rq[0] := 0;
      rqSize := 1;
      assert Queue().q == [0];
      assert Queue().pst == [EXECUTING] + seq(PROCESS_LIMIT - 1, _ => TERMINATED);
      OneQueued();
    }

    /** rq_rotate: the queue turns to the first process behind the head that can run. */
    method RqRotate()
      requires Valid() && SomeRuns(Queue())
      modifies rq
      ensures Valid() && old(Queue()).q != [] && Queue() == Tick(old(Queue()))
      decreases if Queue().q == [] then 0 else Turn(Queue())
    {
      hide Turn, SomeRuns, QueueOk, Rotated;
      ghost var s := Queue();
      NonEmpty(s);
      var head := rq[0];
      var end := if head == NULL then rqSize else rqSize - 1;
      for i := 0 to end
        invariant forall j | 0 <= j < PROCESS_LIMIT :: rq[j] == if j < i then old(rq[j + 1]) else old(rq[j])
      {
        rq[i] := rq[i + 1];
      }
      rq[end] := head;
      assert Queue() == Sched(Rotated(s.q, 1), s.pst) by { ShiftIsRotation(s.q, Queue().q); }
      TurnShift(s);
      OneTurnKeeps(s);
      if rq[0] != NULL && pcb[rq[0]].pst != EXECUTING {
        assert !Runs(Queue(), 0);
        RqRotate();
      } else {
        assert Runs(Queue(), 0);
      }
    }

    /** rq_add; a full queue silently drops the process, but there is room whenever a process slot
        was free. */
    method RqAdd(pid: nat)
      requires Shape() && pid < PROCESS_LIMIT && pcb[pid].pid == pid
      modifies rq, this`rqSize
      ensures Shape()
      ensures Queue() == if old(rqSize) < PROCESS_LIMIT then Sched(old(Queue()).q + [pid], old(Queue()).pst)
                         else old(Queue())
    {
      if rqSize < PROCESS_LIMIT {
        rq[rqSize] := pid;
        rqSize := rqSize + 1;
      }
    }

    /** fork: the lowest free slot becomes a running copy of the caller; -1 if there is none. No
        other process is touched. */
    method Fork() returns (r: int)
      requires Valid()
      modifies pcb, rq, this`rqSize
      ensures Valid()
      ensures r == -1 ==>
                Queue() == old(Queue()) && forall p | 0 <= p < PROCESS_LIMIT ::
                  pcb[p] == old(pcb[p]) && pcb[p].pst != TERMINATED
      ensures r != -1 ==>
                && 0 <= r < PROCESS_LIMIT && Enabled(old(Queue()), Forked(r))
                && Queue() == Step(old(Queue()), Forked(r))
                && (forall p | 0 <= p < r :: old(pcb[p].pst) != TERMINATED)
                && pcb[r].pid == r && pcb[r].ctx == WithR0(old(cpu), 0) && (r != current ==> ContextOf(r) == pcb[r].ctx)
                && Queue().q == old(Queue()).q + [r] && old(pcb[r].pst) == TERMINATED && pcb[r].pst == EXECUTING
                && pcb[r].ctx == old(cpu).(gpr := old(cpu).gpr[0 := 0])
                && pcb[r].prt == (if r == current then r else old(pcb[current].pid))
                && forall p | 0 <= p < PROCESS_LIMIT && p != r ::
                  pcb[p] == old(pcb[p]) && ContextOf(p) == old(ContextOf(p))
    {
      hide QueueOk, Pids, States, Enabled, Step;
      for p := 0 to PROCESS_LIMIT
        invariant forall j | 0 <= j < p :: pcb[j].pst != TERMINATED
        invariant forall j | 0 <= j < PROCESS_LIMIT :: pcb[j] == old(pcb[j])
        invariant Queue() == old(Queue()) && Valid()
      {
        if pcb[p].pst == TERMINATED {
          ghost var s := Queue();
          StepKeeps(s, Forked(p));
          RoomForFork(s, p);
          NotQueued(s, p);
          pcb[p] := pcb[p].(pid := p);
          pcb[p] := pcb[p].(prt := pcb[current].pid);
          pcb[p] := pcb[p].(ctx := cpu);
          pcb[p] := pcb[p].(ctx := WithR0(pcb[p].ctx, 0));
          pcb[p] := pcb[p].(pst := EXECUTING);
          assert Queue() == Sched(s.q, s.pst[p := EXECUTING]);
          RqAdd(p);
          ForkedStep(s, p);
          Register(cpu, 0);
          return p;
        }
      }
      return -1;
    }

    /** rq_rm: takes a process out of the queue, the others keep their order. */
    method RqRm(pid: nat)
      requires Shape() && pid < PROCESS_LIMIT
      requires forall i, j | 0 <= i < j < rqSize :: rq[i] != rq[j]
      modifies rq, this`rqSize
      ensures Shape() && Queue() == Sched(Without(old(Queue()).q, pid), old(Queue()).pst)
      ensures pid !in old(Queue()).q ==> Queue().q == old(Queue()).q
      ensures forall k | 0 <= k < |old(Queue()).q| && old(Queue()).q[k] == pid ::
                Queue().q == old(Queue()).q[..k] + old(Queue()).q[k + 1..]
    {
      hide Pids, States, Without;
      TakenOut(Queue().q, pid);
      ghost var s := Queue();
      ghost var gone := false;
      var p := 0;
      while p < rqSize
        invariant Shape() && Queue().pst == s.pst && p <= rqSize + 1
        invariant !gone ==> Queue().q == s.q && p <= rqSize && forall j | 0 <= j < p :: s.q[j] != pid
        invariant gone ==> Queue().q == Without(s.q, pid)
        decreases rqSize + 1 - p
      {
        assert Queue().q[p] == rq[p];
        assert gone ==> Queue().q[p] in Without(s.q, pid);
        if pcb[rq[p]].pid == pid {
          assert !gone;
          CloseGap(p);
          RemoveAt(s.q, p, pid);
          gone := true;
        }
        p := p + 1;
      }
      if !gone {
        NothingToRemove(s.q, pid);
      }
    }

    // Shifts the queue over position p.
    method CloseGap(p: nat)
      requires Shape() && p < rqSize
      modifies rq, this`rqSize
      ensures Shape() && rqSize == old(rqSize) - 1
      ensures Queue() == Sched(old(Queue()).q[..p] + old(Queue()).q[p + 1..], old(Queue()).pst)
    {
      hide Pids, States;
      ghost var s := Queue();
      for i := p to rqSize - 1
        modifies rq
        invariant forall j | 0 <= j < PROCESS_LIMIT :: rq[j] == if p <= j < i then old(rq[j + 1]) else old(rq[j])
      {
        rq[i] := rq[i + 1];
      }
      rq[rqSize - 1] := NULL;
      rqSize := rqSize - 1;
      GapClosed(s.q, Queue().q, p);
      assert Queue().pst == s.pst;
    }

    /** kill: what each signal does to queue and states; pids that name no process are ignored. The
        queue stays well-formed unless SIGWAIT goes to a process that is TERMINATED, or pid 9 kills
        processes without taking them out of the queue. */
    method Kill(pid: int, sig: Signal)
      requires Valid() && pid != PROCESS_LIMIT as int
      modifies pcb, rq, this`rqSize
      ensures Shape() && Queue() == Signalled(old(Queue()), pid, sig)
      ensures Valid() <==> !Unqueues(old(Queue()), pid, sig)
      ensures forall p | 0 <= p < PROCESS_LIMIT ::
                pcb[p].ctx == old(pcb[p].ctx) && pcb[p].pid == old(pcb[p].pid) && pcb[p].prt == old(pcb[p].prt)
      ensures forall p | 0 <= p < PROCESS_LIMIT ::
                pcb[p].pst == if sig == SIGKILL && (p == pid || (pid == 9 && p > 0)) then TERMINATED
                              else if sig == SIGWAIT && p == pid then WAITING
                              else if sig == SIGCONT && p == pid && old(pcb[p].pst) == WAITING then EXECUTING
                              else old(pcb[p].pst)
      ensures sig != SIGKILL || pid !in old(Queue()).q ==> Queue().q == old(Queue()).q
      ensures sig == SIGKILL && 0 <= pid < PROCESS_LIMIT ==> pid !in Queue().q
      ensures forall k | sig == SIGKILL && 0 <= k < |old(Queue()).q| && old(Queue()).q[k] == pid ::
                Queue().q == old(Queue()).q[..k] + old(Queue()).q[k + 1..]
    {
      hide QueueOk;
      ghost var s := Queue();
      SignalKeeps(s, pid, sig);
      SignalMeans(s, pid, sig);
      assert forall p | 0 <= p < PROCESS_LIMIT :: s.pst[p] == pcb[p].pst;
      if 0 <= pid <= PROCESS_LIMIT {
        match sig {
          case SIGKILL =>
            Terminate(pid);
          case SIGWAIT =>
            pcb[pid] := pcb[pid].(pst := WAITING);
            assert Queue() == Sched(s.q, s.pst[pid := WAITING]);
          case SIGCONT =>
            if pcb[pid].pst == WAITING {
              pcb[pid] := pcb[pid].(pst := EXECUTING);
              assert Queue() == Sched(s.q, s.pst[pid := EXECUTING]);
            }
          case SIGPRI0 =>
        }
      } else if pid == 9 && sig == SIGKILL {
        KillAll();
      }
    }

    // The SIGKILL branch.
    method Terminate(pid: nat)
      requires Valid() && pid < PROCESS_LIMIT
      modifies pcb, rq, this`rqSize
      ensures Shape() && Queue() == Ended(old(Queue()), pid)
      ensures forall p | 0 <= p < PROCESS_LIMIT ::
                pcb[p].ctx == old(pcb[p].ctx) && pcb[p].pid == old(pcb[p].pid) && pcb[p].prt == old(pcb[p].prt)
    {
      hide QueueOk, Without;
      ghost var s := Queue();
      QueueDistinct(s);
      pcb[pid] := pcb[pid].(pst := TERMINATED);
      assert Queue() == Sched(s.q, s.pst[pid := TERMINATED]);
      assert forall i | 0 <= i < rqSize :: s.q[i] == rq[i];
      RqRm(pid);
    }

    // kill with pid 9: every process but the first is marked TERMINATED.
    method KillAll()
      requires Shape()
      modifies pcb
      ensures Shape() && Queue() == Signalled(old(Queue()), 9, SIGKILL)
      ensures forall p | 0 <= p < PROCESS_LIMIT ::
                pcb[p].ctx == old(pcb[p].ctx) && pcb[p].pid == old(pcb[p].pid) && pcb[p].prt == old(pcb[p].prt)
    {
      for p := 1 to PROCESS_LIMIT
        invariant forall j | 0 <= j < PROCESS_LIMIT ::
                    pcb[j] == if 1 <= j < p then old(pcb[j]).(pst := TERMINATED) else old(pcb[j])
      {
        pcb[p] := pcb[p].(pst := TERMINATED);
      }
      assert Queue().pst == Signalled(old(Queue()), 9, SIGKILL).pst;
    }

    /** scheduler: the queue ticks and its head runs, every process keeping its own context. */
    method Scheduler()
      requires Valid() && SomeRuns(Queue())
      modifies pcb, rq, this`current, this`cpu
      ensures Valid() && old(Queue()).q != [] && Queue() == Tick(old(Queue()))
      ensures rqSize > 0 && current == rq[0] && pcb[current].pst == EXECUTING
      ensures forall p | 0 <= p < PROCESS_LIMIT :: ContextOf(p) == old(ContextOf(p))
      ensures forall p | 0 <= p < PROCESS_LIMIT ::
                pcb[p].pid == old(pcb[p].pid) && pcb[p].prt == old(pcb[p].prt) && pcb[p].pst == old(pcb[p].pst)
      ensures var q := old(Queue()).q;
              exists k :: 1 <= k <= |q| && Queue().q == q[k..] + q[..k]
                          && forall j | 1 <= j < k :: q[j] < PROCESS_LIMIT && old(pcb[q[j]].pst) != EXECUTING
    {
      hide Turn, SomeRuns, QueueOk, Rotated;
      TickRuns(Queue());
      TickMeans(Queue());
      assert forall p | 0 <= p < PROCESS_LIMIT :: Queue().pst[p] == pcb[p].pst;
      RqRotate();
      assert Runs(Queue(), 0);
      if rq[0] != NULL {
        if current != rq[0] {
          ghost var s := Queue();
          pcb[current] := pcb[current].(ctx := cpu);
          cpu := pcb[rq[0]].ctx;
          current := rq[0];
          assert Queue() == s;
        }
      }
    }

    /** mq_open: the first channel of that name, else the first free one, reset and named. */
    method MqOpen(name: int) returns (m: int)
      requires Shape()
      modifies mq
      ensures Shape() && Queue() == old(Queue())
      ensures -1 <= m < MSGCHAN_LIMIT
      ensures var known := exists i :: 0 <= i < MSGCHAN_LIMIT && old(mq[i].name) == name;
              if m == -1 then !known && forall i | 0 <= i < MSGCHAN_LIMIT :: old(mq[i].name) != 0
              else if known then
                old(mq[m].name) == name && (forall i | 0 <= i < m :: old(mq[i].name) != name) && mq[..] == old(mq[..])
              else
                && old(mq[m].name) == 0 && (forall i | 0 <= i < m :: old(mq[i].name) != 0)
                && mq[..] == old(mq[..])[m := Chan(name, 0, 0, 0, 0, old(mq[m].buf))]
    {
      for i := 0 to MSGCHAN_LIMIT
        invariant mq[..] == old(mq[..])
        invariant forall j | 0 <= j < i :: old(mq[j].name) != name
      {
        if mq[i].name == name {
          return i;
        }
      }
      for i := 0 to MSGCHAN_LIMIT
        invariant mq[..] == old(mq[..])
        invariant forall j | 0 <= j < i :: old(mq[j].name) != 0
      {
        if mq[i].name == 0 {
          mq[i] := mq[i].(name := name);
          mq[i] := mq[i].(qnum := 0, qrec := 0);
          mq[i] := mq[i].(lspid := 0, lrpid := 0);
          return i;
        }
      }
      return -1;
    }

    /** mq_send. */
    method MqSend(m: nat, msg: seq<byte>) returns (r: int)
      requires Valid() && m < MSGCHAN_LIMIT && |msg| <= QBUF && pcb[current].pst != TERMINATED
      requires mq[m].qrec == 1 ==> 0 <= mq[m].lrpid < PROCESS_LIMIT
      modifies pcb, rq, this`rqSize, mq
      ensures Valid() && CoreOf(m) == TrySend(old(CoreOf(m)), msg).0
      ensures r == if TrySend(old(CoreOf(m)), msg).1 == Failed then -1 else 0
      ensures forall i | 0 <= i < MSGCHAN_LIMIT && i != m :: mq[i] == old(mq[i])
      ensures forall p | 0 <= p < PROCESS_LIMIT :: ContextOf(p) == old(ContextOf(p))
      ensures r == if old(mq[m].qnum) == 0 then 0 else -1
      ensures var was, ch := old(mq[m]), mq[m];
              && ch.name == was.name && ch.lrpid == was.lrpid && ch.lspid == current
              && ch.qnum == (if r == 0 then 1 else was.qnum)
              && ch.qrec == (if r == 0 && was.qrec == 1 then 0 else was.qrec)
              && ch.buf == if r == 0 then msg + was.buf[|msg|..] else was.buf
      ensures forall p | 0 <= p < PROCESS_LIMIT ::
                pcb[p].pst == if r == 0 && old(mq[m].qrec) == 1 && p == old(mq[m].lrpid)
                                 && (p == current || old(pcb[p].pst) == WAITING) then EXECUTING
                              else if p == current then WAITING
                              else old(pcb[p].pst)
      ensures Queue().q == old(Queue()).q
    {
      hide QueueOk, Pids, States;
      mq[m] := mq[m].(lspid := current);
      Kill(current, SIGWAIT);
      if mq[m].qnum == 0 {
        mq[m] := mq[m].(qnum := mq[m].qnum + 1);
        mq[m] := mq[m].(buf := msg + mq[m].buf[|msg|..]);
        if mq[m].qrec == 1 {
          Kill(mq[m].lrpid, SIGCONT);
          mq[m] := mq[m].(qrec := 0);
        }
        return 0;
      }
      return -1;
    }

    /** mq_receive: the data taken out, or None where the source returns -1. */
    method MqReceive(m: nat, len: nat) returns (r: Reply)
      requires Valid() && m < MSGCHAN_LIMIT && len <= QBUF && pcb[current].pst != TERMINATED
      requires mq[m].qnum > 0 ==> 0 <= mq[m].lspid < PROCESS_LIMIT
      modifies pcb, rq, this`rqSize, mq
      ensures Valid() && CoreOf(m) == TryReceive(old(CoreOf(m)), len).0 && r == TryReceive(old(CoreOf(m)), len).1
      ensures forall i | 0 <= i < MSGCHAN_LIMIT && i != m :: mq[i] == old(mq[i])
      ensures forall p | 0 <= p < PROCESS_LIMIT :: ContextOf(p) == old(ContextOf(p))
      ensures r == if old(mq[m].qnum) > 0 && old(mq[m].lspid) != current then Done(old(mq[m].buf)[..len]) else Failed
      ensures var was, ch := old(mq[m]), mq[m];
              && ch.name == was.name && ch.lspid == was.lspid && ch.lrpid == current && ch.buf == was.buf
              && ch.qnum == (if r == Failed then was.qnum else was.qnum - 1)
              && ch.qrec == if r == Failed then 1 else was.qrec
      ensures forall p | 0 <= p < PROCESS_LIMIT ::
                pcb[p].pst == if r == Failed && p == current then WAITING
                              else if r != Failed && p == old(mq[m].lspid) && old(pcb[p].pst) == WAITING then EXECUTING
                              else old(pcb[p].pst)
      ensures Queue().q == old(Queue()).q
    {
      hide QueueOk, Pids, States;
      mq[m] := mq[m].(lrpid := current);
      if mq[m].qnum > 0 && mq[m].lspid != current {
        mq[m] := mq[m].(qnum := mq[m].qnum - 1);
        r := Done(mq[m].buf[..len]);
        Kill(mq[m].lspid, SIGCONT);
        return;
      }
      mq[m] := mq[m].(qrec := 1);
      Kill(current, SIGWAIT);
      return Failed;
    }

    /** System call 3: fork, with the result in the caller's register 0. */
    method SvcFork() returns (r: int)
      requires Valid()
      modifies pcb, rq, this`rqSize, this`cpu
      ensures Valid() && mq[..] == old(mq[..])
      ensures if Available(old(Queue())) then
                && 0 <= r < PROCESS_LIMIT && LowestFree(old(Queue()), r) && Queue() == Step(old(Queue()), Forked(r))
                && pcb[r].ctx == WithR0(old(cpu), 0) && cpu == WithR0(old(cpu), r)
                && forall p | 0 <= p < PROCESS_LIMIT && p != r && p != current :: ContextOf(p) == old(ContextOf(p))
              else
                && r == -1 && Queue() == old(Queue()) && cpu == WithR0(old(cpu), -1)
                && forall p | 0 <= p < PROCESS_LIMIT && p != current :: ContextOf(p) == old(ContextOf(p))
      ensures cpu == old(cpu).(gpr := old(cpu).gpr[0 := if r == -1 then 0xFFFF_FFFF else r])
      ensures r != -1 ==> 0 <= r < PROCESS_LIMIT && pcb[r].ctx == old(cpu).(gpr := old(cpu).gpr[0 := 0])
    {
      hide QueueOk, Pids;
      r := Fork();
      Register(cpu, r);
      cpu := WithR0(cpu, r);
    }

    /** System call 7: the running process signals itself and gives up the processor. */
    method SvcRaise(sig: Signal)
      requires Valid() && current < PROCESS_LIMIT && !Unqueues(Queue(), current, sig)
      requires SomeRuns(Signalled(Queue(), current, sig))
      modifies pcb, rq, this`rqSize, this`current, this`cpu
      ensures Valid() && Signalled(old(Queue()), old(current), sig).q != []
      ensures Queue() == Tick(Signalled(old(Queue()), old(current), sig))
      ensures rqSize > 0 && current == rq[0] && pcb[current].pst == EXECUTING
      ensures forall p | 0 <= p < PROCESS_LIMIT :: ContextOf(p) == old(ContextOf(p))
      ensures forall p | 0 <= p < PROCESS_LIMIT ::
                pcb[p].pst == if p != old(current) then old(pcb[p].pst)
                              else if sig == SIGKILL then TERMINATED else if sig == SIGWAIT then WAITING
                              else if sig == SIGCONT && old(pcb[p].pst) == WAITING then EXECUTING
                              else old(pcb[p].pst)
    {
      hide QueueOk, Pids, States, Turn, SomeRuns, Rotated, Tick;
      Kill(current, sig);
      Scheduler();
    }

    /** System call 9: the result goes to the caller's register 0, and a failed send invokes the
        scheduler. */
    method SvcSend(m: nat, msg: seq<byte>) returns (r: int)
      requires Valid() && m < MSGCHAN_LIMIT && |msg| <= QBUF && pcb[current].pst != TERMINATED
      requires mq[m].qrec == 1 ==> 0 <= mq[m].lrpid < PROCESS_LIMIT
      requires TrySend(CoreOf(m), msg).1 == Failed ==> SomeRuns(TrySend(CoreOf(m), msg).0.s)
      modifies pcb, rq, mq, this`rqSize, this`current, this`cpu
      ensures Valid() && CoreOf(m) == SendCall(old(CoreOf(m)), msg).0
      ensures r == if SendCall(old(CoreOf(m)), msg).1 == Failed then -1 else 0
      ensures forall i | 0 <= i < MSGCHAN_LIMIT && i != m :: mq[i] == old(mq[i])
      ensures forall p | 0 <= p < PROCESS_LIMIT ::
                ContextOf(p) == if p == old(current) then WithR0(old(cpu), r) else old(ContextOf(p))
      ensures r == if old(mq[m].qnum) == 0 then 0 else -1
      ensures ContextOf(old(current))
           == old(cpu).(gpr := old(cpu).gpr[0 := if old(mq[m].qnum) == 0 then 0 else 0xFFFF_FFFF])
      ensures r == 0 ==> current == old(current)
      ensures r == -1 ==> pcb[old(current)].pst == WAITING && pcb[current].pst == EXECUTING
    {
      hide QueueOk, Pids, States, Turn, SomeRuns, Rotated, TrySend;
      r := MqSend(m, msg);
      Register(cpu, r);
      cpu := WithR0(cpu, r);
      if r == -1 {
        Scheduler();
      }
    }

    /** System call 10: the number of bytes received or -1 goes to the caller's register 0, and a failed
        receive invokes the scheduler. */
    method SvcReceive(m: nat, len: nat) returns (r: Reply)
      requires Valid() && m < MSGCHAN_LIMIT && len <= QBUF && pcb[current].pst != TERMINATED
      requires mq[m].qnum > 0 ==> 0 <= mq[m].lspid < PROCESS_LIMIT
      requires TryReceive(CoreOf(m), len).1 == Failed ==> SomeRuns(TryReceive(CoreOf(m), len).0.s)
      modifies pcb, rq, mq, this`rqSize, this`current, this`cpu
      ensures Valid() && CoreOf(m) == ReceiveCall(old(CoreOf(m)), len).0 && r == ReceiveCall(old(CoreOf(m)), len).1
      ensures forall i | 0 <= i < MSGCHAN_LIMIT && i != m :: mq[i] == old(mq[i])
      ensures forall p | 0 <= p < PROCESS_LIMIT ::
                ContextOf(p) == if p == old(current) then WithR0(old(cpu), if r == Failed then -1 else len)
                                else old(ContextOf(p))
      ensures r == if old(mq[m].qnum) > 0 && old(mq[m].lspid) != old(current) then Done(old(mq[m].buf)[..len])
                   else Failed
      ensures ContextOf(old(current))
           == old(cpu).(gpr := old(cpu).gpr[0 := if r == Failed then 0xFFFF_FFFF else len])
      ensures r != Failed ==> current == old(current)
      ensures r == Failed ==> pcb[old(current)].pst == WAITING && pcb[current].pst == EXECUTING
    {
      hide QueueOk, Pids, States, Turn, SomeRuns, Rotated, TryReceive;
      r := MqReceive(m, len);
      Register(cpu, if r == Failed then -1 else len);
      cpu := WithR0(cpu, if r == Failed then -1 else len);
      if r == Failed {
        Scheduler();
      }
    }
  }

  // Some process slot is free, and which one fork takes.
  ghost predicate Available(s: Sched)
    requires |s.pst| == PROCESS_LIMIT
  {
    exists p :: 0 <= p < PROCESS_LIMIT && s.pst[p] == TERMINATED
  }

  predicate LowestFree(s: Sched, r: nat)
    requires |s.pst| == PROCESS_LIMIT
  {
    r < PROCESS_LIMIT && s.pst[r] == TERMINATED && forall p | 0 <= p < r :: s.pst[p] != TERMINATED
  }

  /** Queue and states after kill. */
  function Signalled(s: Sched, pid: int, sig: Signal): Sched
    requires |s.pst| == PROCESS_LIMIT
  {
    if 0 <= pid < PROCESS_LIMIT then
      match sig
      case SIGKILL => Step(s, Killed(pid))
      case SIGWAIT => Sched(s.q, s.pst[pid := WAITING])
      case SIGCONT => Step(s, Continued(pid))
      case SIGPRI0 => s
    else if pid == 9 && sig == SIGKILL then
      Sched(s.q, seq(PROCESS_LIMIT, p requires 0 <= p < PROCESS_LIMIT => if p == 0 then s.pst[0] else TERMINATED))
    else s
  }

  // kill leaves a process queued that is TERMINATED, or one unqueued that is not.
  ghost predicate Unqueues(s: Sched, pid: int, sig: Signal)
    requires |s.pst| == PROCESS_LIMIT
  {
    (sig == SIGWAIT && 0 <= pid < PROCESS_LIMIT && s.pst[pid] == TERMINATED)
    || (sig == SIGKILL && pid == 9 && exists p :: 1 <= p < PROCESS_LIMIT && s.pst[p] != TERMINATED)
  }

  lemma SignalMeans(s: Sched, pid: int, sig: Signal)
    requires QueueOk(s) && pid != PROCESS_LIMIT as int
    ensures var t := Signalled(s, pid, sig);
            && |t.pst| == PROCESS_LIMIT
            && (forall p | 0 <= p < PROCESS_LIMIT ::
                  t.pst[p] == if sig == SIGKILL && (p == pid || (pid == 9 && p > 0)) then TERMINATED
                              else if sig == SIGWAIT && p == pid then WAITING
                              else if sig == SIGCONT && p == pid && s.pst[p] == WAITING then EXECUTING
                              else s.pst[p])
            && (sig != SIGKILL || pid !in s.q ==> t.q == s.q)
            && (sig == SIGKILL && 0 <= pid < PROCESS_LIMIT ==> pid !in t.q)
            && forall k | sig == SIGKILL && 0 <= k < |s.q| && s.q[k] == pid :: t.q == s.q[..k] + s.q[k + 1..]
  {
    if 0 <= pid {
      TakenOut(s.q, pid);
    }
  }

  /** The queue is well-formed after kill exactly outside those two cases. */
  lemma SignalKeeps(s: Sched, pid: int, sig: Signal)
    requires QueueOk(s)
    ensures QueueOk(Signalled(s, pid, sig)) <==> !Unqueues(s, pid, sig)
  {
    hide Step;
    var t := Signalled(s, pid, sig);
    if 0 <= pid < PROCESS_LIMIT {
      match sig {
        case SIGKILL => StepKeeps(s, Killed(pid));
        case SIGWAIT => assert t.pst[pid] == WAITING;
        case SIGCONT => StepKeeps(s, Continued(pid));
        case SIGPRI0 =>
      }
    } else if pid == 9 && sig == SIGKILL {
      if p :| 1 <= p < PROCESS_LIMIT && s.pst[p] != TERMINATED {
        assert p in t.q && t.pst[p] == TERMINATED;
      } else {
        assert t.pst == s.pst;
      }
    }
  }

  // Taking a process out of a queue it is in once.
  lemma TakenOut(q: seq<nat>, p: nat)
    requires forall i, j | 0 <= i < j < |q| :: q[i] != q[j]
    ensures p !in q ==> Without(q, p) == q
    ensures forall k | 0 <= k < |q| && q[k] == p :: Without(q, p) == q[..k] + q[k + 1..]
  {
    if p !in q {
      NothingToRemove(q, p);
    }
    forall k | 0 <= k < |q| && q[k] == p
      ensures Without(q, p) == q[..k] + q[k + 1..]
    {
      RemoveAt(q, k, p);
    }
  }

  // What a result looks like in register 0.
  lemma Register(c: Ctx, v: int)
    requires |c.gpr| == 13 && -1 <= v < 0x8000_0000
    ensures WithR0(c, v) == c.(gpr := c.gpr[0 := if v == -1 then 0xFFFF_FFFF else v])
  {
  }

  lemma ForkedStep(s: Sched, p: nat)
    requires |s.pst| == PROCESS_LIMIT && p < PROCESS_LIMIT && s.pst[p] == TERMINATED
    ensures Enabled(s, Forked(p)) && Step(s, Forked(p)) == Sched(s.q + [p], s.pst[p := EXECUTING])
  {
  }

  lemma OneQueued()
    ensures QueueOk(Sched([0], [EXECUTING] + seq(PROCESS_LIMIT - 1, _ => TERMINATED)))
  {
  }

  lemma NonEmpty(s: Sched)
    requires SomeRuns(s)
    ensures s.q != []
  {
  }

  lemma ShiftIsRotation(q: seq<nat>, q': seq<nat>)
    requires q != [] && |q'| == |q| && q'[|q| - 1] == q[0] && forall i | 0 <= i < |q| - 1 :: q'[i] == q[i + 1]
    ensures q' == Rotated(q, 1)
  {
  }

  lemma GapClosed(q: seq<nat>, q': seq<nat>, p: nat)
    requires p < |q| && |q'| == |q| - 1
    requires forall i | 0 <= i < p :: q'[i] == q[i]
    requires forall i | p <= i < |q'| :: q'[i] == q[i + 1]
    ensures q' == q[..p] + q[p + 1..]
  {
    var r := q[..p] + q[p + 1..];
    forall i | 0 <= i < |q'|
      ensures q'[i] == r[i]
    {
      if i < p {
        assert r[i] == q[..p][i] == q[i];
      } else {
        assert r[i] == q[p + 1..][i - p] == q[i + 1];
      }
    }
  }

  // The turn of a tick passes over processes that cannot run only.
  lemma TickMeans(s: Sched)
    requires QueueOk(s) && s.q != []
    ensures var k := Turn(s);
            && 1 <= k <= |s.q| && Tick(s).q == s.q[k..] + s.q[..k] && Tick(s).pst == s.pst
            && forall j | 1 <= j < k :: s.q[j] < PROCESS_LIMIT && s.pst[s.q[j]] != EXECUTING
  {
    forall j | 1 <= j < Turn(s)
      ensures s.q[j] < PROCESS_LIMIT && s.pst[s.q[j]] != EXECUTING
    {
      assert !Runs(s, j);
    }
  }

  lemma OneTurnKeeps(s: Sched)
    requires QueueOk(s) && s.q != []
    ensures QueueOk(Sched(Rotated(s.q, 1), s.pst))
  {
    RotationKeeps(s, 1);
  }

  lemma NotQueued(s: Sched, p: nat)
    requires QueueOk(s) && p < PROCESS_LIMIT && s.pst[p] == TERMINATED
    ensures p !in s.q
  {
  }

  lemma QueueDistinct(s: Sched)
    requires QueueOk(s)
    ensures forall i, j | 0 <= i < j < |s.q| :: s.q[i] != s.q[j]
  {
  }

  lemma {:induction false} NothingToRemove(q: seq<nat>, p: nat)
    requires p !in q
    ensures Without(q, p) == q
    decreases |q|
  {
    if q != [] {
      NothingToRemove(q[1..], p);
    }
  }

  lemma {:induction false} RemoveAt(q: seq<nat>, k: nat, p: nat)
    requires k < |q| && q[k] == p && forall i, j | 0 <= i < j < |q| :: q[i] != q[j]
    ensures Without(q, p) == q[..k] + q[k + 1..]
    decreases |q|
  {
    var rest := q[1..];
    assert forall i | 0 <= i < |rest| :: rest[i] == q[i + 1];
    if k == 0 {
      NothingToRemove(rest, p);
    } else {
      RemoveAt(rest, k - 1, p);
      assert q[..k] == [q[0]] + rest[..k - 1] && q[k + 1..] == rest[k..];
    }
  }
}
