/** A message channel as seen by two processes that run dual scripts of sends and receives, under
    any interleaving of their calls, timer ticks and what other processes do. */
module Channel {
  import opened Bytes
  import opened Limits
  import opened RunQueue

  const QBUF: nat := 64

  datatype Chan = Chan(name: int, qnum: int, qrec: int, lspid: int, lrpid: int, buf: seq<byte>)

  // The parts of the kernel a channel call touches.
  datatype Core = Core(s: Sched, current: nat, ch: Chan)

  datatype Reply = Failed | Done(data: seq<byte>)

  // kill(p, SIGWAIT) and kill(p, SIGCONT).
  function Halt(s: Sched, p: int): Sched {
    if 0 <= p < |s.pst| then Sched(s.q, s.pst[p := WAITING]) else s
  }

  function Resume(s: Sched, p: int): Sched {
    if 0 <= p < |s.pst| && s.pst[p] == WAITING then Sched(s.q, s.pst[p := EXECUTING]) else s
  }

  // scheduler: the first process behind the head that can run becomes the running one.
  function Reschedule(c: Core): Core {
    if c.s.q == [] then c else var t := Tick(c.s); Core(t, t.q[0], c.ch)
  }

  /** mq_send by the running process. */
  function TrySend(c: Core, msg: seq<byte>): (Core, Reply) {
    var p, ch := c.current, c.ch.(lspid := c.current);
    var s := Halt(c.s, p);
    if ch.qnum == 0 then
      var full := ch.(qnum := ch.qnum + 1, buf := if |msg| <= |ch.buf| then msg + ch.buf[|msg|..] else msg);
      if ch.qrec == 1 then (Core(Resume(s, ch.lrpid), p, full.(qrec := 0)), Done([]))
      else (Core(s, p, full), Done([]))
    else (Core(s, p, ch), Failed)
  }

  /** mq_receive by the running process. */
  function TryReceive(c: Core, len: nat): (Core, Reply) {
    var p, ch := c.current, c.ch.(lrpid := c.current);
    if ch.qnum > 0 && ch.lspid != p then
      (Core(Resume(c.s, ch.lspid), p, ch.(qnum := ch.qnum - 1)),
       Done(if len <= |ch.buf| then ch.buf[..len] else ch.buf))
    else (Core(Halt(c.s, p), p, ch.(qrec := 1)), Failed)
  }

  /** The system call: a failed send or receive gives up the processor; user code then retries. */
  function SendCall(c: Core, msg: seq<byte>): (Core, Reply) {
    var (c', r) := TrySend(c, msg);
    if r == Failed then (Reschedule(c'), r) else (c', r)
  }

  function ReceiveCall(c: Core, len: nat): (Core, Reply) {
    var (c', r) := TryReceive(c, len);
    if r == Failed then (Reschedule(c'), r) else (c', r)
  }

  // ----- two processes with dual scripts -----

  /** Processes a and b exchange msgs[0], msgs[1], ...; message i goes from a to b when script[i]. */
  datatype Scripts = Setup(a: nat, b: nat, script: seq<bool>, msgs: seq<seq<byte>>)

  predicate SetupOk(u: Scripts) {
    && u.a < PROCESS_LIMIT && u.b < PROCESS_LIMIT && u.a != u.b
    && |u.script| == |u.msgs|
    && forall i | 0 <= i < |u.msgs| :: |u.msgs[i]| <= QBUF
  }

  type Setup = u: Scripts | SetupOk(u) witness Setup(0, 1, [], [])

  // Program counters of the two processes, and the data of the completed receives in order.
  datatype Sys = Sys(c: Core, pa: nat, pb: nat, got: seq<seq<byte>>)

  /** Call: the running process makes its next channel call, if it has one. Interrupt: the timer.
      Env: another process appears, stops, continues or dies. Exit: the running process, a third one,
      ends itself. */
  datatype Move = Call | Interrupt | Env(e: Event) | Exit

  predicate Allowed(u: Setup, y: Sys, mv: Move) {
    match mv
    case Call => true
    case Interrupt => true
    case Env(e) => !e.Timer? && !e.Exited? && e.p != u.a && e.p != u.b && |y.c.s.pst| == PROCESS_LIMIT
                   && Enabled(y.c.s, e) && (e.Killed? ==> e.p != y.c.current)
    case Exit => y.c.current != u.a && y.c.current != u.b && y.c.current < PROCESS_LIMIT == |y.c.s.pst|
  }

  // The running process sends or receives message number pc.
  function Comm(u: Setup, c: Core, pc: nat, sends: bool): (Core, Reply)
    requires pc < |u.msgs|
  {
    if sends then SendCall(c, u.msgs[pc]) else ReceiveCall(c, |u.msgs[pc]|)
  }

  // Whether the running process has a channel call to make, and which.
  predicate Calls(u: Setup, y: Sys) {
    (y.c.current == u.a && y.pa < |u.msgs|) || (y.c.current == u.b && y.pb < |u.msgs|)
  }

  function CallReply(u: Setup, y: Sys): (Core, Reply)
    requires Calls(u, y)
  {
    if y.c.current == u.a && y.pa < |u.msgs| then Comm(u, y.c, y.pa, u.script[y.pa])
    else Comm(u, y.c, y.pb, !u.script[y.pb])
  }

  function Do(u: Setup, y: Sys, mv: Move): Sys
    requires Allowed(u, y, mv)
  {
    match mv
    case Interrupt => y.(c := Reschedule(y.c))
    case Env(e) => y.(c := y.c.(s := Step(y.c.s, e)))
    case Exit => y.(c := Reschedule(y.c.(s := Ended(y.c.s, y.c.current))))
    case Call =>
      if !Calls(u, y) then y
      else
        var (c', r) := CallReply(u, y);
        if r == Failed then y.(c := c')
        else if y.c.current == u.a && y.pa < |u.msgs| then
          Sys(c', y.pa + 1, y.pb, if u.script[y.pa] then y.got else y.got + [r.data])
        else
          Sys(c', y.pa, y.pb + 1, if u.script[y.pb] then y.got + [r.data] else y.got)
  }

  predicate AllAllowed(u: Setup, y: Sys, mvs: seq<Move>)
    decreases |mvs|
  {
    mvs == [] || (Allowed(u, y, mvs[0]) && AllAllowed(u, Do(u, y, mvs[0]), mvs[1..]))
  }

  function Run(u: Setup, y: Sys, mvs: seq<Move>): Sys
    requires AllAllowed(u, y, mvs)
    decreases |mvs|
  {
    if mvs == [] then y else Run(u, Do(u, y, mvs[0]), mvs[1..])
  }

  function Sender(u: Setup, i: nat): nat
    requires i < |u.script|
  {
    if u.script[i] then u.a else u.b
  }

  function Receiver(u: Setup, i: nat): nat
    requires i < |u.script|
  {
    if u.script[i] then u.b else u.a
  }

  function Counter(u: Setup, y: Sys, p: nat): nat {
    if p == u.a then y.pa else y.pb
  }

  ghost predicate Live(y: Sys, p: nat)
    requires p < |y.c.s.pst|
  {
    y.c.s.pst[p] == EXECUTING || y.c.s.pst[p] == WAITING
  }

  // Both program counters stand at i: nothing is in flight, the next sender can run, and a
  // receiver already waiting has left word of it.
  ghost predicate Idle(u: Setup, y: Sys, i: nat)
    requires |y.c.s.pst| == PROCESS_LIMIT 
  {
    && y.pa == y.pb == i <= |u.msgs| && y.c.ch.qnum == 0
    && y.got == u.msgs[..i]
    && if i == |u.msgs| then y.c.s.pst[u.a] == EXECUTING && y.c.s.pst[u.b] == EXECUTING
       else && y.c.s.pst[Sender(u, i)] == EXECUTING
            && (y.c.s.pst[Receiver(u, i)] == WAITING ==> y.c.ch.qrec == 1 && y.c.ch.lrpid == Receiver(u, i))
  }

  // Message i is in flight: its sender is one ahead, its receiver can run.
  ghost predicate InFlight(u: Setup, y: Sys, i: nat)
    requires |y.c.s.pst| == PROCESS_LIMIT 
  {
    && i < |u.msgs| && y.c.ch.qnum == 1 && |y.c.ch.buf| == QBUF
    && Counter(u, y, Sender(u, i)) == i + 1 && Counter(u, y, Receiver(u, i)) == i
    && y.got == u.msgs[..i]
    && y.c.ch.lspid == Sender(u, i) && y.c.ch.buf[..|u.msgs[i]|] == u.msgs[i]
    && y.c.s.pst[Receiver(u, i)] == EXECUTING
  }

  ghost predicate Inv(u: Setup, y: Sys) {
    && |y.c.s.pst| == PROCESS_LIMIT && QueueOk(y.c.s) && |y.c.ch.buf| == QBUF && y.c.current < PROCESS_LIMIT
    && Live(y, u.a) && Live(y, u.b)
    && (y.c.ch.qrec == 1 ==> 0 <= y.c.ch.lrpid < PROCESS_LIMIT)
    && exists i :: 0 <= i <= |u.msgs| && (Idle(u, y, i) || InFlight(u, y, i))
  }

  ghost predicate Initial(u: Setup, y: Sys) {
    && |y.c.s.pst| == PROCESS_LIMIT && QueueOk(y.c.s) && |y.c.ch.buf| == QBUF && y.c.current < PROCESS_LIMIT
    && y.c.s.pst[u.a] == EXECUTING && y.c.s.pst[u.b] == EXECUTING
    && y.c.ch.qnum == 0 && y.c.ch.qrec == 0 && y.pa == y.pb == 0 && y.got == []
  }

  // ----- single steps -----

  lemma InQueue(s: Sched, p: nat)
    requires QueueOk(s) && p < PROCESS_LIMIT && s.pst[p] == EXECUTING
    ensures SomeRuns(s)
  {
    assert p in s.q;
    var i :| 0 <= i < |s.q| && s.q[i] == p;
    assert Runs(s, i);
  }

  /** In every reachable state some process can run, so the scheduler always finds one. */
  lemma SchedulerFinds(u: Setup, y: Sys)
    requires Inv(u, y)
    ensures SomeRuns(y.c.s)
  {
    var i :| 0 <= i <= |u.msgs| && (Idle(u, y, i) || InFlight(u, y, i));
    InQueue(y.c.s, if Idle(u, y, i) then if i == |u.msgs| then u.a else Sender(u, i) else Receiver(u, i));
  }

  lemma RescheduleFacts(c: Core)
    requires QueueOk(c.s) && SomeRuns(c.s)
    ensures var c' := Reschedule(c);
            && QueueOk(c'.s) && c'.s.pst == c.s.pst && c'.ch == c.ch
            && c'.current < PROCESS_LIMIT && c'.s.pst[c'.current] == EXECUTING
  {
    TickRuns(c.s);
    TickKeeps(c.s);
  }

  lemma StatusKeepsQueue(s: Sched, p: int)
    requires QueueOk(s) && (0 <= p < PROCESS_LIMIT ==> s.pst[p] != TERMINATED)
    ensures QueueOk(Halt(s, p)) && QueueOk(Resume(s, p))
  {
  }

  lemma TickInv(u: Setup, y: Sys)
    requires Inv(u, y)
    ensures Inv(u, Do(u, y, Interrupt))
  {
    hide QueueOk, Tick, SomeRuns;
    SchedulerFinds(u, y);
    RescheduleFacts(y.c);
    var i :| 0 <= i <= |u.msgs| && (Idle(u, y, i) || InFlight(u, y, i));
    var y' := Do(u, y, Interrupt);
    assert Idle(u, y', i) || InFlight(u, y', i);
  }

  lemma EnvInv(u: Setup, y: Sys, e: Event)
    requires Inv(u, y) && Allowed(u, y, Env(e))
    ensures Inv(u, Do(u, y, Env(e)))
  {
    hide QueueOk, Without;
    StepKeeps(y.c.s, e);
    var i :| 0 <= i <= |u.msgs| && (Idle(u, y, i) || InFlight(u, y, i));
    var y' := Do(u, y, Env(e));
    assert y'.c.s.pst[u.a] == y.c.s.pst[u.a] && y'.c.s.pst[u.b] == y.c.s.pst[u.b];
    assert Idle(u, y', i) || InFlight(u, y', i);
  }

  // After the exit, before the scheduler, the invariant holds as well.
  lemma EndedInv(u: Setup, y: Sys)
    requires Inv(u, y) && Allowed(u, y, Exit)
    ensures Inv(u, y.(c := y.c.(s := Ended(y.c.s, y.c.current))))
  {
    hide QueueOk, Without;
    EndKeeps(y.c.s, y.c.current);
    var i :| 0 <= i <= |u.msgs| && (Idle(u, y, i) || InFlight(u, y, i));
    var y' := y.(c := y.c.(s := Ended(y.c.s, y.c.current)));
    assert y'.c.s.pst[u.a] == y.c.s.pst[u.a] && y'.c.s.pst[u.b] == y.c.s.pst[u.b];
    assert Idle(u, y', i) || InFlight(u, y', i);
  }

  lemma ExitInv(u: Setup, y: Sys)
    requires Inv(u, y) && Allowed(u, y, Exit)
    ensures Inv(u, Do(u, y, Exit)) && SomeRuns(Ended(y.c.s, y.c.current))
  {
    hide Inv, Ended;
    var y1 := y.(c := y.c.(s := Ended(y.c.s, y.c.current)));
    EndedInv(u, y);
    SchedulerFinds(u, y1);
    TickInv(u, y1);
    assert Do(u, y1, Interrupt) == Do(u, y, Exit);
  }

  // A call in the idle state: the sender hands over message i, or the receiver starts waiting.
  lemma IdleCall(u: Setup, y: Sys, i: nat)
    requires Inv(u, y) && i <= |u.msgs| && Idle(u, y, i) && Calls(u, y)
    ensures Inv(u, Do(u, y, Call))
    ensures y.c.current == Sender(u, i) <==> CallReply(u, y).1 != Failed
  {
    hide QueueOk, Tick, SomeRuns;
    var y' := Do(u, y, Call);
    var p := y.c.current;
    StatusKeepsQueue(y.c.s, p);
    if p == Sender(u, i) {
      var s := Halt(y.c.s, p);
      if y.c.ch.qrec == 1 && 0 <= y.c.ch.lrpid < PROCESS_LIMIT && s.pst[y.c.ch.lrpid] == WAITING {
        StatusKeepsQueue(s, y.c.ch.lrpid);
      }
      assert InFlight(u, y', i);
    } else {
      var c' := TryReceive(y.c, |u.msgs[i]|).0;
      InQueue(c'.s, Sender(u, i));
      RescheduleFacts(c');
      assert Idle(u, y', i);
    }
  }

  // The receiver of the message in flight takes it.
  lemma Taken(u: Setup, y: Sys, i: nat)
    requires Inv(u, y) && InFlight(u, y, i) && y.c.current == Receiver(u, i)
    ensures Calls(u, y) && Inv(u, Do(u, y, Call)) && CallReply(u, y).1 == Done(u.msgs[i])
  {
    hide QueueOk, Tick, SomeRuns;
    StatusKeepsQueue(y.c.s, Sender(u, i));
    assert u.msgs[..i + 1] == u.msgs[..i] + [u.msgs[i]];
    assert Idle(u, Do(u, y, Call), i + 1);
  }

  // Its sender, already one message ahead, has to wait.
  lemma Early(u: Setup, y: Sys, i: nat)
    requires Inv(u, y) && InFlight(u, y, i) && y.c.current == Sender(u, i) && i + 1 < |u.msgs|
    ensures Calls(u, y) && Inv(u, Do(u, y, Call)) && CallReply(u, y).1 == Failed
  {
    hide QueueOk, Tick, SomeRuns;
    var p := y.c.current;
    StatusKeepsQueue(y.c.s, p);
    var c' := if u.script[i + 1] == (p == u.a) then TrySend(y.c, u.msgs[i + 1]).0
              else TryReceive(y.c, |u.msgs[i + 1]|).0;
    InQueue(c'.s, Receiver(u, i));
    RescheduleFacts(c');
    assert InFlight(u, Do(u, y, Call), i);
  }

  // A call while message i is in flight: the receiver takes it, or its sender starts waiting.
  lemma InFlightCall(u: Setup, y: Sys, i: nat)
    requires Inv(u, y) && InFlight(u, y, i) && Calls(u, y)
    ensures Inv(u, Do(u, y, Call))
    ensures y.c.current == Receiver(u, i) <==> CallReply(u, y).1 != Failed
    ensures y.c.current == Receiver(u, i) ==> CallReply(u, y).1 == Done(u.msgs[i])
  {
    hide QueueOk, Tick, SomeRuns, Inv, Do, CallReply;
    if y.c.current == Receiver(u, i) {
      Taken(u, y, i);
    } else {
      Early(u, y, i);
    }
  }

  lemma StepInv(u: Setup, y: Sys, mv: Move)
    requires Inv(u, y) && Allowed(u, y, mv)
    ensures Inv(u, Do(u, y, mv))
  {
    match mv {
      case Interrupt => TickInv(u, y);
      case Env(e) => EnvInv(u, y, e);
      case Exit => ExitInv(u, y);
      case Call =>
        if Calls(u, y) {
          var i :| 0 <= i <= |u.msgs| && (Idle(u, y, i) || InFlight(u, y, i));
          if Idle(u, y, i) {
            IdleCall(u, y, i);
          } else {
            InFlightCall(u, y, i);
          }
        }
    }
  }

  // ----- whole runs -----

  lemma {:induction false} RunInv(u: Setup, y: Sys, mvs: seq<Move>)
    requires Inv(u, y) && AllAllowed(u, y, mvs)
    ensures Inv(u, Run(u, y, mvs))
    decreases |mvs|
  {
    if mvs != [] {
      StepInv(u, y, mvs[0]);
      RunInv(u, Do(u, y, mvs[0]), mvs[1..]);
    }
  }

  /** The exchange, for every interleaving: completed receives are exactly the first messages in
      order, at most one message is in flight and it accounts for the distance of the two program
      counters, and the two processes never wait both. */
  lemma ExactlyOnce(u: Setup, y0: Sys, mvs: seq<Move>)
    requires Initial(u, y0) && AllAllowed(u, y0, mvs)
    ensures var y := Run(u, y0, mvs);
            var done := if y.pa < y.pb then y.pa else y.pb;
            && y.pa <= |u.msgs| && y.pb <= |u.msgs|
            && y.got == u.msgs[..done]
            && |y.c.s.pst| == PROCESS_LIMIT && 0 <= y.c.ch.qnum <= 1
            && y.c.ch.qnum == (if y.pa < y.pb then y.pb - y.pa else y.pa - y.pb)
            && !(y.c.s.pst[u.a] == WAITING && y.c.s.pst[u.b] == WAITING)
            && SomeRuns(y.c.s)
  {
    assert Idle(u, y0, 0);
    RunInv(u, y0, mvs);
    SchedulerFinds(u, Run(u, y0, mvs));
  }

  /** Message number |got| is received by its receiver and nobody else. */
  lemma OnlyReceiver(u: Setup, y: Sys, mv: Move)
    requires Inv(u, y) && Allowed(u, y, mv) && Do(u, y, mv).got != y.got
    ensures mv == Call && |y.got| < |u.msgs| && Do(u, y, mv).got == y.got + [u.msgs[|y.got|]]
    ensures y.c.current == if u.script[|y.got|] then u.b else u.a
  {
    hide QueueOk, SomeRuns, Tick;
    var i :| 0 <= i <= |u.msgs| && (Idle(u, y, i) || InFlight(u, y, i));
    if Idle(u, y, i) {
      IdleCall(u, y, i);
    } else {
      InFlightCall(u, y, i);
    }
  }

  // ----- the sender waits -----

  // p sends every message.
  predicate AlwaysSends(u: Setup, p: nat) {
    (p == u.a || p == u.b) && forall i | 0 <= i < |u.msgs| :: Sender(u, i) == p
  }

  ghost predicate Blocked(y: Sys, p: nat)
    requires p < |y.c.s.pst|
  {
    (y.c.ch.qnum == 1 ==> y.c.s.pst[p] == WAITING) && (y.c.ch.qrec == 1 ==> y.c.ch.lrpid != p)
  }

  lemma BlockedStep(u: Setup, y: Sys, mv: Move, p: nat)
    requires Inv(u, y) && Allowed(u, y, mv) && AlwaysSends(u, p) && Blocked(y, p)
    ensures |Do(u, y, mv).c.s.pst| == PROCESS_LIMIT && Blocked(Do(u, y, mv), p)
  {
    hide QueueOk, SomeRuns;
    StepInv(u, y, mv);
    match mv {
      case Interrupt =>
        SchedulerFinds(u, y);
        RescheduleFacts(y.c);
      case Env(e) =>
      case Exit =>
        ExitInv(u, y);
        EndKeeps(y.c.s, y.c.current);
        RescheduleFacts(y.c.(s := Ended(y.c.s, y.c.current)));
      case Call =>
        if Calls(u, y) {
          BlockedCall(u, y, p);
        }
    }
  }

  lemma BlockedCall(u: Setup, y: Sys, p: nat)
    requires Inv(u, y) && Calls(u, y) && AlwaysSends(u, p) && Blocked(y, p)
    ensures |Do(u, y, Call).c.s.pst| == PROCESS_LIMIT && Blocked(Do(u, y, Call), p)
  {
    hide QueueOk, SomeRuns, Tick;
    var i :| 0 <= i <= |u.msgs| && (Idle(u, y, i) || InFlight(u, y, i));
    assert Sender(u, i) == p;
    if Idle(u, y, i) {
      IdleCall(u, y, i);
    } else {
      InFlightCall(u, y, i);
    }
    if CallReply(u, y).1 == Failed {
      FailedCall(u, y);
      assert Do(u, y, Call).c.ch == Attempt(u, y).0.ch;
      if Idle(u, y, i) {
        assert Attempt(u, y) == TryReceive(y.c, |u.msgs[i]|);
        assert y.c.current == Receiver(u, i) != p;
      } else {
        assert y.c.current == p;
        assert Sender(u, i + 1) == p;
        assert Attempt(u, y) == TrySend(y.c, u.msgs[i + 1]);
      }
    } else if Idle(u, y, i) {
      assert y.c.current == p && Do(u, y, Call).c == TrySend(y.c, u.msgs[i]).0;
      SenderHalts(y.c, u.msgs[i]);
    } else {
      assert Do(u, y, Call).c == TryReceive(y.c, |u.msgs[i]|).0;
    }
  }

  lemma SenderHalts(c: Core, msg: seq<byte>)
    requires c.current < |c.s.pst| && c.ch.qnum == 0 && (c.ch.qrec == 1 ==> c.ch.lrpid != c.current)
    ensures var c' := TrySend(c, msg).0;
            |c'.s.pst| == |c.s.pst| && c'.s.pst[c.current] == WAITING && c'.ch.qrec != 1
  {
  }

  lemma {:induction false} BlockedRun(u: Setup, y: Sys, mvs: seq<Move>, p: nat)
    requires Inv(u, y) && AllAllowed(u, y, mvs) && AlwaysSends(u, p) && Blocked(y, p)
    ensures |Run(u, y, mvs).c.s.pst| == PROCESS_LIMIT && Blocked(Run(u, y, mvs), p)
    decreases |mvs|
  {
    if mvs != [] {
      StepInv(u, y, mvs[0]);
      BlockedStep(u, y, mvs[0], p);
      BlockedRun(u, Do(u, y, mvs[0]), mvs[1..], p);
    }
  }

  /** The exchange is synchronous: where one process sends every message, it does not run on while a
      message of its is in flight; it is WAITING until that has been taken. */
  lemma SenderWaits(u: Setup, y0: Sys, mvs: seq<Move>, p: nat)
    requires Initial(u, y0) && AllAllowed(u, y0, mvs) && AlwaysSends(u, p)
    ensures var y := Run(u, y0, mvs);
            |y.c.s.pst| == PROCESS_LIMIT && (y.c.ch.qnum == 1 ==> y.c.s.pst[p] == WAITING)
  {
    assert Idle(u, y0, 0);
    BlockedRun(u, y0, mvs, p);
  }

  // The process whose next call will succeed.
  function Next(u: Setup, y: Sys): nat
    requires y.pa < |u.msgs| || y.pb < |u.msgs|
    requires y.pa <= |u.msgs| && y.pb <= |u.msgs|
  {
    if y.pa == y.pb then Sender(u, y.pa) else if y.pa < y.pb then u.a else u.b
  }

  // In every reachable state the process whose call will succeed can run, and no other call succeeds.
  lemma NextFacts(u: Setup, y: Sys)
    requires Inv(u, y) && (y.pa < |u.msgs| || y.pb < |u.msgs|)
    ensures y.pa <= |u.msgs| && y.pb <= |u.msgs| && |y.c.s.pst| == PROCESS_LIMIT
    ensures Next(u, y) < PROCESS_LIMIT && y.c.s.pst[Next(u, y)] == EXECUTING
    ensures Calls(u, y) ==> (CallReply(u, y).1 != Failed <==> y.c.current == Next(u, y))
    ensures y.c.current == Next(u, y) ==> Calls(u, y)
  {
    var i :| 0 <= i <= |u.msgs| && (Idle(u, y, i) || InFlight(u, y, i));
    if Calls(u, y) {
      if Idle(u, y, i) {
        IdleCall(u, y, i);
      } else {
        InFlightCall(u, y, i);
      }
    }
  }

  /** No deadlock: until the scripts are done, exactly one of the two processes can make progress, and
      it is always EXECUTING, so the scheduler will reach it; the other's calls fail. */
  lemma ProgressPossible(u: Setup, y0: Sys, mvs: seq<Move>)
    requires Initial(u, y0) && AllAllowed(u, y0, mvs)
    requires var y := Run(u, y0, mvs); y.pa < |u.msgs| || y.pb < |u.msgs|
    ensures var y := Run(u, y0, mvs);
            && y.pa <= |u.msgs| && y.pb <= |u.msgs| && |y.c.s.pst| == PROCESS_LIMIT
            && y.c.s.pst[Next(u, y)] == EXECUTING
            && (Calls(u, y) ==> (CallReply(u, y).1 != Failed <==> y.c.current == Next(u, y)))
            && (y.c.current == Next(u, y) ==> Calls(u, y))
  {
    assert Idle(u, y0, 0);
    RunInv(u, y0, mvs);
    NextFacts(u, Run(u, y0, mvs));
  }

  // ----- no polling -----

  function B2N(b: bool): nat {
    if b then 1 else 0
  }

  // How many of the two processes might still make a call without being woken first.
  function Awake(u: Setup, y: Sys): nat
    requires |y.c.s.pst| == PROCESS_LIMIT
  {
    B2N(y.c.current == u.a || y.c.s.pst[u.a] == EXECUTING) + B2N(y.c.current == u.b || y.c.s.pst[u.b] == EXECUTING)
  }

  function Failures(u: Setup, y: Sys, mvs: seq<Move>): nat
    requires AllAllowed(u, y, mvs)
    decreases |mvs|
  {
    if mvs == [] then 0
    else B2N(mvs[0] == Call && Calls(u, y) && CallReply(u, y).1 == Failed) + Failures(u, Do(u, y, mvs[0]), mvs[1..])
  }

  lemma AwakeStep(u: Setup, y: Sys, mv: Move)
    requires Inv(u, y) && Allowed(u, y, mv)
    ensures var y' := Do(u, y, mv);
            |y'.c.s.pst| == PROCESS_LIMIT
            && B2N(mv == Call && Calls(u, y) && CallReply(u, y).1 == Failed) + Awake(u, y')
               <= Awake(u, y) + (y'.pa + y'.pb - y.pa - y.pb)
  {
    hide QueueOk, Tick, SomeRuns, Idle, InFlight;
    SchedulerFinds(u, y);
    RescheduleFacts(y.c);
    StepInv(u, y, mv);
    if mv == Call && Calls(u, y) && CallReply(u, y).1 == Failed {
      FailedCall(u, y);
    } else if mv == Exit {
      ExitInv(u, y);
      EndKeeps(y.c.s, y.c.current);
      RescheduleFacts(y.c.(s := Ended(y.c.s, y.c.current)));
    }
  }

  // The running process's call before the scheduler is invoked on failure.
  function Attempt(u: Setup, y: Sys): (Core, Reply)
    requires Calls(u, y)
  {
    var pc := if y.c.current == u.a && y.pa < |u.msgs| then y.pa else y.pb;
    if (y.c.current == u.a && y.pa < |u.msgs|) == u.script[pc] then TrySend(y.c, u.msgs[pc])
    else TryReceive(y.c, |u.msgs[pc]|)
  }

  // A failed call puts the caller to sleep and wakes nobody; somebody else can run.
  lemma FailedCall(u: Setup, y: Sys)
    requires Inv(u, y) && Calls(u, y) && CallReply(u, y).1 == Failed
    ensures SomeRuns(Attempt(u, y).0.s)
    ensures var y' := Do(u, y, Call);
            && |y'.c.s.pst| == PROCESS_LIMIT && y'.c.current < PROCESS_LIMIT
            && y'.c.s.pst == y.c.s.pst[y.c.current := WAITING]
            && y'.c.s.pst[y'.c.current] == EXECUTING
            && y'.pa == y.pa && y'.pb == y.pb
  {
    hide QueueOk, Tick, SomeRuns;
    StepInv(u, y, Call);
    var c' := Attempt(u, y).0;
    var i :| 0 <= i <= |u.msgs| && (Idle(u, y, i) || InFlight(u, y, i));
    StatusKeepsQueue(y.c.s, y.c.current);
    if Idle(u, y, i) {
      IdleCall(u, y, i);
      InQueue(c'.s, Sender(u, i));
    } else {
      InFlightCall(u, y, i);
      InQueue(c'.s, Receiver(u, i));
    }
    RescheduleFacts(c');
  }

  /** Waiting costs nothing: in every run the failed calls number at most two more than the
      successful ones, so nobody polls a channel. */
  lemma {:induction false} NoPolling(u: Setup, y: Sys, mvs: seq<Move>)
    requires Inv(u, y) && AllAllowed(u, y, mvs)
    ensures var y' := Run(u, y, mvs);
            && y'.pa + y'.pb >= y.pa + y.pb
            && Failures(u, y, mvs) <= Awake(u, y) + (y'.pa + y'.pb - y.pa - y.pb)
            && Awake(u, y) <= 2
    decreases |mvs|
  {
    if mvs != [] {
      StepInv(u, y, mvs[0]);
      AwakeStep(u, y, mvs[0]);
      NoPolling(u, Do(u, y, mvs[0]), mvs[1..]);
    }
  }
}
