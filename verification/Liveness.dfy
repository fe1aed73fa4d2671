/** How long an exchange takes. Time is counted in scheduler calls: timer interrupts and failed
    channel calls. */
module Liveness {
  import opened Limits
  import opened RunQueue
  import opened Channel

  predicate Finished(u: Setup, y: Sys) {
    y.pa == |u.msgs| && y.pb == |u.msgs|
  }

  // The place of p in the queue; the queue's length if it is not there.
  function Place(q: seq<nat>, p: nat): (k: nat)
    ensures k <= |q| && (k < |q| <==> p in q) && (k < |q| ==> q[k] == p)
  {
    if q == [] || q[0] == p then 0 else 1 + Place(q[1..], p)
  }

  // The move calls the scheduler.
  predicate Schedules(u: Setup, y: Sys, mv: Move) {
    mv == Interrupt || mv == Exit || (mv == Call && Calls(u, y) && CallReply(u, y).1 == Failed)
  }

  function SchedulerCalls(u: Setup, y: Sys, mvs: seq<Move>): nat
    requires AllAllowed(u, y, mvs)
    decreases |mvs|
  {
    if mvs == [] then 0 else B2N(Schedules(u, y, mvs[0])) + SchedulerCalls(u, Do(u, y, mvs[0]), mvs[1..])
  }

  function ExitMoves(mvs: seq<Move>): nat {
    if mvs == [] then 0 else B2N(mvs[0] == Exit) + ExitMoves(mvs[1..])
  }

  // Whether the running process has made a successful call since the scheduler last ran.
  function Acted(u: Setup, y: Sys, mv: Move, acted: bool): bool {
    if Schedules(u, y, mv) then false else acted || (mv == Call && Calls(u, y))
  }

  /** Whenever the process that can make progress is running, it makes its call before the timer
      interrupts it; nothing is asked of anybody else. */
  ghost predicate Prompt(u: Setup, y: Sys, mvs: seq<Move>, acted: bool)
    requires AllAllowed(u, y, mvs)
    decreases |mvs|
  {
    mvs == [] || (&& (mvs[0] == Interrupt && Unfinished(u, y) && y.c.current == Next(u, y) ==> acted)
                  && Prompt(u, Do(u, y, mvs[0]), mvs[1..], Acted(u, y, mvs[0], acted)))
  }

  predicate Unfinished(u: Setup, y: Sys) {
    y.pa <= |u.msgs| && y.pb <= |u.msgs| && !Finished(u, y)
  }

  ghost predicate Headed(y: Sys) {
    y.c.s.q != [] && y.c.current == y.c.s.q[0]
  }

  /** An upper bound on the scheduler calls before the next progress. */
  function Delay(u: Setup, y: Sys, acted: bool): (d: nat)
    requires Unfinished(u, y)
  {
    if y.c.current == Next(u, y) then (if acted then PROCESS_LIMIT else 0) else Place(y.c.s.q, Next(u, y))
  }

  lemma {:induction false} PlaceUnique(q: seq<nat>, p: nat, k: nat)
    requires k < |q| && q[k] == p && forall i, j | 0 <= i < j < |q| :: q[i] != q[j]
    ensures Place(q, p) == k
  {
    var m := Place(q, p);
    assert m < |q| && q[m] == p;
  }

  lemma {:induction false} PlaceWithout(q: seq<nat>, x: nat, p: nat)
    requires p != x && p in q
    ensures Place(Without(q, x), p) <= Place(q, p)
    decreases |q|
  {
    if q[0] != p {
      PlaceWithout(q[1..], x, p);
      if q[0] != x {
        var w := Without(q, x);
        assert w[0] == q[0] && w[1..] == Without(q[1..], x);
      }
    }
  }

  lemma {:induction false} PlaceAppend(q: seq<nat>, x: nat, p: nat)
    requires p in q
    ensures Place(q + [x], p) == Place(q, p)
    decreases |q|
  {
    if q[0] != p {
      assert (q + [x])[1..] == q[1..] + [x];
      PlaceAppend(q[1..], x, p);
    }
  }

  // What the scheduler does to the place of a process that can run.
  lemma TickPlace(s: Sched, p: nat)
    requires QueueOk(s) && p < PROCESS_LIMIT && s.pst[p] == EXECUTING
    ensures s.q != [] && Tick(s).q != [] && p in Tick(s).q && Place(Tick(s).q, p) < PROCESS_LIMIT
    ensures Place(s.q, p) > 0 ==> Place(Tick(s).q, p) < Place(s.q, p)
  {
    var k := Place(s.q, p);
    assert p in s.q;
    TickKeeps(s);
    TickCloser(s, p, k);
    QueueFits(s);
    var t := Tick(s);
    var k' := if k > 0 then k - Turn(s) else if Turn(s) == |s.q| then 0 else |s.q| - Turn(s);
    assert QueuedAt(t, p, k');
    PlaceUnique(t.q, p, k');
  }

  // Scheduler calls are paid for by progress and by exits: what one move costs and what it leaves to wait.
  ghost predicate Paid(u: Setup, y: Sys, mv: Move, acted: bool)
    requires Unfinished(u, y) && Allowed(u, y, mv)
  {
    var y' := Do(u, y, mv);
    && Headed(y')
    && (Unfinished(u, y') ==>
          B2N(Schedules(u, y, mv)) + Delay(u, y', Acted(u, y, mv, acted))
          <= Delay(u, y, acted) + PROCESS_LIMIT * (B2N(mv == Exit) + y'.pa + y'.pb - y.pa - y.pb))
  }

  lemma InterruptPaid(u: Setup, y: Sys, acted: bool)
    requires Inv(u, y) && Unfinished(u, y) && Headed(y) && (y.c.current == Next(u, y) ==> acted)
    ensures Paid(u, y, Interrupt, acted)
  {
    hide QueueOk, Tick, Place, Idle, InFlight;
    NextFacts(u, y);
    TickPlace(y.c.s, Next(u, y));
    PlaceZero(y.c.s.q, Next(u, y));
    PlaceZero(Tick(y.c.s).q, Next(u, y));
  }

  lemma PlaceZero(q: seq<nat>, p: nat)
    requires q != []
    ensures Place(q, p) == 0 <==> q[0] == p
  {
  }

  lemma EnvPaid(u: Setup, y: Sys, e: Event, acted: bool)
    requires Inv(u, y) && Unfinished(u, y) && Headed(y) && Allowed(u, y, Env(e))
    ensures Paid(u, y, Env(e), acted)
  {
    hide QueueOk, Place, Idle, InFlight;
    NextFacts(u, y);
    var p := Next(u, y);
    InQueue(y.c.s, p);
    assert p in y.c.s.q by { Queued(y.c.s, p); }
    match e {
      case Forked(x) => PlaceAppend(y.c.s.q, x, p);
      case Stopped(x) =>
      case Continued(x) =>
      case Killed(x) => PlaceWithout(y.c.s.q, x, p);
    }
  }

  lemma Queued(s: Sched, p: nat)
    requires QueueOk(s) && p < PROCESS_LIMIT && s.pst[p] == EXECUTING
    ensures p in s.q
  {
  }

  lemma FailurePaid(u: Setup, y: Sys, acted: bool)
    requires Inv(u, y) && Unfinished(u, y) && Headed(y) && Calls(u, y) && CallReply(u, y).1 == Failed
    ensures Paid(u, y, Call, acted)
  {
    hide QueueOk, Tick, Place, Idle, InFlight, SomeRuns;
    NextFacts(u, y);
    FailedCall(u, y);
    var p, s := Next(u, y), Attempt(u, y).0.s;
    assert s.q == y.c.s.q && s.pst == y.c.s.pst[y.c.current := WAITING];
    assert QueueOk(s) by { StatusKeepsQueue(y.c.s, y.c.current); }
    TickPlace(s, p);
    PlaceZero(s.q, p);
    PlaceZero(Tick(s).q, p);
  }

  lemma SuccessPaid(u: Setup, y: Sys, acted: bool)
    requires Inv(u, y) && Unfinished(u, y) && Headed(y) && Calls(u, y) && CallReply(u, y).1 != Failed
    ensures Paid(u, y, Call, acted)
  {
    hide QueueOk, Tick, Place, Idle, InFlight, SomeRuns;
    StepInv(u, y, Call);
    QueueFits(y.c.s);
  }

  lemma ExitPaid(u: Setup, y: Sys, acted: bool)
    requires Inv(u, y) && Unfinished(u, y) && Headed(y) && Allowed(u, y, Exit)
    ensures Paid(u, y, Exit, acted)
  {
    hide QueueOk, Tick, Place, Idle, InFlight, Ended;
    EndedInv(u, y);
    ExitInv(u, y);
    var y1 := y.(c := y.c.(s := Ended(y.c.s, y.c.current)));
    NextFacts(u, y1);
    TickPlace(y1.c.s, Next(u, y));
    PlaceZero(Tick(y1.c.s).q, Next(u, y));
  }

  lemma MovePaid(u: Setup, y: Sys, mv: Move, acted: bool)
    requires Inv(u, y) && Unfinished(u, y) && Headed(y) && Allowed(u, y, mv)
    requires mv == Interrupt && y.c.current == Next(u, y) ==> acted
    ensures Paid(u, y, mv, acted)
  {
    hide Delay, Place, Inv;
    match mv {
      case Interrupt => InterruptPaid(u, y, acted);
      case Env(e) => EnvPaid(u, y, e, acted);
      case Exit => ExitPaid(u, y, acted);
      case Call =>
        if Calls(u, y) {
          if CallReply(u, y).1 == Failed {
            FailurePaid(u, y, acted);
          } else {
            SuccessPaid(u, y, acted);
          }
        }
    }
  }

  /** In a prompt run that is not finished, every progress and every exit of a process costs at most as
      many scheduler calls as there can be processes. */
  lemma {:induction false} PacedRun(u: Setup, y: Sys, mvs: seq<Move>, acted: bool)
    requires Inv(u, y) && Headed(y) && AllAllowed(u, y, mvs) && Prompt(u, y, mvs, acted)
    requires Unfinished(u, y) && Unfinished(u, Run(u, y, mvs))
    ensures var y' := Run(u, y, mvs);
            SchedulerCalls(u, y, mvs)
            <= Delay(u, y, acted) + PROCESS_LIMIT * (ExitMoves(mvs) + y'.pa + y'.pb - y.pa - y.pb)
    decreases |mvs|
  {
    hide Delay, Place, Inv, Do;
    if mvs != [] {
      var mv, rest := mvs[0], mvs[1..];
      var y1, acted1 := Do(u, y, mv), Acted(u, y, mv, acted);
      StepInv(u, y, mv);
      MovePaid(u, y, mv, acted);
      NoPolling(u, y1, rest);
      assert y1.pa <= |u.msgs| && y1.pb <= |u.msgs| by { CountersBounded(u, y1); }
      PacedRun(u, y1, rest, acted1);
    }
  }

  lemma CountersBounded(u: Setup, y: Sys)
    requires Inv(u, y)
    ensures y.pa <= |u.msgs| && y.pb <= |u.msgs|
  {
  }

  /** The exchange completes: in every prompt run, under any interleaving, both scripts are done by the
      time the scheduler has been called 2 n * PROCESS_LIMIT times for n messages, and PROCESS_LIMIT times
      more for every process that has ended itself. */
  lemma Completes(u: Setup, y0: Sys, mvs: seq<Move>)
    requires Initial(u, y0) && Headed(y0) && AllAllowed(u, y0, mvs) && Prompt(u, y0, mvs, false)
    requires SchedulerCalls(u, y0, mvs) >= (2 * |u.msgs| + ExitMoves(mvs)) * PROCESS_LIMIT
    ensures Finished(u, Run(u, y0, mvs))
  {
    hide Place;
    assert Idle(u, y0, 0);
    RunInv(u, y0, mvs);
    CountersBounded(u, Run(u, y0, mvs));
    if !Finished(u, Run(u, y0, mvs)) {
      QueueFits(y0.c.s);
      Queued(y0.c.s, Next(u, y0));
      PacedRun(u, y0, mvs, false);
    }
  }

  function Interrupts(n: nat): (mvs: seq<Move>)
    ensures |mvs| == n
  {
    if n == 0 then [] else [Interrupt] + Interrupts(n - 1)
  }

  /** Without promptness there is no bound: the timer may fire any number of times before the first call,
      and nothing is exchanged. */
  lemma {:induction false} NoBound(u: Setup, y: Sys, n: nat)
    ensures AllAllowed(u, y, Interrupts(n)) && SchedulerCalls(u, y, Interrupts(n)) == n
    ensures var y' := Run(u, y, Interrupts(n)); y'.pa == y.pa && y'.pb == y.pb
    ensures Unfinished(u, y) ==> Unfinished(u, Run(u, y, Interrupts(n)))
    decreases n
  {
    if n > 0 {
      assert Interrupts(n)[0] == Interrupt && Interrupts(n)[1..] == Interrupts(n - 1);
      NoBound(u, Do(u, y, Interrupt), n - 1);
    }
  }
}
