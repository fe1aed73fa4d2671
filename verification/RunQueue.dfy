/** The ready queue as a value: who is queued, in what order, and in what state. */
module RunQueue {
  import opened Limits

  datatype Status = TERMINATED | CREATED | READY | EXECUTING | WAITING

  datatype Sched = Sched(q: seq<nat>, pst: seq<Status>)

  /** The queue holds every process that is not TERMINATED exactly once, and nothing else. */
  ghost predicate QueueOk(s: Sched) {
    && |s.pst| == PROCESS_LIMIT
    && (forall i | 0 <= i < |s.q| :: s.q[i] < PROCESS_LIMIT)
    && (forall i, j | 0 <= i < j < |s.q| :: s.q[i] != s.q[j])
    && (forall p | 0 <= p < PROCESS_LIMIT :: p in s.q <==> s.pst[p] != TERMINATED)
  }

  predicate Runs(s: Sched, i: nat)
    requires i < |s.q|
  {
    s.q[i] < |s.pst| && s.pst[s.q[i]] == EXECUTING
  }

  // Somebody in the queue can run.
  ghost predicate SomeRuns(s: Sched) {
    exists i :: 0 <= i < |s.q| && Runs(s, i)
  }

  function Rotated(q: seq<nat>, k: nat): seq<nat>
    requires k <= |q|
  {
    q[k..] + q[..k]
  }

  // The first position from k on whose process can run; |q| if there is none.
  function FirstFrom(s: Sched, k: nat): (r: nat)
    requires k <= |s.q|
    ensures k <= r <= |s.q|
    ensures forall j | k <= j < r :: !Runs(s, j)
    ensures r < |s.q| ==> Runs(s, r)
    decreases |s.q| - k
  {
    if k == |s.q| || Runs(s, k) then k else FirstFrom(s, k + 1)
  }

  /** How far rq_rotate turns the queue: to the first process that can run strictly after the
      head, all the way round if need be. */
  function Turn(s: Sched): (r: nat)
    requires s.q != []
    ensures 1 <= r <= |s.q|
  {
    FirstFrom(s, 1)
  }

  function Tick(s: Sched): Sched
    requires s.q != []
  {
    Sched(Rotated(s.q, Turn(s)), s.pst)
  }

  lemma RotatedAt(q: seq<nat>, k: nat, i: nat)
    requires k <= |q| && i < |q|
    ensures |Rotated(q, k)| == |q|
    ensures Rotated(q, k)[i] == q[if i + k < |q| then i + k else i + k - |q|]
  {
  }

  /** A tick ends with a process that can run at the head, if any can. */
  lemma TickRuns(s: Sched)
    requires SomeRuns(s)
    ensures s.q != [] && Runs(Tick(s), 0)
  {
    var r := Turn(s);
    RotatedAt(s.q, r, 0);
    if r == |s.q| {
      var i :| 0 <= i < |s.q| && Runs(s, i);
      assert i == 0;
    }
  }

  lemma RotationKeeps(s: Sched, r: nat)
    requires QueueOk(s) && r <= |s.q|
    ensures QueueOk(Sched(Rotated(s.q, r), s.pst))
  {
    var t := Sched(Rotated(s.q, r), s.pst);
    forall i, j | 0 <= i < j < |t.q|
      ensures t.q[i] != t.q[j]
    {
      RotatedAt(s.q, r, i);
      RotatedAt(s.q, r, j);
    }
    assert s.q == s.q[..r] + s.q[r..];
    assert forall p :: p in t.q <==> p in s.q;
  }

  lemma TickKeeps(s: Sched)
    requires QueueOk(s) && s.q != []
    ensures QueueOk(Tick(s))
  {
    RotationKeeps(s, Turn(s));
  }

  // ----- the events that change the queue -----

  datatype Event = Timer | Forked(p: nat) | Stopped(p: nat) | Continued(p: nat) | Killed(p: nat) | Exited(p: nat)

  function Without(q: seq<nat>, p: nat): (r: seq<nat>)
    ensures forall x :: x in r <==> x in q && x != p
    ensures |r| <= |q|
  {
    if q == [] then [] else if q[0] == p then Without(q[1..], p) else [q[0]] + Without(q[1..], p)
  }

  predicate Enabled(s: Sched, e: Event)
    requires |s.pst| == PROCESS_LIMIT
  {
    match e
    case Timer => true
    case Forked(p) => p < PROCESS_LIMIT && s.pst[p] == TERMINATED
    case Stopped(p) => p < PROCESS_LIMIT && s.pst[p] != TERMINATED
    case Continued(p) => p < PROCESS_LIMIT
    case Killed(p) => p < PROCESS_LIMIT
    case Exited(p) => p < PROCESS_LIMIT && s.q != [] && s.q[0] == p
  }

  /** scheduler, fork, and kill with SIGWAIT, SIGCONT and SIGKILL, as changes of queue and states. A process
      exits by killing itself, which leads straight to the scheduler. */
  function Step(s: Sched, e: Event): Sched
    requires |s.pst| == PROCESS_LIMIT && Enabled(s, e)
  {
    match e
    case Timer => if s.q == [] then s else Tick(s)
    case Forked(p) => Sched(s.q + [p], s.pst[p := EXECUTING])
    case Stopped(p) => Sched(s.q, s.pst[p := WAITING])
    case Continued(p) => Sched(s.q, if s.pst[p] == WAITING then s.pst[p := EXECUTING] else s.pst)
    case Killed(p) => Ended(s, p)
    case Exited(p) => var t := Ended(s, p); if t.q == [] then t else Tick(t)
  }

  function Ended(s: Sched, p: nat): Sched
    requires p < |s.pst|
  {
    Sched(Without(s.q, p), s.pst[p := TERMINATED])
  }

  lemma {:induction false} WithoutDistinct(q: seq<nat>, p: nat)
    requires forall i, j | 0 <= i < j < |q| :: q[i] != q[j]
    ensures var r := Without(q, p); forall i, j | 0 <= i < j < |r| :: r[i] != r[j]
    decreases |q|
  {
    if q != [] {
      var rest := q[1..];
      assert forall i | 0 <= i < |rest| :: rest[i] == q[i + 1];
      WithoutDistinct(rest, p);
      assert q[0] !in rest;
      assert q[0] !in Without(rest, p);
    }
  }

  /** Every event keeps the queue well-formed. */
  lemma StepKeeps(s: Sched, e: Event)
    requires QueueOk(s) && Enabled(s, e)
    ensures QueueOk(Step(s, e)) && |Step(s, e).pst| == PROCESS_LIMIT
  {
    match e {
      case Timer => if s.q != [] { TickKeeps(s); }
      case Forked(p) =>
      case Stopped(p) =>
      case Continued(p) =>
      case Killed(p) => EndKeeps(s, p);
      case Exited(p) =>
        EndKeeps(s, p);
        if Ended(s, p).q != [] {
          TickKeeps(Ended(s, p));
        }
    }
  }

  lemma EndKeeps(s: Sched, p: nat)
    requires QueueOk(s) && p < PROCESS_LIMIT
    ensures QueueOk(Ended(s, p))
  {
    var t := Ended(s, p);
    WithoutDistinct(s.q, p);
    assert t.q == Without(s.q, p);
    forall i | 0 <= i < |t.q|
      ensures t.q[i] < PROCESS_LIMIT
    {
      assert t.q[i] in s.q;
    }
  }

  /** While some process slot is free, the queue has room: fork's enqueueing always succeeds. */
  lemma RoomForFork(s: Sched, p: nat)
    requires QueueOk(s) && p < PROCESS_LIMIT && s.pst[p] == TERMINATED
    ensures |s.q| < PROCESS_LIMIT
  {
    Pigeonhole(s.q, PROCESS_LIMIT, p);
  }

  // ----- bounded waiting -----

  function RunQ(s: Sched, evs: seq<Event>): Sched
    requires |s.pst| == PROCESS_LIMIT && AllEnabled(s, evs)
    decreases |evs|
  {
    if evs == [] then s else RunQ(Step(s, evs[0]), evs[1..])
  }

  predicate AllEnabled(s: Sched, evs: seq<Event>)
    requires |s.pst| == PROCESS_LIMIT
    decreases |evs|
  {
    evs == [] || (Enabled(s, evs[0]) && AllEnabled(Step(s, evs[0]), evs[1..]))
  }

  // How often the scheduler is called.
  function Timers(evs: seq<Event>): nat {
    if evs == [] then 0 else (if evs[0] == Timer || evs[0].Exited? then 1 else 0) + Timers(evs[1..])
  }

  function Exits(evs: seq<Event>): nat {
    if evs == [] then 0 else (if evs[0].Exited? then 1 else 0) + Exits(evs[1..])
  }

  // What an exit can cost a waiting process: the longest way back to the head but one.
  const LOST_TURN: nat := PROCESS_LIMIT - 2

  /** The run leaves process p alone, and nobody at the head of the queue is killed but by itself. */
  ghost predicate Fair(s: Sched, evs: seq<Event>, p: nat)
    requires |s.pst| == PROCESS_LIMIT && AllEnabled(s, evs)
    decreases |evs|
  {
    evs == [] || (&& evs[0] != Stopped(p) && evs[0] != Killed(p) && evs[0] != Exited(p)
                  && (evs[0].Killed? && s.q != [] ==> evs[0].p != s.q[0])
                  && Fair(Step(s, evs[0]), evs[1..], p))
  }

  ghost predicate QueuedAt(s: Sched, p: nat, k: nat) {
    k < |s.q| && s.q[k] == p && p < |s.pst| && s.pst[p] == EXECUTING
  }

  lemma WithoutIndex(q: seq<nat>, x: nat, k: nat)
    requires forall i, j | 0 <= i < j < |q| :: q[i] != q[j]
    requires 0 < k < |q| && q[k] != x && q[0] != x
    ensures exists k' :: 0 < k' <= k && k' < |Without(q, x)| && Without(q, x)[k'] == q[k]
  {
    var rest := q[1..];
    assert forall i | 0 <= i < |rest| :: rest[i] == q[i + 1];
    assert Without(q, x) == [q[0]] + Without(rest, x);
    var k2 := WithoutAt(rest, x, k - 1);
    assert Without(q, x)[k2 + 1] == q[k];
  }

  lemma {:induction false} WithoutAt(q: seq<nat>, x: nat, k: nat) returns (k': nat)
    requires k < |q| && q[k] != x
    ensures k' <= k && k' < |Without(q, x)| && Without(q, x)[k'] == q[k]
    decreases |q|
  {
    if k == 0 {
      k' := 0;
    } else {
      k' := WithoutAt(q[1..], x, k - 1);
      if q[0] != x {
        k' := k' + 1;
      }
    }
  }

  // A tick brings a waiting runnable process strictly closer to the head.
  lemma TickCloser(s: Sched, p: nat, k: nat)
    requires QueueOk(s) && QueuedAt(s, p, k)
    ensures k > 0 ==> Turn(s) <= k && QueuedAt(Tick(s), p, k - Turn(s))
    ensures k == 0 ==> QueuedAt(Tick(s), p, |s.q| - Turn(s)) || (Turn(s) == |s.q| && QueuedAt(Tick(s), p, 0))
  {
    hide QueueOk, Rotated;
    var r := Turn(s);
    if k > 0 {
      assert Runs(s, k);
      RotatedAt(s.q, r, k - r);
    } else if r < |s.q| {
      RotatedAt(s.q, r, |s.q| - r);
    } else {
      RotatedAt(s.q, r, 0);
    }
  }

  // Between ticks a runnable process behind the head stays behind the head, no further back.
  lemma OtherEvent(s: Sched, e: Event, p: nat, k: nat) returns (k': nat)
    requires QueueOk(s) && Enabled(s, e) && e != Timer && !e.Exited? && QueuedAt(s, p, k) && k > 0
    requires e != Stopped(p) && e != Killed(p) && (e.Killed? ==> e.p != s.q[0])
    ensures 0 < k' <= k && QueuedAt(Step(s, e), p, k')
  {
    k' := k;
    if e.Killed? {
      WithoutIndex(s.q, e.p, k);
      k' :| 0 < k' <= k && k' < |Without(s.q, e.p)| && Without(s.q, e.p)[k'] == p;
    }
  }

  lemma Sizes(s: Sched)
    requires QueueOk(s)
    ensures |s.pst| == PROCESS_LIMIT
  {
  }

  // The head's exit: whoever is at index 1 becomes the head and is rotated past at once, to the end of
  // the queue if the next one can run; anybody further back comes at least two places closer.
  lemma ExitPlace(s: Sched, p: nat, k: nat) returns (k': nat)
    requires QueueOk(s) && QueuedAt(s, p, k) && k > 0
    ensures var t := Ended(s, s.q[0]);
            && t.q == s.q[1..] && t.q != [] && QueuedAt(t, p, k - 1) && QueuedAt(Tick(t), p, k')
            && k' == if k > 1 then k - 1 - Turn(t) else if Turn(t) == |t.q| then 0 else |t.q| - Turn(t)
    ensures k' <= if k > 1 then k - 2 else LOST_TURN
    ensures k == 1 && |s.q| > 2 && Runs(s, 2) ==> k' == |s.q| - 2
  {
    hide Tick, Turn;
    var x := s.q[0];
    var t := Ended(s, x);
    HeadEnds(s);
    assert t.q[k - 1] == s.q[k] == p;
    TickCloser(t, p, k - 1);
    QueueFits(s);
    k' := if k > 1 then k - 1 - Turn(t) else if Turn(t) == |t.q| then 0 else |t.q| - Turn(t);
    if k == 1 && |s.q| > 2 && Runs(s, 2) {
      NextTurn(t);
    }
  }

  lemma HeadEnds(s: Sched)
    requires QueueOk(s) && s.q != []
    ensures var t := Ended(s, s.q[0]);
            && t.q == s.q[1..] && QueueOk(t) && t.pst == s.pst[s.q[0] := TERMINATED]
            && forall i | 0 <= i < |t.q| :: t.q[i] != s.q[0] && (Runs(t, i) <==> Runs(s, i + 1))
  {
    var x, rest := s.q[0], s.q[1..];
    assert forall i | 0 <= i < |rest| :: rest[i] == s.q[i + 1];
    WithoutOther(rest, x);
    EndKeeps(s, x);
  }

  // The second in the queue comes first if it can run.
  lemma NextTurn(s: Sched)
    requires |s.q| > 1 && Runs(s, 1)
    ensures Turn(s) == 1
  {
  }

  lemma {:induction false} WithoutOther(q: seq<nat>, x: nat)
    requires x !in q
    ensures Without(q, x) == q
    decreases |q|
  {
    if q != [] {
      WithoutOther(q[1..], x);
    }
  }

  lemma QueueFits(s: Sched)
    requires QueueOk(s)
    ensures |s.q| <= PROCESS_LIMIT
  {
    DistinctBound<int>(s.q, Below(PROCESS_LIMIT));
  }

  /** Bounded waiting: a process that stays EXECUTING behind the head, at queue index k, is at the
      head after some number, between 1 and k, of scheduler calls, and at most LOST_TURN more for every
      process that has ended itself in the meantime. ExitPlace says which exits cost that much. */
  lemma {:induction false} BoundedWaiting(s: Sched, evs: seq<Event>, p: nat, k: nat)
    requires QueueOk(s) && AllEnabled(s, evs) && Fair(s, evs, p) && QueuedAt(s, p, k) && k > 0
    requires Timers(evs) >= k + LOST_TURN * Exits(evs)
    ensures exists m :: 0 <= m <= |evs| && ReachesHead(s, evs, p, k, m)
    decreases |evs|
  {
    hide QueueOk, Turn, Rotated, Without, ReachesHead;
    var e, rest := evs[0], evs[1..];
    assert |s.pst| == PROCESS_LIMIT by { Sizes(s); }
    StepKeeps(s, e);
    var k';
    match e {
      case Timer =>
        TickCloser(s, p, k);
        k' := k - Turn(s);
      case Exited(x) => k' := ExitPlace(s, p, k);
      case _ => k' := OtherEvent(s, e, p, k);
    }
    if k' == 0 {
      HeadNow(s, evs, p, k);
    } else {
      BoundedWaiting(Step(s, e), rest, p, k');
      var m :| 0 <= m <= |rest| && ReachesHead(Step(s, e), rest, p, k', m);
      LaterHead(s, evs, p, k', k, m);
    }
  }

  /** After the first m events, which contain between 1 and `bound` scheduler calls, and LOST_TURN more for
      each exit, p is at the head. */
  ghost predicate ReachesHead(s: Sched, evs: seq<Event>, p: nat, bound: nat, m: nat)
    requires |s.pst| == PROCESS_LIMIT
  {
    && m <= |evs| && AllEnabled(s, evs[..m]) && 1 <= Timers(evs[..m]) <= bound + LOST_TURN * Exits(evs[..m])
    && QueuedAt(RunQ(s, evs[..m]), p, 0)
  }

  lemma HeadNow(s: Sched, evs: seq<Event>, p: nat, bound: nat)
    requires |s.pst| == PROCESS_LIMIT && evs != [] && (evs[0] == Timer || evs[0].Exited?) && bound >= 1
    requires Enabled(s, evs[0]) && QueuedAt(Step(s, evs[0]), p, 0)
    ensures ReachesHead(s, evs, p, bound, 1)
  {
    var one := evs[..1];
    var t := Step(s, evs[0]);
    assert one == [evs[0]] && one[1..] == [];
    assert AllEnabled(t, []) && RunQ(t, []) == t && Timers([]) == 0 && Exits([]) == 0;
  }

  lemma LaterHead(s: Sched, evs: seq<Event>, p: nat, inner: nat, bound: nat, m: nat)
    requires |s.pst| == PROCESS_LIMIT && evs != [] && Enabled(s, evs[0]) && m <= |evs[1..]|
    requires ReachesHead(Step(s, evs[0]), evs[1..], p, inner, m)
    requires inner + (if evs[0] == Timer || evs[0].Exited? then 1 else 0)
          <= bound + if evs[0].Exited? then LOST_TURN else 0
    ensures ReachesHead(s, evs, p, bound, m + 1)
  {
    assert evs[..m + 1][1..] == evs[1..][..m] && evs[..m + 1][0] == evs[0];
  }

  /** A process at the head that stays EXECUTING is at the head again within as many scheduler
      calls as the queue has entries at the first of them, and LOST_TURN more for each exit. */
  lemma HeadRunsAgain(s: Sched, evs: seq<Event>, p: nat)
    requires QueueOk(s) && AllEnabled(s, evs) && Fair(s, evs, p) && QueuedAt(s, p, 0)
    requires evs != [] && evs[0] == Timer && Timers(evs) >= |s.q| + LOST_TURN * Exits(evs)
    ensures exists m :: 0 <= m <= |evs| && ReachesHead(s, evs, p, |s.q|, m)
  {
    hide ReachesHead;
    StepKeeps(s, Timer);
    TickCloser(s, p, 0);
    var n, r := |s.q|, Turn(s);
    if r == n {
      HeadNow(s, evs, p, n);
    } else {
      RotatedAt(s.q, r, 0);
      BoundedWaiting(Tick(s), evs[1..], p, n - r);
      var m :| 0 <= m <= |evs[1..]| && ReachesHead(Tick(s), evs[1..], p, n - r, m);
      LaterHead(s, evs, p, n - r, n, m);
    }
  }

  // After one rotation by one place, position i holds what position i + 1 held.
  lemma ShiftedRuns(s: Sched, i: nat)
    requires i < |s.q|
    ensures |Rotated(s.q, 1)| == |s.q|
    ensures Runs(Sched(Rotated(s.q, 1), s.pst), i) <==> Runs(s, if i + 1 < |s.q| then i + 1 else 0)
  {
    RotatedAt(s.q, 1, i);
  }

  /** Rotating by one place and, if the new head cannot run, doing it again makes the whole tick. */
  lemma TurnShift(s: Sched)
    requires SomeRuns(s) && s.q != []
    ensures var s1 := Sched(Rotated(s.q, 1), s.pst);
            && s1.q != [] && SomeRuns(s1)
            && if Runs(s1, 0) then Turn(s) == 1
               else Turn(s1) == Turn(s) - 1 && Tick(s1).q == Tick(s).q
  {
    hide Rotated;
    var s1, n := Sched(Rotated(s.q, 1), s.pst), |s.q|;
    var h :| 0 <= h < n && Runs(s, h);
    ShiftedRuns(s, if h == 0 then n - 1 else h - 1);
    ShiftedRuns(s, 0);
    if !Runs(s1, 0) {
      TurnShorter(s, h);
      RotateTwice(s.q, Turn(s));
    }
  }

  lemma TurnShorter(s: Sched, h: nat)
    requires h < |s.q| && Runs(s, h) && |Rotated(s.q, 1)| == |s.q| && !Runs(Sched(Rotated(s.q, 1), s.pst), 0)
    ensures Turn(s) > 1 && Turn(Sched(Rotated(s.q, 1), s.pst)) == Turn(s) - 1
  {
    hide Rotated, Runs;
    var s1, r := Sched(Rotated(s.q, 1), s.pst), Turn(s);
    ShiftedRuns(s, 0);
    if h > 0 {
      assert r <= h;
    }
    ShiftedRuns(s, r - 1);
    forall j | 1 <= j < r - 1
      ensures !Runs(s1, j)
    {
      ShiftedRuns(s, j);
    }
    FirstIs(s1, 1, r - 1);
  }

  lemma {:induction false} FirstIs(s: Sched, k: nat, r: nat)
    requires k <= r < |s.q| && Runs(s, r) && forall j | k <= j < r :: !Runs(s, j)
    ensures FirstFrom(s, k) == r
    decreases r - k
  {
    if k < r {
      assert !Runs(s, k);
      FirstIs(s, k + 1, r);
    }
  }

  lemma RotateTwice(q: seq<nat>, r: nat)
    requires 1 <= r <= |q|
    ensures Rotated(Rotated(q, 1), r - 1) == Rotated(q, r)
  {
    var q1 := Rotated(q, 1);
    assert q1[r - 1..] == q[r..] + q[..1];
    assert q1[..r - 1] == q[1..r];
    assert q[..r] == q[..1] + q[1..r];
  }

  // ----- when the rotation ends -----

  function OnePlace(s: Sched): (s1: Sched)
    requires s.q != []
    ensures s1.q != []
  {
    Sched(Rotated(s.q, 1), s.pst)
  }

  // The queue after n rotations by one place.
  function Places(s: Sched, n: nat): (r: Sched)
    requires s.q != []
    ensures r.q != []
    decreases n
  {
    if n == 0 then s else Places(OnePlace(s), n - 1)
  }

  lemma {:induction false} PlacesRotate(s: Sched, n: nat)
    requires s.q != [] && n <= |s.q|
    ensures Places(s, n) == Sched(Rotated(s.q, n), s.pst)
    decreases n
  {
    if n == 0 {
      assert Rotated(s.q, 0) == s.q;
    } else {
      PlacesRotate(OnePlace(s), n - 1);
      RotateTwice(s.q, n);
    }
  }

  // If nobody can run, nobody can after any number of places.
  lemma {:induction false} NeverRuns(s: Sched, n: nat)
    requires s.q != [] && !SomeRuns(s)
    ensures !Runs(Places(s, n), 0)
    decreases n
  {
    assert !Runs(s, 0);
    if n > 0 {
      forall i | 0 <= i < |s.q|
        ensures !Runs(OnePlace(s), i)
      {
        ShiftedRuns(s, i);
      }
      NeverRuns(OnePlace(s), n - 1);
    }
  }

  /** rq_rotate on a queue that is not empty, which rotates by one place until the head can run, ends if and
      only if some queued process can run. On an empty queue the source reads through a null pointer. */
  lemma RotationEnds(s: Sched)
    requires s.q != []
    ensures (exists n :: n >= 1 && Runs(Places(s, n), 0)) <==> SomeRuns(s)
  {
    if SomeRuns(s) {
      TickRuns(s);
      PlacesRotate(s, Turn(s));
      assert Runs(Places(s, Turn(s)), 0);
    } else {
      forall n: nat
        ensures !Runs(Places(s, n), 0)
      {
        NeverRuns(s, n);
      }
    }
  }
}
