/**
  How long a READY thread can wait. `thread_yield` does not refill the slice of the thread that
  yields and `schedule` refills only a slice that ran out, so the slices still owed ahead of a
  thread can only shrink, whatever mixture of yields, blocks, thread creations and timer
  interrupts happens. (thread_unblock pushes to the front of the list and is excluded here.)
 */
module TimeSlices {
  import opened Outcomes
  import opened Scheduler

  datatype Move = Tick | Yield | Block(st: Status) | Start(t: Tid, priority: nat)

  ghost predicate Allowed(s: Sched, m: Move) {
    match m
    case Tick => true
    case Yield => s.cur != s.idle
    case Block(st) => Stopped(st) && (s.cur == s.idle ==> st == Blocked)
    case Start(t, _) => t !in s.tasks
  }

  function Perform(s: Sched, m: Move): Outcome<Sched>
    requires Known(s)
  {
    match m
    case Tick => TimerInterrupt(s)
    case Yield => ThreadYield(s)
    case Block(st) => ThreadBlock(s, st)
    case Start(t, priority) => ThreadStart(s, t, priority)
  }

  lemma PerformKeepsInv(s: Sched, m: Move)
    requires Inv(s) && Allowed(s, m)
    ensures Perform(s, m).Ok? && Inv(Perform(s, m).value)
  {
    match m
    case Tick => TimerKeepsInv(s);
    case Yield => YieldKeepsInv(s);
    case Block(st) => BlockKeepsInv(s, st);
    case Start(t, priority) => StartKeepsInv(s, t, priority);
  }

  /** The state after a move; no move fails an ASSERT. */
  ghost function Next(s: Sched, m: Move): (r: Sched)
    requires Inv(s) && Allowed(s, m)
    ensures Perform(s, m) == Ok(r) && Inv(r)
    ensures match m
            case Tick => TimerInterrupt(s) == Ok(r)
            case Yield => ThreadYield(s) == Ok(r)
            case Block(st) => ThreadBlock(s, st) == Ok(r)
            case Start(t, priority) => ThreadStart(s, t, priority) == Ok(r)
  {
    PerformKeepsInv(s, m);
    Perform(s, m).value
  }

  /** The timer interrupts that the first k threads of the queue may still consume. */
  function Owed(tasks: map<Tid, Task>, queue: seq<Tid>, k: nat): nat
    requires k <= |queue| && forall t :: t in queue ==> t in tasks
  {
    if k == 0 then 0 else Owed(tasks, queue, k - 1) + tasks[queue[k - 1]].ticks + 1
  }

  /** The most timer interrupts before the thread at position k of the ready list is dispatched. */
  function Wait(s: Sched, k: nat): (w: nat)
    requires Known(s) && k < |s.ready|
    ensures w > 0
  {
    s.tasks[s.cur].ticks + 1 + Owed(s.tasks, s.ready, k)
  }

  /** The queue may grow, and slices outside its first k threads may change. */
  lemma {:induction false} OwedSame(a: map<Tid, Task>, q: seq<Tid>, b: map<Tid, Task>, r: seq<Tid>, k: nat)
    requires k <= |q| && k <= |r| && q[..k] == r[..k]
    requires (forall t :: t in q ==> t in a) && (forall t :: t in r ==> t in b)
    requires forall j :: 0 <= j < k ==> a[q[j]].ticks == b[q[j]].ticks
    ensures Owed(a, q, k) == Owed(b, r, k)
  {
    if k > 0 {
      assert q[..k - 1] == q[..k][..k - 1] == r[..k - 1];
      assert q[..k][k - 1] == r[..k][k - 1];
      OwedSame(a, q, b, r, k - 1);
    }
  }

  /** Taking the front thread off the queue takes its slice off the total. */
  lemma {:induction false} OwedPop(tasks: map<Tid, Task>, q: seq<Tid>, k: nat)
    requires 0 < k <= |q| && forall t :: t in q ==> t in tasks
    ensures Owed(tasks, q, k) == tasks[q[0]].ticks + 1 + Owed(tasks, q[1..], k - 1)
  {
    if k > 1 {
      OwedPop(tasks, q, k - 1);
    }
  }

  /** `schedule` changes no slice ahead of the thread that was running, and takes the front thread. */
  lemma DispatchShifts(s: Sched)
    requires BeforeSchedule(s) && s.ready != []
    ensures Schedule(s).Ok? && Known(Schedule(s).value)
    ensures var r := Schedule(s).value;
            && r.cur == s.ready[0]
            && r.ready == s.ready[1..] + (if s.tasks[s.cur].status == Running then [s.cur] else [])
            && (forall t :: t in s.ready ==> t in r.tasks && r.tasks[t].ticks == s.tasks[t].ticks)
  {
    hide Owed, Wait;
    ScheduleFindsAThread(s);
  }

  /** Dispatching the next thread leaves exactly what was owed ahead of position k. */
  lemma DispatchPaysCurrent(s: Sched, k: nat)
    requires BeforeSchedule(s) && k < |s.ready|
    ensures Schedule(s).Ok? && Known(Schedule(s).value)
    ensures var r := Schedule(s).value;
            if k == 0 then r.cur == s.ready[0]
            else |r.ready| > k - 1 && r.ready[k - 1] == s.ready[k] && Wait(r, k - 1) == Owed(s.tasks, s.ready, k)
  {
    hide Schedule, Owed;
    DispatchShifts(s);
    var r := Schedule(s).value;
    if k > 0 {
      OwedPop(s.tasks, s.ready, k);
      OwedSame(s.tasks, s.ready[1..], r.tasks, r.ready, k - 1);
    }
  }

  /** The thread at position k of s is on the processor in r, or is still queued there with a wait
      that is no longer, and exactly one shorter after a timer interrupt. */
  ghost predicate Closer(s: Sched, k: nat, r: Sched, tick: bool)
    requires Known(s) && Known(r) && k < |s.ready|
  {
    || (r.cur == s.ready[k] && (tick ==> Wait(s, k) == 1))
    || exists j: nat :: j < |r.ready| && r.ready[j] == s.ready[k]
         && Wait(r, j) <= Wait(s, k) && (tick ==> Wait(r, j) + 1 == Wait(s, k))
  }

  lemma TickCloser(s: Sched, k: nat)
    requires Inv(s) && k < |s.ready|
    ensures TimerInterrupt(s).Ok? && Known(TimerInterrupt(s).value) && Closer(s, k, TimerInterrupt(s).value, true)
  {
    var r := TimerInterrupt(s).value;
    if s.tasks[s.cur].ticks == 0 {
      DispatchPaysCurrent(s, k);
      if k > 0 {
        assert r.ready[k - 1] == s.ready[k] && Wait(r, k - 1) + 1 == Wait(s, k);
      }
    } else {
      OwedSame(s.tasks, s.ready, r.tasks, r.ready, k);
      assert r.ready[k] == s.ready[k] && Wait(r, k) + 1 == Wait(s, k);
    }
  }

  lemma YieldCloser(s: Sched, k: nat)
    requires Inv(s) && k < |s.ready|
    ensures ThreadYield(s).Ok? && Known(ThreadYield(s).value) && Closer(s, k, ThreadYield(s).value, false)
  {
    var y := SetStatus(s, s.cur, Ready).(ready := s.ready + [s.cur]);
    assert BeforeSchedule(y);
    DispatchPaysCurrent(y, k);
    OwedSame(s.tasks, s.ready, y.tasks, y.ready, k);
    var r := Schedule(y).value;
    if k > 0 {
      assert r.ready[k - 1] == s.ready[k] && Wait(r, k - 1) <= Wait(s, k);
    }
  }

  lemma BlockCloser(s: Sched, st: Status, k: nat)
    requires Inv(s) && k < |s.ready| && Stopped(st) && (s.cur == s.idle ==> st == Blocked)
    ensures ThreadBlock(s, st).Ok? && Known(ThreadBlock(s, st).value) && Closer(s, k, ThreadBlock(s, st).value, false)
  {
    var b := SetStatus(s, s.cur, st);
    assert BeforeSchedule(b);
    DispatchPaysCurrent(b, k);
    OwedSame(s.tasks, s.ready, b.tasks, b.ready, k);
    var r := Schedule(b).value;
    if k > 0 {
      assert r.ready[k - 1] == s.ready[k] && Wait(r, k - 1) <= Wait(s, k);
    }
  }

  lemma StartCloser(s: Sched, t: Tid, priority: nat, k: nat)
    requires Inv(s) && k < |s.ready| && t !in s.tasks
    ensures ThreadStart(s, t, priority).Ok? && Known(ThreadStart(s, t, priority).value)
    ensures Closer(s, k, ThreadStart(s, t, priority).value, false)
  {
    var r := ThreadStart(s, t, priority).value;
    OwedSame(s.tasks, s.ready, r.tasks, r.ready, k);
    assert r.ready[k] == s.ready[k] && Wait(r, k) == Wait(s, k);
  }

  lemma MoveShortensWait(s: Sched, m: Move, k: nat)
    requires Inv(s) && Allowed(s, m) && k < |s.ready|
    ensures Closer(s, k, Next(s, m), m.Tick?)
  {
    match m
    case Tick => TickCloser(s, k);
    case Yield => YieldCloser(s, k);
    case Block(st) => BlockCloser(s, st, k);
    case Start(t, priority) => StartCloser(s, t, priority, k);
  }

  // ---------- Whole runs ----------

  ghost predicate AllowedRun(s: Sched, ms: seq<Move>)
    requires Inv(s)
    decreases |ms|
  {
    ms != [] ==> Allowed(s, ms[0]) && AllowedRun(Next(s, ms[0]), ms[1..])
  }

  /** t is on the processor at some point of the run. */
  ghost predicate Dispatched(s: Sched, ms: seq<Move>, t: Tid)
    requires Inv(s) && AllowedRun(s, ms)
    decreases |ms|
  {
    s.cur == t || (ms != [] && Dispatched(Next(s, ms[0]), ms[1..], t))
  }

  function Ticks(ms: seq<Move>): nat {
    if ms == [] then 0 else (if ms[0].Tick? then 1 else 0) + Ticks(ms[1..])
  }

  /** No starvation: by the time `Wait(s, k)` timer interrupts have happened, the thread at
      position k of the ready list has been on the processor. */
  lemma {:induction false} DispatchedInTime(s: Sched, ms: seq<Move>, k: nat)
    requires Inv(s) && AllowedRun(s, ms) && k < |s.ready|
    requires Ticks(ms) >= Wait(s, k)
    ensures Dispatched(s, ms, s.ready[k])
    decreases |ms|
  {
    MoveShortensWait(s, ms[0], k);
    var r := Next(s, ms[0]);
    if r.cur == s.ready[k] {
      assert Dispatched(r, ms[1..], s.ready[k]);
    } else {
      var j: nat :| j < |r.ready| && r.ready[j] == s.ready[k]
                    && Wait(r, j) <= Wait(s, k) && (ms[0].Tick? ==> Wait(r, j) + 1 == Wait(s, k));
      DispatchedInTime(r, ms[1..], j);
    }
  }

  /** The bound is exact: when nothing but timer interrupts happens, the thread is not dispatched
      by fewer of them. */
  lemma {:induction false} NotDispatchedEarlier(s: Sched, ms: seq<Move>, k: nat)
    requires Inv(s) && AllowedRun(s, ms) && k < |s.ready|
    requires (forall i :: 0 <= i < |ms| ==> ms[i].Tick?) && |ms| < Wait(s, k)
    ensures !Dispatched(s, ms, s.ready[k])
    decreases |ms|
  {
    CurrentIsNotReady(s);
    hide Inv, Wait, Perform, Allowed;
    if ms != [] {
      MoveShortensWait(s, ms[0], k);
      var r := Next(s, ms[0]);
      CurrentIsNotReady(r);
      var j: nat :| j < |r.ready| && r.ready[j] == s.ready[k] && Wait(r, j) + 1 == Wait(s, k);
      NotDispatchedEarlier(r, ms[1..], j);
    }
  }

  lemma CurrentIsNotReady(s: Sched)
    requires Inv(s)
    ensures Known(s) && s.cur !in s.ready
  {}
}
