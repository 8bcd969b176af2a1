/**
  The thread scheduler of thread/thread.c and the timer handler of device/timer.c.

  The kernel has one processor and every routine below runs with interrupts disabled, so each is
  one atomic step on the scheduler state. The state is given twice: as a value (`Sched`), on which
  the steps are functions and the theorems are lemmas, and as the class `Kernel`, whose methods
  update the fields in place as the source does and are proved equal to those functions.
 */
module Scheduler {
  import opened Outcomes

  type Tid = nat

  /** enum task_status; TASK_DIED is declared there but no routine sets or tests it. */
  datatype Status = Running | Ready | Blocked | Waiting | Hanging

  datatype Task = Task(status: Status, priority: nat, ticks: nat)

  /** `ready` is thread_ready_list, front first; `all` is thread_all_list. */
  datatype Sched = Sched(cur: Tid, ready: seq<Tid>, all: seq<Tid>, tasks: map<Tid, Task>, idle: Tid)

  predicate Stopped(st: Status) {
    st.Blocked? || st.Waiting? || st.Hanging?
  }

  function SetStatus(s: Sched, t: Tid, st: Status): Sched
    requires t in s.tasks
  {
    s.(tasks := s.tasks[t := s.tasks[t].(status := st)])
  }

  predicate Known(s: Sched) {
    s.cur in s.tasks && s.idle in s.tasks && forall t :: t in s.ready ==> t in s.tasks
  }

  // ---------- The steps ----------

  function ThreadUnblock(s: Sched, t: Tid): Outcome<Sched>
    requires t in s.tasks
  {
    if !Stopped(s.tasks[t].status) then Panic
    else if t in s.ready then Panic
    else Ok(SetStatus(s, t, Ready).(ready := [t] + s.ready))
  }

  /** A task whose time slice ran out goes to the back of the ready list with a full slice. */
  function Requeue(s: Sched): Outcome<Sched>
    requires Known(s)
  {
    if s.tasks[s.cur].status != Running then Ok(s)
    else if s.cur in s.ready then Panic
    else
      var task := s.tasks[s.cur];
      Ok(s.(ready := s.ready + [s.cur], tasks := s.tasks[s.cur := Task(Ready, task.priority, task.priority)]))
  }

  function WakeIdle(s: Sched): Outcome<Sched>
    requires Known(s)
  {
    if s.ready == [] then ThreadUnblock(s, s.idle) else Ok(s)
  }

  function Dispatch(s: Sched): Outcome<Sched>
    requires Known(s)
  {
    if s.ready == [] then Panic
    else Ok(SetStatus(s, s.ready[0], Running).(cur := s.ready[0], ready := s.ready[1..]))
  }

  function Schedule(s: Sched): Outcome<Sched>
    requires Known(s)
  {
    var s1 :- Requeue(s);
    var s2 :- WakeIdle(s1);
    Dispatch(s2)
  }

  function ThreadBlock(s: Sched, st: Status): Outcome<Sched>
    requires Known(s)
  {
    if !Stopped(st) then Panic else Schedule(SetStatus(s, s.cur, st))
  }

  function ThreadYield(s: Sched): Outcome<Sched>
    requires Known(s)
  {
    if s.cur in s.ready then Panic
    else Schedule(SetStatus(s, s.cur, Ready).(ready := s.ready + [s.cur]))
  }

  function ThreadStart(s: Sched, t: Tid, priority: nat): Outcome<Sched>
  {
    if t in s.ready || t in s.all then Panic
    else Ok(s.(tasks := s.tasks[t := Task(Ready, priority, priority)], ready := s.ready + [t], all := s.all + [t]))
  }

  function TimerInterrupt(s: Sched): Outcome<Sched>
    requires Known(s)
  {
    var task := s.tasks[s.cur];
    if task.ticks == 0 then Schedule(s)
    else Ok(s.(tasks := s.tasks[s.cur := task.(ticks := task.ticks - 1)]))
  }

  // ---------- The invariant ----------

  /** The agreement between `status` and the lists, which holds throughout `Schedule`. */
  ghost predicate ListAgrees(s: Sched) {
    && Known(s)
    && NoDup(s.ready) && NoDup(s.all)
    && (forall t :: t in s.all <==> t in s.tasks)
    && (forall t :: t in s.tasks ==> (s.tasks[t].status == Ready <==> t in s.ready))
  }

  /** At every step boundary exactly one thread is RUNNING, a thread is READY exactly when it is on
      the ready list, once, and the idle thread is stopped only by blocking itself. */
  ghost predicate Inv(s: Sched) {
    && ListAgrees(s)
    && (forall t :: t in s.tasks ==> (s.tasks[t].status == Running <==> t == s.cur))
    && s.tasks[s.idle].status in {Running, Ready, Blocked}
  }

  /** What `Schedule` relies on: only the current thread may be RUNNING, and the idle thread is
      either schedulable or stopped. */
  ghost predicate BeforeSchedule(s: Sched) {
    && ListAgrees(s)
    && (forall t :: t in s.tasks && s.tasks[t].status == Running ==> t == s.cur)
    && s.tasks[s.idle].status in {Running, Ready, Blocked}
  }

  lemma RequeueKeeps(s: Sched)
    requires BeforeSchedule(s)
    ensures Known(s) && Requeue(s).Ok? && BeforeSchedule(Requeue(s).value) && SameStopped(s, Requeue(s).value)
    ensures var r := Requeue(s).value;
            && Known(r) && r.tasks[r.cur].status != Running && r.cur == s.cur
            && r.ready == s.ready + (if s.tasks[s.cur].status == Running then [s.cur] else [])
  {}

  lemma WakeIdleKeeps(s: Sched)
    requires BeforeSchedule(s) && s.tasks[s.cur].status != Running
    ensures WakeIdle(s).Ok? && BeforeSchedule(WakeIdle(s).value) && SameStopped(s, WakeIdle(s).value)
    ensures var r := WakeIdle(s).value;
            && Known(r) && r.tasks[r.cur].status != Running && r.cur == s.cur
            && r.ready == if s.ready == [] then [s.idle] else s.ready
  {}

  lemma DispatchKeeps(s: Sched)
    requires BeforeSchedule(s) && s.tasks[s.cur].status != Running && s.ready != []
    ensures Dispatch(s).Ok? && Inv(Dispatch(s).value) && SameStopped(s, Dispatch(s).value)
    ensures [Dispatch(s).value.cur] + Dispatch(s).value.ready == s.ready
  {
    NoDupParts(s.ready);
  }

  /** ASSERT(!list_empty(&thread_ready_list)) in `schedule` never fails: when nothing is ready the
      idle thread is stopped, and waking it puts it on the list. */
  lemma ScheduleFindsAThread(s: Sched)
    requires BeforeSchedule(s)
    ensures Schedule(s).Ok? && Inv(Schedule(s).value) && SameStopped(s, Schedule(s).value)
    ensures var queue := s.ready + (if s.tasks[s.cur].status == Running then [s.cur] else []);
            var r := Schedule(s).value;
            [r.cur] + r.ready == if queue == [] then [s.idle] else queue
  {
    hide Requeue, WakeIdle, Dispatch, Inv, ListAgrees;
    RequeueKeeps(s);
    WakeIdleKeeps(Requeue(s).value);
    DispatchKeeps(WakeIdle(Requeue(s).value).value);
  }

  // Every step, from any state satisfying the invariant, passes all its ASSERTs and restores it.

  /** r is s after a step that blocked or woke thread w, and w alone. */
  ghost predicate OnlyMoved(s: Sched, r: Sched, w: Tid) {
    && Inv(r)
    && r.tasks.Keys == s.tasks.Keys && r.idle == s.idle && w in s.tasks && w != s.idle
    && forall t :: t in s.tasks && t != w && t != s.idle ==>
         (Stopped(r.tasks[t].status) <==> Stopped(s.tasks[t].status))
         && (Stopped(s.tasks[t].status) ==> r.tasks[t] == s.tasks[t])
  }

  lemma BlockKeepsInv(s: Sched, st: Status)
    requires Inv(s) && Stopped(st) && (s.cur == s.idle ==> st == Blocked)
    ensures ThreadBlock(s, st).Ok? && Inv(ThreadBlock(s, st).value)
    ensures var r := ThreadBlock(s, st).value;
            && r.tasks.Keys == s.tasks.Keys && r.idle == s.idle
            && (s.cur != s.idle ==> OnlyMoved(s, r, s.cur) && r.tasks[s.cur].status == st && r.cur != s.cur)
            && (s.cur == s.idle ==> SameStopped(s, r))
  {
    hide Schedule;
    ScheduleFindsAThread(SetStatus(s, s.cur, st));
  }

  lemma YieldKeepsInv(s: Sched)
    requires Inv(s)
    ensures ThreadYield(s).Ok? && Inv(ThreadYield(s).value)
    ensures SameStopped(s, ThreadYield(s).value)
  {
    var y := SetStatus(s, s.cur, Ready).(ready := s.ready + [s.cur]);
    YieldQueues(s);
    ScheduleFindsAThread(y);
  }

  lemma YieldQueues(s: Sched)
    requires Inv(s)
    ensures var y := SetStatus(s, s.cur, Ready).(ready := s.ready + [s.cur]); BeforeSchedule(y) && SameStopped(s, y)
  {}

  lemma TimerKeepsInv(s: Sched)
    requires Inv(s)
    ensures TimerInterrupt(s).Ok? && Inv(TimerInterrupt(s).value)
    ensures var r := TimerInterrupt(s).value; SameStopped(s, r)
  {
    if s.tasks[s.cur].ticks == 0 {
      ScheduleFindsAThread(s);
    }
  }

  lemma UnblockKeepsInv(s: Sched, t: Tid)
    requires Inv(s) && t in s.tasks && Stopped(s.tasks[t].status) && t != s.idle
    ensures ThreadUnblock(s, t).Ok? && OnlyMoved(s, ThreadUnblock(s, t).value, t)
    ensures var r := ThreadUnblock(s, t).value;
            r.cur == s.cur && r.tasks[t].status == Ready && forall u :: u in s.tasks && u != t ==> r.tasks[u] == s.tasks[u]
  {}

  lemma StartKeepsInv(s: Sched, t: Tid, priority: nat)
    requires Inv(s) && t !in s.tasks
    ensures ThreadStart(s, t, priority).Ok? && Inv(ThreadStart(s, t, priority).value)
  {}

  /** Threads other than idle are stopped in `r` exactly when they were in `s`. */
  ghost predicate SameStopped(s: Sched, r: Sched) {
    && r.tasks.Keys == s.tasks.Keys && r.idle == s.idle
    && forall t :: t in s.tasks && t != s.idle ==>
         (Stopped(r.tasks[t].status) <==> Stopped(s.tasks[t].status))
         && (Stopped(s.tasks[t].status) ==> r.tasks[t] == s.tasks[t])
  }

  // ---------- Who runs next ----------

  /** No thread's slice or priority changes. */
  ghost predicate SameSlices(s: Sched, r: Sched) {
    r.tasks.Keys == s.tasks.Keys && forall t :: t in s.tasks ==> r.tasks[t].ticks == s.tasks[t].ticks && r.tasks[t].priority == s.tasks[t].priority
  }

  /** thread_yield puts the running thread behind everybody who is ready and runs the first of them; nobody's
      slice changes. */
  lemma YieldEffect(s: Sched)
    requires Inv(s)
    ensures ThreadYield(s).Ok?
    ensures var r := ThreadYield(s).value;
            && [r.cur] + r.ready == s.ready + [s.cur] && r.all == s.all && r.idle == s.idle
            && (s.ready != [] ==> r.cur == s.ready[0] && r.cur != s.cur)
            && r.tasks.Keys == s.tasks.Keys
            && forall t :: t in s.tasks ==> r.tasks[t].ticks == s.tasks[t].ticks && r.tasks[t].priority == s.tasks[t].priority
  {
    hide Inv, ListAgrees, BeforeSchedule, Schedule, SameStopped;
    InvFacts(s);
    YieldQueues(s);
    var y := SetStatus(s, s.cur, Ready).(ready := s.ready + [s.cur]);
    ScheduleFindsAThread(y);
    BlockedSlices(y);
    FirstOf(ThreadYield(s).value, s.ready, [s.cur]);
  }

  lemma FirstOf(r: Sched, a: seq<Tid>, b: seq<Tid>)
    requires [r.cur] + r.ready == a + b
    ensures a != [] ==> r.cur == a[0]
  {
    assert ([r.cur] + r.ready)[0] == r.cur;
  }

  lemma InvFacts(s: Sched)
    requires Inv(s)
    ensures Known(s) && s.cur !in s.ready && s.tasks[s.cur].status == Running
  {}

  /** thread_block stops the running thread, and the first ready thread runs, or idle if there is none. */
  lemma BlockEffect(s: Sched, st: Status)
    requires Inv(s) && Stopped(st) && (s.cur == s.idle ==> st == Blocked)
    ensures ThreadBlock(s, st).Ok?
    ensures var r := ThreadBlock(s, st).value;
            && [r.cur] + r.ready == (if s.ready == [] then [s.idle] else s.ready) && r.all == s.all && r.idle == s.idle
            && r.tasks.Keys == s.tasks.Keys && (r.cur != s.cur ==> r.tasks[s.cur].status == st)
            && forall t :: t in s.tasks ==> r.tasks[t].ticks == s.tasks[t].ticks && r.tasks[t].priority == s.tasks[t].priority
  {
    hide Inv, ListAgrees, BeforeSchedule, Schedule, SameStopped;
    InvFacts(s);
    BlockQueues(s, st);
    var b := SetStatus(s, s.cur, st);
    ScheduleFindsAThread(b);
    BlockedSlices(b);
  }

  lemma BlockQueues(s: Sched, st: Status)
    requires Inv(s) && Stopped(st) && (s.cur == s.idle ==> st == Blocked)
    ensures BeforeSchedule(SetStatus(s, s.cur, st))
    ensures s.cur == s.idle && s.ready == [] ==> Schedule(SetStatus(s, s.cur, st)).Ok? && Schedule(SetStatus(s, s.cur, st)).value.cur == s.cur
  {}

  lemma BlockedSlices(s: Sched)
    requires BeforeSchedule(s) && s.tasks[s.cur].status != Running && Schedule(s).Ok?
    ensures var r := Schedule(s).value;
            && r.all == s.all && r.idle == s.idle && r.tasks.Keys == s.tasks.Keys && SameSlices(s, r)
            && (r.cur != s.cur && s.ready != [] ==> r.tasks[s.cur] == s.tasks[s.cur])
            && (r.cur != s.cur && s.cur != s.idle ==> r.tasks[s.cur] == s.tasks[s.cur])
  {}

  /** The timer takes one tick of the running thread's slice; when there is none left, the thread goes behind
      everybody who is ready, with a full slice, and the first of them runs. */
  lemma TimerEffect(s: Sched)
    requires Inv(s)
    ensures TimerInterrupt(s).Ok?
    ensures var r, c := TimerInterrupt(s).value, s.tasks[s.cur];
            if c.ticks > 0 then r == s.(tasks := s.tasks[s.cur := c.(ticks := c.ticks - 1)])
            else
              && [r.cur] + r.ready == s.ready + [s.cur] && r.all == s.all && r.idle == s.idle && r.tasks.Keys == s.tasks.Keys
              && r.tasks[s.cur].ticks == r.tasks[s.cur].priority == c.priority
              && forall t :: t in s.tasks && t != s.cur ==> r.tasks[t].ticks == s.tasks[t].ticks && r.tasks[t].priority == s.tasks[t].priority
  {
    if s.tasks[s.cur].ticks == 0 {
      ScheduleFindsAThread(s);
    }
  }

  /** thread_unblock puts the thread before everybody who is ready, so that it is the one to run when the
      running thread blocks next. */
  lemma UnblockEffect(s: Sched, t: Tid, st: Status)
    requires Inv(s) && t in s.tasks && Stopped(s.tasks[t].status) && t != s.idle
    requires Stopped(st) && (s.cur == s.idle ==> st == Blocked)
    ensures ThreadUnblock(s, t) == Ok(s.(ready := [t] + s.ready, tasks := s.tasks[t := s.tasks[t].(status := Ready)]))
    ensures ThreadBlock(ThreadUnblock(s, t).value, st).Ok?
    ensures ThreadBlock(ThreadUnblock(s, t).value, st).value.cur == t && ThreadBlock(ThreadUnblock(s, t).value, st).value.ready == s.ready
  {
    UnblockKeepsInv(s, t);
    var u := ThreadUnblock(s, t).value;
    BlockEffect(u, st);
    var r := ThreadBlock(u, st).value;
    assert ([r.cur] + r.ready)[0] == r.cur && ([r.cur] + r.ready)[1..] == r.ready && u.ready[1..] == s.ready;
  }

  /** thread_start puts the new thread behind everybody who is ready, with a full slice. */
  lemma StartEffect(s: Sched, t: Tid, priority: nat)
    requires Inv(s) && t !in s.tasks
    ensures ThreadStart(s, t, priority) ==
            Ok(s.(tasks := s.tasks[t := Task(Ready, priority, priority)], ready := s.ready + [t], all := s.all + [t]))
  {}

  // ---------- The routines as the source writes them ----------

  class Kernel {
    var cur: Tid
    var threadReadyList: seq<Tid>
    var threadAllList: seq<Tid>
    var tasks: map<Tid, Task>
    var idle: Tid

    ghost function State(): Sched
      reads this
    {
      Sched(cur, threadReadyList, threadAllList, tasks, idle)
    }

    /** thread_init: the running main thread, with the idle thread waiting on the ready list. */
    constructor (main: Tid, mainPriority: nat, idle: Tid)
      requires main != idle
      ensures Inv(State())
      ensures State() == Sched(main, [idle], [main, idle],
                               map[main := Task(Running, mainPriority, mainPriority), idle := Task(Ready, 10, 10)], idle)
    {
      cur := main;
      threadAllList := [main, idle];
      tasks := map[main := Task(Running, mainPriority, mainPriority), idle := Task(Ready, 10, 10)];
      threadReadyList := [idle];
      this.idle := idle;
    }

    method SetTaskStatus(t: Tid, st: Status)
      requires t in tasks
      modifies this`tasks
      ensures State() == SetStatus(old(State()), t, st)
    {
      tasks := tasks[t := tasks[t].(status := st)];
    }

    method Unblock(t: Tid)
      requires t in tasks && ThreadUnblock(State(), t).Ok?
      modifies this
      ensures State() == ThreadUnblock(old(State()), t).value
      ensures cur == old(cur) && threadReadyList == [t] + old(threadReadyList)
    {
      assert Stopped(tasks[t].status);
      if tasks[t].status != Ready {
        assert t !in threadReadyList;
        threadReadyList := [t] + threadReadyList;
        SetTaskStatus(t, Ready);
      }
    }

    /** The first part of `schedule`: a running thread whose slice is over goes to the back. */
    method RequeueCurrent()
      requires BeforeSchedule(State())
      modifies this
      ensures Known(old(State())) && Requeue(old(State())) == Ok(State())
      ensures BeforeSchedule(State()) && tasks[cur].status != Running
    {
      RequeueKeeps(State());
      if tasks[cur].status == Running {
        assert cur !in threadReadyList;
        threadReadyList := threadReadyList + [cur];
        tasks := tasks[cur := tasks[cur].(ticks := tasks[cur].priority)];
        SetTaskStatus(cur, Ready);
        assert tasks == old(tasks)[cur := Task(Ready, old(tasks)[cur].priority, old(tasks)[cur].priority)];
      }
    }

    /** The middle part: an empty ready list gets the idle thread. */
    method WakeIdleThread()
      requires BeforeSchedule(State()) && tasks[cur].status != Running
      modifies this
      ensures Known(old(State())) && WakeIdle(old(State())) == Ok(State())
      ensures BeforeSchedule(State()) && tasks[cur].status != Running && threadReadyList != []
    {
      WakeIdleKeeps(State());
      if threadReadyList == [] {
        Unblock(idle);
      }
    }

    /** The last part of `schedule`, up to switch_to. */
    method DispatchFirst()
      requires BeforeSchedule(State()) && tasks[cur].status != Running && threadReadyList != []
      modifies this
      ensures Known(old(State())) && Dispatch(old(State())) == Ok(State()) && Inv(State())
    {
      DispatchKeeps(State());
      assert threadReadyList != [];
      var next := threadReadyList[0];
      threadReadyList := threadReadyList[1..];
      SetTaskStatus(next, Running);
      cur := next;
    }

    /** schedule() */
    method RunNext()
      requires BeforeSchedule(State())
      modifies this
      ensures Known(old(State())) && Schedule(old(State())) == Ok(State()) && Inv(State())
    {
      RequeueCurrent();
      WakeIdleThread();
      DispatchFirst();
    }

    method Block(st: Status)
      requires Inv(State()) && Stopped(st) && (cur == idle ==> st == Blocked)
      modifies this
      ensures State() == ThreadBlock(old(State()), st).value && Inv(State())
      ensures [cur] + threadReadyList == if old(threadReadyList) == [] then [idle] else old(threadReadyList)
    {
      BlockEffect(State(), st);
      SetTaskStatus(cur, st);
      RunNext();
    }

    method Yield()
      requires Inv(State())
      modifies this
      ensures State() == ThreadYield(old(State())).value && Inv(State())
      ensures [cur] + threadReadyList == old(threadReadyList) + [old(cur)]
    {
      YieldEffect(State());
      assert cur !in threadReadyList;
      threadReadyList := threadReadyList + [cur];
      SetTaskStatus(cur, Ready);
      RunNext();
    }

    method Start(t: Tid, priority: nat)
      requires Inv(State()) && t !in tasks
      modifies this
      ensures State() == ThreadStart(old(State()), t, priority).value && Inv(State())
      ensures cur == old(cur) && threadReadyList == old(threadReadyList) + [t]
    {
      tasks := tasks[t := Task(Ready, priority, priority)];
      assert t !in threadReadyList;
      threadReadyList := threadReadyList + [t];
      assert t !in threadAllList;
      threadAllList := threadAllList + [t];
    }

    method Timer()
      requires Inv(State())
      modifies this
      ensures State() == TimerInterrupt(old(State())).value && Inv(State())
      ensures old(cur) in old(tasks) && old(cur) in tasks
      ensures if old(tasks)[old(cur)].ticks > 0 then
                cur == old(cur) && threadReadyList == old(threadReadyList) && tasks[cur].ticks == old(tasks)[cur].ticks - 1
              else [cur] + threadReadyList == old(threadReadyList) + [old(cur)] && tasks[old(cur)].ticks == tasks[old(cur)].priority
    {
      TimerEffect(State());
      TimerKeepsInv(State());
      if tasks[cur].ticks == 0 {
        RunNext();
      } else {
        tasks := tasks[cur := tasks[cur].(ticks := tasks[cur].ticks - 1)];
      }
    }
  }
}
