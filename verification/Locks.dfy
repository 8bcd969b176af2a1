/**
  Semaphores and re-entrant locks (thread/sync.c) on top of the scheduler, under every
  interleaving of any number of threads and locks.

  A thread runs arbitrary code that may call lock_acquire on any lock, lock_release on a lock it
  holds, or a scheduler routine. Each call advances by atomic steps: a region with interrupts
  disabled is one step, and every other access to a shared field is a step of its own, so the
  timer may take the processor away between any two of them. `Pc` says which step is next.
 */
module Locks {
  import opened Outcomes
  import opened Scheduler

  type LockId = nat

  /** struct lock with its semaphore. */
  datatype Lock = Lock(value: nat, waiters: seq<Tid>, holder: Option<Tid>, repeat: nat, popped: Option<Tid>)

  datatype Pc =
    | Client             // outside sync.c
    | AcqTest(l: LockId)     // lock_acquire: read holder
    | Down(l: LockId)        // sema_down: at the head of its while loop
    | SetHolder(l: LockId)   // sema_down has returned
    | SetRepeat(l: LockId)
    | Reacquire(l: LockId)   // the holder acquires again
    | RelTest(l: LockId)     // lock_release: check the holder, read the count
    | RelDec(l: LockId)
    | ClearHolder(l: LockId)
    | ClearRepeat(l: LockId)
    | Up(l: LockId)          // about to call sema_up

  /** `held` counts, for each lock, the acquires that returned minus the releases that returned. */
  datatype Thread = Thread(pc: Pc, held: map<LockId, nat>)

  datatype Sys = Sys(sched: Sched, locks: map<LockId, Lock>, threads: map<Tid, Thread>)

  datatype Event =
    | Tick | Yield | Block(st: Status) | Wake(t: Tid) | Start(t: Tid, priority: nat)
    | Acquire(l: LockId) | Release(l: LockId)
    | Continue           // the next step of the call in progress

  function Held(th: Thread, l: LockId): nat {
    if l in th.held then th.held[l] else 0
  }

  /** Between the return of sema_down and the start of the matching sema_up. */
  predicate Inside(th: Thread, l: LockId) {
    Held(th, l) > 0 || th.pc == SetHolder(l) || th.pc == SetRepeat(l)
  }

  predicate Target(pc: Pc, locks: map<LockId, Lock>) {
    pc.Client? || pc.l in locks
  }

  predicate Shape(s: Sys) {
    && Known(s.sched)
    && s.threads.Keys == s.sched.tasks.Keys
    && (forall t :: t in s.threads ==> Target(s.threads[t].pc, s.locks))
    && (forall l :: l in s.locks ==> forall t :: t in s.locks[l].waiters ==> t in s.threads)
  }

  // ---------- The steps ----------

  /** The state after the running thread changed its own record and the fields of lock l. */
  function Update(s: Sys, l: LockId, th: Thread, k: Lock): Sys {
    s.(threads := s.threads[s.sched.cur := th], locks := s.locks[l := k])
  }

  /** A call on lock l returns to the client, which then holds l n times. */
  function Returned(th: Thread, l: LockId, n: nat): Thread {
    Thread(Client, th.held[l := n])
  }

  function WithSched(s: Sys, r: Outcome<Sched>): Outcome<Sys> {
    var sched :- r;
    Ok(s.(sched := sched))
  }

  /** One pass of the loop in sema_down: take the semaphore, or queue up and block. */
  function DownStep(s: Sys, l: LockId): Outcome<Sys>
    requires Shape(s) && l in s.locks
  {
    var k := s.locks[l];
    var c := s.sched.cur;
    if k.value == 0 then
      if c in k.waiters then Panic
      else WithSched(Update(s, l, s.threads[c], k.(waiters := k.waiters + [c])), ThreadBlock(s.sched, Blocked))
    else if k.value - 1 != 0 then Panic
    else Ok(Update(s, l, s.threads[c].(pc := SetHolder(l)), k.(value := 0)))
  }

  /** sema_up, the end of lock_release. */
  function UpStep(s: Sys, l: LockId): Outcome<Sys>
    requires Shape(s) && l in s.locks
  {
    var k := s.locks[l];
    var th := s.threads[s.sched.cur];
    if k.value != 0 || Held(th, l) == 0 then Panic
    else
      var th' := Returned(th, l, Held(th, l) - 1);
      if k.waiters == [] then Ok(Update(s, l, th', k.(value := 1)))
      else WithSched(Update(s, l, th', k.(value := 1, waiters := k.waiters[1..], popped := Some(k.waiters[0]))), ThreadUnblock(s.sched, k.waiters[0]))
  }

  /** The steps outside sema_down and sema_up: what thread c, at step th.pc on lock l with fields
      k, turns its own record and those fields into. */
  function PlainMove(c: Tid, th: Thread, k: Lock): Outcome<(Thread, Lock)>
    requires !th.pc.Client?
  {
    var l := th.pc.l;
    match th.pc
    case AcqTest(_) => Ok((th.(pc := if k.holder != Some(c) then Down(l) else Reacquire(l)), k))
    case SetHolder(_) => Ok((th.(pc := SetRepeat(l)), k.(holder := Some(c))))
    case SetRepeat(_) => if k.repeat != 0 then Panic else Ok((Returned(th, l, Held(th, l) + 1), k.(repeat := 1)))
    case Reacquire(_) => Ok((Returned(th, l, Held(th, l) + 1), k.(repeat := k.repeat + 1)))
    case RelTest(_) =>
      if k.holder != Some(c) then Panic
      else if k.repeat > 1 then Ok((th.(pc := RelDec(l)), k))
      else if k.repeat != 1 then Panic
      else Ok((th.(pc := ClearHolder(l)), k))
    case RelDec(_) =>
      if k.repeat == 0 || Held(th, l) == 0 then Panic
      else Ok((Returned(th, l, Held(th, l) - 1), k.(repeat := k.repeat - 1)))
    case ClearHolder(_) => Ok((th.(pc := ClearRepeat(l)), k.(holder := None)))
    case ClearRepeat(_) => Ok((th.(pc := Up(l)), k.(repeat := 0)))
    case Down(_) => Panic
    case Up(_) => Panic
  }

  function ContinueStep(s: Sys): Outcome<Sys>
    requires Shape(s) && !s.threads[s.sched.cur].pc.Client?
  {
    var th := s.threads[s.sched.cur];
    if th.pc.Down? then DownStep(s, th.pc.l)
    else if th.pc.Up? then UpStep(s, th.pc.l)
    else
      var (th', k') :- PlainMove(s.sched.cur, th, s.locks[th.pc.l]);
      Ok(Update(s, th.pc.l, th', k'))
  }

  function Step(s: Sys, e: Event): Outcome<Sys>
    requires Shape(s) && Enabled(s, e)
  {
    var c := s.sched.cur;
    match e
    case Tick => WithSched(s, TimerInterrupt(s.sched))
    case Yield => WithSched(s, ThreadYield(s.sched))
    case Block(st) => WithSched(s, ThreadBlock(s.sched, st))
    case Wake(t) => WithSched(s, ThreadUnblock(s.sched, t))
    case Start(t, priority) =>
      WithSched(s.(threads := s.threads[t := Thread(Client, map[])]), ThreadStart(s.sched, t, priority))
    case Acquire(l) => Ok(Update(s, l, s.threads[c].(pc := AcqTest(l)), s.locks[l]))
    case Release(l) => Ok(Update(s, l, s.threads[c].(pc := RelTest(l)), s.locks[l]))
    case Continue => ContinueStep(s)
  }

  /** What may happen next. The idle thread only blocks itself, and a client releases only locks it holds.
      A thread that blocked itself outside sync.c may be woken at any moment, by a client or by the handler
      of an interrupt that comes between two steps of anybody. */
  predicate Enabled(s: Sys, e: Event)
    requires Shape(s)
  {
    var c := s.sched.cur;
    var client := s.threads[c].pc.Client? && c != s.sched.idle;
    match e
    case Tick => true
    case Yield => client
    case Block(st) => if c == s.sched.idle then st == Blocked else client && Stopped(st)
    case Wake(t) =>
      t in s.threads && t != s.sched.idle && s.threads[t].pc.Client? && Stopped(s.sched.tasks[t].status)
    case Start(t, _) => client && t !in s.threads
    case Acquire(l) => client && l in s.locks
    case Release(l) => client && l in s.locks && Held(s.threads[c], l) > 0
    case Continue => !s.threads[c].pc.Client?
  }

  // ---------- The invariant ----------

  /** How the fields of lock l agree with a thread that is inside it. */
  predicate Owner(t: Tid, th: Thread, l: LockId, k: Lock) {
    && k.value == 0
    && if th.pc == SetHolder(l) then k.holder == None && k.repeat == 0 && Held(th, l) == 0
       else if th.pc == SetRepeat(l) then k.holder == Some(t) && k.repeat == 0 && Held(th, l) == 0
       else if th.pc == ClearRepeat(l) then k.holder == None && k.repeat == 1 && Held(th, l) == 1
       else if th.pc == Up(l) then k.holder == None && k.repeat == 0 && Held(th, l) == 1
       else
         && k.holder == Some(t) && k.repeat == Held(th, l)
         && (th.pc == RelDec(l) ==> k.repeat > 1)
         && (th.pc == ClearHolder(l) ==> k.repeat == 1)
  }

  /** The calls on l in progress agree with the number of times the thread holds l. */
  predicate PcAgrees(th: Thread) {
    match th.pc
    case Client => true
    case AcqTest(_) => true
    case Down(l) => Held(th, l) == 0
    case SetHolder(_) => true
    case SetRepeat(_) => true
    case Reacquire(l) => Held(th, l) > 0
    case RelTest(l) => Held(th, l) > 0
    case RelDec(l) => Held(th, l) > 0
    case ClearHolder(l) => Held(th, l) > 0
    case ClearRepeat(l) => Held(th, l) > 0
    case Up(l) => Held(th, l) > 0
  }

  /** Thread t is on its way to retry sema_down on l: awake, and on no waiters list. */
  predicate Retrying(s: Sys, t: Tid, l: LockId)
    requires Shape(s)
  {
    t in s.threads && s.threads[t].pc == Down(l) && !Stopped(s.sched.tasks[t].status)
  }

  /** The threads between sema_down and sema_up on lock l. */
  ghost function Insiders(s: Sys, l: LockId): set<Tid> {
    set t | t in s.threads && Inside(s.threads[t], l)
  }

  /** A free lock has nobody inside and clean fields; a taken one has exactly one thread inside,
      and its fields are the ones that thread expects. */
  ghost predicate Exclusive(s: Sys, l: LockId)
    requires l in s.locks
  {
    var k := s.locks[l];
    && k.value <= 1
    && (k.value == 1 ==> Insiders(s, l) == {} && k.holder == None && k.repeat == 0)
    && (k.value == 0 ==> exists o :: o in s.threads && Insiders(s, l) == {o} && Owner(o, s.threads[o], l, k))
  }

  /** The waiters are exactly the threads that sema_down on l has put to sleep, each once. */
  ghost predicate Queued(s: Sys, l: LockId)
    requires Shape(s) && l in s.locks
  {
    var k := s.locks[l];
    && NoDup(k.waiters)
    && forall t :: t in s.threads ==>
         (t in k.waiters <==> s.threads[t].pc == Down(l) && Stopped(s.sched.tasks[t].status))
  }

  /** A free lock never sleeps: if somebody waits for it, the thread that was last taken off its waiters is
      awake and will try it. */
  ghost predicate NoLostWakeup(s: Sys, l: LockId)
    requires Shape(s) && l in s.locks
  {
    s.locks[l].value == 1 && s.locks[l].waiters != [] ==> s.locks[l].popped.Some? && Retrying(s, s.locks[l].popped.value, l)
  }

  ghost predicate LockInv(s: Sys, l: LockId)
    requires Shape(s) && l in s.locks
  {
    Exclusive(s, l) && Queued(s, l) && NoLostWakeup(s, l)
  }

  ghost predicate ThreadInv(s: Sys, t: Tid)
    requires Shape(s) && t in s.threads
  {
    var th := s.threads[t];
    && PcAgrees(th)
    && (t == s.sched.idle ==> th.pc == Client && forall l :: Held(th, l) == 0)
    && (th.pc.Client? || th.pc.Down? || !Stopped(s.sched.tasks[t].status))
    && (th.pc.Down? && Stopped(s.sched.tasks[t].status) ==> s.sched.tasks[t].status == Blocked)
    && (forall l :: l !in s.locks ==> Held(th, l) == 0)
  }

  ghost predicate SysInv(s: Sys) {
    && Shape(s)
    && Scheduler.Inv(s.sched)
    && (forall t :: t in s.threads ==> ThreadInv(s, t))
    && (forall l :: l in s.locks ==> LockInv(s, l))
  }

  // ---------- What the parts of the invariant depend on ----------

  lemma ExclusiveSame(s: Sys, r: Sys, l: LockId)
    requires l in s.locks && l in r.locks && Exclusive(s, l)
    requires s.locks[l].(waiters := []) == r.locks[l].(waiters := [])
    requires s.threads.Keys <= r.threads.Keys
    requires forall t :: t in r.threads ==> (t in Insiders(s, l) <==> Inside(r.threads[t], l))
    requires forall t :: t in Insiders(s, l) ==>
               (Owner(t, s.threads[t], l, s.locks[l]) ==> Owner(t, r.threads[t], l, r.locks[l]))
    ensures Exclusive(r, l)
  {
    assert Insiders(r, l) == Insiders(s, l);
    if s.locks[l].value == 0 {
      var o :| o in s.threads && Insiders(s, l) == {o} && Owner(o, s.threads[o], l, s.locks[l]);
      assert o in Insiders(s, l);
      assert o in r.threads && Insiders(r, l) == {o} && Owner(o, r.threads[o], l, r.locks[l]);
    }
  }

  lemma WakeupSame(s: Sys, r: Sys, l: LockId)
    requires Shape(s) && Shape(r) && l in s.locks && l in r.locks && NoLostWakeup(s, l)
    requires r.locks[l].value == s.locks[l].value && r.locks[l].waiters == s.locks[l].waiters && r.locks[l].popped == s.locks[l].popped
    requires forall t :: Retrying(s, t, l) ==> Retrying(r, t, l)
    ensures NoLostWakeup(r, l)
  {}

  // ---------- Steps that leave every lock alone ----------

  /** r differs from s only in the scheduler and in threads that were not there before; no thread
      inside sync.c goes to sleep or wakes up. */
  ghost predicate SchedulerOnly(s: Sys, r: Sys) {
    && Shape(s) && Shape(r)
    && r.locks == s.locks && r.sched.idle == s.sched.idle
    && s.threads.Keys <= r.threads.Keys
    && Scheduler.Inv(r.sched)
    && (forall t :: t in r.threads ==> r.threads[t] == if t in s.threads then s.threads[t] else Thread(Client, map[]))
    && (forall t :: t in s.threads && !s.threads[t].pc.Client? ==>
          (Stopped(r.sched.tasks[t].status) <==> Stopped(s.sched.tasks[t].status))
          && (Stopped(s.sched.tasks[t].status) ==> r.sched.tasks[t].status == s.sched.tasks[t].status))
  }

  lemma SchedulerOnlyKeepsLock(s: Sys, r: Sys, l: LockId)
    requires SchedulerOnly(s, r) && l in s.locks && LockInv(s, l)
    ensures LockInv(r, l)
  {
    ExclusiveSame(s, r, l);
    WakeupSame(s, r, l);
  }

  lemma SchedulerOnlyKeepsInv(s: Sys, r: Sys)
    requires SysInv(s) && SchedulerOnly(s, r)
    ensures SysInv(r)
  {
    forall l | l in s.locks
      ensures LockInv(r, l)
    {
      SchedulerOnlyKeepsLock(s, r, l);
    }
    forall t | t in r.threads
      ensures ThreadInv(r, t)
    {
      assert t in s.threads ==> ThreadInv(s, t);
    }
  }

  // ---------- Steps of the running thread on one lock ----------

  /** th is the running thread's record after a step on lock l, and differs only in what concerns l. */
  ghost predicate StepOn(s: Sys, l: LockId, th: Thread)
    requires Shape(s)
  {
    var c := s.sched.cur;
    && c != s.sched.idle && l in s.locks
    && (forall m :: m != l ==> Held(th, m) == Held(s.threads[c], m))
    && (s.threads[c].pc.Client? || s.threads[c].pc.l == l)
    && (th.pc.Client? || th.pc.l == l)
    && PcAgrees(th)
  }

  /** The invariant of another lock m sees of each thread only whether it is inside m, what it
      expects of m's fields, and whether it is at sema_down on m. */
  lemma OtherLockView(s: Sys, l: LockId, th: Thread, k: Lock, m: LockId)
    requires Shape(s) && StepOn(s, l, th) && (forall t :: t in k.waiters ==> t in s.threads)
    requires m in s.locks && m != l
    ensures Shape(Update(s, l, th, k))
    ensures var c := s.sched.cur;
            && (Inside(th, m) <==> Inside(s.threads[c], m))
            && (Owner(c, th, m, s.locks[m]) <==> Owner(c, s.threads[c], m, s.locks[m]))
            && (th.pc == Down(m) <==> s.threads[c].pc == Down(m))
  {}

  lemma OtherLock(s: Sys, l: LockId, th: Thread, k: Lock, m: LockId)
    requires Shape(s) && StepOn(s, l, th) && (forall t :: t in k.waiters ==> t in s.threads)
    requires m in s.locks && m != l && LockInv(s, m)
    ensures Shape(Update(s, l, th, k)) && LockInv(Update(s, l, th, k), m)
  {
    var r := Update(s, l, th, k);
    OtherLockView(s, l, th, k, m);
    ExclusiveSame(s, r, m);
    WakeupSame(s, r, m);
  }

  lemma OtherThread(s: Sys, l: LockId, th: Thread, k: Lock, t: Tid)
    requires Shape(s) && Scheduler.Inv(s.sched) && StepOn(s, l, th) && (forall t :: t in k.waiters ==> t in s.threads)
    requires t in s.threads && ThreadInv(s, t)
    ensures Shape(Update(s, l, th, k)) && ThreadInv(Update(s, l, th, k), t)
  {}

  lemma UpdateKeepsInv(s: Sys, l: LockId, th: Thread, k: Lock)
    requires SysInv(s) && StepOn(s, l, th) && (forall t :: t in k.waiters ==> t in s.threads)
    requires Shape(Update(s, l, th, k)) && LockInv(Update(s, l, th, k), l)
    ensures SysInv(Update(s, l, th, k))
  {
    var r := Update(s, l, th, k);
    forall m | m in s.locks
      ensures LockInv(r, m)
    {
      if m != l {
        OtherLock(s, l, th, k, m);
      }
    }
    forall t | t in r.threads
      ensures ThreadInv(r, t)
    {
      OtherThread(s, l, th, k, t);
    }
  }

  /** A step that neither enters nor leaves lock l. */
  lemma SameSide(s: Sys, l: LockId, th: Thread, k: Lock)
    requires Shape(s) && StepOn(s, l, th) && LockInv(s, l)
    requires !Stopped(s.sched.tasks[s.sched.cur].status)
    requires k.value == s.locks[l].value && k.waiters == s.locks[l].waiters && k.popped == s.locks[l].popped
    requires s.threads[s.sched.cur].pc != Down(l)
    requires Inside(th, l) <==> Inside(s.threads[s.sched.cur], l)
    requires if Inside(th, l) then Owner(s.sched.cur, th, l, k) else k == s.locks[l]
    ensures Shape(Update(s, l, th, k)) && LockInv(Update(s, l, th, k), l)
  {
    var r := Update(s, l, th, k);
    var c := s.sched.cur;
    assert Insiders(r, l) == Insiders(s, l);
    if Inside(th, l) {
      assert c in Insiders(s, l);
      assert Insiders(r, l) == {c} && Owner(c, r.threads[c], l, k);
    } else {
      ExclusiveSame(s, r, l);
    }
    WakeupSame(s, r, l);
  }

  /** sema_down takes a free semaphore: the running thread becomes the only one inside. */
  lemma TakeLock(s: Sys, l: LockId)
    requires Shape(s) && l in s.locks && LockInv(s, l) && s.locks[l].value == 1
    requires var th := s.threads[s.sched.cur]; th.pc == Down(l) && PcAgrees(th) && !Stopped(s.sched.tasks[s.sched.cur].status)
    ensures var r := Update(s, l, s.threads[s.sched.cur].(pc := SetHolder(l)), s.locks[l].(value := 0));
            Shape(r) && LockInv(r, l)
  {
    var r := Update(s, l, s.threads[s.sched.cur].(pc := SetHolder(l)), s.locks[l].(value := 0));
    var c := s.sched.cur;
    assert Insiders(r, l) == Insiders(s, l) + {c};
    assert Insiders(r, l) == {c} && Owner(c, r.threads[c], l, r.locks[l]);
  }

  /** sema_up with nobody waiting. */
  lemma FreeLock(s: Sys, l: LockId)
    requires Shape(s) && l in s.locks && LockInv(s, l) && s.locks[l].waiters == []
    requires var th := s.threads[s.sched.cur]; th.pc == Up(l) && Held(th, l) > 0
    ensures s.locks[l].value == 0 && Held(s.threads[s.sched.cur], l) == 1
    ensures var r := Update(s, l, Returned(s.threads[s.sched.cur], l, 0), s.locks[l].(value := 1));
            Shape(r) && LockInv(r, l)
  {
    var c := s.sched.cur;
    assert c in Insiders(s, l);
    var r := Update(s, l, Returned(s.threads[c], l, 0), s.locks[l].(value := 1));
    NobodyInside(s, r, l, c);
  }

  /** The state after sema_up on l woke its first waiter; `sched` is the one after thread_unblock. */
  function WakeState(s: Sys, l: LockId, sched: Sched): Sys
    requires Shape(s) && l in s.locks && s.locks[l].waiters != []
  {
    var k := s.locks[l];
    Update(s, l, Returned(s.threads[s.sched.cur], l, 0), k.(value := 1, waiters := k.waiters[1..], popped := Some(k.waiters[0]))).(sched := sched)
  }

  /** sema_up hands the wakeup, not the lock, to the first waiter: it will retry, and the lock is
      free meanwhile. */
  lemma FreeLockAndWake(s: Sys, l: LockId, sched: Sched)
    requires Shape(s) && l in s.locks && LockInv(s, l) && s.locks[l].waiters != []
    requires var th := s.threads[s.sched.cur]; th.pc == Up(l) && Held(th, l) > 0
    requires Known(sched) && sched.tasks.Keys == s.sched.tasks.Keys && !Stopped(sched.tasks[s.locks[l].waiters[0]].status)
    requires forall t :: t in s.threads && t != s.locks[l].waiters[0] ==> sched.tasks[t] == s.sched.tasks[t]
    ensures s.locks[l].value == 0 && Held(s.threads[s.sched.cur], l) == 1
    ensures Shape(WakeState(s, l, sched)) && LockInv(WakeState(s, l, sched), l)
  {
    hide ListAgrees;
    var c := s.sched.cur;
    var k := s.locks[l];
    var r := WakeState(s, l, sched);
    assert k.waiters[0] in k.waiters;
    assert c in Insiders(s, l);
    NobodyInside(s, r, l, c);
    assert Exclusive(r, l);
    NoDupParts(k.waiters);
    assert Retrying(r, k.waiters[0], l);
  }

  lemma NobodyInside(s: Sys, r: Sys, l: LockId, c: Tid)
    requires l in s.locks && Exclusive(s, l) && c in Insiders(s, l)
    requires forall t :: t in r.threads && t != c ==> t in s.threads && r.threads[t] == s.threads[t]
    requires c in r.threads && !Inside(r.threads[c], l)
    ensures Insiders(r, l) == {}
  {
    assert Insiders(s, l) == {c};
    assert forall t :: t in Insiders(r, l) ==> t in Insiders(s, l) && t != c;
  }

  /** The state after sema_down on l put the running thread to sleep; `sched` is the one after
      thread_block. */
  function SleepState(s: Sys, l: LockId, sched: Sched): Sys
    requires Shape(s) && l in s.locks
  {
    var k := s.locks[l];
    Update(s, l, s.threads[s.sched.cur], k.(waiters := k.waiters + [s.sched.cur])).(sched := sched)
  }

  /** sema_down on a taken semaphore: the thread joins the waiters and blocks. */
  lemma Sleep(s: Sys, l: LockId, sched: Sched)
    requires Shape(s) && l in s.locks && LockInv(s, l) && s.locks[l].value == 0
    requires s.threads[s.sched.cur].pc == Down(l) && !Stopped(s.sched.tasks[s.sched.cur].status)
    requires Known(sched) && sched.tasks.Keys == s.sched.tasks.Keys && Stopped(sched.tasks[s.sched.cur].status)
    requires forall t :: t in s.threads && t != s.sched.cur && s.threads[t].pc == Down(l) ==>
               (Stopped(sched.tasks[t].status) <==> Stopped(s.sched.tasks[t].status))
    ensures s.sched.cur !in s.locks[l].waiters
    ensures Shape(SleepState(s, l, sched)) && LockInv(SleepState(s, l, sched), l)
  {
    SleepQueued(s, l, sched);
    SleepExclusive(s, l, sched);
  }

  lemma SleepExclusive(s: Sys, l: LockId, sched: Sched)
    requires Shape(s) && l in s.locks && Exclusive(s, l)
    ensures Exclusive(SleepState(s, l, sched), l)
  {
    ExclusiveSame(s, SleepState(s, l, sched), l);
  }

  lemma SleepQueued(s: Sys, l: LockId, sched: Sched)
    requires Shape(s) && l in s.locks && Queued(s, l) && s.threads[s.sched.cur].pc == Down(l)
    requires !Stopped(s.sched.tasks[s.sched.cur].status)
    requires Known(sched) && sched.tasks.Keys == s.sched.tasks.Keys && Stopped(sched.tasks[s.sched.cur].status)
    requires forall t :: t in s.threads && t != s.sched.cur && s.threads[t].pc == Down(l) ==>
               (Stopped(sched.tasks[t].status) <==> Stopped(s.sched.tasks[t].status))
    ensures s.sched.cur !in s.locks[l].waiters
    ensures Shape(SleepState(s, l, sched)) && Queued(SleepState(s, l, sched), l)
  {}

  // ---------- Every step keeps the invariant ----------

  lemma SameSideKeepsInv(s: Sys, l: LockId, th: Thread, k: Lock)
    requires SysInv(s) && StepOn(s, l, th)
    requires k.value == s.locks[l].value && k.waiters == s.locks[l].waiters && k.popped == s.locks[l].popped
    requires s.threads[s.sched.cur].pc != Down(l)
    requires Inside(th, l) <==> Inside(s.threads[s.sched.cur], l)
    requires if Inside(th, l) then Owner(s.sched.cur, th, l, k) else k == s.locks[l]
    ensures SysInv(Update(s, l, th, k))
  {
    SameSide(s, l, th, k);
    UpdateKeepsInv(s, l, th, k);
  }

  /** A thread at its own step on lock l: awake, not idle, and inside exactly when its step says. */
  lemma AtOwnStep(s: Sys, l: LockId)
    requires SysInv(s) && l in s.locks
    ensures var c := s.sched.cur;
            && PcAgrees(s.threads[c]) && !Stopped(s.sched.tasks[c].status)
            && (c == s.sched.idle ==> s.threads[c].pc == Client)
            && (Inside(s.threads[c], l) ==> Owner(c, s.threads[c], l, s.locks[l]))
            && (s.locks[l].holder == Some(c) ==> Inside(s.threads[c], l))
  {
    hide ListAgrees, Held;
    var c := s.sched.cur;
    assert ThreadInv(s, c) && LockInv(s, l);
    assert Inside(s.threads[c], l) <==> c in Insiders(s, l);
    if s.locks[l].holder == Some(c) {
      var o :| o in s.threads && Insiders(s, l) == {o} && Owner(o, s.threads[o], l, s.locks[l]);
      assert o == c;
    }
  }

  lemma PlainMoveAgrees(c: Tid, th: Thread, k: Lock)
    requires !th.pc.Client? && !th.pc.Down? && !th.pc.Up?
    requires PcAgrees(th)
    requires Inside(th, th.pc.l) ==> Owner(c, th, th.pc.l, k)
    requires k.holder == Some(c) ==> Inside(th, th.pc.l)
    ensures PlainMove(c, th, k).Ok?
    ensures var l := th.pc.l;
            var (th', k') := PlainMove(c, th, k).value;
            && k'.value == k.value && k'.waiters == k.waiters && k'.popped == k.popped
            && (forall m :: m != l ==> Held(th', m) == Held(th, m))
            && (th'.pc.Client? || th'.pc.l == l) && PcAgrees(th')
            && (Inside(th', l) <==> Inside(th, l))
            && if Inside(th', l) then Owner(c, th', l, k') else k' == k
  {}

  lemma PlainStepKeepsInv(s: Sys)
    requires SysInv(s)
    requires var pc := s.threads[s.sched.cur].pc; !pc.Client? && !pc.Down? && !pc.Up?
    ensures ContinueStep(s).Ok? && SysInv(ContinueStep(s).value)
  {
    hide LockInv, ThreadInv, Scheduler.Inv, PlainMove, Owner, Inside, PcAgrees;
    var th := s.threads[s.sched.cur];
    var l := th.pc.l;
    AtOwnStep(s, l);
    PlainMoveAgrees(s.sched.cur, th, s.locks[l]);
    var (th', k') := PlainMove(s.sched.cur, th, s.locks[l]).value;
    SameSideKeepsInv(s, l, th', k');
  }

  // Steps on lock l that also put thread w to sleep, or wake it, in sema_down on l.

  /** LockInv sees of the scheduler only which threads at sema_down are stopped. */
  lemma AwakeSame(u: Sys, r: Sys, m: LockId)
    requires Shape(u) && Shape(r) && r.locks == u.locks && r.threads == u.threads
    requires m in u.locks && LockInv(u, m)
    requires forall t :: t in u.threads && u.threads[t].pc == Down(m) ==>
               (Stopped(r.sched.tasks[t].status) <==> Stopped(u.sched.tasks[t].status))
    ensures LockInv(r, m)
  {
    ExclusiveSame(u, r, m);
    WakeupSame(u, r, m);
  }

  lemma MovedOtherLock(s: Sys, l: LockId, th: Thread, k: Lock, sched: Sched, w: Tid, m: LockId)
    requires Shape(s) && StepOn(s, l, th) && (forall t :: t in k.waiters ==> t in s.threads)
    requires OnlyMoved(s.sched, sched, w) && s.threads[w].pc == Down(l) && s.threads[s.sched.idle].pc == Client
    requires m in s.locks && m != l && LockInv(s, m)
    ensures Shape(Update(s, l, th, k).(sched := sched)) && LockInv(Update(s, l, th, k).(sched := sched), m)
  {
    hide Exclusive, Queued, NoLostWakeup, Owner, Inside, LockInv;
    var u := Update(s, l, th, k);
    var r := u.(sched := sched);
    OtherLock(s, l, th, k, m);
    AwakeSame(u, r, m);
  }

  lemma MovedThread(s: Sys, l: LockId, th: Thread, k: Lock, sched: Sched, w: Tid, t: Tid)
    requires Shape(s) && StepOn(s, l, th) && (forall t :: t in k.waiters ==> t in s.threads)
    requires OnlyMoved(s.sched, sched, w) && s.threads[w].pc == Down(l)
    requires Stopped(sched.tasks[w].status) ==> sched.tasks[w].status == Blocked
    requires th.pc.Client? || (th == s.threads[s.sched.cur] && th.pc.Down?)
    requires t in s.threads && ThreadInv(s, t)
    ensures Shape(Update(s, l, th, k).(sched := sched)) && ThreadInv(Update(s, l, th, k).(sched := sched), t)
  {
    MovedShape(s, l, th, k, sched, w);
    hide Shape;
  }

  lemma MovedShape(s: Sys, l: LockId, th: Thread, k: Lock, sched: Sched, w: Tid)
    requires Shape(s) && StepOn(s, l, th) && (forall t :: t in k.waiters ==> t in s.threads) && OnlyMoved(s.sched, sched, w)
    ensures Shape(Update(s, l, th, k).(sched := sched))
  {}

  lemma MovedKeepsInv(s: Sys, l: LockId, th: Thread, k: Lock, sched: Sched, w: Tid)
    requires SysInv(s) && StepOn(s, l, th) && (forall t :: t in k.waiters ==> t in s.threads)
    requires OnlyMoved(s.sched, sched, w) && s.threads[w].pc == Down(l)
    requires Stopped(sched.tasks[w].status) ==> sched.tasks[w].status == Blocked
    requires th.pc.Client? || (th == s.threads[s.sched.cur] && th.pc.Down?)
    requires Shape(Update(s, l, th, k).(sched := sched)) && LockInv(Update(s, l, th, k).(sched := sched), l)
    ensures SysInv(Update(s, l, th, k).(sched := sched))
  {
    var r := Update(s, l, th, k).(sched := sched);
    assert ThreadInv(s, s.sched.idle);
    forall m | m in s.locks
      ensures LockInv(r, m)
    {
      if m != l {
        MovedOtherLock(s, l, th, k, sched, w, m);
      }
    }
    forall t | t in r.threads
      ensures ThreadInv(r, t)
    {
      MovedThread(s, l, th, k, sched, w, t);
    }
  }

  lemma SleepKeepsInv(s: Sys, l: LockId, sched: Sched)
    requires SysInv(s) && s.threads[s.sched.cur].pc == Down(l) && s.locks[l].value == 0
    requires OnlyMoved(s.sched, sched, s.sched.cur) && sched.tasks[s.sched.cur].status == Blocked
    ensures s.sched.cur !in s.locks[l].waiters
    ensures SysInv(SleepState(s, l, sched))
  {
    AtOwnStep(s, l);
    assert LockInv(s, l) && ThreadInv(s, s.sched.idle);
    Sleep(s, l, sched);
    MovedKeepsInv(s, l, s.threads[s.sched.cur], s.locks[l].(waiters := s.locks[l].waiters + [s.sched.cur]), sched, s.sched.cur);
  }

  lemma WakeKeepsInv(s: Sys, l: LockId, sched: Sched)
    requires SysInv(s) && s.threads[s.sched.cur].pc == Up(l) && s.locks[l].waiters != []
    requires var w := s.locks[l].waiters[0];
             && OnlyMoved(s.sched, sched, w) && sched.tasks[w].status == Ready
             && forall t :: t in s.sched.tasks && t != w ==> sched.tasks[t] == s.sched.tasks[t]
    ensures s.locks[l].value == 0 && Held(s.threads[s.sched.cur], l) == 1
    ensures SysInv(WakeState(s, l, sched))
  {
    var k := s.locks[l];
    var w := k.waiters[0];
    AtUp(s, l);
    FreeLockAndWake(s, l, sched);
    assert w in k.waiters && s.threads[w].pc == Down(l);
    MovedKeepsInv(s, l, Returned(s.threads[s.sched.cur], l, 0), k.(value := 1, waiters := k.waiters[1..], popped := Some(k.waiters[0])), sched, w);
  }

  lemma AtUp(s: Sys, l: LockId)
    requires SysInv(s) && s.threads[s.sched.cur].pc == Up(l)
    ensures LockInv(s, l) && Held(s.threads[s.sched.cur], l) > 0
    ensures StepOn(s, l, Returned(s.threads[s.sched.cur], l, 0))
    ensures forall t :: t in s.locks[l].waiters ==> t in s.threads && s.threads[t].pc == Down(l)
  {
    AtOwnStep(s, l);
    assert LockInv(s, l);
  }

  lemma DownKeepsInv(s: Sys) returns (r: Sys)
    requires SysInv(s) && s.threads[s.sched.cur].pc.Down?
    ensures ContinueStep(s) == Ok(r) && SysInv(r)
  {
    var c := s.sched.cur;
    var l := s.threads[c].pc.l;
    var k := s.locks[l];
    AtOwnStep(s, l);
    assert Exclusive(s, l) by { assert LockInv(s, l); }
    if k.value == 0 {
      BlockKeepsInv(s.sched, Blocked);
      var sched := ThreadBlock(s.sched, Blocked).value;
      SleepKeepsInv(s, l, sched);
      r := SleepState(s, l, sched);
      DownStepSleeps(s, l, sched);
    } else {
      TakeKeepsInv(s, l);
      r := Update(s, l, s.threads[c].(pc := SetHolder(l)), k.(value := 0));
    }
  }

  lemma DownStepSleeps(s: Sys, l: LockId, sched: Sched)
    requires Shape(s) && s.threads[s.sched.cur].pc == Down(l)
    requires s.locks[l].value == 0 && s.sched.cur !in s.locks[l].waiters && ThreadBlock(s.sched, Blocked) == Ok(sched)
    ensures ContinueStep(s) == Ok(SleepState(s, l, sched))
  {}

  lemma TakeKeepsInv(s: Sys, l: LockId)
    requires SysInv(s) && s.threads[s.sched.cur].pc == Down(l) && s.locks[l].value != 0
    ensures s.locks[l].value == 1
    ensures SysInv(Update(s, l, s.threads[s.sched.cur].(pc := SetHolder(l)), s.locks[l].(value := 0)))
  {
    hide Owner, Inside;
    AtOwnStep(s, l);
    assert LockInv(s, l);
    TakeLock(s, l);
    UpdateKeepsInv(s, l, s.threads[s.sched.cur].(pc := SetHolder(l)), s.locks[l].(value := 0));
  }

  lemma WaiterIsBlocked(s: Sys, l: LockId, w: Tid)
    requires SysInv(s) && l in s.locks && w in s.locks[l].waiters
    ensures w in s.threads && s.sched.tasks[w].status == Blocked && w != s.sched.idle
  {
    assert LockInv(s, l) && ThreadInv(s, w);
  }

  lemma FreeKeepsInv(s: Sys, l: LockId)
    requires SysInv(s) && s.threads[s.sched.cur].pc == Up(l) && s.locks[l].waiters == []
    ensures s.locks[l].value == 0 && Held(s.threads[s.sched.cur], l) == 1
    ensures SysInv(Update(s, l, Returned(s.threads[s.sched.cur], l, 0), s.locks[l].(value := 1)))
  {
    hide Exclusive, Queued, NoLostWakeup, ListAgrees, ThreadInv, Scheduler.Inv, Insiders;
    AtOwnStep(s, l);
    assert LockInv(s, l);
    FreeLock(s, l);
    UpdateKeepsInv(s, l, Returned(s.threads[s.sched.cur], l, 0), s.locks[l].(value := 1));
  }

  lemma UpStepWakes(s: Sys, l: LockId, sched: Sched)
    requires Shape(s) && s.threads[s.sched.cur].pc == Up(l)
    requires s.locks[l].value == 0 && Held(s.threads[s.sched.cur], l) == 1 && s.locks[l].waiters != []
    requires s.locks[l].waiters[0] in s.sched.tasks && ThreadUnblock(s.sched, s.locks[l].waiters[0]) == Ok(sched)
    ensures ContinueStep(s) == Ok(WakeState(s, l, sched))
  {}

  lemma UpStepFrees(s: Sys, l: LockId)
    requires Shape(s) && s.threads[s.sched.cur].pc == Up(l)
    requires s.locks[l].value == 0 && Held(s.threads[s.sched.cur], l) == 1 && s.locks[l].waiters == []
    ensures ContinueStep(s) == Ok(Update(s, l, Returned(s.threads[s.sched.cur], l, 0), s.locks[l].(value := 1)))
  {}

  lemma UnblockFirst(s: Sys, l: LockId) returns (sched: Sched)
    requires SysInv(s) && l in s.locks && s.locks[l].waiters != []
    ensures var w := s.locks[l].waiters[0];
            && w in s.sched.tasks && ThreadUnblock(s.sched, w) == Ok(sched)
            && OnlyMoved(s.sched, sched, w) && sched.tasks[w].status == Ready
            && forall t :: t in s.sched.tasks && t != w ==> sched.tasks[t] == s.sched.tasks[t]
  {
    var w := s.locks[l].waiters[0];
    assert w in s.locks[l].waiters;
    WaiterIsBlocked(s, l, w);
    UnblockKeepsInv(s.sched, w);
    sched := ThreadUnblock(s.sched, w).value;
  }

  lemma UpKeepsInv(s: Sys) returns (r: Sys)
    requires SysInv(s) && s.threads[s.sched.cur].pc.Up?
    ensures ContinueStep(s) == Ok(r) && SysInv(r)
  {
    var th := s.threads[s.sched.cur];
    var l := th.pc.l;
    var k := s.locks[l];
    if k.waiters == [] {
      FreeKeepsInv(s, l);
      UpStepFrees(s, l);
      r := Update(s, l, Returned(th, l, 0), k.(value := 1));
    } else {
      var sched := UnblockFirst(s, l);
      WakeKeepsInv(s, l, sched);
      UpStepWakes(s, l, sched);
      r := WakeState(s, l, sched);
    }
  }

  /** The scheduler steps of a client stop and wake nobody who is inside sync.c. */
  lemma SameStoppedKeepsInv(s: Sys, sched: Sched)
    requires SysInv(s) && Scheduler.Inv(sched) && SameStopped(s.sched, sched)
    ensures SysInv(s.(sched := sched))
  {
    assert ThreadInv(s, s.sched.idle);
    SchedulerOnlyKeepsInv(s, s.(sched := sched));
  }

  lemma ClientMovedKeepsInv(s: Sys, sched: Sched, w: Tid)
    requires SysInv(s) && OnlyMoved(s.sched, sched, w) && s.threads[w].pc == Client
    ensures SysInv(s.(sched := sched))
  {
    assert ThreadInv(s, s.sched.idle);
    SchedulerOnlyKeepsInv(s, s.(sched := sched));
  }

  lemma TickKeepsInv(s: Sys) returns (r: Sys)
    requires SysInv(s)
    ensures Step(s, Tick) == Ok(r) && SysInv(r)
  {
    TimerKeepsInv(s.sched);
    r := s.(sched := TimerInterrupt(s.sched).value);
    SameStoppedKeepsInv(s, r.sched);
  }

  lemma YieldEventKeepsInv(s: Sys) returns (r: Sys)
    requires SysInv(s) && Enabled(s, Yield)
    ensures Step(s, Yield) == Ok(r) && SysInv(r)
  {
    YieldKeepsInv(s.sched);
    r := s.(sched := ThreadYield(s.sched).value);
    SameStoppedKeepsInv(s, r.sched);
  }

  lemma BlockEventKeepsInv(s: Sys, st: Status) returns (r: Sys)
    requires SysInv(s) && Enabled(s, Block(st))
    ensures Step(s, Block(st)) == Ok(r) && SysInv(r)
  {
    BlockKeepsInv(s.sched, st);
    r := s.(sched := ThreadBlock(s.sched, st).value);
    if s.sched.cur == s.sched.idle {
      SameStoppedKeepsInv(s, r.sched);
    } else {
      ClientMovedKeepsInv(s, r.sched, s.sched.cur);
    }
  }

  lemma WakeEventKeepsInv(s: Sys, t: Tid) returns (r: Sys)
    requires SysInv(s) && Enabled(s, Wake(t))
    ensures Step(s, Wake(t)) == Ok(r) && SysInv(r)
  {
    UnblockKeepsInv(s.sched, t);
    r := s.(sched := ThreadUnblock(s.sched, t).value);
    ClientMovedKeepsInv(s, r.sched, t);
  }

  lemma StartEventKeepsInv(s: Sys, t: Tid, priority: nat) returns (r: Sys)
    requires SysInv(s) && Enabled(s, Start(t, priority))
    ensures Step(s, Start(t, priority)) == Ok(r) && SysInv(r)
  {
    StartKeepsInv(s.sched, t, priority);
    r := s.(threads := s.threads[t := Thread(Client, map[])], sched := ThreadStart(s.sched, t, priority).value);
    SchedulerOnlyKeepsInv(s, r);
  }

  lemma CallKeepsInv(s: Sys, l: LockId, pc: Pc)
    requires SysInv(s) && s.threads[s.sched.cur].pc.Client? && s.sched.cur != s.sched.idle && l in s.locks
    requires pc == AcqTest(l) || (pc == RelTest(l) && Held(s.threads[s.sched.cur], l) > 0)
    ensures SysInv(Update(s, l, s.threads[s.sched.cur].(pc := pc), s.locks[l]))
  {
    AtOwnStep(s, l);
    SameSideKeepsInv(s, l, s.threads[s.sched.cur].(pc := pc), s.locks[l]);
  }

  /** Every step of every thread, from any state satisfying the invariant: no ASSERT in sync.c or
      thread.c fails, and the invariant is restored. */
  lemma StepKeepsInv(s: Sys, e: Event) returns (r: Sys)
    requires SysInv(s) && Enabled(s, e)
    ensures Step(s, e) == Ok(r) && SysInv(r)
  {
    var th := s.threads[s.sched.cur];
    match e
    case Acquire(l) =>
      CallKeepsInv(s, l, AcqTest(l));
      r := Update(s, l, th.(pc := AcqTest(l)), s.locks[l]);
    case Release(l) =>
      CallKeepsInv(s, l, RelTest(l));
      r := Update(s, l, th.(pc := RelTest(l)), s.locks[l]);
    case Start(t, priority) => r := StartEventKeepsInv(s, t, priority);
    case Continue =>
      if th.pc.Down? {
        r := DownKeepsInv(s);
      } else if th.pc.Up? {
        r := UpKeepsInv(s);
      } else {
        PlainStepKeepsInv(s);
        r := ContinueStep(s).value;
      }
    case Tick => r := TickKeepsInv(s);
    case Yield => r := YieldEventKeepsInv(s);
    case Block(st) => r := BlockEventKeepsInv(s, st);
    case Wake(t) => r := WakeEventKeepsInv(s, t);
  }

  // ---------- What each step does ----------

  /** The steps of lock_acquire: straight to sema_down unless the thread is the holder, which only counts one
      more; sema_down takes a free lock, or queues the thread up behind the others and blocks it. The call
      returns with one acquire more to its name. */
  lemma AcquireEffect(s: Sys, r: Sys)
    requires Shape(s) && !s.threads[s.sched.cur].pc.Client? && Step(s, Continue) == Ok(r)
    ensures var c, th := s.sched.cur, s.threads[s.sched.cur];
            var l := th.pc.l;
            var k := s.locks[l];
            match th.pc
            case AcqTest(_) => r == s.(threads := s.threads[c := th.(pc := if k.holder == Some(c) then Reacquire(l) else Down(l))])
            case Down(_) =>
              if k.value == 0 then
                && r.locks == s.locks[l := k.(waiters := k.waiters + [c])] && r.threads == s.threads
                && ThreadBlock(s.sched, Blocked) == Ok(r.sched)
              else r == s.(locks := s.locks[l := k.(value := 0)], threads := s.threads[c := th.(pc := SetHolder(l))])
            case SetHolder(_) => r == s.(locks := s.locks[l := k.(holder := Some(c))], threads := s.threads[c := th.(pc := SetRepeat(l))])
            case SetRepeat(_) =>
              r == s.(locks := s.locks[l := k.(repeat := 1)], threads := s.threads[c := Thread(Client, th.held[l := Held(th, l) + 1])])
            case Reacquire(_) =>
              r == s.(locks := s.locks[l := k.(repeat := k.repeat + 1)], threads := s.threads[c := Thread(Client, th.held[l := Held(th, l) + 1])])
            case _ => true
  {
    var c, th := s.sched.cur, s.threads[s.sched.cur];
    assert s.locks[th.pc.l := s.locks[th.pc.l]] == s.locks && s.threads[c := th] == s.threads;
    hide ThreadBlock, ThreadUnblock;
  }

  /** The steps of lock_release: the outermost release clears the holder and the count and ends in sema_up,
      which frees the lock and wakes the first of the waiters; any other counts one less. The call returns
      with one acquire less. */
  lemma ReleaseEffect(s: Sys, r: Sys)
    requires Shape(s) && !s.threads[s.sched.cur].pc.Client? && Step(s, Continue) == Ok(r)
    ensures var c, th := s.sched.cur, s.threads[s.sched.cur];
            var l := th.pc.l;
            var k := s.locks[l];
            match th.pc
            case RelTest(_) =>
              && k.holder == Some(c) && k.repeat > 0
              && r == s.(threads := s.threads[c := th.(pc := if k.repeat > 1 then RelDec(l) else ClearHolder(l))])
            case RelDec(_) =>
              && Held(th, l) > 0 && k.repeat > 0
              && r == s.(locks := s.locks[l := k.(repeat := k.repeat - 1)], threads := s.threads[c := Thread(Client, th.held[l := Held(th, l) - 1])])
            case ClearHolder(_) => r == s.(locks := s.locks[l := k.(holder := None)], threads := s.threads[c := th.(pc := ClearRepeat(l))])
            case ClearRepeat(_) => r == s.(locks := s.locks[l := k.(repeat := 0)], threads := s.threads[c := th.(pc := Up(l))])
            case Up(_) =>
              && Held(th, l) > 0 && r.threads == s.threads[c := Thread(Client, th.held[l := Held(th, l) - 1])]
              && if k.waiters == [] then r.locks == s.locks[l := k.(value := 1)] && r.sched == s.sched
                 else
                   && r.locks == s.locks[l := k.(value := 1, waiters := k.waiters[1..], popped := Some(k.waiters[0]))]
                   && k.waiters[0] in s.sched.tasks && ThreadUnblock(s.sched, k.waiters[0]) == Ok(r.sched)
            case _ => true
  {
    var c, th := s.sched.cur, s.threads[s.sched.cur];
    assert s.locks[th.pc.l := s.locks[th.pc.l]] == s.locks && s.threads[c := th] == s.threads;
    hide ThreadBlock, ThreadUnblock;
  }

  /** Calls begin at their first step, and everything else a thread or an interrupt does is left to the
      scheduler. */
  lemma EventEffect(s: Sys, e: Event, r: Sys)
    requires Shape(s) && Enabled(s, e) && Step(s, e) == Ok(r)
    ensures var c, th := s.sched.cur, s.threads[s.sched.cur];
            match e
            case Tick => r == s.(sched := r.sched) && TimerInterrupt(s.sched) == Ok(r.sched)
            case Yield => r == s.(sched := r.sched) && ThreadYield(s.sched) == Ok(r.sched)
            case Block(st) => r == s.(sched := r.sched) && ThreadBlock(s.sched, st) == Ok(r.sched)
            case Wake(t) => r == s.(sched := r.sched) && ThreadUnblock(s.sched, t) == Ok(r.sched)
            case Start(t, priority) =>
              r == s.(sched := r.sched, threads := s.threads[t := Thread(Client, map[])]) && ThreadStart(s.sched, t, priority) == Ok(r.sched)
            case Acquire(l) => r == s.(threads := s.threads[c := th.(pc := AcqTest(l))])
            case Release(l) => r == s.(threads := s.threads[c := th.(pc := RelTest(l))])
            case Continue => true
  {
    hide ThreadBlock, ThreadUnblock, ThreadYield, ThreadStart, TimerInterrupt, SysInv, ContinueStep;
    if e.Acquire? || e.Release? {
      assert s.locks[e.l := s.locks[e.l]] == s.locks;
    }
  }

  /** Nobody is kept from running but by a lock or by having blocked itself: a client may make any call, a
      call in progress goes on, the timer may strike, and whoever blocked itself outside sync.c may be woken. */
  lemma AlwaysEnabled(s: Sys, l: LockId, t: Tid)
    requires Shape(s) && l in s.locks
    ensures var c := s.sched.cur;
            && Enabled(s, Tick) && (Enabled(s, Continue) <==> s.threads[c].pc != Client)
            && (s.threads[c].pc == Client && c != s.sched.idle ==> Enabled(s, Acquire(l)) && Enabled(s, Yield) && Enabled(s, Block(Blocked)))
            && (s.threads[c].pc == Client && c != s.sched.idle && Held(s.threads[c], l) > 0 ==> Enabled(s, Release(l)))
            && (c == s.sched.idle ==> Enabled(s, Block(Blocked)))
            && (t in s.threads && t != s.sched.idle && s.threads[t].pc == Client && Stopped(s.sched.tasks[t].status) ==> Enabled(s, Wake(t)))
  {}

  // ---------- Whole runs ----------

  /** thread_init and lock_init: one running thread, the idle thread ready, every lock free. */
  ghost predicate Init(s: Sys) {
    && Known(s.sched) && s.threads.Keys == s.sched.tasks.Keys
    && s.sched.cur != s.sched.idle && s.sched.tasks.Keys == {s.sched.cur, s.sched.idle}
    && s.sched.ready == [s.sched.idle] && s.sched.all == [s.sched.cur, s.sched.idle]
    && s.sched.tasks[s.sched.cur].status == Running && s.sched.tasks[s.sched.idle].status == Ready
    && (forall t :: t in s.threads ==> s.threads[t] == Thread(Client, map[]))
    && (forall l :: l in s.locks ==> s.locks[l] == Lock(1, [], None, 0, None))
  }

  lemma InitInv(s: Sys)
    requires Init(s)
    ensures SysInv(s)
  {
    assert forall l :: l in s.locks ==> Insiders(s, l) == {};
  }

  /** States reachable from s by the given events, each enabled when it happens. */
  ghost predicate Reaches(s: Sys, es: seq<Event>, r: Sys)
    decreases |es|
  {
    if es == [] then r == s
    else Shape(s) && Enabled(s, es[0]) && match Step(s, es[0]) case Ok(s1) => Reaches(s1, es[1..], r) case Panic => false
  }

  lemma {:induction false} ReachableInv(s: Sys, es: seq<Event>, r: Sys)
    requires SysInv(s) && Reaches(s, es, r)
    ensures SysInv(r)
    decreases |es|
  {
    if es != [] {
      var s1 := StepKeepsInv(s, es[0]);
      ReachableInv(s1, es[1..], r);
    }
  }

  /** From start-up on, whatever the interleaving, no ASSERT fails at any step. */
  lemma NeverPanics(s: Sys, es: seq<Event>, r: Sys, e: Event)
    requires Init(s) && Reaches(s, es, r)
    ensures Shape(r) && (Enabled(r, e) ==> Step(r, e).Ok?)
  {
    InitInv(s);
    ReachableInv(s, es, r);
    if Enabled(r, e) {
      var r1 := StepKeepsInv(r, e);
    }
  }

  /** At most one thread is between the return of sema_down and the start of sema_up. */
  lemma MutualExclusion(s: Sys, es: seq<Event>, r: Sys, l: LockId, t: Tid, u: Tid)
    requires Init(s) && Reaches(s, es, r) && l in r.locks && t in r.threads && u in r.threads
    ensures Inside(r.threads[t], l) && Inside(r.threads[u], l) ==> t == u
    ensures r.locks[l].value == 1 ==> !Inside(r.threads[t], l)
  {
    InitInv(s);
    ReachableInv(s, es, r);
    assert LockInv(r, l);
    assert Inside(r.threads[t], l) <==> t in Insiders(r, l);
    assert Inside(r.threads[u], l) <==> u in Insiders(r, l);
  }

  /** A lock is taken only while some thread is inside it: a lock is never leaked. */
  lemma TakenLockHasOwner(s: Sys, es: seq<Event>, r: Sys, l: LockId) returns (o: Tid)
    requires Init(s) && Reaches(s, es, r) && l in r.locks && r.locks[l].value == 0
    ensures o in r.threads && Inside(r.threads[o], l)
  {
    InitInv(s);
    ReachableInv(s, es, r);
    assert LockInv(r, l);
    o :| o in r.threads && Insiders(r, l) == {o};
    assert o in Insiders(r, l);
  }

  lemma HolderAgrees(r: Sys, l: LockId, t: Tid)
    requires l in r.locks && t in r.threads && Exclusive(r, l)
    requires var pc := r.threads[t].pc; pc == AcqTest(l) || pc == RelTest(l) || pc == Client
    ensures r.locks[l].holder == Some(t) <==> Held(r.threads[t], l) > 0
    ensures Held(r.threads[t], l) > 0 ==> r.locks[l].repeat == Held(r.threads[t], l)
  {
    assert Held(r.threads[t], l) > 0 <==> t in Insiders(r, l);
    if r.locks[l].value == 0 {
      var o :| o in r.threads && Insiders(r, l) == {o} && Owner(o, r.threads[o], l, r.locks[l]);
      assert t in Insiders(r, l) <==> t == o;
    }
  }

  /** lock_acquire reads `holder == self` exactly when the thread holds the lock, and the repeat
      count then is the number of acquires it still has to release, which is what lock_release
      reads to decide whether it is the last one. */
  lemma HolderIsSelf(s: Sys, es: seq<Event>, r: Sys, l: LockId, t: Tid)
    requires Init(s) && Reaches(s, es, r) && l in r.locks && t in r.threads
    requires var pc := r.threads[t].pc; pc == AcqTest(l) || pc == RelTest(l) || pc == Client
    ensures r.locks[l].holder == Some(t) <==> Held(r.threads[t], l) > 0
    ensures Held(r.threads[t], l) > 0 ==> r.locks[l].repeat == Held(r.threads[t], l)
  {
    InitInv(s);
    ReachableInv(s, es, r);
    assert LockInv(r, l);
    HolderAgrees(r, l, t);
  }

  /** No lost wakeup: while a lock is free and somebody sleeps on it, the thread that sema_up last took off
      its waiters is runnable and about to try the lock again, whoever else barges in first. */
  lemma FreeLockIsRetried(s: Sys, es: seq<Event>, r: Sys, l: LockId) returns (t: Tid)
    requires Init(s) && Reaches(s, es, r) && l in r.locks && r.locks[l].value == 1 && r.locks[l].waiters != []
    ensures r.locks[l].popped == Some(t)
    ensures t in r.threads && r.threads[t].pc == Down(l) && t !in r.locks[l].waiters
    ensures t in r.sched.tasks && r.sched.tasks[t].status in {Ready, Running}
    ensures t == r.sched.cur || t in r.sched.ready
  {
    InitInv(s);
    ReachableInv(s, es, r);
    assert LockInv(r, l);
    t := r.locks[l].popped.value;
  }

  /** `popped` is what its name says: only a sema_up changes it, and that takes exactly this thread off the
      front of the waiters. */
  lemma PoppedOffTheWaiters(r: Sys, e: Event, q: Sys, l: LockId)
    requires Shape(r) && Enabled(r, e) && Step(r, e) == Ok(q) && l in r.locks
    ensures l in q.locks
    ensures q.locks[l].popped != r.locks[l].popped ==>
              && e == Continue && r.threads[r.sched.cur].pc == Up(l) && r.locks[l].waiters != []
              && q.locks[l].popped == Some(r.locks[l].waiters[0]) && q.locks[l].waiters == r.locks[l].waiters[1..]
  {
    hide TimerInterrupt, ThreadYield, ThreadBlock, ThreadUnblock, ThreadStart;
  }

  /** A general_tag is on at most one list: the ready list or the waiters of one lock. */
  lemma OneListAtMost(s: Sys, es: seq<Event>, r: Sys, l: LockId, m: LockId, t: Tid)
    requires Init(s) && Reaches(s, es, r) && l in r.locks && m in r.locks && t in r.locks[l].waiters
    ensures t in r.threads && t !in r.sched.ready && (t in r.locks[m].waiters ==> l == m)
    ensures NoDup(r.sched.ready) && NoDup(r.locks[l].waiters)
  {
    InitInv(s);
    ReachableInv(s, es, r);
    assert LockInv(r, l) && LockInv(r, m);
  }

  // ---------- The routines as the source writes them, one atomic step a method ----------

  /** struct lock, with the fields of its semaphore. */
  class LockObject {
    var value: nat
    var waiters: seq<Tid>
    var holder: Option<Tid>
    var holderRepeatNr: nat
    ghost var popped: Option<Tid>    // the thread that sema_up last took off the waiters

    ghost function Fields(): Lock
      reads this
    {
      Lock(value, waiters, holder, holderRepeatNr, popped)
    }

    /** lock_init */
    constructor ()
      ensures Fields() == Lock(1, [], None, 0, None)
    {
      holder, holderRepeatNr, popped := None, 0, None;
      value, waiters := 1, [];
    }

    /** One pass of the while loop in sema_down: the fields and the scheduler change as in `DownStep`. */
    method SemaDown(kernel: Kernel) returns (taken: bool)
      requires Scheduler.Inv(kernel.State()) && kernel.cur != kernel.idle
      requires value <= 1 && kernel.cur !in waiters
      modifies this, kernel
      ensures taken <==> old(value) != 0
      ensures taken ==> kernel.State() == old(kernel.State()) && Fields() == old(Fields()).(value := 0)
      ensures !taken ==> Known(old(kernel.State())) && ThreadBlock(old(kernel.State()), Blocked) == Ok(kernel.State())
      ensures !taken ==> Fields() == old(Fields()).(waiters := old(waiters) + [old(kernel.cur)])
    {
      if value == 0 {
        assert kernel.cur !in waiters;
        waiters := waiters + [kernel.cur];
        BlockKeepsInv(kernel.State(), Blocked);
        kernel.Block(Blocked);
        return false;
      }
      value := value - 1;
      assert value == 0;
      return true;
    }

    /** sema_up: the fields and the scheduler change as in `UpStep`. */
    method SemaUp(kernel: Kernel)
      requires value == 0
      requires waiters != [] ==> waiters[0] in kernel.tasks && ThreadUnblock(kernel.State(), waiters[0]).Ok?
      modifies this, kernel
      ensures Fields() == if old(waiters) == [] then old(Fields()).(value := 1)
              else old(Fields()).(value := 1, waiters := old(waiters)[1..], popped := Some(old(waiters)[0]))
      ensures if old(waiters) == [] then kernel.State() == old(kernel.State())
              else ThreadUnblock(old(kernel.State()), old(waiters)[0]) == Ok(kernel.State())
    {
      if waiters != [] {
        var blocked := waiters[0];
        waiters := waiters[1..];
        popped := Some(blocked);
        kernel.Unblock(blocked);
      }
      value := value + 1;
      assert value == 1;
    }

    /** The steps of lock_acquire and lock_release outside the semaphore. */
    method Advance(c: Tid, th: Thread) returns (th': Thread)
      requires !th.pc.Client? && PlainMove(c, th, Fields()).Ok?
      modifies this
      ensures PlainMove(c, th, old(Fields())) == Ok((th', Fields()))
    {
      var l := th.pc.l;
      th' := th;
      match th.pc {
        case AcqTest(_) =>
          th' := th.(pc := if holder != Some(c) then Down(l) else Reacquire(l));
        case SetHolder(_) =>
          holder := Some(c);
          th' := th.(pc := SetRepeat(l));
        case SetRepeat(_) =>
          assert holderRepeatNr == 0;
          holderRepeatNr := 1;
          th' := Returned(th, l, Held(th, l) + 1);
        case Reacquire(_) =>
          holderRepeatNr := holderRepeatNr + 1;
          th' := Returned(th, l, Held(th, l) + 1);
        case RelTest(_) =>
          assert holder == Some(c);
          th' := th.(pc := if holderRepeatNr > 1 then RelDec(l) else ClearHolder(l));
          assert th'.pc.ClearHolder? ==> holderRepeatNr == 1;
        case RelDec(_) =>
          holderRepeatNr := holderRepeatNr - 1;
          th' := Returned(th, l, Held(th, l) - 1);
        case ClearHolder(_) =>
          holder := None;
          th' := th.(pc := ClearRepeat(l));
        case ClearRepeat(_) =>
          holderRepeatNr := 0;
          th' := th.(pc := Up(l));
      }
    }
  }
}
