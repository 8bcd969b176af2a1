/**
  The blocking ring buffer of device/ioqueue.c, under every interleaving of any number of producers
  and consumers.

  ioq_getchar and ioq_putchar run with interrupts disabled, so a thread gives up the processor only
  where it blocks: in lock_acquire, when the queue's lock is taken, or in ioq_wait, which goes to
  sleep while holding that lock. The steps below are the stretches between those points. The lock
  is the one proved in module Locks: whoever finds it free may take it.
 */
module IoQueue {
  import opened Outcomes

  type Tid = nat
  type byte = x: int | 0 <= x < 256

  const BUFSIZE := 64

  // ---------- The ring ----------

  datatype Ring = Ring(buf: seq<byte>, head: nat, tail: nat) {
    predicate Valid() {
      |buf| == BUFSIZE && head < BUFSIZE && tail < BUFSIZE
    }

    function Count(): nat
      requires Valid()
    {
      if tail <= head then head - tail else head + BUFSIZE - tail
    }

    /** The bytes between the two cursors, oldest first. */
    function Contents(): (c: seq<byte>)
      requires Valid()
      ensures |c| == Count() < BUFSIZE
    {
      seq(Count(), i requires 0 <= i < Count() => buf[(tail + i) % BUFSIZE])
    }
  }

  function NextPos(pos: nat): nat {
    (pos + 1) % BUFSIZE
  }

  predicate Full(r: Ring) {
    NextPos(r.head) == r.tail
  }

  predicate Empty(r: Ring) {
    r.head == r.tail
  }

  function Take(r: Ring): (byte, Ring)
    requires r.Valid()
  {
    (r.buf[r.tail], r.(tail := NextPos(r.tail)))
  }

  function Append(r: Ring, b: byte): Ring
    requires r.Valid()
  {
    r.(buf := r.buf[r.head := b], head := NextPos(r.head))
  }

  lemma CountSaysEmptyAndFull(r: Ring)
    requires r.Valid()
    ensures Empty(r) <==> r.Contents() == []
    ensures Full(r) <==> |r.Contents()| == BUFSIZE - 1
  {}

  lemma TakeIsOldest(r: Ring)
    requires r.Valid() && !Empty(r)
    ensures var (b, r') := Take(r); r'.Valid() && r.Contents() == [b] + r'.Contents()
  {
    var (b, r') := Take(r);
    assert r'.Count() == r.Count() - 1;
    forall i | 0 <= i < r'.Count()
      ensures r.Contents()[i + 1] == r'.Contents()[i]
    {
      assert (r.tail + (i + 1)) % BUFSIZE == (r'.tail + i) % BUFSIZE;
    }
  }

  lemma AppendIsNewest(r: Ring, b: byte)
    requires r.Valid() && !Full(r)
    ensures Append(r, b).Valid() && Append(r, b).Contents() == r.Contents() + [b]
  {
    var r' := Append(r, b);
    assert r'.Count() == r.Count() + 1;
    forall i | 0 <= i < r.Count()
      ensures r'.Contents()[i] == r.Contents()[i]
    {
      assert (r.tail + i) % BUFSIZE != r.head;
    }
  }

  /** The ring as the source keeps it. */
  class RingBuffer {
    const buf: array<byte>
    var head: nat
    var tail: nat

    ghost function State(): Ring
      reads this, buf
    {
      Ring(buf[..], head, tail)
    }

    constructor ()
      ensures State().Valid() && State().Contents() == [] && fresh(buf)
    {
      buf := new byte[BUFSIZE](_ => 0);
      head, tail := 0, 0;
    }

    /** The end of ioq_getchar. */
    method Get() returns (b: byte)
      requires State().Valid() && !Empty(State())
      modifies this
      ensures State().Valid() && (b, State()) == Take(old(State()))
      ensures old(State().Contents()) == [b] + State().Contents()
    {
      TakeIsOldest(State());
      b := buf[tail];
      tail := NextPos(tail);
    }

    /** The end of ioq_putchar. */
    method Put(b: byte)
      requires State().Valid() && !Full(State())
      modifies this, buf
      ensures State().Valid() && State() == Append(old(State()), b)
      ensures State().Contents() == old(State().Contents()) + [b]
    {
      AppendIsNewest(State(), b);
      buf[head] := b;
      head := NextPos(head);
    }
  }

  // ---------- Threads ----------

  datatype Pc =
    | Outside
    | GetLoop            // ioq_getchar: at the test of its while loop
    | GetLocking         // blocked in lock_acquire
    | GetAsleep          // blocked in ioq_wait, holding the lock
    | GetAwake           // woken, about to release the lock
    | PutLoop(b: byte)
    | PutLocking(b: byte)
    | PutAsleep(b: byte)
    | PutAwake(b: byte)

  /** `sent` and `received` record the bytes put and got so far. */
  datatype Queue = Queue(
    ring: Ring, lockHolder: Option<Tid>, consumer: Option<Tid>, producer: Option<Tid>,
    threads: map<Tid, Pc>, sent: seq<byte>, received: seq<byte>)

  datatype Event =
    | CallGet(t: Tid)
    | CallPut(t: Tid, b: byte)
    | Run(t: Tid)        // t runs to its next blocking point
    | Key(b: byte)       // the keyboard interrupt: puts only when the queue is not full

  function SetPc(q: Queue, t: Tid, pc: Pc): Queue {
    q.(threads := q.threads[t := pc])
  }

  /** ioq_wait by a thread that has just taken the lock. */
  function WaitAsConsumer(q: Queue, t: Tid): Outcome<Queue> {
    if q.consumer.Some? then Panic
    else Ok(SetPc(q, t, GetAsleep).(lockHolder := Some(t), consumer := Some(t)))
  }

  function WaitAsProducer(q: Queue, t: Tid, b: byte): Outcome<Queue> {
    if q.producer.Some? then Panic
    else Ok(SetPc(q, t, PutAsleep(b)).(lockHolder := Some(t), producer := Some(t)))
  }

  /** wakeup(&ioq->producer); waking a thread that is not asleep fails the ASSERT of thread_unblock. */
  function WakeProducer(q: Queue): Outcome<Queue> {
    match q.producer
    case None => Ok(q)
    case Some(p) =>
      if p in q.threads && q.threads[p].PutAsleep? then
        Ok(SetPc(q, p, PutAwake(q.threads[p].b)).(producer := None))
      else Panic
  }

  function WakeConsumer(q: Queue): Outcome<Queue> {
    match q.consumer
    case None => Ok(q)
    case Some(c) =>
      if c in q.threads && q.threads[c].GetAsleep? then Ok(SetPc(q, c, GetAwake).(consumer := None)) else Panic
  }

  function PutByte(q: Queue, b: byte): Outcome<Queue>
    requires q.ring.Valid()
  {
    WakeConsumer(q.(ring := Append(q.ring, b), sent := q.sent + [b]))
  }

  function GetByte(q: Queue): Outcome<Queue>
    requires q.ring.Valid()
  {
    var (b, r) := Take(q.ring);
    WakeProducer(q.(ring := r, received := q.received + [b]))
  }

  predicate Enabled(q: Queue, e: Event) {
    match e
    case CallGet(t) => t in q.threads && q.threads[t] == Outside
    case CallPut(t, _) => t in q.threads && q.threads[t] == Outside
    case Key(_) => true
    case Run(t) =>
      && t in q.threads
      && match q.threads[t]
         case Outside => false
         case GetAsleep => false
         case PutAsleep(_) => false
         case GetLocking => q.lockHolder == None
         case PutLocking(_) => q.lockHolder == None
         case _ => true
  }

  function Step(q: Queue, e: Event): Outcome<Queue>
    requires q.ring.Valid() && Enabled(q, e)
  {
    match e
    case CallGet(t) => Ok(SetPc(q, t, GetLoop))
    case CallPut(t, b) => Ok(SetPc(q, t, PutLoop(b)))
    case Key(b) => if Full(q.ring) then Ok(q) else PutByte(q, b)
    case Run(t) => RunStep(q, t)
  }

  function RunStep(q: Queue, t: Tid): Outcome<Queue>
    requires q.ring.Valid() && t in q.threads
  {
    match q.threads[t]
    case GetLoop =>
      if !Empty(q.ring) then GetByte(SetPc(q, t, Outside))
      else if q.lockHolder == None then WaitAsConsumer(q, t)
      else Ok(SetPc(q, t, GetLocking))
    case GetLocking => WaitAsConsumer(q, t)
    case GetAwake => Ok(SetPc(q, t, GetLoop).(lockHolder := None))
    case PutLoop(b) =>
      if !Full(q.ring) then PutByte(SetPc(q, t, Outside), b)
      else if q.lockHolder == None then WaitAsProducer(q, t, b)
      else Ok(SetPc(q, t, PutLocking(b)))
    case PutLocking(b) => WaitAsProducer(q, t, b)
    case PutAwake(b) => Ok(SetPc(q, t, PutLoop(b)).(lockHolder := None))
    case _ => Ok(q)
  }

  // ---------- The invariant ----------

  predicate InWait(pc: Pc) {
    pc.GetAsleep? || pc.GetAwake? || pc.PutAsleep? || pc.PutAwake?
  }

  /** The lock is held by the one thread in ioq_wait; a registered waiter is that thread, asleep;
      and the bytes received, then those in the ring, are the bytes sent. */
  ghost predicate Inv(q: Queue) {
    && q.ring.Valid()
    && (forall t :: t in q.threads && InWait(q.threads[t]) ==> q.lockHolder == Some(t))
    && (q.consumer.Some? ==> q.consumer.value in q.threads && q.threads[q.consumer.value] == GetAsleep)
    && (q.producer.Some? ==> q.producer.value in q.threads && q.threads[q.producer.value].PutAsleep?)
    && (forall t :: t in q.threads && q.threads[t] == GetAsleep ==> q.consumer == Some(t))
    && (forall t :: t in q.threads && q.threads[t].PutAsleep? ==> q.producer == Some(t))
    && q.received + q.ring.Contents() == q.sent
  }

  lemma PutByteKeepsInv(q: Queue, b: byte)
    requires Inv(q) && !Full(q.ring)
    ensures PutByte(q, b).Ok? && Inv(PutByte(q, b).value)
    ensures PutByte(q, b).value.consumer == None
  {
    AppendIsNewest(q.ring, b);
    var q1 := q.(ring := Append(q.ring, b), sent := q.sent + [b]);
    assert q1.received + q1.ring.Contents() == (q.received + q.ring.Contents()) + [b];
  }

  lemma GetByteKeepsInv(q: Queue)
    requires Inv(q) && !Empty(q.ring)
    ensures GetByte(q).Ok? && Inv(GetByte(q).value)
  {
    TakeIsOldest(q.ring);
    var (b, r) := Take(q.ring);
    var q1 := q.(ring := r, received := q.received + [b]);
    assert q1.received + q1.ring.Contents() == q.received + ([b] + r.Contents());
  }

  /** No ASSERT of ioqueue.c or thread_unblock fails in any interleaving, and the invariant is kept. */
  lemma StepKeepsInv(q: Queue, e: Event)
    requires Inv(q) && Enabled(q, e)
    ensures Step(q, e).Ok? && Inv(Step(q, e).value)
  {
    match e
    case CallGet(t) =>
    case CallPut(t, b) =>
    case Key(b) => if !Full(q.ring) { PutByteKeepsInv(q, b); }
    case Run(t) =>
      match q.threads[t] {
        case GetLoop => if !Empty(q.ring) { GetByteKeepsInv(SetPc(q, t, Outside)); }
        case PutLoop(b) => if !Full(q.ring) { PutByteKeepsInv(SetPc(q, t, Outside), b); }
        case _ =>
      }
  }

  // ---------- What each step does ----------

  /** The keyboard interrupt puts its byte exactly when there is room. */
  lemma KeyEffect(q: Queue, b: byte)
    requires Inv(q)
    ensures Enabled(q, Key(b)) && Step(q, Key(b)).Ok? && Step(q, Key(b)).value.ring.Valid()
    ensures var r := Step(q, Key(b)).value;
            if |q.ring.Contents()| == 63 then r == q
            else
              && r.ring.Contents() == q.ring.Contents() + [b] && r.sent == q.sent + [b] && r.received == q.received
              && r.consumer == None && r.producer == q.producer && r.lockHolder == q.lockHolder
              && (q.consumer.Some? ==> r.threads == q.threads[q.consumer.value := GetAwake]) && (q.consumer == None ==> r.threads == q.threads)
  {
    StepKeepsInv(q, Key(b));
    CountSaysEmptyAndFull(q.ring);
    if !Full(q.ring) {
      PutByteKeepsInv(q, b);
      AppendIsNewest(q.ring, b);
    }
  }

  /** A thread in ioq_putchar: with room it puts its byte, wakes a sleeping consumer and leaves; on a full
      ring it goes to sleep holding the lock, or queues up for the lock. */
  lemma PutEffect(q: Queue, t: Tid)
    requires Inv(q) && t in q.threads && q.threads[t].PutLoop?
    ensures Enabled(q, Run(t)) && Step(q, Run(t)).Ok? && Step(q, Run(t)).value.ring.Valid()
    ensures var r, b := Step(q, Run(t)).value, q.threads[t].b;
            if |q.ring.Contents()| < 63 then
              && r.ring.Contents() == q.ring.Contents() + [b] && r.sent == q.sent + [b] && r.received == q.received
              && r.consumer == None && r.producer == q.producer && r.lockHolder == q.lockHolder
              && r.threads == q.threads[t := Outside] + (if q.consumer.Some? then map[q.consumer.value := GetAwake] else map[])
            else if q.lockHolder == None then
              r == q.(threads := q.threads[t := PutAsleep(b)], lockHolder := Some(t), producer := Some(t))
            else r == q.(threads := q.threads[t := PutLocking(b)])
  {
    StepKeepsInv(q, Run(t));
    CountSaysEmptyAndFull(q.ring);
    if !Full(q.ring) {
      PutByteKeepsInv(SetPc(q, t, Outside), q.threads[t].b);
      AppendIsNewest(q.ring, q.threads[t].b);
    }
  }

  /** A thread in ioq_getchar: it takes the oldest byte, wakes a sleeping producer and leaves; on an empty
      ring it goes to sleep holding the lock, or queues up for the lock. */
  lemma GetEffect(q: Queue, t: Tid)
    requires Inv(q) && t in q.threads && q.threads[t] == GetLoop
    ensures Enabled(q, Run(t)) && Step(q, Run(t)).Ok? && Step(q, Run(t)).value.ring.Valid()
    ensures var r := Step(q, Run(t)).value;
            if q.ring.Contents() != [] then
              && q.ring.Contents() == [q.ring.Contents()[0]] + r.ring.Contents()
              && r.received == q.received + [q.ring.Contents()[0]] && r.sent == q.sent
              && r.producer == None && r.consumer == q.consumer && r.lockHolder == q.lockHolder
              && (q.producer == None ==> r.threads == q.threads[t := Outside])
              && (q.producer.Some? ==>
                    var p := q.producer.value;
                    p in q.threads && q.threads[p].PutAsleep? && r.threads == q.threads[t := Outside][p := PutAwake(q.threads[p].b)])
            else if q.lockHolder == None then
              r == q.(threads := q.threads[t := GetAsleep], lockHolder := Some(t), consumer := Some(t))
            else r == q.(threads := q.threads[t := GetLocking])
  {
    StepKeepsInv(q, Run(t));
    CountSaysEmptyAndFull(q.ring);
    if !Empty(q.ring) {
      TakeIsOldest(q.ring);
      GetByteKeepsInv(SetPc(q, t, Outside));
    }
  }

  /** Calls, and threads on their way through ioq_wait: nobody is put to sleep but by ioq_wait, and the ring
      stays. A thread that waits for the lock runs exactly when it is free. */
  lemma WaitEffect(q: Queue, t: Tid, b: byte)
    requires Inv(q) && t in q.threads
    ensures q.threads[t] == Outside ==>
              && Enabled(q, CallGet(t)) && Step(q, CallGet(t)) == Ok(q.(threads := q.threads[t := GetLoop]))
              && Enabled(q, CallPut(t, b)) && Step(q, CallPut(t, b)) == Ok(q.(threads := q.threads[t := PutLoop(b)]))
    ensures q.threads[t].GetLocking? || q.threads[t].PutLocking? ==> (Enabled(q, Run(t)) <==> q.lockHolder == None)
    ensures q.threads[t].GetLocking? && q.lockHolder == None ==>
              Step(q, Run(t)) == Ok(q.(threads := q.threads[t := GetAsleep], lockHolder := Some(t), consumer := Some(t)))
    ensures q.threads[t].PutLocking? && q.lockHolder == None ==>
              Step(q, Run(t)) == Ok(q.(threads := q.threads[t := PutAsleep(q.threads[t].b)], lockHolder := Some(t), producer := Some(t)))
    ensures q.threads[t].GetAwake? ==>
              Enabled(q, Run(t)) && Step(q, Run(t)) == Ok(q.(threads := q.threads[t := GetLoop], lockHolder := None))
    ensures q.threads[t].PutAwake? ==>
              Enabled(q, Run(t)) && Step(q, Run(t)) == Ok(q.(threads := q.threads[t := PutLoop(q.threads[t].b)], lockHolder := None))
  {}

  /** ioqueue_init, with threads that have not called yet. */
  ghost predicate Init(q: Queue) {
    && q.ring.Valid() && q.ring.head == 0 && q.ring.tail == 0
    && q.lockHolder == None && q.consumer == None && q.producer == None
    && q.sent == [] && q.received == []
    && forall t :: t in q.threads ==> q.threads[t] == Outside
  }

  ghost predicate Reaches(q: Queue, es: seq<Event>, r: Queue)
    decreases |es|
  {
    if es == [] then r == q
    else q.ring.Valid() && Enabled(q, es[0]) && match Step(q, es[0]) case Ok(q1) => Reaches(q1, es[1..], r) case Panic => false
  }

  lemma {:induction false} ReachableInv(q: Queue, es: seq<Event>, r: Queue)
    requires Inv(q) && Reaches(q, es, r)
    ensures Inv(r)
    decreases |es|
  {
    if es != [] {
      StepKeepsInv(q, es[0]);
      ReachableInv(Step(q, es[0]).value, es[1..], r);
    }
  }

  /** The byte that an event brings while there is room. */
  ghost function Accepted(q: Queue, e: Event): seq<byte>
    requires q.ring.Valid()
  {
    match e
    case Key(b) => if |q.ring.Contents()| < 63 then [b] else []
    case Run(t) => if t in q.threads && q.threads[t].PutLoop? && |q.ring.Contents()| < 63 then [q.threads[t].b] else []
    case _ => []
  }

  /** The bytes that a run brings while there is room, whatever becomes of them. */
  ghost function AllAccepted(q: Queue, es: seq<Event>): seq<byte>
    decreases |es|
  {
    if es == [] || !q.ring.Valid() || !Enabled(q, es[0]) || Step(q, es[0]).Panic? then []
    else Accepted(q, es[0]) + AllAccepted(Step(q, es[0]).value, es[1..])
  }

  lemma SendsAccepted(q: Queue, e: Event)
    requires Inv(q) && Enabled(q, e)
    ensures Step(q, e).Ok? && Step(q, e).value.sent == q.sent + Accepted(q, e)
  {
    StepKeepsInv(q, e);
    match e
    case CallGet(t) => WaitEffect(q, t, 0);
    case CallPut(t, b) => WaitEffect(q, t, b);
    case Key(b) => KeyEffect(q, b);
    case Run(t) =>
      WaitEffect(q, t, 0);
      if q.threads[t].GetLoop? {
        GetEffect(q, t);
      } else if q.threads[t].PutLoop? {
        PutEffect(q, t);
      }
  }

  lemma {:induction false} SentIsAccepted(q: Queue, es: seq<Event>, r: Queue)
    requires Inv(q) && Reaches(q, es, r)
    ensures r.sent == q.sent + AllAccepted(q, es)
    decreases |es|
  {
    if es != [] {
      SendsAccepted(q, es[0]);
      StepKeepsInv(q, es[0]);
      hide Inv, Step, Enabled, Accepted;
      SentIsAccepted(Step(q, es[0]).value, es[1..], r);
    }
  }

  /** First in, first out, nothing lost and nothing duplicated, over every interleaving: the bytes that came
      while there was room are those received and then those in the ring. At most 63 are held. */
  lemma FirstInFirstOut(q: Queue, es: seq<Event>, r: Queue)
    requires Init(q) && Reaches(q, es, r)
    ensures r.ring.Valid() && AllAccepted(q, es) == r.sent == r.received + r.ring.Contents() && |r.ring.Contents()| <= 63
  {
    ReachableInv(q, es, r);
    SentIsAccepted(q, es, r);
  }

  lemma NeverPanics(q: Queue, es: seq<Event>, r: Queue, e: Event)
    requires Init(q) && Reaches(q, es, r)
    ensures r.ring.Valid() && (Enabled(r, e) ==> Step(r, e).Ok?)
  {
    ReachableInv(q, es, r);
    if Enabled(r, e) {
      StepKeepsInv(r, e);
    }
  }

  // ---------- Does a sleeping consumer mean an empty queue? ----------

  predicate SleeperMeansEmpty(q: Queue) {
    q.consumer.Some? ==> Empty(q.ring)
  }

  /** Exactly one step can put a consumer to sleep on data: getting the lock after having had to
      wait for it. ioq_getchar does not test the queue again there. */
  lemma SleepsOnDataIff(q: Queue, e: Event)
    requires Inv(q) && Enabled(q, e) && SleeperMeansEmpty(q)
    ensures Step(q, e).Ok?
    ensures SleeperMeansEmpty(Step(q, e).value) <==>
            !(e.Run? && q.threads[e.t] == GetLocking && !Empty(q.ring))
  {
    StepKeepsInv(q, e);
    if e.Key? && !Full(q.ring) {
      PutByteKeepsInv(q, e.b);
    } else if e.Run? && q.threads[e.t].PutLoop? && !Full(q.ring) {
      PutByteKeepsInv(SetPc(q, e.t, Outside), q.threads[e.t].b);
    }
  }

  /** The events of a queue used as the keyboard's: one consumer, fed by the keyboard interrupt. */
  predicate KeyboardUse(es: seq<Event>, c: Tid) {
    forall e :: e in es ==> e.Key? || ((e.CallGet? || e.Run?) && e.t == c)
  }

  /** In that use the lock is never contended, and a registered consumer always means an empty queue. */
  lemma {:induction false} KeyboardSleeperMeansEmpty(q: Queue, es: seq<Event>, c: Tid, r: Queue)
    requires Inv(q) && Reaches(q, es, r) && KeyboardUse(es, c)
    requires c in q.threads && SleeperMeansEmpty(q) && q.threads[c] in {Outside, GetLoop, GetAsleep, GetAwake}
    requires q.lockHolder.Some? ==> q.lockHolder == Some(c) && InWait(q.threads[c])
    ensures SleeperMeansEmpty(r)
    decreases |es|
  {
    if es != [] {
      assert es[0] in es;
      SleepsOnDataIff(q, es[0]);
      StepKeepsInv(q, es[0]);
      var q1 := Step(q, es[0]).value;
      assert forall e :: e in es[1..] ==> e in es;
      KeyboardSleeperMeansEmpty(q1, es[1..], c, r);
    }
  }

  /** In terms of the bytes in the ring. */
  lemma KeyboardNeverSleepsOnData(q: Queue, es: seq<Event>, c: Tid, r: Queue)
    requires Init(q) && c in q.threads && Reaches(q, es, r) && KeyboardUse(es, c)
    ensures r.consumer.Some? ==> r.ring.Valid() && r.ring.Contents() == []
  {
    KeyboardSleeperMeansEmpty(q, es, c, r);
    ReachableInv(q, es, r);
    CountSaysEmptyAndFull(r.ring);
  }

  lemma {:induction false} OneMore(q: Queue, es: seq<Event>, r: Queue, e: Event)
    requires Reaches(q, es, r) && r.ring.Valid() && Enabled(r, e) && Step(r, e).Ok?
    ensures Reaches(q, es + [e], Step(r, e).value)
    decreases |es|
  {
    if es == [] {
      assert es + [e] == [e];
      assert Reaches(Step(q, e).value, [], Step(r, e).value);
    } else {
      OneMore(Step(q, es[0]).value, es[1..], r, e);
      assert (es + [e])[1..] == es[1..] + [e];
    }
  }

  /** With two consumers it fails: both find the queue empty, the second queues up for the lock
      that the first sleeps with; two bytes arrive; the first leaves with one of them; and the
      second, given the lock, goes to sleep on the other. Nobody is left to run. */
  lemma TwoConsumersSleepOnData(q: Queue) returns (es: seq<Event>, r: Queue)
    requires Init(q) && q.threads == map[1 := Outside, 2 := Outside]
    ensures Reaches(q, es, r)
    ensures r.consumer == Some(2) && r.ring.Valid() && r.ring.Contents() == [8]
    ensures forall t :: t in r.threads ==> !Enabled(r, Run(t))
  {
    es, r := TwoBytesArrive(q);
    TakeIsOldest(r.ring);
    var left := Take(r.ring).1;
    var b := Take(r.ring).0;
    assert left.Contents() == ([b] + left.Contents())[1..] == [7, 8][1..] == [8];
    OneMore(q, es, r, Run(1));
    es, r := es + [Run(1)], Step(r, Run(1)).value;
    OneMore(q, es, r, Run(1));
    es, r := es + [Run(1)], Step(r, Run(1)).value;
    OneMore(q, es, r, Run(2));
    es, r := es + [Run(2)], Step(r, Run(2)).value;
    assert r.ring == left;
  }

  lemma TwoBytesArrive(q: Queue) returns (es: seq<Event>, r: Queue)
    requires Init(q) && q.threads == map[1 := Outside, 2 := Outside]
    ensures Reaches(q, es, r) && r.ring.Valid() && r.ring.Contents() == [7, 8]
    ensures r.consumer == None && r.producer == None && r.lockHolder == Some(1)
    ensures r.threads == map[1 := GetAwake, 2 := GetLocking]
  {
    es, r := BothWaiting(q);
    PutByteKeepsInv(r, 7);
    AppendIsNewest(r.ring, 7);
    AppendIsNewest(Append(r.ring, 7), 8);
    OneMore(q, es, r, Key(7));
    es, r := es + [Key(7)], Step(r, Key(7)).value;
    OneMore(q, es, r, Key(8));
    es, r := es + [Key(8)], Step(r, Key(8)).value;
  }

  lemma BothWaiting(q: Queue) returns (es: seq<Event>, r: Queue)
    requires Init(q) && q.threads == map[1 := Outside, 2 := Outside]
    ensures Reaches(q, es, r) && Inv(r) && r.ring == q.ring
    ensures r.consumer == Some(1) && r.producer == None && r.lockHolder == Some(1)
    ensures r.threads == map[1 := GetAsleep, 2 := GetLocking]
  {
    es, r := [], q;
    OneMore(q, es, r, CallGet(1));
    es, r := es + [CallGet(1)], Step(r, CallGet(1)).value;
    OneMore(q, es, r, CallGet(2));
    es, r := es + [CallGet(2)], Step(r, CallGet(2)).value;
    OneMore(q, es, r, Run(1));
    es, r := es + [Run(1)], Step(r, Run(1)).value;
    OneMore(q, es, r, Run(2));
    es, r := es + [Run(2)], Step(r, Run(2)).value;
    ReachableInv(q, es, r);
  }
}
