/**
 What a thread can do while no ticket is outstanding, and why the bound in the definition of a
 timely run is sharp on both sides: a compare-and-swap that comes exactly 2^32 claims late succeeds
 although the ring is full, or empty, and the counters run apart.
 */
module RingQueueLimits {
  import opened Word32
  import opened RingQueue
  import opened RingQueueProofs

  /** No ticket is outstanding: a values went in, b came out. */
  ghost predicate Calm(c: Conf, a: nat, b: nat) {
    Invariant(c) && c.h.PH() == c.h.PT() == a && c.h.CH() == c.h.CT() == b
  }

  /** From c to c' thread t finished with th and no other thread did anything. */
  ghost predicate OnlyDone(c: Conf, c': Conf, t: nat, th: Thread) {
    && t < |c.s.threads| == |c.h.stamps| && c'.s.threads == c.s.threads[t := th] && |c'.h.stamps| == |c.h.stamps|
    && forall j: nat :: j < |c.h.stamps| && j != t ==> c'.h.stamps[j] == c.h.stamps[j]
  }

  /** Prepends one timely event to a run. */
  lemma Prefix(c: Conf, e: Event, es: seq<Event>)
    requires Sized(c) && TimelyStep(c, e) && Timely(NextConf(c, e), es)
    ensures Timely(c, [e] + es) && Exec(c, [e] + es) == Exec(NextConf(c, e), es)
  {
    ExecCons(c, e, es);
  }

  lemma EnqueueReadsHead(c: Conf, t: nat, v: Ptr, a: nat, b: nat)
    requires Calm(c, a, b) && t < |c.s.threads| && c.s.threads[t].Idle? && v != 0
    ensures
      var c2 := NextConf(NextConf(c, CallEnqueue(t, v)), Step(t));
      && Invariant(c2)
      && c2.s == c.s.(threads := c.s.threads[t := PReadTail(v, c.s.pHead)])
      && c2.h == c.h.(stamps := c.h.stamps[t := Stamp(a, 0)])
  {
    StepKeeps(c, CallEnqueue(t, v));
    StepKeeps(NextConf(c, CallEnqueue(t, v)), Step(t));
  }

  lemma EnqueueReads(c: Conf, t: nat, v: Ptr, a: nat, b: nat)
    requires Calm(c, a, b) && t < |c.s.threads| && c.s.threads[t].Idle? && v != 0 && a < b + c.s.mask
    ensures
      var c2 := NextConf(NextConf(c, CallEnqueue(t, v)), Step(t));
      var c3 := NextConf(c2, Step(t));
      && Invariant(c3)
      && c3.s == c.s.(threads := c.s.threads[t := PCas(v, c.s.pHead)])
      && c3.h == c.h.(stamps := c.h.stamps[t := Stamp(a, b)])
  {
    EnqueueReadsHead(c, t, v, a, b);
    ExactRoom(c.s.mask, b, a);
    StepKeeps(NextConf(NextConf(c, CallEnqueue(t, v)), Step(t)), Step(t));
  }

  lemma EnqueueClaims(c: Conf, t: nat, v: Ptr, a: nat, b: nat)
    requires Calm(c, a, b) && t < |c.s.threads| && c.s.threads[t].Idle? && v != 0 && a < b + c.s.mask
    ensures
      var c3 := NextConf(NextConf(NextConf(c, CallEnqueue(t, v)), Step(t)), Step(t));
      var c4 := NextConf(c3, Step(t));
      && Invariant(c4) && TimelyStep(c3, Step(t))
      && c4.h.claimed == c.h.claimed + [v] && c4.h.PT() == a && c4.h.CH() == c4.h.CT() == b
      && c4.h.pOwner[a] == t && OnlyDone(c, c4, t, PStore(v, c.s.pHead))
  {
    EnqueueReads(c, t, v, a, b);
    StepKeeps(NextConf(NextConf(NextConf(c, CallEnqueue(t, v)), Step(t)), Step(t)), Step(t));
  }

  /** While no ticket is outstanding and there is room, any idle thread can enqueue any value. */
  lemma EnqueueAlone(c: Conf, t: nat, v: Ptr, a: nat, b: nat) returns (es: seq<Event>)
    requires Calm(c, a, b) && t < |c.s.threads| && c.s.threads[t].Idle? && v != 0 && a < b + c.s.mask
    ensures Timely(c, es) && Calm(Exec(c, es), a + 1, b)
    ensures Exec(c, es).h.inn == c.h.inn + [v] && OnlyDone(c, Exec(c, es), t, Idle(Enqueued))
  {
    EnqueueClaims(c, t, v, a, b);
    var c1 := NextConf(c, CallEnqueue(t, v));
    var c2 := NextConf(c1, Step(t));
    var c3 := NextConf(c2, Step(t));
    var c4 := NextConf(c3, Step(t));
    es := OldestProducerPublishes(c4);
    assert c.h.inn == c.h.claimed && Exec(c4, es).h.inn == Exec(c4, es).h.claimed;
    Prefix(c3, Step(t), es);
    es := [Step(t)] + es;
    Prefix(c2, Step(t), es);
    es := [Step(t)] + es;
    Prefix(c1, Step(t), es);
    es := [Step(t)] + es;
    Prefix(c, CallEnqueue(t, v), es);
    es := [CallEnqueue(t, v)] + es;
  }

  lemma DequeueReadsHead(c: Conf, t: nat, a: nat, b: nat)
    requires Calm(c, a, b) && t < |c.s.threads| && c.s.threads[t].Idle?
    ensures
      var c2 := NextConf(NextConf(c, CallDequeue(t)), Step(t));
      && Invariant(c2)
      && c2.s == c.s.(threads := c.s.threads[t := CReadTail(c.s.cHead)])
      && c2.h == c.h.(stamps := c.h.stamps[t := Stamp(b, 0)])
  {
    StepKeeps(c, CallDequeue(t));
    StepKeeps(NextConf(c, CallDequeue(t)), Step(t));
  }

  lemma DequeueReads(c: Conf, t: nat, a: nat, b: nat)
    requires Calm(c, a, b) && t < |c.s.threads| && c.s.threads[t].Idle? && b < a
    ensures
      var c2 := NextConf(NextConf(c, CallDequeue(t)), Step(t));
      var c3 := NextConf(c2, Step(t));
      && Invariant(c3)
      && c3.s == c.s.(threads := c.s.threads[t := CCas(c.s.cHead)])
      && c3.h == c.h.(stamps := c.h.stamps[t := Stamp(b, a)])
  {
    DequeueReadsHead(c, t, a, b);
    WrappedCount(a, b);
    StepKeeps(NextConf(NextConf(c, CallDequeue(t)), Step(t)), Step(t));
  }

  lemma DequeueClaims(c: Conf, t: nat, a: nat, b: nat)
    requires Calm(c, a, b) && t < |c.s.threads| && c.s.threads[t].Idle? && b < a
    ensures
      var c3 := NextConf(NextConf(NextConf(c, CallDequeue(t)), Step(t)), Step(t));
      var c4 := NextConf(c3, Step(t));
      && Invariant(c4) && TimelyStep(c3, Step(t))
      && c4.h.CH() == b + 1 && c4.h.CT() == b && c4.h.claimed == c.h.claimed && c4.h.PT() == a
      && c4.h.cOwner[b] == t && OnlyDone(c, c4, t, CFetch(c.s.cHead))
  {
    DequeueReads(c, t, a, b);
    StepKeeps(NextConf(NextConf(NextConf(c, CallDequeue(t)), Step(t)), Step(t)), Step(t));
  }

  /** While no ticket is outstanding and a value is stored, any idle thread can dequeue, and gets the oldest. */
  lemma DequeueAlone(c: Conf, t: nat, a: nat, b: nat) returns (es: seq<Event>)
    requires Calm(c, a, b) && t < |c.s.threads| && c.s.threads[t].Idle? && b < a
    ensures Timely(c, es) && Calm(Exec(c, es), a, b + 1)
    ensures OnlyDone(c, Exec(c, es), t, Idle(Dequeued(c.h.inn[b])))
  {
    DequeueClaims(c, t, a, b);
    var c1 := NextConf(c, CallDequeue(t));
    var c2 := NextConf(c1, Step(t));
    var c3 := NextConf(c2, Step(t));
    var c4 := NextConf(c3, Step(t));
    assert c.h.inn == c.h.claimed;
    es := OldestConsumerPublishes(c4, c.h.inn[b]);
    Prefix(c3, Step(t), es);
    es := [Step(t)] + es;
    Prefix(c2, Step(t), es);
    es := [Step(t)] + es;
    Prefix(c1, Step(t), es);
    es := [Step(t)] + es;
    Prefix(c, CallDequeue(t), es);
    es := [CallDequeue(t)] + es;
  }

  // ---------------------------------------------------------------- late swaps

  /** Thread 0 sleeps at th with the stamp st; threads 1 and 2 are idle. */
  ghost predicate Asleep(c: Conf, a: nat, b: nat, th: Thread, st: Stamp) {
    && Calm(c, a, b) && |c.s.threads| == 3 && c.s.threads[0] == th && c.h.stamps[0] == st
    && c.s.threads[1].Idle? && c.s.threads[2].Idle?
  }

  /** While thread 0 sleeps, the others bring the ring to any higher counters and any fill level. */
  lemma {:induction false} Reach(c: Conf, a0: nat, b0: nat, a: nat, b: nat, th: Thread, st: Stamp)
    returns (es: seq<Event>)
    requires Asleep(c, a0, b0, th, st) && c.s.mask >= 1
    requires a0 <= a && b0 <= b <= a <= b + c.s.mask
    ensures Timely(c, es) && Asleep(Exec(c, es), a, b, th, st)
    decreases a + b
  {
    MaskAll(c);
    if a == a0 && b == b0 {
      es := [];
    } else if b < a && a0 < a {
      var before := Reach(c, a0, b0, a - 1, b, th, st);
      var last := EnqueueAlone(Exec(c, before), 1, 1, a - 1, b);
      ExecAppend(c, before, last);
      es := before + last;
    } else {
      var before := Reach(c, a0, b0, a, b - 1, th, st);
      var last := DequeueAlone(Exec(c, before), 2, a, b - 1);
      ExecAppend(c, before, last);
      es := before + last;
    }
  }

  lemma MaskAll(c: Conf)
    requires Sized(c)
    ensures forall es: seq<Event> :: Exec(c, es).s.mask == c.s.mask
  {
    forall es: seq<Event> ensures Exec(c, es).s.mask == c.s.mask {
      MaskKept(c, es);
    }
  }

  /** Three timely events of a thread. */
  lemma ThreeEvents(c: Conf, e1: Event, e2: Event, e3: Event)
    requires Sized(c) && TimelyStep(c, e1) && TimelyStep(NextConf(c, e1), e2)
    requires TimelyStep(NextConf(NextConf(c, e1), e2), e3)
    ensures Timely(c, [e1, e2, e3]) && Exec(c, [e1, e2, e3]) == NextConf(NextConf(NextConf(c, e1), e2), e3)
  {
    var c1 := NextConf(c, e1);
    var c2 := NextConf(c1, e2);
    assert Exec(NextConf(c2, e3), []) == NextConf(c2, e3);
    assert [e3] + [] == [e3] && [e2] + [e3] == [e2, e3] && [e1] + [e2, e3] == [e1, e2, e3];
    Prefix(c2, e3, []);
    Prefix(c1, e2, [e3]);
    Prefix(c, e1, [e2, e3]);
  }

  lemma ProducerFallsAsleep(c: Conf) returns (es: seq<Event>)
    requires Calm(c, 0, 0) && c.s.mask >= 1 && |c.s.threads| == 3
    requires forall t: nat :: t < 3 ==> c.s.threads[t].Idle?
    ensures Timely(c, es) && Asleep(Exec(c, es), 0, 0, PCas(1, 0), Stamp(0, 0))
  {
    EnqueueReads(c, 0, 1, 0, 0);
    es := [CallEnqueue(0, 1), Step(0), Step(0)];
    EnqueueReadsHead(c, 0, 1, 0, 0);
    ThreeEvents(c, CallEnqueue(0, 1), Step(0), Step(0));
  }

  lemma ConsumerFallsAsleep(c: Conf) returns (es: seq<Event>)
    requires Calm(c, 1, 0) && |c.s.threads| == 3
    requires forall t: nat :: t < 3 ==> c.s.threads[t].Idle?
    ensures Timely(c, es) && Asleep(Exec(c, es), 1, 0, CCas(0), Stamp(0, 1))
  {
    DequeueReads(c, 0, 1, 0);
    es := [CallDequeue(0), Step(0), Step(0)];
    DequeueReadsHead(c, 0, 1, 0);
    ThreeEvents(c, CallDequeue(0), Step(0), Step(0));
  }

  /**
   For every ring that can hold a value there is a run, timely up to its last event, whose last
   event is a compare-and-swap exactly 2^32 claims late; it succeeds on a full ring.
   */
  lemma LateSwapOverruns(mask: u32, nodes: seq<Ptr>) returns (es: seq<Event>)
    requires |nodes| == mask + 1 < M && IsPow2(mask + 1) && mask >= 1
    ensures Timely(Initial(mask, nodes, 3), es)
    ensures
      var c := Exec(Initial(mask, nodes, 3), es);
      var c' := NextConf(c, Step(0));
      && |c.h.stamps| == 3 && c.h.PH() - c.h.stamps[0].head == M
      && c.h.PH() == c.h.CT() + mask
      && c'.h.PH() == c'.h.CT() + mask + 1
  {
    var c := Initial(mask, nodes, 3);
    InitialInvariant(mask, nodes, 3);
    var before := ProducerFallsAsleep(c);
    MaskAll(c);
    var rest := Reach(Exec(c, before), 0, 0, M, M - mask, PCas(1, 0), Stamp(0, 0));
    ExecAppend(c, before, rest);
    es := before + rest;
  }

  /** A run after which thread 0 sleeps before the swap that would take the only value. */
  lemma SleepingDequeuer(mask: u32, nodes: seq<Ptr>) returns (es: seq<Event>)
    requires |nodes| == mask + 1 < M && IsPow2(mask + 1) && mask >= 1
    ensures
      var c := Initial(mask, nodes, 3);
      Timely(c, es) && Exec(c, es).s.mask == mask && Asleep(Exec(c, es), 1, 0, CCas(0), Stamp(0, 1))
  {
    var c := Initial(mask, nodes, 3);
    InitialInvariant(mask, nodes, 3);
    var first := EnqueueAlone(c, 1, 1, 0, 0);
    MaskAll(c);
    var rest := ConsumerFallsAsleep(Exec(c, first));
    ExecAppend(c, first, rest);
    es := first + rest;
  }

  lemma LateClaim(c: Conf)
    requires Asleep(c, M, M, CCas(0), Stamp(0, 1))
    ensures NextConf(c, Step(0)).h.CH() == M + 1 && NextConf(c, Step(0)).h.PT() == M
  {
  }

  /** And one in which a dequeuer, exactly 2^32 claims late, claims a ticket that was never published. */
  lemma LateSwapUnderruns(mask: u32, nodes: seq<Ptr>) returns (es: seq<Event>)
    requires |nodes| == mask + 1 < M && IsPow2(mask + 1) && mask >= 1
    ensures Timely(Initial(mask, nodes, 3), es)
    ensures
      var c := Exec(Initial(mask, nodes, 3), es);
      var c' := NextConf(c, Step(0));
      && |c.h.stamps| == 3 && c.h.CH() - c.h.stamps[0].head == M
      && c.h.CH() == c.h.PT()
      && c'.h.CH() == c'.h.PT() + 1
  {
    var c := Initial(mask, nodes, 3);
    var before := SleepingDequeuer(mask, nodes);
    var rest := Reach(Exec(c, before), 1, 0, M, M, CCas(0), Stamp(0, 1));
    ExecAppend(c, before, rest);
    es := before + rest;
    LateClaim(Exec(c, es));
  }
}
