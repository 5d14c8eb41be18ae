/**
 What the callers of the ring are told. An observer who sees only calls and return values keeps a
 log; the log agrees with the history of the ring in every run.
 */
module RingQueueReturns {
  import opened Word32
  import opened RingQueue
  import opened RingQueueProofs

  /** A thread inside the dequeue. */
  predicate Consuming(th: Thread) { !th.Idle? && !Producing(th) }

  /** The value each thread last asked to enqueue, and the successful calls in the order they returned. */
  datatype Log = Log(asked: seq<Ptr>, enqueued: seq<Ptr>, dequeued: seq<Ptr>)

  /** What the observer adds when an event leads from s to s'. */
  function Observe(log: Log, s: Ring, e: Event, s': Ring): Log
    requires |log.asked| == |s.threads| == |s'.threads|
  {
    if !Enabled(s, e) then log
    else if e.CallEnqueue? then log.(asked := log.asked[e.t := e.v])
    else match s'.threads[e.t]
      case Idle(Enqueued) => log.(enqueued := log.enqueued + [log.asked[e.t]])
      case Idle(Dequeued(v)) => log.(dequeued := log.dequeued + [v])
      case _ => log
  }

  function LogOf(c: Conf, es: seq<Event>): (log: Log)
    requires |c.s.nodes| == c.s.mask + 1 && |c.s.threads| == |c.h.stamps|
    ensures |log.asked| == |Exec(c, es).s.threads|
  {
    if es == [] then Log(seq(|c.s.threads|, i => 0), [], [])
    else
      var c' := Exec(c, es[..|es| - 1]);
      Observe(LogOf(c, es[..|es| - 1]), c'.s, es[|es| - 1], NextConf(c', es[|es| - 1]).s)
  }

  // ---------------------------------------------------------------- one event

  /**
   What a step of an enqueue comes to. It keeps its value and goes on; or it publishes exactly that
   value and returns success; or it finds no room at its tail test and returns QUEUE_FULL.
   */
  ghost predicate EnqueueAnswers(c: Conf, c': Conf, t: nat)
    requires t < |c.s.threads| == |c'.s.threads| == |c.h.stamps| && Producing(c.s.threads[t])
  {
    var th, th' := c.s.threads[t], c'.s.threads[t];
    && c'.h.out == c.h.out
    && (|| (Producing(th') && th'.v == th.v && c'.h.inn == c.h.inn)
        || (th' == Idle(Enqueued) && c'.h.inn == c.h.inn + [th.v])
        || (th' == Idle(QueueFull) && c'.h == c.h.(stamps := c'.h.stamps) && th.PReadTail?
            && (c.h.CT() + c.s.mask - c.h.stamps[t].head) % M == 0))
  }

  /** What a step of a dequeue comes to. */
  ghost predicate DequeueAnswers(c: Conf, c': Conf, t: nat)
    requires t < |c.s.threads| == |c'.s.threads| == |c.h.stamps| && Consuming(c.s.threads[t])
  {
    var th, th' := c.s.threads[t], c'.s.threads[t];
    && c'.h.inn == c.h.inn
    && (|| (Consuming(th') && c'.h.out == c.h.out)
        || (th'.Idle? && th'.ret.Dequeued? && c'.h.out == c.h.out + [th'.ret.v])
        || (th' == Idle(QueueEmpty) && c'.h == c.h.(stamps := c'.h.stamps) && th.CReadTail?
            && (c.h.PT() - c.h.stamps[t].head) % M == 0))
  }

  ghost predicate OthersStay(c: Conf, c': Conf, t: nat) {
    |c'.s.threads| == |c.s.threads|
    && forall u: nat :: u < |c.s.threads| && u != t ==> c'.s.threads[u] == c.s.threads[u]
  }

  /** An enqueue takes up the value it was given, and NULL is refused; a dequeue starts; nothing is stored yet. */
  lemma CallAnswers(c: Conf, e: Event)
    requires Sized(c) && Enabled(c.s, e) && !e.Step?
    ensures
      var c' := NextConf(c, e);
      var th' := c'.s.threads[e.t];
      && OthersStay(c, c', e.t) && c'.h == c.h
      && (e.CallEnqueue? ==> if e.v == 0 then th' == Idle(QueueInval) else Producing(th') && th'.v == e.v)
      && (e.CallDequeue? ==> Consuming(th'))
  {
  }

  lemma EnqueueStepAnswers(c: Conf, t: nat)
    requires Invariant(c) && t < |c.s.threads| && Producing(c.s.threads[t])
    ensures OthersStay(c, NextConf(c, Step(t)), t) && EnqueueAnswers(c, NextConf(c, Step(t)), t)
  {
    assert ThreadPoint(c, t);
    WrappedRoom(c.s.mask, c.h.CT(), c.h.stamps[t].head);
  }

  lemma DequeueStepAnswers(c: Conf, t: nat)
    requires Invariant(c) && t < |c.s.threads| && Consuming(c.s.threads[t])
    ensures OthersStay(c, NextConf(c, Step(t)), t) && DequeueAnswers(c, NextConf(c, Step(t)), t)
  {
    assert ThreadPoint(c, t);
    WrappedCount(c.h.PT(), c.h.stamps[t].head);
  }

  /** A swap that fails was overtaken by another claim, and the thread then starts from the latest head. */
  lemma FailedSwapRetries(c: Conf, t: nat)
    requires Invariant(c) && t < |c.s.threads|
    requires c.s.threads[t].PCas? && c.s.pHead != c.s.threads[t].head
    ensures
      var c2 := NextConf(NextConf(c, Step(t)), Step(t));
      && c.h.stamps[t].head < c.h.PH()
      && c2.s.threads[t] == PReadTail(c.s.threads[t].v, c.s.pHead)
      && c2.h == c.h.(stamps := c.h.stamps[t := Stamp(c.h.PH(), 0)])
  {
    assert ThreadPoint(c, t);
  }

  lemma FailedClaimRetries(c: Conf, t: nat)
    requires Invariant(c) && t < |c.s.threads|
    requires c.s.threads[t].CCas? && c.s.cHead != c.s.threads[t].head
    ensures
      var c2 := NextConf(NextConf(c, Step(t)), Step(t));
      && c.h.stamps[t].head < c.h.CH()
      && c2.s.threads[t] == CReadTail(c.s.cHead)
      && c2.h == c.h.(stamps := c.h.stamps[t := Stamp(c.h.CH(), 0)])
  {
    assert ThreadPoint(c, t);
  }

  // ---------------------------------------------------------------- whole runs

  /** The log agrees with the history, and every enqueue under way carries the value it was asked for. */
  ghost predicate Agrees(c: Conf, log: Log) {
    && |log.asked| == |c.s.threads|
    && log.enqueued == c.h.inn && log.dequeued == c.h.out
    && forall t: nat :: t < |c.s.threads| && Producing(c.s.threads[t]) ==> c.s.threads[t].v == log.asked[t]
  }

  lemma EventAgrees(c: Conf, e: Event, log: Log)
    requires Invariant(c) && Agrees(c, log)
    ensures Agrees(NextConf(c, e), Observe(log, c.s, e, NextConf(c, e).s))
  {
    if Enabled(c.s, e) {
      if !e.Step? {
        CallAnswers(c, e);
      } else if Producing(c.s.threads[e.t]) {
        EnqueueStepAnswers(c, e.t);
      } else {
        DequeueStepAnswers(c, e.t);
      }
    }
  }

  lemma {:induction false} RunAgrees(c: Conf, es: seq<Event>)
    requires Invariant(c) && Timely(c, es) && Agrees(c, LogOf(c, []))
    ensures Agrees(Exec(c, es), LogOf(c, es))
  {
    if es != [] {
      var rest := es[..|es| - 1];
      RunAgrees(c, rest);
      RunKeeps(c, rest);
      EventAgrees(Exec(c, rest), es[|es| - 1], LogOf(c, rest));
    }
  }

  /**
   First in, first out, as the callers see it: the values that dequeues returned are a prefix, in
   order, of the values whose enqueues returned success. Nothing is lost, invented or handed out twice.
   */
  lemma CallersSeeFifo(mask: u32, nodes: seq<Ptr>, n: nat, es: seq<Event>)
    requires |nodes| == mask + 1 < M && IsPow2(mask + 1)
    requires Timely(Initial(mask, nodes, n), es)
    ensures
      var c, log := Exec(Initial(mask, nodes, n), es), LogOf(Initial(mask, nodes, n), es);
      && log.enqueued == c.h.inn && log.dequeued == c.h.out
      && log.dequeued <= log.enqueued && |log.enqueued| - |log.dequeued| <= mask
  {
    InitialInvariant(mask, nodes, n);
    RunAgrees(Initial(mask, nodes, n), es);
    FirstInFirstOut(mask, nodes, n, es);
  }
}
