/**
 The ring with a side that only one thread works on. That thread runs the thread-unsafe operation:
 it writes its head without a compare-and-swap and its tail without waiting, while any number of
 threads work on the other side. This is how the send queue of the BLE connection is used: many
 threads enqueue, one dequeues, and that one asks QueueIsEmpty first.
 */
module RingQueueSole {
  import opened Word32
  import opened RingQueue
  import opened RingQueueProofs
  import opened RingQueueReturns

  /** Who works on a side: any thread with the thread-safe operation, or t alone with the other one. */
  datatype Side = Shared | Sole(t: nat)

  datatype Sides = Sides(producers: Side, consumers: Side)

  /** Whether thread t is inside a thread-unsafe operation. */
  predicate Alone(th: Thread, t: nat, sides: Sides) {
    (Producing(th) && sides.producers == Sole(t)) || (Consuming(th) && sides.consumers == Sole(t))
  }

  /**
   One step of a thread-unsafe operation. It differs from the thread-safe one in two places: at the
   head it writes, and at the tail it writes the next number at once.
   */
  function SoleStep(s: Ring, t: nat): Ring
    requires |s.nodes| == s.mask + 1 && t < |s.threads|
  {
    match s.threads[t]
    case PCas(v, head) => Goto(s.(pHead := Add(head, 1)), t, PStore(v, head))
    case PSpin(v, head) => Goto(s.(pTail := Add(head, 1)), t, Idle(Enqueued))
    case CCas(head) => Goto(s.(cHead := Add(head, 1)), t, CFetch(head))
    case CSpin(v, head) => Goto(s.(cTail := Add(head, 1)), t, Idle(Dequeued(v)))
    case _ => Next(s, Step(t))
  }

  /** The steps of the thread-safe operation that an observer writes down for it. */
  function Counterpart(th: Thread, t: nat): seq<Event> {
    if th.PSpin? || th.CSpin? then [Step(t), Step(t), Step(t)] else [Step(t)]
  }

  /**
   A thread in QueueCountGet or QueueIsEmpty, which make the same two reads: the producer tail it
   has read, and how many values were published then; afterwards the count it got. QueueIsEmpty
   says empty exactly when that is zero.
   */
  datatype Query = NoQuery | ReadProducer | ReadConsumer(tail: u32, seen: nat) | Answer(count: nat, seen: nat)

  datatype World = World(c: Conf, qs: seq<Query>)

  datatype Act = Op(e: Event) | Ask(t: nat) | Look(t: nat)

  predicate Free(q: Query) { q.NoQuery? || q.Answer? }

  /** Only the thread of a sole side calls its operation, and no thread calls two things at once. */
  predicate Allowed(w: World, a: Act, sides: Sides) {
    match a
    case Op(CallEnqueue(t, v)) =>
      t < |w.qs| && Free(w.qs[t]) && (sides.producers.Shared? || sides.producers == Sole(t))
    case Op(CallDequeue(t)) =>
      t < |w.qs| && Free(w.qs[t]) && (sides.consumers.Shared? || sides.consumers == Sole(t))
    case Op(Step(t)) => t < |w.qs|
    case Ask(t) => t < |w.qs| && t < |w.c.s.threads| && w.c.s.threads[t].Idle? && Free(w.qs[t])
    case Look(t) => t < |w.qs| && !Free(w.qs[t])
  }

  predicate SizedWorld(w: World) {
    |w.c.s.nodes| == w.c.s.mask + 1 && |w.c.s.threads| == |w.c.h.stamps| == |w.qs|
  }

  function OpConf(c: Conf, e: Event, sides: Sides): (r: Conf)
    requires |c.s.nodes| == c.s.mask + 1 && |c.s.threads| == |c.h.stamps|
  {
    if e.Step? && Enabled(c.s, e) && Alone(c.s.threads[e.t], e.t, sides)
    then Conf(SoleStep(c.s, e.t), Exec(c, Counterpart(c.s.threads[e.t], e.t)).h)
    else NextConf(c, e)
  }

  function After(w: World, a: Act, sides: Sides): World
    requires SizedWorld(w) && Allowed(w, a, sides)
  {
    match a
    case Op(e) =>
      // a claim uses up the answer its thread was given
      var claims := e.Step? && e.t < |w.c.s.threads| && w.c.s.threads[e.t].CCas?;
      World(OpConf(w.c, e, sides), if claims then w.qs[e.t := NoQuery] else w.qs)
    case Ask(t) => w.(qs := w.qs[t := ReadProducer])
    case Look(t) =>
      match w.qs[t]
      case ReadConsumer(tail, seen) =>
        w.(qs := w.qs[t := Answer(And(Sub(tail, w.c.s.cTail), w.c.s.mask), seen)])
      case _ => w.(qs := w.qs[t := ReadConsumer(w.c.s.pTail, w.c.h.PT())])
  }

  // ---------------------------------------------------------------- what every run keeps

  /** On a sole side no other thread is at work, and its thread has read the latest head. */
  ghost predicate SidesOk(c: Conf, sides: Sides)
    requires |c.s.threads| == |c.h.stamps|
  {
    forall u: nat :: u < |c.s.threads| ==> SideOk(c, sides, u)
  }

  ghost predicate SideOk(c: Conf, sides: Sides, u: nat)
    requires u < |c.s.threads| == |c.h.stamps|
  {
    var th, head := c.s.threads[u], c.h.stamps[u].head;
    && (Producing(th) ==> sides.producers in {Shared, Sole(u)})
    && (Consuming(th) ==> sides.consumers in {Shared, Sole(u)})
    && (sides.producers == Sole(u) && (th.PReadTail? || th.PCas?) ==> head == c.h.PH())
    && (sides.consumers == Sole(u) && (th.CReadTail? || th.CCas?) ==> head == c.h.CH())
  }

  /** The sole producer holds the only outstanding ticket, if there is one. */
  lemma SoleProducerTicket(c: Conf, sides: Sides, t: nat)
    requires Invariant(c) && SidesOk(c, sides) && sides.producers == Sole(t) && t < |c.s.threads|
    ensures HoldsProducerTicket(c.s.threads[t]) ==> c.h.stamps[t].head == c.h.PT() && c.h.PH() == c.h.PT() + 1
    ensures !HoldsProducerTicket(c.s.threads[t]) ==> c.h.PH() == c.h.PT()
  {
    HoldersOwn(c);
    forall k: nat | c.h.PT() <= k < c.h.PH()
      ensures c.h.pOwner[k] == t && HoldsProducerTicket(c.s.threads[t]) && c.h.stamps[t].head == k
    {
      assert SideOk(c, sides, c.h.pOwner[k]);
    }
    assert c.h.PT() < c.h.PH() ==> c.h.pOwner[c.h.PT()] == c.h.pOwner[c.h.PH() - 1] == t;
  }

  lemma SoleConsumerTicket(c: Conf, sides: Sides, t: nat)
    requires Invariant(c) && SidesOk(c, sides) && sides.consumers == Sole(t) && t < |c.s.threads|
    ensures HoldsConsumerTicket(c.s.threads[t]) ==> c.h.stamps[t].head == c.h.CT() && c.h.CH() == c.h.CT() + 1
    ensures !HoldsConsumerTicket(c.s.threads[t]) ==> c.h.CH() == c.h.CT()
  {
    HoldersOwn(c);
    forall k: nat | c.h.CT() <= k < c.h.CH()
      ensures c.h.cOwner[k] == t && HoldsConsumerTicket(c.s.threads[t]) && c.h.stamps[t].head == k
    {
      assert SideOk(c, sides, c.h.cOwner[k]);
    }
    assert c.h.CT() < c.h.CH() ==> c.h.cOwner[c.h.CT()] == c.h.cOwner[c.h.CH() - 1] == t;
  }

  lemma ExecOne(c: Conf, e: Event)
    requires Sized(c)
    ensures Exec(c, [e]) == NextConf(c, e) && (Timely(c, [e]) <==> TimelyStep(c, e))
  {
    assert [e][..0] == [];
  }

  lemma ExecThree(c: Conf, e: Event)
    requires Sized(c)
    ensures Exec(c, [e, e, e]) == NextConf(NextConf(NextConf(c, e), e), e)
    ensures Timely(c, [e, e, e]) <==>
      TimelyStep(c, e) && TimelyStep(NextConf(c, e), e) && TimelyStep(NextConf(NextConf(c, e), e), e)
  {
    ExecOne(c, e);
    var two, three := [e, e], [e, e, e];
    assert two[..1] == [e] && three[..2] == two;
    assert Exec(c, two) == NextConf(NextConf(c, e), e);
  }

  /** The tail write of a sole producer is what waiting, loading and storing would have done. */
  lemma SoleProducerPublishes(c: Conf, sides: Sides, t: nat)
    requires Invariant(c) && SidesOk(c, sides) && sides.producers == Sole(t)
    requires t < |c.s.threads| && c.s.threads[t].PSpin?
    ensures
      var c1 := NextConf(c, Step(t));
      var c2 := NextConf(c1, Step(t));
      && c1.s == Goto(c.s, t, PLoad(c.s.threads[t].v, c.s.threads[t].head)) && c1.h == c.h
      && c2.s == Goto(c.s, t, PPublish(c.s.threads[t].v, c.s.threads[t].head, c.s.pTail)) && c2.h == c.h
      && NextConf(c2, Step(t)) == Conf(SoleStep(c.s, t), c.h.(inn := c.h.inn + [c.s.threads[t].v]))
  {
    SoleProducerTicket(c, sides, t);
    assert ThreadPoint(c, t);
    assert c.s.pTail == c.s.threads[t].head;
  }

  lemma SoleConsumerPublishes(c: Conf, sides: Sides, t: nat)
    requires Invariant(c) && SidesOk(c, sides) && sides.consumers == Sole(t)
    requires t < |c.s.threads| && c.s.threads[t].CSpin?
    ensures
      var c1 := NextConf(c, Step(t));
      var c2 := NextConf(c1, Step(t));
      && c1.s == Goto(c.s, t, CLoad(c.s.threads[t].v, c.s.threads[t].head)) && c1.h == c.h
      && c2.s == Goto(c.s, t, CPublish(c.s.threads[t].v, c.s.threads[t].head, c.s.cTail)) && c2.h == c.h
      && NextConf(c2, Step(t)) == Conf(SoleStep(c.s, t), c.h.(out := c.h.out + [c.s.threads[t].v]))
  {
    SoleConsumerTicket(c, sides, t);
    assert ThreadPoint(c, t);
    assert c.s.cTail == c.s.threads[t].head;
  }

  /** A step of a thread-unsafe operation does exactly what the thread-safe one would do there. */
  lemma SoleStepSimulates(c: Conf, sides: Sides, t: nat)
    requires Invariant(c) && SidesOk(c, sides) && t < |c.s.threads| && Alone(c.s.threads[t], t, sides)
    ensures OpConf(c, Step(t), sides) == Exec(c, Counterpart(c.s.threads[t], t))
  {
    ExecOne(c, Step(t));
    ExecThree(c, Step(t));
    assert ThreadPoint(c, t) && SideOk(c, sides, t);
    if c.s.threads[t].PSpin? {
      SoleProducerPublishes(c, sides, t);
    } else if c.s.threads[t].CSpin? {
      SoleConsumerPublishes(c, sides, t);
    }
  }

  /** Who may call what, without regard to counting. */
  predicate CallsOk(e: Event, sides: Sides) {
    && (e.CallEnqueue? ==> sides.producers in {Shared, Sole(e.t)})
    && (e.CallDequeue? ==> sides.consumers in {Shared, Sole(e.t)})
  }

  /** From c to c' only thread t moved, and the counters grew only where that thread was at work. */
  ghost predicate Moved(c: Conf, c': Conf, t: nat) {
    && |c'.s.threads| == |c.s.threads| && |c'.h.stamps| == |c.h.stamps|
    && (forall u: nat :: u < |c.s.threads| && u != t ==> c'.s.threads[u] == c.s.threads[u])
    && (forall u: nat :: u < |c.h.stamps| && u != t ==> c'.h.stamps[u] == c.h.stamps[u])
    && c'.h.PT() >= c.h.PT()
    && (c'.h.PH() != c.h.PH() ==> t < |c.s.threads| && Producing(c.s.threads[t]))
    && (c'.h.CH() != c.h.CH() ==> t < |c.s.threads| && c.s.threads[t].CCas?)
    && (c'.h.CT() != c.h.CT() ==> t < |c.s.threads| && Consuming(c.s.threads[t]))
  }

  lemma StepMoves(c: Conf, e: Event)
    requires Sized(c)
    ensures Moved(c, NextConf(c, e), e.t)
  {
  }

  lemma OwnSideKept(c: Conf, e: Event, sides: Sides)
    requires Sized(c) && Enabled(c.s, e) && SideOk(c, sides, e.t) && CallsOk(e, sides)
    ensures SideOk(NextConf(c, e), sides, e.t)
  {
  }

  lemma OtherSideKept(c: Conf, c': Conf, t: nat, u: nat, sides: Sides)
    requires Sized(c) && Sized(c') && t < |c.s.threads| && u < |c.s.threads| && u != t
    requires Moved(c, c', t) && SideOk(c, sides, t) && SideOk(c, sides, u)
    ensures SideOk(c', sides, u)
  {
  }

  /** A step of the thread-safe operations keeps the sides. */
  lemma StepKeepsSides(c: Conf, e: Event, sides: Sides)
    requires Sized(c) && SidesOk(c, sides) && CallsOk(e, sides)
    ensures SidesOk(NextConf(c, e), sides)
  {
    var c' := NextConf(c, e);
    StepMoves(c, e);
    if Enabled(c.s, e) {
      forall u: nat | u < |c'.s.threads| ensures SideOk(c', sides, u) {
        assert SideOk(c, sides, e.t) && SideOk(c, sides, u);
        if u == e.t { OwnSideKept(c, e, sides); } else { OtherSideKept(c, c', e.t, u, sides); }
      }
    }
  }

  /** An operation's step is timely if its compare-and-swap is; a thread-unsafe one has none. */
  predicate OpTimely(c: Conf, e: Event, sides: Sides)
    requires |c.s.threads| == |c.h.stamps|
  {
    (e.Step? && Enabled(c.s, e) && Alone(c.s.threads[e.t], e.t, sides)) || TimelyStep(c, e)
  }

  lemma {:induction false} RunKeepsSides(c: Conf, es: seq<Event>, sides: Sides)
    requires Invariant(c) && SidesOk(c, sides) && Timely(c, es)
    requires forall i :: 0 <= i < |es| ==> CallsOk(es[i], sides)
    ensures Invariant(Exec(c, es)) && SidesOk(Exec(c, es), sides)
  {
    RunKeeps(c, es);
    if es != [] {
      var rest := es[..|es| - 1];
      RunKeepsSides(c, rest, sides);
      StepKeepsSides(Exec(c, rest), es[|es| - 1], sides);
    }
  }

  lemma CounterpartTimely(c: Conf, sides: Sides, t: nat)
    requires Invariant(c) && SidesOk(c, sides) && t < |c.s.threads| && Alone(c.s.threads[t], t, sides)
    ensures Timely(c, Counterpart(c.s.threads[t], t))
  {
    assert SideOk(c, sides, t);
    ExecOne(c, Step(t));
    if c.s.threads[t].PSpin? || c.s.threads[t].CSpin? {
      if c.s.threads[t].PSpin? { SoleProducerPublishes(c, sides, t); } else { SoleConsumerPublishes(c, sides, t); }
      ExecThree(c, Step(t));
    }
  }

  lemma OpKeeps(c: Conf, e: Event, sides: Sides)
    requires Invariant(c) && SidesOk(c, sides) && CallsOk(e, sides) && OpTimely(c, e, sides)
    ensures Invariant(OpConf(c, e, sides)) && SidesOk(OpConf(c, e, sides), sides)
  {
    if e.Step? && Enabled(c.s, e) && Alone(c.s.threads[e.t], e.t, sides) {
      SoleStepSimulates(c, sides, e.t);
      CounterpartTimely(c, sides, e.t);
      RunKeepsSides(c, Counterpart(c.s.threads[e.t], e.t), sides);
    } else {
      StepKeeps(c, e);
      StepKeepsSides(c, e, sides);
    }
  }

  // ---------------------------------------------------------------- whole runs

  /** What a thread that is counting, or has counted, knows. */
  ghost predicate QueryOk(w: World, sides: Sides, t: nat)
    requires SizedWorld(w) && t < |w.qs|
  {
    var h, q := w.c.h, w.qs[t];
    && (!Free(q) ==> w.c.s.threads[t].Idle?)
    && (q.ReadConsumer? ==> q.tail == q.seen % M && q.seen <= h.PT() &&
                            (sides.consumers == Sole(t) ==> h.CT() <= q.seen))
    && (q.Answer? && q.count != 0 && sides.consumers == Sole(t) ==> h.CH() < h.PT())
  }

  ghost predicate Inv(w: World, sides: Sides) {
    && SizedWorld(w) && Invariant(w.c) && SidesOk(w.c, sides)
    && forall t: nat :: t < |w.qs| ==> QueryOk(w, sides, t)
  }

  lemma OpMoves(c: Conf, e: Event, sides: Sides)
    requires Invariant(c) && SidesOk(c, sides)
    ensures Moved(c, OpConf(c, e, sides), e.t)
  {
    var t := e.t;
    StepMoves(c, e);
    if e.Step? && Enabled(c.s, e) && Alone(c.s.threads[t], t, sides) {
      SoleStepSimulates(c, sides, t);
      ExecOne(c, e);
      ExecThree(c, e);
      var c2 := NextConf(NextConf(c, e), e);
      if c.s.threads[t].PSpin? {
        SoleProducerPublishes(c, sides, t);
        StepMoves(c2, e);
      } else if c.s.threads[t].CSpin? {
        SoleConsumerPublishes(c, sides, t);
        StepMoves(c2, e);
      }
    }
  }

  lemma ActKeeps(w: World, a: Act, sides: Sides)
    requires Inv(w, sides) && Allowed(w, a, sides) && (a.Op? ==> OpTimely(w.c, a.e, sides))
    ensures Inv(After(w, a, sides), sides)
  {
    var w' := After(w, a, sides);
    if a.Op? {
      OpKeeps(w.c, a.e, sides);
      OpMoves(w.c, a.e, sides);
      forall u: nat | u < |w'.qs| ensures QueryOk(w', sides, u) {
        assert QueryOk(w, sides, u) && SideOk(w.c, sides, a.e.t);
      }
    } else if a.Look? && w.qs[a.t].ReadConsumer? {
      AnswerMeans(w, a.t, sides);
      forall u: nat | u < |w'.qs| ensures QueryOk(w', sides, u) {
        assert QueryOk(w, sides, u);
        if sides.consumers == Sole(u) { SoleConsumerTicket(w.c, sides, u); }
      }
    } else {
      forall u: nat | u < |w'.qs| ensures QueryOk(w', sides, u) {
        assert QueryOk(w, sides, u);
      }
    }
  }

  /** A query reads the producer tail as it is then, with the number of values published by then, and touches nothing. */
  lemma FirstRead(w: World, t: nat, sides: Sides)
    requires SizedWorld(w) && Allowed(w, Ask(t), sides)
    ensures
      var w1 := After(w, Ask(t), sides);
      && SizedWorld(w1) && Allowed(w1, Look(t), sides) && w1.c == w.c
      && After(w1, Look(t), sides) == w.(qs := w.qs[t := ReadConsumer(w.c.s.pTail, w.c.h.PT())])
      && Allowed(After(w1, Look(t), sides), Look(t), sides)
  {
  }

  lemma MaskedDifference(a: nat, b: nat, mask: u32)
    requires IsPow2(mask + 1) && mask + 1 < M
    ensures And(Sub(a % M, b % M), mask) == (a - b) % (mask + 1)
  {
    var k := Exponent(mask + 1);
    Pow2BelowWord(k);
    AndMask(Sub(a % M, b % M), k);
    WrappedCount(a, b);
    Pow2Monotone(0, 32 - k);
    Pow2At32();
    Pow2Add(k, 32 - k);
    ModOfProduct(a - b, Pow2(k), Pow2(32 - k));
  }

  /**
   What QueueCountGet and QueueIsEmpty answer while others work on the ring: the number of
   values published at the first read less the number returned at the second, modulo the ring's
   size. If no dequeue overtook the first read, that is the difference itself, and the answer is
   "empty" exactly when all values published by then had been returned. None overtakes the sole
   consumer.
   */
  lemma AnswerMeans(w: World, t: nat, sides: Sides)
    requires Inv(w, sides) && t < |w.qs| && w.qs[t].ReadConsumer?
    ensures
      var h, seen, answer := w.c.h, w.qs[t].seen, After(w, Look(t), sides).qs[t];
      && answer.Answer?
      && answer.count == (seen - h.CT()) % (w.c.s.mask + 1)
      && (h.CT() <= seen ==> answer.count == seen - h.CT())
      && (sides.consumers == Sole(t) ==> h.CT() <= seen)
  {
    var h, seen := w.c.h, w.qs[t].seen;
    assert QueryOk(w, sides, t);
    MaskedDifference(seen, h.CT(), w.c.s.mask);
    if h.CT() <= seen { SmallRemainder(seen - h.CT(), w.c.s.mask + 1); }
  }

  /** The worlds a run passes through. */
  ghost predicate IsRun(ws: seq<World>, acts: seq<Act>, sides: Sides) {
    && |ws| == |acts| + 1
    && forall i :: 0 <= i < |acts| ==>
         && SizedWorld(ws[i]) && Allowed(ws[i], acts[i], sides) && ws[i + 1] == After(ws[i], acts[i], sides)
         && (acts[i].Op? ==> OpTimely(ws[i].c, acts[i].e, sides))
  }

  function Start(mask: u32, nodes: seq<Ptr>, n: nat): World {
    World(Initial(mask, nodes, n), seq(n, i => NoQuery))
  }

  lemma {:induction false} EveryWorld(ws: seq<World>, acts: seq<Act>, sides: Sides, i: nat)
    requires IsRun(ws, acts, sides) && i < |ws| && Inv(ws[0], sides)
    ensures Inv(ws[i], sides) && ws[i].c.s.mask == ws[0].c.s.mask
  {
    if i > 0 {
      EveryWorld(ws, acts, sides, i - 1);
      ActKeeps(ws[i - 1], acts[i - 1], sides);
    }
  }

  /** A step of either kind adds to the callers' log what it adds to the history. */
  lemma OpAgrees(c: Conf, e: Event, sides: Sides, log: Log)
    requires Invariant(c) && SidesOk(c, sides) && Agrees(c, log)
    ensures |OpConf(c, e, sides).s.threads| == |c.s.threads|
    ensures Agrees(OpConf(c, e, sides), Observe(log, c.s, e, OpConf(c, e, sides).s))
  {
    var t := e.t;
    OpMoves(c, e, sides);
    EventAgrees(c, e, log);
    if e.Step? && Enabled(c.s, e) && Alone(c.s.threads[t], t, sides) {
      SoleStepSimulates(c, sides, t);
      ExecOne(c, e);
      ExecThree(c, e);
      if c.s.threads[t].PSpin? {
        SoleProducerPublishes(c, sides, t);
      } else if c.s.threads[t].CSpin? {
        SoleConsumerPublishes(c, sides, t);
      }
    }
  }

  /** The callers' log after the first i acts. */
  ghost function LogTo(ws: seq<World>, acts: seq<Act>, sides: Sides, i: nat): (log: Log)
    requires IsRun(ws, acts, sides) && i < |ws| && Inv(ws[0], sides)
    ensures |log.asked| == |ws[i].c.s.threads|
  {
    if i == 0 then Log(seq(|ws[0].c.s.threads|, j => 0), [], [])
    else
      EveryWorld(ws, acts, sides, i - 1);
      var w, a, log := ws[i - 1], acts[i - 1], LogTo(ws, acts, sides, i - 1);
      if a.Op? then OpMoves(w.c, a.e, sides); Observe(log, w.c.s, a.e, ws[i].c.s) else log
  }

  lemma {:induction false} EveryLog(ws: seq<World>, acts: seq<Act>, sides: Sides, i: nat)
    requires IsRun(ws, acts, sides) && i < |ws| && Inv(ws[0], sides) && Agrees(ws[0].c, LogTo(ws, acts, sides, 0))
    ensures Agrees(ws[i].c, LogTo(ws, acts, sides, i))
  {
    if i > 0 {
      EveryLog(ws, acts, sides, i - 1);
      EveryWorld(ws, acts, sides, i - 1);
      if acts[i - 1].Op? { OpAgrees(ws[i - 1].c, acts[i - 1].e, sides, LogTo(ws, acts, sides, i - 1)); }
    }
  }

  lemma StartInv(mask: u32, nodes: seq<Ptr>, n: nat, sides: Sides)
    requires |nodes| == mask + 1 < M && IsPow2(mask + 1)
    ensures Inv(Start(mask, nodes, n), sides)
  {
    InitialInvariant(mask, nodes, n);
  }

  /** And as the callers see it: what dequeues returned is a prefix of what was enqueued with success. */
  lemma SoleCallersSeeFifo(mask: u32, nodes: seq<Ptr>, n: nat, ws: seq<World>, acts: seq<Act>, sides: Sides)
    requires |nodes| == mask + 1 < M && IsPow2(mask + 1)
    requires IsRun(ws, acts, sides) && ws[0] == Start(mask, nodes, n)
    ensures Inv(ws[0], sides)
    ensures
      var log := LogTo(ws, acts, sides, |acts|);
      log.dequeued <= log.enqueued && |log.enqueued| - |log.dequeued| <= mask
  {
    StartInv(mask, nodes, n, sides);
    EveryLog(ws, acts, sides, |acts|);
    SoleFirstInFirstOut(mask, nodes, n, ws, acts, sides);
  }

  /**
   First in, first out, when either side or both are left to one thread that writes its counters
   without a compare-and-swap or a wait: the same order, the same bounds, in every run.
   */
  lemma SoleFirstInFirstOut(mask: u32, nodes: seq<Ptr>, n: nat, ws: seq<World>, acts: seq<Act>, sides: Sides)
    requires |nodes| == mask + 1 < M && IsPow2(mask + 1)
    requires IsRun(ws, acts, sides) && ws[0] == Start(mask, nodes, n)
    ensures
      var h := ws[|acts|].c.h;
      && h.out <= h.inn <= h.claimed
      && |h.inn| - |h.out| <= mask
      && h.CT() <= h.CH() <= h.PT() <= h.PH() <= h.CT() + mask
  {
    StartInv(mask, nodes, n, sides);
    EveryWorld(ws, acts, sides, |acts|);
  }

  /** The sole producer is told QUEUE_FULL exactly when all slots hold unreturned values. */
  lemma SoleFullExact(c: Conf, sides: Sides, t: nat)
    requires Invariant(c) && SidesOk(c, sides) && sides.producers == Sole(t)
    requires t < |c.s.threads| && c.s.threads[t].PReadTail?
    ensures OpConf(c, Step(t), sides).s.threads[t] == Idle(QueueFull) <==> c.h.PT() - c.h.CT() == c.s.mask
  {
    assert SideOk(c, sides, t) && ThreadPoint(c, t);
    SoleProducerTicket(c, sides, t);
    FullMeansFull(c, t);
    ExactRoom(c.s.mask, c.h.CT(), c.h.stamps[t].head);
  }

  /** The sole consumer is told QUEUE_EMPTY exactly when all published values have been returned. */
  lemma SoleEmptyExact(c: Conf, sides: Sides, t: nat)
    requires Invariant(c) && SidesOk(c, sides) && sides.consumers == Sole(t)
    requires t < |c.s.threads| && c.s.threads[t].CReadTail?
    ensures OpConf(c, Step(t), sides).s.threads[t] == Idle(QueueEmpty) <==> c.h.PT() == c.h.CT()
  {
    assert SideOk(c, sides, t) && ThreadPoint(c, t);
    SoleConsumerTicket(c, sides, t);
    EmptyMeansEmpty(c, t);
  }

  /** It returns the oldest value not yet returned. */
  lemma SoleReturnsOldest(c: Conf, sides: Sides, t: nat)
    requires Invariant(c) && SidesOk(c, sides) && sides.consumers == Sole(t)
    requires t < |c.s.threads| && c.s.threads[t].CSpin?
    ensures c.h.CT() < c.h.PT()
    ensures
      var c' := OpConf(c, Step(t), sides);
      && c'.s.threads[t] == Idle(Dequeued(c.h.inn[c.h.CT()]))
      && c'.h.out == c.h.inn[..c.h.CT() + 1]
  {
    assert ThreadPoint(c, t);
    SoleConsumerTicket(c, sides, t);
    SoleStepSimulates(c, sides, t);
    SoleConsumerPublishes(c, sides, t);
    ExecThree(c, Step(t));
  }

  /** Once QueueIsEmpty has told the sole consumer "not empty", its next dequeue finds a value. */
  lemma NotEmptyDequeues(w: World, sides: Sides, t: nat)
    requires Inv(w, sides) && sides.consumers == Sole(t) && t < |w.qs|
    requires w.qs[t].Answer? && w.qs[t].count != 0 && w.c.s.threads[t].CReadTail?
    ensures OpConf(w.c, Step(t), sides).s.threads[t] == CCas(w.c.s.threads[t].head)
  {
    assert QueryOk(w, sides, t) && SideOk(w.c, sides, t) && ThreadPoint(w.c, t);
    SoleConsumerTicket(w.c, sides, t);
    SoleEmptyExact(w.c, sides, t);
  }
}
