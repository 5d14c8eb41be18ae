/**
 The lock-free ring as a step system. Any number of threads run the thread-safe enqueue and
 dequeue; every read of a shared counter, every compare-and-swap, every slot access and every
 tail write is one step, and the steps of all threads interleave freely.
 */
module RingQueue {
  import opened Word32

  /** A node pointer; zero is NULL. */
  type Ptr = nat

  datatype Ret = Fresh | Enqueued | Dequeued(v: Ptr) | QueueFull | QueueEmpty | QueueInval

  /** Where a thread stands, with its locals. The names say what the next step does. */
  datatype Thread =
    | Idle(ret: Ret)
    // QueueMultiProducerEnqueue
    | PReadHead(v: Ptr)
    | PReadTail(v: Ptr, head: u32)
    | PCas(v: Ptr, head: u32)
    | PStore(v: Ptr, head: u32)
    | PSpin(v: Ptr, head: u32)
    | PLoad(v: Ptr, head: u32)
    | PPublish(v: Ptr, head: u32, tail: u32)
    // QueueMultiConsumerDequeue
    | CReadHead
    | CReadTail(head: u32)
    | CCas(head: u32)
    | CFetch(head: u32)
    | CSpin(v: Ptr, head: u32)
    | CLoad(v: Ptr, head: u32)
    | CPublish(v: Ptr, head: u32, tail: u32)

  /** The shared fields of the queue and the threads working on it. */
  datatype Ring = Ring(mask: u32, pHead: u32, pTail: u32, cHead: u32, cTail: u32,
                       nodes: seq<Ptr>, threads: seq<Thread>)

  datatype Event = CallEnqueue(t: nat, v: Ptr) | CallDequeue(t: nat) | Step(t: nat)

  ghost predicate WellFormed(s: Ring) {
    |s.nodes| == s.mask + 1 < M && IsPow2(s.mask + 1)
  }

  predicate Enabled(s: Ring, e: Event) {
    && e.t < |s.threads|
    && (e.Step? <==> !s.threads[e.t].Idle?)
  }

  function Goto(s: Ring, t: nat, th: Thread): Ring
    requires t < |s.threads|
  {
    s.(threads := s.threads[t := th])
  }

  /** One step of an enqueuing thread. */
  function ProducerStep(s: Ring, t: nat): (r: Ring)
    requires |s.nodes| == s.mask + 1
    requires t < |s.threads|
  {
    match s.threads[t]
    case PReadHead(v) => Goto(s, t, PReadTail(v, s.pHead))
    case PReadTail(v, head) =>
      var availableCount := Sub(Add(s.mask, s.cTail), head);
      if availableCount < 1 then Goto(s, t, Idle(QueueFull)) else Goto(s, t, PCas(v, head))
    case PCas(v, head) =>
      if s.pHead == head then Goto(s.(pHead := Add(head, 1)), t, PStore(v, head))
      else Goto(s, t, PReadHead(v))
    case PStore(v, head) => Goto(s.(nodes := s.nodes[And(head, s.mask) := v]), t, PSpin(v, head))
    case PSpin(v, head) => if s.pTail != head then s else Goto(s, t, PLoad(v, head))
    case PLoad(v, head) => Goto(s, t, PPublish(v, head, s.pTail))
    case PPublish(v, head, tail) => Goto(s.(pTail := Add(tail, 1)), t, Idle(Enqueued))
    case _ => s
  }

  /** One step of a dequeuing thread. */
  function ConsumerStep(s: Ring, t: nat): (r: Ring)
    requires |s.nodes| == s.mask + 1
    requires t < |s.threads|
  {
    match s.threads[t]
    case CReadHead => Goto(s, t, CReadTail(s.cHead))
    case CReadTail(head) =>
      var availableCount := Sub(s.pTail, head);
      if availableCount < 1 then Goto(s, t, Idle(QueueEmpty)) else Goto(s, t, CCas(head))
    case CCas(head) =>
      if s.cHead == head then Goto(s.(cHead := Add(head, 1)), t, CFetch(head))
      else Goto(s, t, CReadHead)
    case CFetch(head) => Goto(s, t, CSpin(s.nodes[And(head, s.mask)], head))
    case CSpin(v, head) => if s.cTail != head then s else Goto(s, t, CLoad(v, head))
    case CLoad(v, head) => Goto(s, t, CPublish(v, head, s.cTail))
    case CPublish(v, head, tail) => Goto(s.(cTail := Add(tail, 1)), t, Idle(Dequeued(v)))
    case _ => s
  }

  predicate Producing(th: Thread) {
    th.PReadHead? || th.PReadTail? || th.PCas? || th.PStore? || th.PSpin? || th.PLoad? || th.PPublish?
  }

  /** The next shared state; an event that is not enabled changes nothing. */
  function Next(s: Ring, e: Event): Ring
    requires |s.nodes| == s.mask + 1
  {
    if !Enabled(s, e) then s
    else match e
      case CallEnqueue(t, v) => Goto(s, t, if v == 0 then Idle(QueueInval) else PReadHead(v))
      case CallDequeue(t) => Goto(s, t, CReadHead)
      case Step(t) => if Producing(s.threads[t]) then ProducerStep(s, t) else ConsumerStep(s, t)
  }

  /**
   What an observer writes down beside a run, all of it unbounded: the values in the order their
   tickets were claimed, the values in the order they were published and returned, who claimed
   each ticket, and for each thread the unwrapped counters it last read.
   */
  datatype Stamp = Stamp(head: nat, tail: nat)

  datatype History = History(claimed: seq<Ptr>, inn: seq<Ptr>, out: seq<Ptr>,
                             pOwner: seq<nat>, cOwner: seq<nat>, stamps: seq<Stamp>)
  {
    function PH(): nat { |claimed| }
    function PT(): nat { |inn| }
    function CH(): nat { |cOwner| }
    function CT(): nat { |out| }
  }

  datatype Conf = Conf(s: Ring, h: History)

  function Record(c: Conf, t: nat): History
    requires t < |c.s.threads| == |c.h.stamps|
  {
    var s, h := c.s, c.h;
    match s.threads[t]
    case PReadHead(v) => h.(stamps := h.stamps[t := Stamp(h.PH(), 0)])
    case PReadTail(v, head) => h.(stamps := h.stamps[t := Stamp(h.stamps[t].head, h.CT())])
    case PCas(v, head) =>
      if s.pHead == head then h.(claimed := h.claimed + [v], pOwner := h.pOwner + [t],
                                 stamps := h.stamps[t := Stamp(h.PH(), 0)])
      else h
    case PPublish(v, head, tail) => h.(inn := h.inn + [v])
    case CReadHead => h.(stamps := h.stamps[t := Stamp(h.CH(), 0)])
    case CReadTail(head) => h.(stamps := h.stamps[t := Stamp(h.stamps[t].head, h.PT())])
    case CCas(head) =>
      if s.cHead == head then h.(cOwner := h.cOwner + [t], stamps := h.stamps[t := Stamp(h.CH(), 0)])
      else h
    case CPublish(v, head, tail) => h.(out := h.out + [v])
    case _ => h
  }

  function NextConf(c: Conf, e: Event): (r: Conf)
    requires |c.s.nodes| == c.s.mask + 1 && |c.s.threads| == |c.h.stamps|
    ensures |r.s.nodes| == r.s.mask + 1 && |r.s.threads| == |r.h.stamps|
    ensures r.s == Next(c.s, e)
  {
    Conf(Next(c.s, e), if Enabled(c.s, e) && e.Step? then Record(c, e.t) else c.h)
  }

  /** QueueInit: counters at zero, n idle threads, slots holding anything. */
  function Initial(mask: u32, nodes: seq<Ptr>, n: nat): Conf {
    Conf(Ring(mask, 0, 0, 0, 0, nodes, seq(n, i => Idle(Fresh))),
         History([], [], [], [], [], seq(n, i => Stamp(0, 0))))
  }

  /** The configuration after the events of a run. */
  function Exec(c: Conf, es: seq<Event>): (r: Conf)
    requires |c.s.nodes| == c.s.mask + 1 && |c.s.threads| == |c.h.stamps|
    ensures |r.s.nodes| == r.s.mask + 1 && |r.s.threads| == |r.h.stamps|
  {
    if es == [] then c else NextConf(Exec(c, es[..|es| - 1]), es[|es| - 1])
  }

  /**
   A compare-and-swap is timely when fewer than 2^32 tickets were claimed since its thread read
   the head counter; a run is timely when all its compare-and-swaps are.
   */
  predicate TimelyStep(c: Conf, e: Event)
    requires |c.s.threads| == |c.h.stamps|
  {
    Enabled(c.s, e) && e.Step? ==>
      && (c.s.threads[e.t].PCas? ==> c.h.PH() - c.h.stamps[e.t].head < M)
      && (c.s.threads[e.t].CCas? ==> c.h.CH() - c.h.stamps[e.t].head < M)
  }

  predicate Timely(c: Conf, es: seq<Event>)
    requires |c.s.nodes| == c.s.mask + 1 && |c.s.threads| == |c.h.stamps|
  {
    es == [] || (Timely(c, es[..|es| - 1]) && TimelyStep(Exec(c, es[..|es| - 1]), es[|es| - 1]))
  }

  // ---------------------------------------------------------------- invariant

  predicate HoldsProducerTicket(th: Thread) {
    th.PStore? || th.PSpin? || th.PLoad? || th.PPublish?
  }

  predicate HoldsConsumerTicket(th: Thread) {
    th.CFetch? || th.CSpin? || th.CLoad? || th.CPublish?
  }

  /** The unwrapped counters stay ordered, and the 32-bit fields are their remainders. */
  ghost predicate Counters(c: Conf) {
    var s, h := c.s, c.h;
    && h.CT() <= h.CH() <= h.PT() <= h.PH() <= h.CT() + s.mask
    && s.pHead == h.PH() % M && s.pTail == h.PT() % M
    && s.cHead == h.CH() % M && s.cTail == h.CT() % M
    && |h.pOwner| == h.PH()
  }

  /** Published values entered in ticket order, returned values left in the same order. */
  ghost predicate Order(h: History) {
    h.inn <= h.claimed && h.out <= h.claimed
  }

  ghost predicate Slots(c: Conf)
    requires |c.s.nodes| == c.s.mask + 1
  {
    forall k: nat :: c.h.CT() <= k < c.h.PT() && k < c.h.PH() ==>
      c.s.nodes[And(k, c.s.mask)] == c.h.claimed[k]
  }

  ghost predicate ProducerOwners(c: Conf)
    requires |c.s.threads| == |c.h.stamps|
  {
    forall k: nat :: c.h.PT() <= k < |c.h.pOwner| ==>
      var t := c.h.pOwner[k];
      t < |c.s.threads| && HoldsProducerTicket(c.s.threads[t]) && c.h.stamps[t].head == k
  }

  ghost predicate ConsumerOwners(c: Conf)
    requires |c.s.threads| == |c.h.stamps|
  {
    forall k: nat :: c.h.CT() <= k < |c.h.cOwner| ==>
      var t := c.h.cOwner[k];
      t < |c.s.threads| && HoldsConsumerTicket(c.s.threads[t]) && c.h.stamps[t].head == k
  }

  /** What is known of a producing thread t with stamp st, at each of its program points. */
  ghost predicate ProducerPoint(th: Thread, st: Stamp, t: nat, mask: u32, nodes: seq<Ptr>,
                                claimed: seq<Ptr>, pOwner: seq<nat>, pt: nat, ct: nat)
    requires |nodes| == mask + 1
  {
    match th
    case PReadTail(v, head) => head == st.head % M && st.head <= |claimed|
    case PCas(v, head) =>
      && head == st.head % M && st.head <= |claimed|
      && st.tail <= ct && st.head <= st.tail + mask && (st.tail + mask - st.head) % M != 0
    case PStore(v, head) => ProducerTicket(st.head, t, v, head, claimed, pOwner, pt)
    case PSpin(v, head) =>
      ProducerTicket(st.head, t, v, head, claimed, pOwner, pt) && nodes[And(st.head, mask)] == v
    case PLoad(v, head) =>
      && ProducerTicket(st.head, t, v, head, claimed, pOwner, pt)
      && nodes[And(st.head, mask)] == v && st.head == pt
    case PPublish(v, head, tail) =>
      && ProducerTicket(st.head, t, v, head, claimed, pOwner, pt)
      && nodes[And(st.head, mask)] == v && st.head == pt && tail == pt % M
    case _ => true
  }

  ghost predicate ProducerTicket(n: nat, t: nat, v: Ptr, head: u32,
                                 claimed: seq<Ptr>, pOwner: seq<nat>, pt: nat)
  {
    pt <= n < |claimed| && n < |pOwner| && pOwner[n] == t && head == n % M && claimed[n] == v
  }

  ghost predicate ConsumerPoint(th: Thread, st: Stamp, t: nat,
                                claimed: seq<Ptr>, cOwner: seq<nat>, pt: nat, ct: nat)
  {
    match th
    case CReadTail(head) => head == st.head % M && st.head <= |cOwner|
    case CCas(head) =>
      && head == st.head % M && st.head <= |cOwner|
      && st.head <= st.tail <= pt && (st.tail - st.head) % M != 0
    case CFetch(head) => ConsumerTicket(st.head, t, head, claimed, cOwner, ct)
    case CSpin(v, head) =>
      ConsumerTicket(st.head, t, head, claimed, cOwner, ct) && claimed[st.head] == v
    case CLoad(v, head) =>
      && ConsumerTicket(st.head, t, head, claimed, cOwner, ct)
      && claimed[st.head] == v && st.head == ct
    case CPublish(v, head, tail) =>
      && ConsumerTicket(st.head, t, head, claimed, cOwner, ct)
      && claimed[st.head] == v && st.head == ct && tail == ct % M
    case _ => true
  }

  ghost predicate ConsumerTicket(n: nat, t: nat, head: u32,
                                 claimed: seq<Ptr>, cOwner: seq<nat>, ct: nat)
  {
    ct <= n < |cOwner| && n < |claimed| && cOwner[n] == t && head == n % M
  }

  ghost predicate ThreadPoint(c: Conf, t: nat)
    requires |c.s.nodes| == c.s.mask + 1 && t < |c.s.threads| == |c.h.stamps|
  {
    && ProducerPoint(c.s.threads[t], c.h.stamps[t], t, c.s.mask, c.s.nodes,
                     c.h.claimed, c.h.pOwner, c.h.PT(), c.h.CT())
    && ConsumerPoint(c.s.threads[t], c.h.stamps[t], t,
                     c.h.claimed, c.h.cOwner, c.h.PT(), c.h.CT())
  }

  ghost predicate Threads(c: Conf)
    requires |c.s.nodes| == c.s.mask + 1 && |c.s.threads| == |c.h.stamps|
  {
    forall t: nat :: t < |c.s.threads| ==> ThreadPoint(c, t)
  }

  ghost predicate Invariant(c: Conf) {
    && WellFormed(c.s)
    && |c.s.threads| == |c.h.stamps|
    && Counters(c) && Order(c.h) && Slots(c)
    && ProducerOwners(c) && ConsumerOwners(c) && Threads(c)
  }
}
