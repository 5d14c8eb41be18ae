/** Safety and progress of the ring over every timely run. */
module RingQueueProofs {
  import opened Word32
  import opened RingQueue

  // ---------------------------------------------------------------- slot indices

  lemma SlotOfWrapped(n: nat, mask: u32)
    requires IsPow2(mask + 1) && mask + 1 < M
    ensures And(n % M, mask) == And(n, mask)
  {
    var k := Exponent(mask + 1);
    Pow2BelowWord(k);
    AndMask(n, k);
    AndMask(n % M, k);
    ModOfMod(n, k);
  }

  lemma RemaindersDiffer(j: nat, k: nat, n: nat)
    requires j < k < j + n
    ensures j % n != k % n
  {
    var d := k / n - j / n;
    assert n * d == (k - j) - (k % n - j % n);
    assert d >= 1 ==> n * d >= n;
    assert d <= 0 ==> n * d <= 0;
  }

  /** Two tickets less than a whole ring apart never share a slot. */
  lemma SlotsDistinct(j: nat, k: nat, mask: u32)
    requires IsPow2(mask + 1)
    requires j < k <= j + mask
    ensures And(j, mask) != And(k, mask)
  {
    var x := Exponent(mask + 1);
    AndMask(j, x);
    AndMask(k, x);
    RemaindersDiffer(j, k, mask + 1);
  }

  lemma SameRemainder(j: nat, k: nat)
    requires j <= k < j + M && j % M == k % M
    ensures j == k
  {
  }

  /** The 32-bit availableCount of a producer is the unwrapped difference modulo 2^32. */
  lemma WrappedRoom(mask: u32, ct: nat, n: nat)
    ensures Sub(Add(mask, ct % M), n % M) == (ct + mask - n) % M
  {
  }

  lemma ExactRoom(mask: u32, ct: nat, n: nat)
    requires n <= ct + mask < n + M
    ensures Sub(Add(mask, ct % M), n % M) == ct + mask - n
  {
    WrappedRoom(mask, ct, n);
  }

  lemma WrappedCount(pt: nat, n: nat)
    ensures Sub(pt % M, n % M) == (pt - n) % M
  {
  }

  lemma CounterStep(n: nat)
    ensures Add(n % M, 1) == (n + 1) % M
  {
  }

  // ---------------------------------------------------------------- one step

  /** A producer's knowledge survives any later claims and any publishing of older tickets. */
  lemma ProducerPointKept(th: Thread, st: Stamp, j: nat, mask: u32, nodes: seq<Ptr>, claimed: seq<Ptr>,
                          pOwner: seq<nat>, pt: nat, ct: nat, nodes': seq<Ptr>, claimed': seq<Ptr>,
                          pOwner': seq<nat>, pt': nat, ct': nat)
    requires |nodes| == |nodes'| == mask + 1
    requires ProducerPoint(th, st, j, mask, nodes, claimed, pOwner, pt, ct)
    requires claimed <= claimed' && pOwner <= pOwner' && ct <= ct' && pt <= pt'
    requires HoldsProducerTicket(th) ==>
               pt' <= st.head && nodes'[And(st.head, mask)] == nodes[And(st.head, mask)]
    ensures ProducerPoint(th, st, j, mask, nodes', claimed', pOwner', pt', ct')
  {
  }

  lemma ConsumerPointKept(th: Thread, st: Stamp, j: nat, claimed: seq<Ptr>, cOwner: seq<nat>, pt: nat,
                          ct: nat, claimed': seq<Ptr>, cOwner': seq<nat>, pt': nat, ct': nat)
    requires ConsumerPoint(th, st, j, claimed, cOwner, pt, ct)
    requires claimed <= claimed' && cOwner <= cOwner' && ct <= ct' && pt <= pt'
    requires HoldsConsumerTicket(th) ==> ct' <= st.head
    ensures ConsumerPoint(th, st, j, claimed', cOwner', pt', ct')
  {
  }

  ghost predicate Sized(c: Conf) {
    |c.s.nodes| == c.s.mask + 1 && |c.s.threads| == |c.h.stamps|
  }

  /** From c to c' only thread t moved, and histories only grew. */
  ghost predicate Grows(c: Conf, c': Conf, t: nat) {
    && Sized(c) && Sized(c') && t < |c.s.threads| == |c'.s.threads|
    && c'.s.mask == c.s.mask
    && c'.s.threads == c.s.threads[t := c'.s.threads[t]]
    && c'.h.stamps == c.h.stamps[t := c'.h.stamps[t]]
    && c.h.claimed <= c'.h.claimed && c.h.pOwner <= c'.h.pOwner && c.h.cOwner <= c'.h.cOwner
    && c.h.PT() <= c'.h.PT() && c.h.CT() <= c'.h.CT()
  }

  lemma OthersKept(c: Conf, c': Conf, t: nat)
    requires Grows(c, c', t) && Threads(c) && ThreadPoint(c', t)
    requires forall j: nat :: j < |c.s.threads| && j != t && HoldsProducerTicket(c.s.threads[j]) ==>
      && c'.h.PT() <= c.h.stamps[j].head
      && c'.s.nodes[And(c.h.stamps[j].head, c.s.mask)] == c.s.nodes[And(c.h.stamps[j].head, c.s.mask)]
    requires forall j: nat :: j < |c.s.threads| && j != t && HoldsConsumerTicket(c.s.threads[j]) ==>
      c'.h.CT() <= c.h.stamps[j].head
    ensures Threads(c')
  {
    forall j: nat | j < |c'.s.threads| ensures ThreadPoint(c', j) {
      if j != t {
        assert ThreadPoint(c, j);
        ProducerPointKept(c.s.threads[j], c.h.stamps[j], j, c.s.mask, c.s.nodes, c.h.claimed, c.h.pOwner,
                          c.h.PT(), c.h.CT(), c'.s.nodes, c'.h.claimed, c'.h.pOwner, c'.h.PT(), c'.h.CT());
        ConsumerPointKept(c.s.threads[j], c.h.stamps[j], j, c.h.claimed, c.h.cOwner, c.h.PT(), c.h.CT(),
                          c'.h.claimed, c'.h.cOwner, c'.h.PT(), c'.h.CT());
      }
    }
  }

  /** Every thread past its claim is the recorded owner of its ticket, which is not published yet. */
  lemma HoldersOwn(c: Conf)
    requires Sized(c) && Threads(c)
    ensures forall j: nat :: j < |c.s.threads| && HoldsProducerTicket(c.s.threads[j]) ==>
      var n := c.h.stamps[j].head; c.h.PT() <= n < |c.h.pOwner| && n < c.h.PH() && c.h.pOwner[n] == j
    ensures forall j: nat :: j < |c.s.threads| && HoldsConsumerTicket(c.s.threads[j]) ==>
      var n := c.h.stamps[j].head; c.h.CT() <= n < |c.h.cOwner| && c.h.cOwner[n] == j
  {
    forall j: nat | j < |c.s.threads|
      ensures HoldsProducerTicket(c.s.threads[j]) ==>
        var n := c.h.stamps[j].head; c.h.PT() <= n < |c.h.pOwner| && n < c.h.PH() && c.h.pOwner[n] == j
      ensures HoldsConsumerTicket(c.s.threads[j]) ==>
        var n := c.h.stamps[j].head; c.h.CT() <= n < |c.h.cOwner| && c.h.cOwner[n] == j
    {
      assert ThreadPoint(c, j);
    }
  }

  /** A step that moves only its own thread, without taking or giving back a ticket. */
  lemma QuietMove(c: Conf, c': Conf, t: nat)
    requires Invariant(c) && t < |c.s.threads|
    requires |c'.s.threads| == |c'.h.stamps| == |c.s.threads|
    requires c'.s == c.s.(threads := c.s.threads[t := c'.s.threads[t]])
    requires c'.h == c.h.(stamps := c.h.stamps[t := c'.h.stamps[t]])
    requires HoldsProducerTicket(c.s.threads[t]) ==>
      HoldsProducerTicket(c'.s.threads[t]) && c'.h.stamps[t] == c.h.stamps[t]
    requires HoldsConsumerTicket(c.s.threads[t]) ==>
      HoldsConsumerTicket(c'.s.threads[t]) && c'.h.stamps[t] == c.h.stamps[t]
    requires ThreadPoint(c', t)
    ensures Invariant(c')
  {
    HoldersOwn(c);
    OthersKept(c, c', t);
  }

  lemma ProducerReads(c: Conf, t: nat)
    requires Invariant(c) && t < |c.s.threads|
    requires c.s.threads[t].PReadHead? || c.s.threads[t].PReadTail?
    ensures Invariant(NextConf(c, Step(t)))
  {
    assert ThreadPoint(c, t);
    WrappedRoom(c.s.mask, c.h.CT(), c.h.stamps[t].head);
    QuietMove(c, NextConf(c, Step(t)), t);
  }

  lemma ConsumerReads(c: Conf, t: nat)
    requires Invariant(c) && t < |c.s.threads|
    requires c.s.threads[t].CReadHead? || c.s.threads[t].CReadTail?
    ensures Invariant(NextConf(c, Step(t)))
  {
    assert ThreadPoint(c, t);
    WrappedCount(c.h.PT(), c.h.stamps[t].head);
    QuietMove(c, NextConf(c, Step(t)), t);
  }

  /** Waiting and loading the tail: only the holder of the oldest ticket moves on. */
  lemma ProducerWaits(c: Conf, t: nat)
    requires Invariant(c) && t < |c.s.threads|
    requires c.s.threads[t].PSpin? || c.s.threads[t].PLoad?
    ensures Invariant(NextConf(c, Step(t)))
  {
    assert ThreadPoint(c, t);
    if c.s.threads[t].PSpin? && c.s.pTail == c.s.threads[t].head {
      SameRemainder(c.h.PT(), c.h.stamps[t].head);
    }
    QuietMove(c, NextConf(c, Step(t)), t);
  }

  lemma ConsumerWaits(c: Conf, t: nat)
    requires Invariant(c) && t < |c.s.threads|
    requires c.s.threads[t].CSpin? || c.s.threads[t].CLoad?
    ensures Invariant(NextConf(c, Step(t)))
  {
    assert ThreadPoint(c, t);
    if c.s.threads[t].CSpin? && c.s.cTail == c.s.threads[t].head {
      SameRemainder(c.h.CT(), c.h.stamps[t].head);
    }
    QuietMove(c, NextConf(c, Step(t)), t);
  }

  /** A fetch reads the value that was enqueued under the same ticket. */
  lemma ConsumerFetches(c: Conf, t: nat)
    requires Invariant(c) && t < |c.s.threads| && c.s.threads[t].CFetch?
    ensures Invariant(NextConf(c, Step(t)))
  {
    assert ThreadPoint(c, t);
    SlotOfWrapped(c.h.stamps[t].head, c.s.mask);
    QuietMove(c, NextConf(c, Step(t)), t);
  }

  /** A successful claim of producer t, seen from outside. */
  ghost predicate ProducerClaim(c: Conf, c': Conf, t: nat) {
    && Sized(c) && t < |c.s.threads| && c.s.threads[t].PCas?
    && var v := c.s.threads[t].v;
    && c'.s == c.s.(pHead := Add(c.s.pHead, 1), threads := c.s.threads[t := PStore(v, c.s.pHead)])
    && c'.h == c.h.(claimed := c.h.claimed + [v], pOwner := c.h.pOwner + [t],
                    stamps := c.h.stamps[t := Stamp(c.h.PH(), 0)])
  }

  lemma ProducerClaimKeeps(c: Conf, c': Conf, t: nat)
    requires Invariant(c) && ProducerClaim(c, c', t)
    requires c.h.PH() < c.h.CT() + c.s.mask
    ensures Invariant(c')
  {
    CounterStep(c.h.PH());
    assert Counters(c');
    assert ThreadPoint(c', t);
    HoldersOwn(c);
    OthersKept(c, c', t);
  }

  /**
   The claim of a producer. The consumer tail it compared with may be stale and availableCount
   may have been anything; but when the swap succeeds the head it read is still current, and
   then the count it saw was a true lower bound on the free slots.
   */
  lemma ProducerClaims(c: Conf, t: nat)
    requires Invariant(c) && t < |c.s.threads| && c.s.threads[t].PCas?
    requires c.h.PH() - c.h.stamps[t].head < M
    ensures Invariant(NextConf(c, Step(t)))
  {
    var c' := NextConf(c, Step(t));
    assert ThreadPoint(c, t);
    if c.s.pHead != c.s.threads[t].head {
      QuietMove(c, c', t);
    } else {
      SameRemainder(c.h.stamps[t].head, c.h.PH());
      ProducerClaimKeeps(c, c', t);
    }
  }

  ghost predicate ConsumerClaim(c: Conf, c': Conf, t: nat) {
    && Sized(c) && t < |c.s.threads| && c.s.threads[t].CCas?
    && c'.s == c.s.(cHead := Add(c.s.cHead, 1), threads := c.s.threads[t := CFetch(c.s.cHead)])
    && c'.h == c.h.(cOwner := c.h.cOwner + [t], stamps := c.h.stamps[t := Stamp(c.h.CH(), 0)])
  }

  lemma ConsumerClaimKeeps(c: Conf, c': Conf, t: nat)
    requires Invariant(c) && ConsumerClaim(c, c', t)
    requires c.h.CH() < c.h.PT()
    ensures Invariant(c')
  {
    CounterStep(c.h.CH());
    assert Counters(c');
    assert ThreadPoint(c', t);
    HoldersOwn(c);
    OthersKept(c, c', t);
  }

  lemma ConsumerClaims(c: Conf, t: nat)
    requires Invariant(c) && t < |c.s.threads| && c.s.threads[t].CCas?
    requires c.h.CH() - c.h.stamps[t].head < M
    ensures Invariant(NextConf(c, Step(t)))
  {
    var c' := NextConf(c, Step(t));
    assert ThreadPoint(c, t);
    if c.s.cHead != c.s.threads[t].head {
      QuietMove(c, c', t);
    } else {
      SameRemainder(c.h.stamps[t].head, c.h.CH());
      ConsumerClaimKeeps(c, c', t);
    }
  }

  lemma OtherSlots(n: nat, lo: nat, hi: nat, mask: u32)
    requires IsPow2(mask + 1) && lo <= n < hi <= lo + mask
    ensures forall k: nat :: lo <= k < hi && k != n ==> And(k, mask) != And(n, mask)
  {
    forall k: nat | lo <= k < hi && k != n ensures And(k, mask) != And(n, mask) {
      if k < n { SlotsDistinct(k, n, mask); } else { SlotsDistinct(n, k, mask); }
    }
  }

  /** A store of producer t into the slot of its ticket n, seen from outside. */
  ghost predicate ProducerStore(c: Conf, c': Conf, t: nat, n: nat) {
    && Sized(c) && t < |c.s.threads| && c.s.threads[t].PStore? && n == c.h.stamps[t].head
    && var th := c.s.threads[t];
    && c'.s == c.s.(nodes := c.s.nodes[And(n, c.s.mask) := th.v], threads := c.s.threads[t := PSpin(th.v, th.head)])
    && c'.h == c.h
  }

  lemma ProducerStoreKeeps(c: Conf, c': Conf, t: nat, n: nat)
    requires Invariant(c) && ProducerStore(c, c', t, n)
    requires ThreadPoint(c, t)
    ensures Invariant(c')
  {
    OtherSlots(n, c.h.CT(), c.h.PH(), c.s.mask);
    HoldersOwn(c);
    assert ThreadPoint(c', t);
    OthersKept(c, c', t);
  }

  /** A store goes to a slot that no unread value and no other claimed ticket uses. */
  lemma ProducerStores(c: Conf, t: nat)
    requires Invariant(c) && t < |c.s.threads| && c.s.threads[t].PStore?
    ensures Invariant(NextConf(c, Step(t)))
  {
    assert ThreadPoint(c, t);
    SlotOfWrapped(c.h.stamps[t].head, c.s.mask);
    ProducerStoreKeeps(c, NextConf(c, Step(t)), t, c.h.stamps[t].head);
  }

  ghost predicate ProducerPublication(c: Conf, c': Conf, t: nat) {
    && Sized(c) && t < |c.s.threads| && c.s.threads[t].PPublish?
    && c'.s == c.s.(pTail := Add(c.s.pTail, 1), threads := c.s.threads[t := Idle(Enqueued)])
    && c'.h == c.h.(inn := c.h.inn + [c.s.threads[t].v])
  }

  lemma ProducerPublicationKeeps(c: Conf, c': Conf, t: nat)
    requires Invariant(c) && ProducerPublication(c, c', t)
    requires ThreadPoint(c, t)
    ensures Invariant(c')
  {
    CounterStep(c.h.PT());
    assert Counters(c');
    assert Order(c'.h);
    HoldersOwn(c);
    OthersKept(c, c', t);
  }

  lemma ProducerPublishes(c: Conf, t: nat)
    requires Invariant(c) && t < |c.s.threads| && c.s.threads[t].PPublish?
    ensures Invariant(NextConf(c, Step(t)))
  {
    assert ThreadPoint(c, t);
    ProducerPublicationKeeps(c, NextConf(c, Step(t)), t);
  }

  ghost predicate ConsumerPublication(c: Conf, c': Conf, t: nat) {
    && Sized(c) && t < |c.s.threads| && c.s.threads[t].CPublish?
    && var v := c.s.threads[t].v;
    && c'.s == c.s.(cTail := Add(c.s.cTail, 1), threads := c.s.threads[t := Idle(Dequeued(v))])
    && c'.h == c.h.(out := c.h.out + [v])
  }

  lemma ConsumerPublicationKeeps(c: Conf, c': Conf, t: nat)
    requires Invariant(c) && ConsumerPublication(c, c', t)
    requires ThreadPoint(c, t)
    ensures Invariant(c')
  {
    CounterStep(c.h.CT());
    assert Counters(c');
    assert Order(c'.h);
    HoldersOwn(c);
    OthersKept(c, c', t);
  }

  lemma ConsumerPublishes(c: Conf, t: nat)
    requires Invariant(c) && t < |c.s.threads| && c.s.threads[t].CPublish?
    ensures Invariant(NextConf(c, Step(t)))
  {
    assert ThreadPoint(c, t);
    ConsumerPublicationKeeps(c, NextConf(c, Step(t)), t);
  }

  /** Every timely event keeps the invariant. */
  lemma StepKeeps(c: Conf, e: Event)
    requires Invariant(c) && TimelyStep(c, e)
    ensures Invariant(NextConf(c, e))
  {
    if Enabled(c.s, e) {
      var t := e.t;
      if !e.Step? {
        QuietMove(c, NextConf(c, e), t);
      } else {
        match c.s.threads[t]
        case PReadHead(_) => ProducerReads(c, t);
        case PReadTail(_, _) => ProducerReads(c, t);
        case PCas(_, _) => ProducerClaims(c, t);
        case PStore(_, _) => ProducerStores(c, t);
        case PSpin(_, _) => ProducerWaits(c, t);
        case PLoad(_, _) => ProducerWaits(c, t);
        case PPublish(_, _, _) => ProducerPublishes(c, t);
        case CReadHead => ConsumerReads(c, t);
        case CReadTail(_) => ConsumerReads(c, t);
        case CCas(_) => ConsumerClaims(c, t);
        case CFetch(_) => ConsumerFetches(c, t);
        case CSpin(_, _) => ConsumerWaits(c, t);
        case CLoad(_, _) => ConsumerWaits(c, t);
        case CPublish(_, _, _) => ConsumerPublishes(c, t);
      }
    }
  }

  /** The invariant holds after every timely run of any number of threads. */
  lemma {:induction false} RunKeeps(c: Conf, es: seq<Event>)
    requires Invariant(c) && Timely(c, es)
    ensures Invariant(Exec(c, es))
  {
    if es != [] {
      RunKeeps(c, es[..|es| - 1]);
      StepKeeps(Exec(c, es[..|es| - 1]), es[|es| - 1]);
    }
  }

  // ---------------------------------------------------------------- whole runs

  lemma InitialInvariant(mask: u32, nodes: seq<Ptr>, n: nat)
    requires |nodes| == mask + 1 < M && IsPow2(mask + 1)
    ensures Invariant(Initial(mask, nodes, n))
  {
    var c := Initial(mask, nodes, n);
    forall t: nat | t < |c.s.threads| ensures ThreadPoint(c, t) {
    }
  }

  /**
   First in, first out, for every number of threads and every interleaving: what has been
   dequeued is a prefix of what has been enqueued, in the same order, and at most mask values
   lie between the two. The counters stay ordered although the code compares 32-bit values.
   */
  lemma FirstInFirstOut(mask: u32, nodes: seq<Ptr>, n: nat, es: seq<Event>)
    requires |nodes| == mask + 1 < M && IsPow2(mask + 1)
    requires Timely(Initial(mask, nodes, n), es)
    ensures
      var c := Exec(Initial(mask, nodes, n), es);
      && c.h.out <= c.h.inn <= c.h.claimed
      && |c.h.inn| - |c.h.out| <= mask
      && c.h.CT() <= c.h.CH() <= c.h.PT() <= c.h.PH() <= c.h.CT() + c.s.mask
  {
    InitialInvariant(mask, nodes, n);
    RunKeeps(Initial(mask, nodes, n), es);
    MaskKept(Initial(mask, nodes, n), es);
  }

  lemma {:induction false} MaskKept(c: Conf, es: seq<Event>)
    requires Sized(c)
    ensures Exec(c, es).s.mask == c.s.mask
  {
    if es != [] { MaskKept(c, es[..|es| - 1]); }
  }

  /** A value a dequeue is about to return is the one enqueued under its ticket. */
  lemma ReturnsItsTicket(c: Conf, t: nat)
    requires Invariant(c) && t < |c.s.threads| && c.s.threads[t].CPublish?
    ensures c.h.CT() < c.h.PT()
    ensures NextConf(c, Step(t)).s.threads[t] == Idle(Dequeued(c.h.claimed[c.h.CT()]))
    ensures NextConf(c, Step(t)).h.out == c.h.claimed[..c.h.CT() + 1]
  {
    assert ThreadPoint(c, t);
  }

  /**
   QUEUE_FULL is returned exactly when the head the thread read lies a full ring ahead of the
   consumer tail; that happens only at a moment when no slot is free.
   */
  lemma FullMeansFull(c: Conf, t: nat)
    requires Invariant(c) && t < |c.s.threads| && c.s.threads[t].PReadTail?
    ensures
      var full := NextConf(c, Step(t)).s.threads[t] == Idle(QueueFull);
      var head := c.h.stamps[t].head;
      && (full <==> (c.h.CT() + c.s.mask - head) % M == 0)
      && (c.h.PH() + c.s.mask - head < M ==> (full <==> head == c.h.CT() + c.s.mask) && (full ==> c.h.PH() == head))
  {
    assert ThreadPoint(c, t);
    WrappedRoom(c.s.mask, c.h.CT(), c.h.stamps[t].head);
    RoomBelow(c.h.CT() + c.s.mask - c.h.stamps[t].head);
  }

  lemma RoomBelow(n: int)
    ensures 0 <= n < M ==> (n % M == 0 <==> n == 0)
  {
  }

  /** QUEUE_EMPTY is returned only at a moment when every published value has been claimed. */
  lemma EmptyMeansEmpty(c: Conf, t: nat)
    requires Invariant(c) && t < |c.s.threads| && c.s.threads[t].CReadTail?
    ensures
      var empty := NextConf(c, Step(t)).s.threads[t] == Idle(QueueEmpty);
      var head := c.h.stamps[t].head;
      && (empty <==> (c.h.PT() - head) % M == 0)
      && (c.h.PT() - head < M ==> (empty <==> head == c.h.PT()) && (empty ==> c.h.CH() == head))
  {
    assert ThreadPoint(c, t);
    WrappedCount(c.h.PT(), c.h.stamps[t].head);
    RoomBelow(c.h.PT() - c.h.stamps[t].head);
  }

  predicate AtProducerTail(th: Thread) { th.PLoad? || th.PPublish? }

  predicate AtConsumerTail(th: Thread) { th.CLoad? || th.CPublish? }

  /** The plain tail increments never overlap: at most one thread of each side is at one. */
  lemma TailWritersExclude(c: Conf, i: nat, j: nat)
    requires Invariant(c) && i < |c.s.threads| && j < |c.s.threads|
    ensures AtProducerTail(c.s.threads[i]) && AtProducerTail(c.s.threads[j]) ==> i == j
    ensures AtConsumerTail(c.s.threads[i]) && AtConsumerTail(c.s.threads[j]) ==> i == j
  {
    assert ThreadPoint(c, i) && ThreadPoint(c, j);
  }

  // ---------------------------------------------------------------- progress

  lemma {:induction false} ExecCons(c: Conf, e: Event, es: seq<Event>)
    requires Sized(c)
    ensures Exec(c, [e] + es) == Exec(NextConf(c, e), es)
    ensures Timely(c, [e] + es) <==> TimelyStep(c, e) && Timely(NextConf(c, e), es)
  {
    var all := [e] + es;
    if es == [] {
      assert all[..|all| - 1] == [];
      assert Exec(c, []) == c;
    } else {
      ExecCons(c, e, es[..|es| - 1]);
      assert all[..|all| - 1] == [e] + es[..|es| - 1];
    }
  }

  /** How many more steps a ticket holder needs once its ticket is the oldest. */
  function StepsLeft(th: Thread): nat {
    match th
    case PStore(_, _) => 4
    case PSpin(_, _) => 3
    case PLoad(_, _) => 2
    case PPublish(_, _, _) => 1
    case CFetch(_) => 4
    case CSpin(_, _) => 3
    case CLoad(_, _) => 2
    case CPublish(_, _, _) => 1
    case _ => 0
  }

  /** From c to c' thread t went to th; no other thread moved, no stamp changed and nothing was claimed. */
  ghost predicate OnlyMoved(c: Conf, c': Conf, t: nat, th: Thread) {
    && t < |c.s.threads| && c'.s.threads == c.s.threads[t := th]
    && c'.h.stamps == c.h.stamps && c'.h.claimed == c.h.claimed
  }

  /** Every step of the holder of the oldest producer ticket brings it closer to publishing. */
  lemma OldestProducerMoves(c: Conf, t: nat)
    requires Invariant(c) && c.h.PT() < c.h.PH() && t == c.h.pOwner[c.h.PT()]
    ensures
      var c' := NextConf(c, Step(t));
      && StepsLeft(c'.s.threads[t]) == StepsLeft(c.s.threads[t]) - 1 < 4
      && c'.h.PH() == c.h.PH() && c'.h.CH() == c.h.CH() && c'.h.CT() == c.h.CT()
      && c'.h.pOwner == c.h.pOwner
      && c'.h.PT() == c.h.PT() + (if c.s.threads[t].PPublish? then 1 else 0)
      && c'.s.threads == c.s.threads[t := c'.s.threads[t]] && c'.h.stamps == c.h.stamps
      && c'.h.claimed == c.h.claimed && (c.s.threads[t].PPublish? ==> c'.s.threads[t] == Idle(Enqueued))
  {
    assert ThreadPoint(c, t);
  }

  lemma OldestConsumerMoves(c: Conf, t: nat, v: Ptr)
    requires Invariant(c) && c.h.CT() < c.h.CH() && t == c.h.cOwner[c.h.CT()] && v == c.h.claimed[c.h.CT()]
    ensures
      var c' := NextConf(c, Step(t));
      && StepsLeft(c'.s.threads[t]) == StepsLeft(c.s.threads[t]) - 1 < 4
      && c'.h.PH() == c.h.PH() && c'.h.CH() == c.h.CH() && c'.h.PT() == c.h.PT()
      && c'.h.cOwner == c.h.cOwner
      && c'.h.CT() == c.h.CT() + (if c.s.threads[t].CPublish? then 1 else 0)
      && c'.s.threads == c.s.threads[t := c'.s.threads[t]] && c'.h.stamps == c.h.stamps
      && c'.h.claimed == c.h.claimed
      && (c.s.threads[t].CPublish? ==> c'.s.threads[t] == Idle(Dequeued(v)))
  {
    assert ThreadPoint(c, t);
  }

  /** The holder of the oldest producer ticket is never blocked, and publishes within four steps. */
  lemma {:induction false} OldestProducerPublishes(c: Conf) returns (es: seq<Event>)
    requires Invariant(c) && c.h.PT() < c.h.PH()
    ensures |es| == StepsLeft(c.s.threads[c.h.pOwner[c.h.PT()]]) <= 4
    ensures forall e :: e in es ==> e == Step(c.h.pOwner[c.h.PT()])
    ensures Timely(c, es) && Invariant(Exec(c, es))
    ensures
      var h := Exec(c, es).h;
      h.PT() == c.h.PT() + 1 && h.PH() == c.h.PH() && h.CH() == c.h.CH() && h.CT() == c.h.CT()
    ensures OnlyMoved(c, Exec(c, es), c.h.pOwner[c.h.PT()], Idle(Enqueued))
    decreases StepsLeft(c.s.threads[c.h.pOwner[c.h.PT()]])
  {
    var t := c.h.pOwner[c.h.PT()];
    var c' := NextConf(c, Step(t));
    OldestProducerMoves(c, t);
    StepKeeps(c, Step(t));
    if c.s.threads[t].PPublish? {
      es := [];
      assert Exec(c', []) == c';
    } else {
      es := OldestProducerPublishes(c');
    }
    ExecCons(c, Step(t), es);
    es := [Step(t)] + es;
  }

  lemma {:induction false} OldestConsumerPublishes(c: Conf, v: Ptr) returns (es: seq<Event>)
    requires Invariant(c) && c.h.CT() < c.h.CH() && v == c.h.claimed[c.h.CT()]
    ensures |es| == StepsLeft(c.s.threads[c.h.cOwner[c.h.CT()]]) <= 4
    ensures forall e :: e in es ==> e == Step(c.h.cOwner[c.h.CT()])
    ensures Timely(c, es) && Invariant(Exec(c, es))
    ensures
      var h := Exec(c, es).h;
      h.CT() == c.h.CT() + 1 && h.CH() == c.h.CH() && h.PH() == c.h.PH() && h.PT() == c.h.PT()
    ensures OnlyMoved(c, Exec(c, es), c.h.cOwner[c.h.CT()], Idle(Dequeued(v)))
    decreases StepsLeft(c.s.threads[c.h.cOwner[c.h.CT()]])
  {
    var t := c.h.cOwner[c.h.CT()];
    var c' := NextConf(c, Step(t));
    OldestConsumerMoves(c, t, v);
    StepKeeps(c, Step(t));
    if c.s.threads[t].CPublish? {
      es := [];
      assert Exec(c', []) == c';
    } else {
      es := OldestConsumerPublishes(c', v);
    }
    ExecCons(c, Step(t), es);
    es := [Step(t)] + es;
  }

  lemma {:induction false} ExecAppend(c: Conf, a: seq<Event>, b: seq<Event>)
    requires Sized(c)
    ensures Exec(c, a + b) == Exec(Exec(c, a), b)
    ensures Timely(c, a + b) <==> Timely(c, a) && Timely(Exec(c, a), b)
  {
    if b == [] {
      assert a + b == a;
    } else {
      ExecAppend(c, a, b[..|b| - 1]);
      assert (a + b)[..|a + b| - 1] == a + b[..|b| - 1];
    }
  }

  /** No deadlock: from every reachable configuration all waiting operations can complete. */
  lemma {:induction false} EveryWaiterCanFinish(c: Conf) returns (es: seq<Event>)
    requires Invariant(c)
    ensures Timely(c, es) && Invariant(Exec(c, es))
    ensures var h := Exec(c, es).h; h.PT() == h.PH() && h.CT() == h.CH()
    ensures forall t: nat :: t < |Exec(c, es).s.threads| ==>
      !HoldsProducerTicket(Exec(c, es).s.threads[t]) && !HoldsConsumerTicket(Exec(c, es).s.threads[t])
    decreases c.h.PH() - c.h.PT() + c.h.CH() - c.h.CT()
  {
    if c.h.PT() == c.h.PH() && c.h.CT() == c.h.CH() {
      es := [];
      HoldersOwn(c);
    } else {
      var first;
      if c.h.PT() < c.h.PH() {
        first := OldestProducerPublishes(c);
      } else {
        first := OldestConsumerPublishes(c, c.h.claimed[c.h.CT()]);
      }
      var rest := EveryWaiterCanFinish(Exec(c, first));
      ExecAppend(c, first, rest);
      es := first + rest;
    }
  }
}
