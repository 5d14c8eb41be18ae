/**
 The queue object and its thread-unsafe operations, proved against a plain sequence although the
 counters wrap at 2^32 and only their low bits select a slot.
 */
module RingQueueSequential {
  import opened Word32
  import opened RingQueue
  import opened RingQueueProofs

  const QUEUE_INVAL := -10
  const QUEUE_FULL := -9
  const QUEUE_EMPTY := -8

  /** The n values stored from ticket start on. */
  ghost function Window(nodes: seq<Ptr>, mask: u32, start: nat, n: nat): (r: seq<Ptr>)
    requires |nodes| == mask + 1
    ensures |r| == n
  {
    if n == 0 then [] else Window(nodes, mask, start, n - 1) + [nodes[And(start + n - 1, mask)]]
  }

  lemma {:induction false} WindowHead(nodes: seq<Ptr>, mask: u32, start: nat, n: nat)
    requires |nodes| == mask + 1 && n > 0
    ensures Window(nodes, mask, start, n) == [nodes[And(start, mask)]] + Window(nodes, mask, start + 1, n - 1)
  {
    if n > 1 {
      WindowHead(nodes, mask, start, n - 1);
      assert start + 1 + (n - 1) - 1 == start + n - 1;
    }
  }

  lemma AddRemainder(x: nat, i: nat)
    ensures (x % M + i) % M == (x + i) % M
  {
  }

  lemma {:induction false} WindowWraps(nodes: seq<Ptr>, mask: u32, start: nat, n: nat)
    requires |nodes| == mask + 1 < M && IsPow2(mask + 1)
    ensures Window(nodes, mask, start % M, n) == Window(nodes, mask, start, n)
  {
    if n > 0 {
      WindowWraps(nodes, mask, start, n - 1);
      var i := n - 1;
      AddRemainder(start, i);
      SlotOfWrapped(start % M + i, mask);
      SlotOfWrapped(start + i, mask);
    }
  }

  /** Writing one slot past a window that does not fill the ring leaves the window alone. */
  lemma {:induction false} WindowKept(nodes: seq<Ptr>, mask: u32, start: nat, n: nat, k: nat, v: Ptr)
    requires |nodes| == mask + 1 && IsPow2(mask + 1)
    requires n <= k <= mask
    ensures Window(nodes[And(start + k, mask) := v], mask, start, n) == Window(nodes, mask, start, n)
  {
    if n > 0 {
      WindowKept(nodes, mask, start, n - 1, k, v);
      SlotsDistinct(start + n - 1, start + k, mask);
    }
  }

  lemma {:induction false} WindowGrows(nodes: seq<Ptr>, mask: u32, start: nat, n: nat, v: Ptr)
    requires |nodes| == mask + 1 && IsPow2(mask + 1) && n <= mask
    ensures Window(nodes[And(start + n, mask) := v], mask, start, n + 1) == Window(nodes, mask, start, n) + [v]
  {
    WindowKept(nodes, mask, start, n, n, v);
  }

  lemma AndSmall(n: nat, mask: u32)
    requires IsPow2(mask + 1) && n <= mask
    ensures And(n, mask) == n
  {
    var k := Exponent(mask + 1);
    AndMask(n, k);
    SmallRemainder(n, Pow2(k));
  }

  /** The wrapped counters of an uncontended queue behave like its length. */
  lemma WrappedLength(p: u32, c: u32, mask: u32)
    requires Sub(p, c) <= mask
    ensures Sub(Add(mask, c), p) == mask - Sub(p, c)
    ensures Sub(p, c) < mask ==> Sub(Add(p, 1), c) == Sub(p, c) + 1
    ensures Sub(p, c) > 0 ==> Sub(p, Add(c, 1)) == Sub(p, c) - 1
  {
  }

  lemma WrapOnce(x: nat)
    requires M <= x < 2 * M
    ensures x % M == x - M
  {
  }

  lemma SlotAfterWrap(x: nat, mask: u32)
    requires IsPow2(mask + 1) && mask + 1 < M <= x < 2 * M
    ensures And(x - M, mask) == And(x, mask)
  {
    WrapOnce(x);
    SlotOfWrapped(x, mask);
  }

  lemma EnqueueWindow(nodes: seq<Ptr>, mask: u32, c: u32, p: u32, v: Ptr)
    requires |nodes| == mask + 1 < M && IsPow2(mask + 1) && Sub(p, c) < mask
    ensures Window(nodes[And(p, mask) := v], mask, c, Sub(p, c) + 1) == Window(nodes, mask, c, Sub(p, c)) + [v]
  {
    if p < c { SlotAfterWrap(p + M, mask); }
    WindowGrows(nodes, mask, c, Sub(p, c), v);
  }

  lemma DequeueWindow(nodes: seq<Ptr>, mask: u32, c: u32, n: nat)
    requires |nodes| == mask + 1 < M && IsPow2(mask + 1) && n > 0
    ensures Window(nodes, mask, c, n) == [nodes[And(c, mask)]] + Window(nodes, mask, Add(c, 1), n - 1)
  {
    WindowHead(nodes, mask, c, n);
    if c == M - 1 { WindowWraps(nodes, mask, M, n - 1); }
  }

  class LockFreeQueue {
    var mask: u32
    var pHead: u32
    var pTail: u32
    var cHead: u32
    var cTail: u32
    const nodes: array<Ptr>

    ghost predicate Valid()
      reads this
    {
      && nodes.Length == mask + 1 < M && IsPow2(mask + 1)
      && pHead == pTail && cHead == cTail
      && Sub(pTail, cTail) <= mask
    }

    /** The unread values, oldest first. */
    ghost function Contents(): (r: seq<Ptr>)
      requires Valid()
      reads this, nodes
    {
      Window(nodes[..], mask, cTail, Sub(pTail, cTail))
    }

    /** SoftBusCalloc: a zeroed header followed by unitNum slots. */
    constructor (unitNum: u32)
      ensures fresh(nodes) && nodes.Length == unitNum
    {
      nodes := new Ptr[unitNum];
      mask, pHead, pTail, cHead, cTail := 0, 0, 0, 0, 0;
    }

    /** Accepts zero and the powers of two; every accepted positive size yields an empty queue. */
    method QueueInit(unitNum: u32) returns (ret: int)
      requires nodes.Length == unitNum
      modifies this
      ensures ret == 0 <==> unitNum == 0 || IsPow2(unitNum)
      ensures ret == 0 || (ret == QUEUE_INVAL && unchanged(this))
      ensures ret == 0 && unitNum > 0 ==> Valid() && Contents() == [] && mask == unitNum - 1
    {
      PowerOfTwoTestExact(unitNum);
      if !PowerOfTwoTest(unitNum) {
        return QUEUE_INVAL;
      }
      mask := Sub(unitNum, 1);
      pHead, cHead, pTail, cTail := 0, 0, 0, 0;
      return 0;
    }

    /** A queue of unitNum slots holds at most unitNum - 1 values. */
    method QueueSingleProducerEnqueue(node: Ptr) returns (ret: int)
      requires Valid()
      modifies this, nodes
      ensures Valid() && mask == old(mask)
      ensures ret == (if node == 0 then QUEUE_INVAL else if |old(Contents())| == mask then QUEUE_FULL else 0)
      ensures Contents() == if ret == 0 then old(Contents()) + [node] else old(Contents())
    {
      if node == 0 {
        return QUEUE_INVAL;
      }
      var producerHead := pHead;
      var consumerTail := cTail;
      WrappedLength(pTail, cTail, mask);
      var availableCount := Sub(Add(mask, consumerTail), producerHead);
      if availableCount < 1 {
        return QUEUE_FULL;
      }
      var producerNext := Add(producerHead, 1);
      pHead := producerNext;
      EnqueueWindow(nodes[..], mask, cTail, pTail, node);
      nodes[And(producerHead, mask)] := node;
      pTail := producerNext;
      assert nodes[..] == old(nodes[..])[And(producerHead, mask) := node];
      return 0;
    }

    method QueueSingleConsumerDequeue() returns (ret: int, node: Ptr)
      requires Valid()
      modifies this
      ensures Valid() && mask == old(mask)
      ensures ret == if old(Contents()) == [] then QUEUE_EMPTY else 0
      ensures ret == 0 ==> old(Contents()) == [node] + Contents()
      ensures ret != 0 ==> Contents() == old(Contents())
    {
      var consumerHead := cHead;
      var producerTail := pTail;
      WrappedLength(pTail, cTail, mask);
      var availableCount := Sub(producerTail, consumerHead);
      if availableCount < 1 {
        return QUEUE_EMPTY, 0;
      }
      DequeueWindow(nodes[..], mask, cTail, Sub(pTail, cTail));
      var consumerNext := Add(consumerHead, 1);
      cHead := consumerNext;
      node := nodes[And(consumerHead, mask)];
      cTail := consumerNext;
      return 0, node;
    }

    /** Counts the unread values exactly, by masking a wrapped difference. */
    method QueueCountGet() returns (count: u32)
      requires Valid()
      ensures count == |Contents()|
    {
      count := And(Sub(pTail, cTail), mask);
      AndSmall(Sub(pTail, cTail), mask);
    }

    method QueueIsEmpty() returns (ret: int)
      requires Valid()
      ensures ret == if Contents() == [] then 0 else -1
    {
      AndSmall(Sub(pTail, cTail), mask);
      if And(Sub(pTail, cTail), mask) == 0 {
        return 0;
      }
      return -1;
    }
  }
}
