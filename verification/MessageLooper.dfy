/** The looper object: its operations on the linked list, proved against the state of the looper. */
module MessageLooper {
  import opened Basics
  import opened CommonList
  import opened Looper

  const HEAD := Message(0, 0, 0, None)

  /** The position of the first message that is later than m. */
  function FirstLater(s: seq<Message>, m: Message): (r: nat)
    ensures r <= |s|
    ensures r < |s| ==> s[r].time > m.time
    ensures forall i: nat :: i < r ==> s[i].time <= m.time
  {
    if s == [] || s[0].time > m.time then 0 else 1 + FirstLater(s[1..], m)
  }

  lemma {:induction false} InsertAtFirstLater(s: seq<Message>, m: Message)
    ensures InsertByTime(s, m) == Insert(s, FirstLater(s, m), m)
  {
    if s != [] && s[0].time <= m.time {
      InsertAtFirstLater(s[1..], m);
      assert Insert(s, FirstLater(s, m), m) == [s[0]] + Insert(s[1..], FirstLater(s[1..], m), m);
    }
  }

  lemma FirstLaterIs(s: seq<Message>, m: Message, k: nat)
    requires k <= |s| && (forall i: nat :: i < k ==> s[i].time <= m.time) && (k < |s| ==> s[k].time > m.time)
    ensures FirstLater(s, m) == k
  {
  }

  lemma InsertedEntries(ring: seq<ListNode<Message>>, k: nat, node: ListNode<Message>)
    requires 0 < k <= |ring|
    ensures Entries(Insert(ring, k, node)[1..]) == Insert(Entries(ring[1..]), k - 1, node.entry)
  {
  }

  lemma RemovedEntries(ring: seq<ListNode<Message>>)
    requires |ring| > 1
    ensures Entries(Without(ring, 1)[1..]) == Entries(ring[1..])[1..]
  {
  }

  /** A list of messages behind its head node. */
  ghost predicate MessageList(head: ListNode<Message>, ring: seq<ListNode<Message>>)
    reads set n | n in ring
  {
    Ring(ring) && ring[0] == head
  }

  /** The search of PostMessageAtTime: the node to insert before, the head if no message is later. */
  method FindPlace(head: ListNode<Message>, m: Message, ghost ring: seq<ListNode<Message>>)
    returns (item: ListNode<Message>, ghost k: nat)
    requires MessageList(head, ring)
    ensures 0 < k <= |ring| && k - 1 == FirstLater(Entries(ring[1..]), m)
    ensures item == if k < |ring| then ring[k] else head
  {
    assert LinkedAt(ring, 0);
    item, k := head.next, 1;
    while item != head
      invariant 0 < k <= |ring| && item == if k < |ring| then ring[k] else head
      invariant forall i: nat :: 0 < i < k ==> ring[i].entry.time <= m.time
      decreases |ring| - k
    {
      if item.entry.time > m.time {
        break;
      }
      assert LinkedAt(ring, k);
      item, k := item.next, k + 1;
    }
    FirstLaterIs(Entries(ring[1..]), m, k - 1);
  }

  /** The insertion of PostMessageAtTime. */
  method InsertMessage(head: ListNode<Message>, m: Message, ghost ring: seq<ListNode<Message>>)
    returns (ghost ring': seq<ListNode<Message>>)
    requires MessageList(head, ring)
    modifies set n | n in ring
    ensures MessageList(head, ring') && Entries(ring'[1..]) == InsertByTime(Entries(ring[1..]), m)
    ensures forall n :: n in ring' ==> n in ring || fresh(n)
  {
    var newNode := new ListNode(m);
    var item, k := FindPlace(head, m, ring);
    InsertAtFirstLater(Entries(ring[1..]), m);
    InsertedEntries(ring, k, newNode);
    ListTailInsert(item, newNode, ring, if k < |ring| then k else 0);
    ring' := Insert(ring, k, newNode);
  }

  /** Takes the first node off the list. */
  method DeleteFirst(head: ListNode<Message>, ghost ring: seq<ListNode<Message>>)
    returns (m: Message, ghost ring': seq<ListNode<Message>>)
    requires MessageList(head, ring) && |ring| > 1
    modifies set n | n in ring
    ensures MessageList(head, ring') && Entries(ring[1..]) == [m] + Entries(ring'[1..])
    ensures forall n :: n in ring' ==> n in ring
  {
    assert LinkedAt(ring, 0);
    var item := head.next;
    ListDelete(item, ring, 1);
    RemovedEntries(ring);
    m, ring' := item.entry, Without(ring, 1);
  }

  /** The removal loops of LoopRemoveMessageCustom and DestroyLooper. */
  method DeleteAll(head: ListNode<Message>, match_: Message -> bool, ghost ring: seq<ListNode<Message>>)
    returns (removed: seq<Message>, ghost ring': seq<ListNode<Message>>)
    requires MessageList(head, ring)
    modifies set n | n in ring
    ensures MessageList(head, ring') && removed == Filter(Entries(ring[1..]), match_)
    ensures Entries(ring'[1..]) == Filter(Entries(ring[1..]), Not(match_))
    ensures forall n :: n in ring' ==> n in ring
  {
    ghost var visited;
    removed, visited := DeleteMatching(head, match_, ring);
    KeepIsFilter(ring[1..], match_);
    ring' := [head] + Keep(ring[1..], match_);
    assert ring'[1..] == Keep(ring[1..], match_);
  }

  /** The same when every node goes. */
  method DeleteEvery(head: ListNode<Message>, ghost ring: seq<ListNode<Message>>)
    returns (removed: seq<Message>, ghost ring': seq<ListNode<Message>>)
    requires MessageList(head, ring)
    modifies set n | n in ring
    ensures MessageList(head, ring') && removed == Entries(ring[1..]) && Entries(ring'[1..]) == []
    ensures forall n :: n in ring' ==> n in ring
  {
    EveryMessage(Entries(ring[1..]));
    removed, ring' := DeleteAll(head, Always, ring);
  }

  class MessageLooper {
    const head: ListNode<Message>
    var msgSize: nat
    var currentMsg: Option<Message>
    var stop: bool
    var running: bool
    ghost var ring: seq<ListNode<Message>>
    ghost var freed: seq<Message>
    ghost var posted: nat
    ghost var started: bool
    ghost var gone: bool

    ghost predicate Valid()
      reads this, set n | n in ring
    {
      MessageList(head, ring)
    }

    ghost function State(): State
      reads this
      requires ring != []
    {
      Looper.State(Entries(ring[1..]), currentMsg, freed, stop, running, msgSize, posted, started, gone)
    }

    /** CreateNewLooper, whose thread has not run yet. */
    constructor ()
      ensures Valid() && State() == START && forall n :: n in ring ==> fresh(n)
    {
      head := new ListNode(HEAD);
      msgSize, currentMsg, stop, running := 0, None, false, false;
      freed, posted, started, gone := [], 0, false, false;
      new;
      ring := [head];
      assert LinkedAt(ring, 0);
    }

    /** The beginning of LoopTask. */
    method EnterLoop()
      requires Valid() && !started
      modifies this
      ensures Valid() && State() == StartStep(old(State())) && ring == old(ring)
    {
      running := true;
      started := true;
    }

    method PostMessageAtTime(m: Message)
      requires Valid()
      modifies this, set n | n in ring
      ensures Valid() && State() == PostStep(old(State()), m)
      ensures forall n :: n in ring ==> n in old(ring) || fresh(n)
    {
      posted := posted + 1;
      if m.handler.None? {
        freed := freed + [m];
        return;
      }
      if stop {
        freed := freed + [m];
        return;
      }
      ring := InsertMessage(head, m, ring);
      msgSize := CountUp(msgSize);
    }

    method LoopRemoveMessageCustom(match_: Message -> bool)
      requires Valid()
      modifies this, set n | n in ring
      ensures Valid() && State() == RemoveStep(old(State()), match_)
      ensures forall n :: n in ring ==> n in old(ring)
    {
      if !running || stop {
        return;
      }
      ghost var pending := Entries(ring[1..]);
      var removed;
      removed, ring := DeleteAll(head, match_, ring);
      assert removed == Filter(pending, match_) && Entries(ring[1..]) == Filter(pending, Not(match_));
      freed := freed + removed;
      msgSize := CountDown(msgSize, |removed|);
    }

    /** One round of LoopTask up to the call of the handler. */
    method TakeNext(now: nat) returns (msg: Option<Message>)
      requires Valid() && currentMsg == None
      modifies this, set n | n in ring
      ensures Valid() && State() == TakeStep(old(State()), now) && msg == currentMsg
      ensures forall n :: n in ring ==> n in old(ring)
    {
      EmptyMeansAlone(ring);
      if !running || stop || IsListEmpty(head) {
        return None;
      }
      assert LinkedAt(ring, 0);
      if now < head.next.entry.time {
        return None;
      }
      var first;
      first, ring := DeleteFirst(head, ring);
      msgSize := CountDown(msgSize, 1);
      currentMsg := Some(first);
      msg := currentMsg;
    }

    /** The end of the round: free the handled message. */
    method FinishCurrent()
      requires Valid()
      modifies this
      ensures Valid() && State() == FinishStep(old(State())) && ring == old(ring)
    {
      if currentMsg.Some? {
        freed := freed + [currentMsg.value];
        currentMsg := None;
      }
    }

    /** The draining loop of DestroyLooper. */
    method ReleaseMessages()
      requires Valid() && stop && !running
      modifies this, set n | n in ring
      ensures Valid() && State() == DrainStep(old(State()))
    {
      var removed;
      removed, ring := DeleteEvery(head, ring);
      freed := freed + removed;
      gone := true;
    }
  }

  predicate Always(m: Message) { true }

  lemma {:induction false} EveryMessage(s: seq<Message>)
    ensures Filter(s, Always) == s && Filter(s, Not(Always)) == []
  {
    if s != [] {
      EveryMessage(s[..|s| - 1]);
    }
  }
}
