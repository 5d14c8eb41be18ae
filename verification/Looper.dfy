/**
 The message looper: a list of messages ordered by due time, filled by posts, thinned by removals
 and emptied by one dispatching thread. Each critical section is one event.
 */
module Looper {
  import opened Basics
  import opened CommonList

  const UINT32 := 0x1_0000_0000

  /** A message; id is the number of posts that were made before its own. */
  datatype Message = Message(id: nat, time: nat, what: int, handler: Option<int>)

  /**
   A looper, with what it was given and what it has freed. started says that its thread has reached
   the loop, gone that DestroyLooper has released it.
   */
  datatype State = State(pending: seq<Message>, current: Option<Message>, freed: seq<Message>,
                         stop: bool, running: bool, msgSize: nat, posted: nat,
                         started: bool, gone: bool)

  datatype Event =
    | Start
    | Post(m: Message)
    | Remove(match_: Message -> bool)
    | Take(now: nat)
    | Finish
    | Stop
    | Exit
    | Drain

  /** Behind every message that is not later: among equal times the newcomer comes last. */
  function InsertByTime(s: seq<Message>, m: Message): (r: seq<Message>)
    ensures |r| == |s| + 1
  {
    if s == [] then [m]
    else if s[0].time > m.time then [m] + s
    else [s[0]] + InsertByTime(s[1..], m)
  }

  /** msgSize++ and k times msgSize--, on an unsigned 32-bit counter. */
  function CountUp(size: nat): nat {
    if size == UINT32 - 1 then 0 else size + 1
  }

  function CountDown(size: nat, k: nat): nat {
    if k == 0 then size
    else var n := CountDown(size, k - 1); if n == 0 then UINT32 - 1 else n - 1
  }

  /** The thread of the looper reaches LoopTask, some time after CreateNewLooper has returned. */
  function StartStep(s: State): State {
    if s.started then s else s.(running := true, started := true)
  }

  /** PostMessageAtTime. */
  function PostStep(s: State, m: Message): State {
    var s1 := s.(posted := s.posted + 1);
    if m.handler.None? || s.stop then s1.(freed := s1.freed + [m])
    else s1.(pending := InsertByTime(s.pending, m), msgSize := CountUp(s.msgSize))
  }

  /** LoopRemoveMessageCustom. */
  function RemoveStep(s: State, p: Message -> bool): State {
    if !s.running || s.stop then s
    else
      var gone := Filter(s.pending, p);
      s.(pending := Filter(s.pending, Not(p)), freed := s.freed + gone,
         msgSize := CountDown(s.msgSize, |gone|))
  }

  /** The locked part of a round of LoopTask that finds the first message due. */
  function TakeStep(s: State, now: nat): State {
    if !s.running || s.stop || s.current.Some? || s.pending == [] || now < s.pending[0].time then s
    else s.(pending := s.pending[1..], current := Some(s.pending[0]), msgSize := CountDown(s.msgSize, 1))
  }

  /** The end of the round: the handler is done and the message is freed. */
  function FinishStep(s: State): State {
    if s.current.None? then s else s.(current := None, freed := s.freed + [s.current.value])
  }

  /** The loop leaves when it sees the stop flag between two messages. */
  function ExitStep(s: State): State {
    if s.stop && s.current.None? then s.(running := false) else s
  }

  /** DestroyLooper once the loop is no longer running. */
  function DrainStep(s: State): State {
    if s.stop && !s.running then s.(pending := [], freed := s.freed + s.pending, gone := true) else s
  }

  /** One event; nothing happens to a looper that is gone. */
  function Next(s: State, e: Event): State {
    if s.gone then s
    else match e
    case Start => StartStep(s)
    case Post(m) => PostStep(s, m)
    case Remove(p) => RemoveStep(s, p)
    case Take(now) => TakeStep(s, now)
    case Finish => FinishStep(s)
    case Stop => s.(stop := true)
    case Exit => ExitStep(s)
    case Drain => DrainStep(s)
  }

  const START := State([], None, [], false, false, 0, 0, false, false)

  function Run(s: State, es: seq<Event>): State {
    if es == [] then s else Next(Run(s, es[..|es| - 1]), es[|es| - 1])
  }

  /** The posts of the run carry the numbers 0, 1, 2 and so on. */
  predicate Numbered(s: State, es: seq<Event>) {
    es == [] ||
    (Numbered(s, es[..|es| - 1]) &&
     (es[|es| - 1].Post? ==> es[|es| - 1].m.id == Run(s, es[..|es| - 1]).posted))
  }

  // ---------------------------------------------------------------- order

  /** Earlier due time first; among equal times, earlier post first. */
  predicate Precedes(a: Message, b: Message) {
    a.time < b.time || (a.time == b.time && a.id < b.id)
  }

  ghost predicate Sorted(s: seq<Message>) {
    forall i: nat, j: nat :: i < j < |s| ==> Precedes(s[i], s[j])
  }

  lemma {:induction false} InsertMembers(s: seq<Message>, m: Message)
    ensures forall x :: x in InsertByTime(s, m) <==> x in s || x == m
  {
    if s != [] && s[0].time <= m.time {
      InsertMembers(s[1..], m);
    }
  }

  lemma {:induction false} InsertSorted(s: seq<Message>, m: Message)
    requires Sorted(s) && forall x :: x in s ==> x.id < m.id
    ensures Sorted(InsertByTime(s, m))
  {
    if s != [] && s[0].time <= m.time {
      InsertSorted(s[1..], m);
      InsertMembers(s[1..], m);
      var r := InsertByTime(s[1..], m);
      forall j: nat | j < |r| ensures Precedes(s[0], r[j]) {
        assert r[j] in r;
      }
    } else if s != [] {
      forall j: nat | j < |s| ensures Precedes(m, s[j]) {
        assert j > 0 ==> Precedes(s[0], s[j]);
      }
    }
  }

  lemma {:induction false} FilterMembers(s: seq<Message>, p: Message -> bool)
    ensures forall x :: x in Filter(s, p) <==> x in s && p(x)
  {
    if s != [] {
      FilterMembers(s[..|s| - 1], p);
    }
  }

  lemma {:induction false} FilterSorted(s: seq<Message>, p: Message -> bool)
    requires Sorted(s)
    ensures Sorted(Filter(s, p))
  {
    if s != [] {
      var t := s[..|s| - 1];
      FilterSorted(t, p);
      FilterMembers(t, p);
      var f := Filter(t, p);
      forall i: nat | i < |f| ensures Precedes(f[i], s[|s| - 1]) {
        assert f[i] in f;
      }
    }
  }

  // ---------------------------------------------------------------- ownership

  /** How often the message with number k occurs. */
  function Count(s: seq<Message>, k: nat): nat {
    if s == [] then 0 else Count(s[..|s| - 1], k) + (if s[|s| - 1].id == k then 1 else 0)
  }

  function Current(s: State): seq<Message> {
    if s.current.Some? then [s.current.value] else []
  }

  /** In how many places the message with number k is. */
  function Places(s: State, k: nat): nat {
    Count(s.pending, k) + Count(Current(s), k) + Count(s.freed, k)
  }

  lemma CountOne(m: Message, k: nat)
    ensures Count([m], k) == if m.id == k then 1 else 0
  {
    assert [m][..0] == [];
  }

  lemma {:induction false} CountConcat(a: seq<Message>, b: seq<Message>, k: nat)
    ensures Count(a + b, k) == Count(a, k) + Count(b, k)
  {
    if b == [] {
      assert a + b == a;
    } else {
      CountConcat(a, b[..|b| - 1], k);
      assert (a + b)[..|a + b| - 1] == a + b[..|b| - 1];
    }
  }

  lemma CountCons(s: seq<Message>, k: nat)
    requires s != []
    ensures Count(s, k) == (if s[0].id == k then 1 else 0) + Count(s[1..], k)
  {
    CountOne(s[0], k);
    CountConcat([s[0]], s[1..], k);
    assert s == [s[0]] + s[1..];
  }

  lemma {:induction false} CountInsert(s: seq<Message>, m: Message, k: nat)
    ensures Count(InsertByTime(s, m), k) == Count(s, k) + (if m.id == k then 1 else 0)
  {
    var r := InsertByTime(s, m);
    CountCons(r, k);
    if s != [] && s[0].time <= m.time {
      CountInsert(s[1..], m, k);
      CountCons(s, k);
      assert r[1..] == InsertByTime(s[1..], m);
    } else {
      assert r[1..] == s;
    }
  }

  lemma {:induction false} CountFilter(s: seq<Message>, p: Message -> bool, k: nat)
    ensures Count(Filter(s, p), k) + Count(Filter(s, Not(p)), k) == Count(s, k)
  {
    if s != [] {
      var t, last := s[..|s| - 1], s[|s| - 1];
      CountFilter(t, p, k);
      CountOne(last, k);
      CountConcat(Filter(t, p), if p(last) then [last] else [], k);
      CountConcat(Filter(t, Not(p)), if p(last) then [] else [last], k);
    }
  }

  lemma {:induction false} FilterLength(s: seq<Message>, p: Message -> bool)
    ensures |Filter(s, p)| + |Filter(s, Not(p))| == |s|
  {
    if s != [] { FilterLength(s[..|s| - 1], p); }
  }

  lemma {:induction false} CountMember(s: seq<Message>, x: Message)
    requires x in s
    ensures Count(s, x.id) > 0
  {
    if x in s[..|s| - 1] { CountMember(s[..|s| - 1], x); }
  }

  // ---------------------------------------------------------------- the invariant

  /** Every message handed to a post is in exactly one of pending, current and freed. */
  ghost predicate Conserved(s: State) {
    forall k: nat :: Places(s, k) == if k < s.posted then 1 else 0
  }

  ghost predicate Invariant(s: State) {
    && Sorted(s.pending) && Conserved(s)
    && (!s.running ==> s.current == None) && (s.started && !s.running ==> s.stop)
    // a looper is released only when its loop has ended and its list is empty
    && (s.gone ==> s.stop && !s.running && s.pending == []) && (s.running ==> s.started)
    // DestroyLooper does not count the drained messages down
    && (!s.gone ==> s.msgSize == |s.pending| % UINT32)
  }

  lemma SizeUp(n: nat)
    ensures CountUp(n % UINT32) == (n + 1) % UINT32
  {
  }

  lemma {:induction false} SizeDown(n: nat, k: nat)
    requires k <= n
    ensures CountDown(n % UINT32, k) == (n - k) % UINT32
  {
    if k > 0 { SizeDown(n, k - 1); }
  }

  lemma PostKeeps(s: State, m: Message)
    requires Invariant(s) && m.id == s.posted && !s.gone
    ensures Invariant(PostStep(s, m))
  {
    var s' := PostStep(s, m);
    forall k: nat ensures Places(s', k) == Places(s, k) + (if m.id == k then 1 else 0) {
      CountOne(m, k);
      CountConcat(s.freed, [m], k);
      CountInsert(s.pending, m, k);
    }
    if s.pending != s'.pending {
      forall x | x in s.pending ensures x.id < m.id {
        CountMember(s.pending, x);
        assert Places(s, x.id) > 0;
      }
      InsertSorted(s.pending, m);
      SizeUp(|s.pending|);
    }
  }

  lemma RemoveKeeps(s: State, p: Message -> bool)
    requires Invariant(s)
    ensures Invariant(RemoveStep(s, p))
  {
    if s.running && !s.stop {
      var s' := RemoveStep(s, p);
      forall k: nat ensures Places(s', k) == Places(s, k) {
        CountFilter(s.pending, p, k);
        CountConcat(s.freed, Filter(s.pending, p), k);
      }
      FilterSorted(s.pending, Not(p));
      FilterLength(s.pending, p);
      SizeDown(|s.pending|, |Filter(s.pending, p)|);
    }
  }

  lemma TakeKeeps(s: State, now: nat)
    requires Invariant(s)
    ensures Invariant(TakeStep(s, now))
  {
    var s' := TakeStep(s, now);
    if s'.current != s.current {
      forall k: nat ensures Places(s', k) == Places(s, k) {
        CountCons(s.pending, k);
        CountOne(s.pending[0], k);
      }
      SizeDown(|s.pending|, 1);
    }
  }

  lemma FinishKeeps(s: State)
    requires Invariant(s)
    ensures Invariant(FinishStep(s))
  {
    if s.current.Some? {
      forall k: nat ensures Places(FinishStep(s), k) == Places(s, k) {
        CountConcat(s.freed, [s.current.value], k);
      }
    }
  }

  lemma DrainKeeps(s: State)
    requires Invariant(s)
    ensures Invariant(DrainStep(s))
  {
    forall k: nat ensures Places(DrainStep(s), k) == Places(s, k) {
      CountConcat(s.freed, s.pending, k);
    }
  }

  lemma StepKeeps(s: State, e: Event)
    requires Invariant(s) && (e.Post? ==> e.m.id == s.posted)
    ensures Invariant(Next(s, e))
  {
    if !s.gone {
      match e
      case Start => SameParts(s, StartStep(s));
      case Post(m) => PostKeeps(s, m);
      case Remove(p) => RemoveKeeps(s, p);
      case Take(now) => TakeKeeps(s, now);
      case Finish => FinishKeeps(s);
      case Stop => SameParts(s, s.(stop := true));
      case Exit => SameParts(s, ExitStep(s));
      case Drain => DrainKeeps(s);
    }
  }

  lemma SameParts(s: State, s': State)
    requires Invariant(s) && s' == s.(stop := s'.stop, running := s'.running, started := s'.started)
    requires (!s'.running ==> s'.current == None) && (s'.started && !s'.running ==> s'.stop)
    requires (s.gone ==> s'.stop && !s'.running) && (s'.running ==> s'.started)
    ensures Invariant(s')
  {
    forall k: nat ensures Places(s', k) == Places(s, k) {
    }
  }

  lemma {:induction false} RunKeepsFrom(s: State, es: seq<Event>)
    requires Invariant(s) && Numbered(s, es)
    ensures Invariant(Run(s, es))
  {
    if es != [] {
      RunKeepsFrom(s, es[..|es| - 1]);
      StepKeeps(Run(s, es[..|es| - 1]), es[|es| - 1]);
    }
  }

  /** After every run: order, size and ownership are as they should be. */
  lemma RunKeeps(es: seq<Event>)
    requires Numbered(START, es)
    ensures Invariant(Run(START, es))
  {
    RunKeepsFrom(START, es);
  }

  /** A message is dispatched only when it is due, and no pending message comes before it. */
  lemma DispatchInOrder(es: seq<Event>, now: nat)
    requires Numbered(START, es)
    ensures
      var s := Run(START, es);
      var s' := TakeStep(s, now);
      s'.current != s.current ==>
        && s'.current.Some? && s'.current.value.time <= now
        && forall x :: x in s'.pending ==> Precedes(s'.current.value, x)
  {
    RunKeeps(es);
    var s := Run(START, es);
    if s.pending != [] {
      forall x | x in s.pending[1..] ensures Precedes(s.pending[0], x) {
        var j: nat :| j < |s.pending[1..]| && s.pending[1..][j] == x;
        assert Precedes(s.pending[0], s.pending[j + 1]);
      }
    }
  }

  /** Once the looper is stopped, has left its loop and is drained, every message has been freed once. */
  lemma DestroyFreesAll(es: seq<Event>)
    requires Numbered(START, es) && Run(START, es).stop && !Run(START, es).running
    ensures
      var s := DrainStep(Run(START, es));
      s.pending == [] && forall k: nat :: Count(s.freed, k) == if k < s.posted then 1 else 0
  {
    RunKeeps(es);
    DrainKeeps(Run(START, es));
    var s := DrainStep(Run(START, es));
    forall k: nat ensures Count(s.freed, k) == if k < s.posted then 1 else 0 {
      assert Places(s, k) == Count(s.freed, k);
    }
  }

  // ---------------------------------------------------------------- progress

  /** A message with a handler posted to a looper that is not stopped is pending, not freed; any other is freed. */
  lemma PostExact(s: State, m: Message, x: Message)
    ensures
      var s' := PostStep(s, m);
      if m.handler.Some? && !s.stop then s'.freed == s.freed && (x in s'.pending <==> x in s.pending || x == m)
      else s'.pending == s.pending && s'.freed == s.freed + [m]
  {
    InsertMembers(s.pending, m);
  }

  /** A removal takes exactly the matching messages, and frees them; on a looper that does not run it does nothing. */
  lemma RemoveExact(s: State, p: Message -> bool, x: Message)
    ensures x in RemoveStep(s, p).pending <==> x in s.pending && !(s.running && !s.stop && p(x))
    ensures x in RemoveStep(s, p).freed <==> x in s.freed || (s.running && !s.stop && x in s.pending && p(x))
  {
    FilterMembers(s.pending, Not(p));
    FilterMembers(s.pending, p);
  }

  /** The loop at work: i rounds at time now. */
  function Rounds(s: State, now: nat, i: nat): State {
    if i == 0 then s else FinishStep(TakeStep(Rounds(s, now, i - 1), now))
  }

  /** A due message at place i is the one that is run in round i + 1, after exactly those in front of it. */
  lemma {:induction false} DueIsDispatched(s: State, now: nat, i: nat)
    requires Sorted(s.pending) && s.running && !s.stop && s.current.None?
    requires i < |s.pending| && s.pending[i].time <= now
    ensures Rounds(s, now, i) ==
      s.(pending := s.pending[i..], freed := s.freed + s.pending[..i], msgSize := CountDown(s.msgSize, i))
    ensures TakeStep(Rounds(s, now, i), now).current == Some(s.pending[i])
  {
    if i == 0 {
      assert s.pending[0..] == s.pending && s.freed + s.pending[..0] == s.freed;
    } else {
      assert Precedes(s.pending[i - 1], s.pending[i]);
      DueIsDispatched(s, now, i - 1);
      assert s.pending[i - 1..][1..] == s.pending[i..];
      assert CountDown(CountDown(s.msgSize, i - 1), 1) == CountDown(s.msgSize, i);
      assert s.freed + s.pending[..i] == (s.freed + s.pending[..i - 1]) + [s.pending[i - 1]];
      assert s.pending[..i] == s.pending[..i - 1] + [s.pending[i - 1]];
    }
  }

  /** Whether the event is a round that takes a message. */
  predicate Dispatches(s: State, e: Event) {
    e.Take? && Next(s, e).current != s.current
  }

  /** How many rounds of a run take a message. */
  function Dispatched(s: State, es: seq<Event>): nat {
    if es == [] then 0
    else
      var before := es[..|es| - 1];
      Dispatched(s, before) + if Dispatches(Run(s, before), es[|es| - 1]) then 1 else 0
  }

  /** How many messages due before m a run posts. */
  function PostedEarlier(es: seq<Event>, m: Message): nat {
    if es == [] then 0
    else
      var e := es[|es| - 1];
      PostedEarlier(es[..|es| - 1], m) + if e.Post? && e.m.time < m.time then 1 else 0
  }

  /** The event neither removes m nor destroys the looper. */
  predicate Spares(e: Event, m: Message) {
    !e.Drain? && (e.Remove? ==> !e.match_(m))
  }

  lemma {:induction false} PlaceAfterInsert(s: seq<Message>, x: Message, i: nat) returns (j: nat)
    requires Sorted(s) && i < |s|
    ensures j < |InsertByTime(s, x)| && InsertByTime(s, x)[j] == s[i]
    ensures j <= i + if x.time < s[i].time then 1 else 0
  {
    if s[0].time > x.time {
      assert i > 0 ==> Precedes(s[0], s[i]);
      j := i + 1;
    } else if i == 0 {
      j := 0;
    } else {
      var j' := PlaceAfterInsert(s[1..], x, i - 1);
      j := j' + 1;
    }
  }

  lemma {:induction false} PlaceAfterFilter(s: seq<Message>, p: Message -> bool, i: nat) returns (j: nat)
    requires i < |s| && p(s[i])
    ensures j <= i && j < |Filter(s, p)| && Filter(s, p)[j] == s[i]
  {
    var n := |s| - 1;
    if i < n {
      j := PlaceAfterFilter(s[..n], p, i);
    } else {
      j := |Filter(s[..n], p)|;
    }
  }

  /** One event brings m forward with every message taken before it, and back only behind earlier ones. */
  lemma PlaceAfterEvent(s: State, e: Event, m: Message, i: nat) returns (j: nat)
    requires Invariant(s) && i < |s.pending| && s.pending[i] == m && Spares(e, m)
    requires !(Dispatches(s, e) && i == 0)
    ensures
      var s' := Next(s, e);
      && j < |s'.pending| && s'.pending[j] == m
      && j + (if Dispatches(s, e) then 1 else 0) <= i + if e.Post? && e.m.time < m.time then 1 else 0
  {
    j := i;
    if !s.gone {
      match e
      case Post(x) => if x.handler.Some? && !s.stop { j := PlaceAfterInsert(s.pending, x, i); }
      case Remove(p) => if s.running && !s.stop { j := PlaceAfterFilter(s.pending, Not(p), i); }
      case Take(now) => if Dispatches(s, e) { j := i - 1; }
      case _ =>
    }
  }

  /**
   Whatever is posted, removed or handled meanwhile, the message at place i of the list is still
   pending only while at most i messages, and one for every earlier message posted since, have been
   handled; or else round k of the run took it, with no more than that many handled before it.
   */
  lemma {:induction false} HandledInTurn(s: State, m: Message, i: nat, es: seq<Event>)
    returns (waiting: bool, j: nat, k: nat)
    requires Invariant(s) && Numbered(s, es) && i < |s.pending| && s.pending[i] == m
    requires forall l: nat :: l < |es| ==> Spares(es[l], m)
    ensures waiting ==>
      var s' := Run(s, es);
      j < |s'.pending| && s'.pending[j] == m && Dispatched(s, es) + j <= i + PostedEarlier(es, m)
    ensures !waiting ==>
      && k < |es| && Dispatched(s, es[..k]) <= i + PostedEarlier(es[..k], m)
      && Next(Run(s, es[..k]), es[k]).current == Some(m) && Dispatches(Run(s, es[..k]), es[k])
  {
    if es == [] {
      waiting, j, k := true, i, 0;
    } else {
      var n := |es| - 1;
      var before := es[..n];
      waiting, j, k := HandledInTurn(s, m, i, before);
      if waiting {
        RunKeepsFrom(s, before);
        var r := Run(s, before);
        if Dispatches(r, es[n]) && j == 0 {
          waiting, k := false, n;
        } else {
          j := PlaceAfterEvent(r, es[n], m, j);
        }
      } else {
        assert before[..k] == es[..k];
      }
    }
  }

  /** And a round at a time when some pending message is due does take one. */
  lemma DueRoundTakes(s: State, now: nat, i: nat)
    requires Invariant(s) && i < |s.pending| && s.pending[i].time <= now
    requires s.running && !s.stop && s.current.None? && !s.gone
    ensures Dispatches(s, Take(now))
  {
    assert i > 0 ==> Precedes(s.pending[0], s.pending[i]);
  }

  /** Once its thread has reached the loop, the looper takes the messages that are due. */
  lemma StartedTakes(s: State, now: nat, i: nat)
    requires Invariant(s) && !s.started && !s.stop && !s.gone && i < |s.pending| && s.pending[i].time <= now
    ensures !Dispatches(s, Take(now)) && Dispatches(Next(s, Start), Take(now))
  {
    StepKeeps(s, Start);
    DueRoundTakes(Next(s, Start), now, i);
  }

  /** Messages are taken one at a time, by a running loop, and none once the stop flag is set. */
  lemma OneAtATime(s: State, e: Event)
    requires Dispatches(s, e)
    ensures s.running && !s.stop && !s.gone && s.current.None? && s.pending != []
    ensures Next(s, e) == s.(current := Some(s.pending[0]), pending := s.pending[1..], msgSize := Next(s, e).msgSize)
  {
  }

  /** Stopping works from every reachable state: when the handler is done the loop ends, and the list is drained. */
  lemma StopEnds(es: seq<Event>)
    requires Numbered(START, es)
    ensures
      var s := Run(START, es + [Stop, Finish, Exit, Drain]);
      s.gone && !s.running && s.current.None? && s.pending == []
  {
    RunKeeps(es);
    var s := Run(START, es);
    var s1 := es + [Stop];
    var s2 := s1 + [Finish];
    var s3 := s2 + [Exit];
    var s4 := es + [Stop, Finish, Exit, Drain];
    assert s1[..|es|] == es && s2[..|s1|] == s1 && s3[..|s2|] == s2 && s4[..|s3|] == s3;
    assert Run(START, s1) == Next(s, Stop);
    assert Run(START, s2) == Next(Next(s, Stop), Finish);
    assert Run(START, s3) == Next(Run(START, s2), Exit);
    assert Run(START, s4) == Next(Run(START, s3), Drain);
  }
}
