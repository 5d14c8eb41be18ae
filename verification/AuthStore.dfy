/**
 The handlers of AuthSteps together with the key store they share with other sessions: when the
 store answers the way AuthSteps takes for granted, and what a handler does when it is left alone.
 */
module AuthStore {
  import opened Basics
  import opened SessionKeys
  import opened AuthOrder
  import opened AuthSteps

  /** A move of this session or an operation of another one on the store. */
  datatype Shared = Own(e: Move) | Foreign(op: Op)

  /** A run in which every look-up is answered by the store itself. */
  predicate Together(c: Config, keys: seq<SessionKey>, es: seq<Shared>, c': Config)
    decreases |es|
  {
    if es == [] then c' == c
    else
      match es[0]
      case Own(e) =>
        && May(c, e)
        && Together(Do(c, e, InList(keys, c.s.seqNo)), if e.KeyReturns? then Apply(keys, SetKey(e.n)) else keys,
                    es[1..], c')
      case Foreign(op) => Together(c, Apply(keys, op), es[1..], c')
  }

  function OwnMoves(es: seq<Shared>): seq<Move> {
    if es == [] then [] else (if es[0].Own? then [es[0].e] else []) + OwnMoves(es[1..])
  }

  /** The own key fits its fields, and no other session sets a key with this number. */
  predicate Fair(es: seq<Shared>, seqNo: int) {
    forall x :: x in es ==>
      match x
      case Own(e) => e.KeyReturns? ==> Fits(e.n)
      case Foreign(op) => op.SetKey? ==> op.n.info.seqNo != seqNo
  }

  /** No other session clears this number or everything. */
  predicate Uncleared(es: seq<Shared>, seqNo: int) {
    forall x :: x in es && x.Foreign? ==> x.op != ClearSeq(seqNo) && x.op != ClearAll
  }

  /** How many keys other sessions try to set. */
  function Sets(es: seq<Shared>): nat {
    if es == [] then 0 else (if es[0].Foreign? && es[0].op.SetKey? then 1 else 0) + Sets(es[1..])
  }

  function AfterKey(es: seq<Shared>): seq<Shared> {
    if es == [] then [] else if es[0].Own? && es[0].e.KeyReturns? then es[1..] else AfterKey(es[1..])
  }

  lemma {:induction false} FilterSubset(s: seq<SessionKey>, p: SessionKey -> bool)
    ensures forall k :: k in Filter(s, p) ==> k in s
  {
    if s != [] { FilterSubset(s[..|s| - 1], p); }
  }

  lemma StaysUnlisted(keys: seq<SessionKey>, op: Op, seqNo: int)
    requires !InList(keys, seqNo) && (op.SetKey? ==> op.n.info.seqNo != seqNo)
    ensures !InList(Apply(keys, op), seqNo)
  {
    if op.ClearSeq? { FilterSubset(keys, HasOtherSeq(op.seqNo)); }
  }

  lemma StaysListed(keys: seq<SessionKey>, i: nat, op: Op, seqNo: int) returns (j: nat)
    requires i < |keys| <= MAX_KEY_LIST_SIZE && keys[i].seqNo == seqNo
    requires op != ClearSeq(seqNo) && op != ClearAll
    requires i + (if op.SetKey? then 1 else 0) < MAX_KEY_LIST_SIZE
    ensures j < |Apply(keys, op)| <= MAX_KEY_LIST_SIZE && Apply(keys, op)[j].seqNo == seqNo
    ensures j <= i + if op.SetKey? then 1 else 0
  {
    assert Attempts([op]) == if op.SetKey? then 1 else 0;
    assert ApplyAll(keys, [op]) == ApplyAll(Apply(keys, op), []) == Apply(keys, op);
    j := Survives(keys, i, [op]);
    ApplyPrefix(keys, keys, op);
  }

  lemma FairRest(es: seq<Shared>, seqNo: int)
    requires es != []
    ensures Fair(es, seqNo) ==> Fair([es[0]], seqNo) && Fair(es[1..], seqNo)
    ensures Uncleared(es, seqNo) ==> Uncleared([es[0]], seqNo) && Uncleared(es[1..], seqNo)
  {
    assert es[0] in es && forall x :: x in es[1..] ==> x in es;
  }

  lemma {:induction false} ListedFromThen(c: Config, keys: seq<SessionKey>, i: nat, es: seq<Shared>, c': Config)
    requires Together(c, keys, es, c') && Uncleared(es, c.s.seqNo) && c.k != KIdle
    requires i < |keys| <= MAX_KEY_LIST_SIZE && keys[i].seqNo == c.s.seqNo && i + Sets(es) < MAX_KEY_LIST_SIZE
    ensures Trace(c, OwnMoves(es), c')
    decreases |es|
  {
    if es != [] {
      FairRest(es, c.s.seqNo);
      assert es[0] in [es[0]] && InList(keys, c.s.seqNo) == Listed(c);
      match es[0]
      case Own(e) =>
        ListedFromThen(Do(c, e, Listed(c)), keys, i, es[1..], c');
        assert OwnMoves(es)[1..] == OwnMoves(es[1..]);
      case Foreign(op) =>
        var j := StaysListed(keys, i, op, c.s.seqNo);
        ListedFromThen(c, Apply(keys, op), j, es[1..], c');
        assert OwnMoves(es) == OwnMoves(es[1..]);
    }
  }

  /**
   No other key with the session's number, and after its own key no clearing of it and fewer than
   twenty attempts to set a key: then the store answers as AuthSteps assumes, throughout the run.
   */
  lemma {:induction false} StoreAnswers(c: Config, keys: seq<SessionKey>, es: seq<Shared>, c': Config)
    requires Together(c, keys, es, c') && Fair(es, c.s.seqNo) && c.k == KIdle
    requires !InList(keys, c.s.seqNo) && |keys| <= MAX_KEY_LIST_SIZE
    requires Uncleared(AfterKey(es), c.s.seqNo) && Sets(AfterKey(es)) < MAX_KEY_LIST_SIZE
    ensures Trace(c, OwnMoves(es), c')
    decreases |es|
  {
    if es != [] {
      FairRest(es, c.s.seqNo);
      assert es[0] in [es[0]] && InList(keys, c.s.seqNo) == Listed(c);
      match es[0]
      case Own(e) =>
        var c1 := Do(c, e, Listed(c));
        if e.KeyReturns? {
          ApplyPrefix(keys, keys, SetKey(e.n));
          assert Apply(keys, SetKey(e.n))[0] == Entry(e.n);
          ListedFromThen(c1, Apply(keys, SetKey(e.n)), 0, es[1..], c');
        } else {
          StoreAnswers(c1, keys, es[1..], c');
        }
        assert OwnMoves(es)[1..] == OwnMoves(es[1..]);
      case Foreign(op) =>
        StaysUnlisted(keys, op, c.s.seqNo);
        ApplyPrefix(keys, keys, op);
        StoreAnswers(c, Apply(keys, op), es[1..], c');
        assert OwnMoves(es) == OwnMoves(es[1..]);
    }
  }

  /** The result of AuthSteps on a store used by others, from conditions a caller can count. */
  lemma RightOnSharedStore(tcp: bool, server: bool, seqNo: int, keys: seq<SessionKey>, es: seq<Shared>, c: Config)
    requires !InList(keys, seqNo) && |keys| <= MAX_KEY_LIST_SIZE
    requires Fair(es, seqNo) && Uncleared(AfterKey(es), seqNo) && Sets(AfterKey(es)) < MAX_KEY_LIST_SIZE
    requires Together(Start(tcp, server, seqNo), keys, es, c) && Settled(c)
    ensures c.s.calls == Right(tcp, c.data) <==> !Overtaken(c)
  {
    StoreAnswers(Start(tcp, server, seqNo), keys, es, c);
    RightExactlyUnlessOvertaken(tcp, server, seqNo, OwnMoves(es), c);
  }

  // ---------------------------------------------------------------- a handler left alone

  /** The peer handler from h to its end with nothing in between. */
  function Finish(s: Session, listed: bool, h: Handler, data: seq<byte>): Session
    decreases StepsLeft(h)
  {
    if StepsLeft(h) == 0 then s
    else var (s', h') := HandlerStep(s, listed, h, data); Finish(s', listed, h', data)
  }

  lemma FinishFromDeliver(s: Session, listed: bool, data: seq<byte>)
    ensures Finish(s, listed, HDeliver, data) ==
      s.(calls := s.calls + [OnRecvSyncDeviceInfo(data)] + (if s.tcp then [OnDeviceVerifyPass] else []),
         status := AuthPassed)
  {
    var s1 := HandlerStep(s, listed, HDeliver, data).0;
    var (s2, h2) := HandlerStep(s1, listed, HPass, data);
    assert Finish(s, listed, HDeliver, data) == Finish(s1, listed, HPass, data) == Finish(s2, listed, h2, data);
    if s.tcp {
      var s3 := HandlerStep(s2, listed, HVerify, data).0;
      assert Finish(s2, listed, HVerify, data) == Finish(s3, listed, HDone, data) == s3;
    } else {
      assert s.calls + [OnRecvSyncDeviceInfo(data)] + [] == s.calls + [OnRecvSyncDeviceInfo(data)];
    }
  }

  lemma FinishFromList(s: Session, listed: bool, data: seq<byte>)
    ensures Finish(s, listed, HList, data) ==
      if !listed || s.status == InSyncProgress then s.(saved := Some(data), len := |data|)
      else Finish(s, listed, HDeliver, data)
  {
    var s1 := s.(saved := Some([]));
    var s2 := s1.(saved := Some(data));
    assert Finish(s, listed, HAlloc, data) == Finish(s1, listed, HFill, data) == Finish(s2, listed, HLength, data);
    assert Finish(s2, listed, HLength, data) == Finish(s2.(len := |data|), listed, HKept, data);
    assert listed ==> Finish(s, listed, HList, data) == Finish(s, listed, HStatus, data);
  }

  /** Left alone, the steps of the peer handler make exactly the transition of AuthOrder. */
  lemma PeerAlone(s: Session, keys: seq<SessionKey>, data: seq<byte>)
    requires DataOk(data)
    ensures Finish(s, InList(keys, s.seqNo), HTest, data) == PeerData(s, keys, data, false)
  {
    var listed := InList(keys, s.seqNo);
    var (s1, h1) := HandlerStep(s, listed, HTest, data);
    if h1 == HNotify {
      var s2 := HandlerStep(s1, listed, HNotify, data).0;
      assert Finish(s1, listed, HNotify, data) == Finish(s2, listed, HMark, data);
      PeerFromMark(s2, keys, data);
    } else {
      PeerFromMark(s1, keys, data);
    }
  }

  lemma PeerFromMark(s: Session, keys: seq<SessionKey>, data: seq<byte>)
    ensures Finish(s, InList(keys, s.seqNo), HMark, data) == Received(s, keys, data)
  {
    var listed := InList(keys, s.seqNo);
    var s1 := HandlerStep(s, listed, HMark, data).0;
    assert Finish(s, listed, HMark, data) == Finish(s1, listed, HList, data);
    FinishFromList(s1, listed, data);
    FinishFromDeliver(s1, listed, data);
  }

  /** Left alone after storing the key, so do the steps of the key handler. */
  lemma KeyAlone(c: Config, keys: seq<SessionKey>)
    requires c.k == KStored
    ensures KeyStep(KeyStep(KeyStep(KeyStep(c)))).s == KeyReturned(c.s, keys, false)
  {
    KeyAloneFrom(KeyStep(c), keys);
  }

  lemma KeyAloneFrom(c: Config, keys: seq<SessionKey>)
    requires c.k == KSynced && c.s.status == InSyncProgress
    ensures KeyStep(KeyStep(KeyStep(c))).s == KeyReturned(c.s, keys, false)
  {
    if Server(c) && c.s.info == InitialState {
      assert KeyStep(KeyStep(c)).k == KWaiting;
    } else if Server(c) && c.s.info == RecvEncryptData {
      assert KeyStep(KeyStep(c)).k == KNotify;
    } else if Server(c) {
      assert KeyStep(KeyStep(c)).k == KError;
    } else {
      assert KeyStep(KeyStep(c)).k == KTold;
    }
  }

  function PostLeft(q: PostPc): nat {
    match q
    case QLook => 14
    case QArgs => 13
    case QCall(h, _) => 3 + StepsLeft(h)
    case QFree => 2
    case QClear => 1
    case _ => 0
  }

  lemma PostNearer(c: Config, listed: bool)
    requires c.q != QIdle && c.q != QDone && c.q != QEmpty
    ensures PostLeft(PostStep(c, listed).q) < PostLeft(c.q)
  {
    if c.q.QCall? {
      assert StepsLeft(HandlerStep(c.s, listed, c.q.h, c.q.arg).1) <= StepsLeft(c.q.h);
    }
  }

  /** The rest of the post with nothing in between. */
  function FinishPost(c: Config, listed: bool): Session
    decreases PostLeft(c.q)
  {
    if c.q == QIdle || c.q == QDone || c.q == QEmpty then c.s
    else
      PostNearer(c, listed);
      FinishPost(PostStep(c, listed), listed)
  }

  lemma PostReleaseAlone(c: Config, listed: bool)
    requires c.q == QFree
    ensures FinishPost(c, listed) == c.s.(saved := None)
  {
    var c1 := PostStep(c, listed);
    assert FinishPost(c, listed) == FinishPost(c1, listed) == FinishPost(PostStep(c1, listed), listed);
  }

  lemma {:induction false} PostCallAlone(c: Config, listed: bool)
    requires c.q.QCall? && StepsLeft(c.q.h) > 0
    ensures FinishPost(c, listed) == Finish(c.s, listed, c.q.h, c.q.arg).(saved := None)
    decreases StepsLeft(c.q.h)
  {
    var c1 := PostStep(c, listed);
    if c1.q == QFree {
      PostReleaseAlone(c1, listed);
    } else {
      PostCallAlone(c1, listed);
    }
  }

  lemma PostArgsAlone(c: Config, keys: seq<SessionKey>)
    requires c.q == QArgs && c.s.saved.Some?
    ensures FinishPost(c, InList(keys, c.s.seqNo))
         == Again(c.s, keys, Argument(c.s.saved.value, c.s.len)).(saved := None)
  {
    var listed, arg := InList(keys, c.s.seqNo), Argument(c.s.saved.value, c.s.len);
    var c1 := PostStep(c, listed);
    assert FinishPost(c, listed) == FinishPost(c1, listed);
    if DataOk(arg) {
      PostCallAlone(c1, listed);
      PeerAlone(c.s, keys, arg);
    } else {
      PostReleaseAlone(c1, listed);
    }
  }

  /** And left alone, so do the steps of the post. */
  lemma PostAlone(c: Config, keys: seq<SessionKey>)
    requires c.told && c.q == QIdle
    ensures FinishPost(Do(c, PostBegins, InList(keys, c.s.seqNo)), InList(keys, c.s.seqNo)) == Posted(c.s, keys)
  {
    var listed := InList(keys, c.s.seqNo);
    var c1 := Do(c, PostBegins, listed);
    var c2 := PostStep(c1, listed);
    assert FinishPost(c1, listed) == FinishPost(c2, listed);
    if c.s.saved.Some? {
      PostArgsAlone(c2, keys);
    }
  }
}
