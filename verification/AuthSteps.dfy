/**
 The handlers of AuthOrder taken apart. None of them holds a lock from its tests to its writes, so
 here every test and every write is a step of its own, and the steps of the three handlers
 interleave freely.
 */
module AuthSteps {
  import opened Basics
  import opened SessionKeys
  import opened AuthOrder

  /**
   Where AuthHandlePeerSyncDeviceInfo stands; the names say what the next step does. Saving takes
   three steps: encryptDevData gets a block, the block is filled, encryptLen is written.
   */
  datatype Handler =
    | HTest | HNotify | HMark | HList | HStatus
    | HAlloc | HFill | HLength
    | HDeliver | HPass | HVerify
    | HDone | HKept | HFailed

  /** AuthOnSessionKeyReturned; it ends by telling the owner or by waiting for the peer's data. */
  datatype KeyPc = KIdle | KStored | KSynced | KWrite | KReadAgain | KNotify | KTold | KWaiting | KError

  datatype PeerPc = PIdle | PAt(h: Handler)

  /**
   HandlePeerSyncDeviceInfo after its write of the status: it tests encryptDevData, reads its
   arguments, calls the peer handler, releases the block and clears the pointer; or it ends without
   having found a block.
   */
  datatype PostPc = QIdle | QLook | QArgs | QCall(h: Handler, arg: seq<byte>) | QFree | QClear | QDone | QEmpty

  /**
   A session in the middle of its handlers, with the peer's data once it has arrived. told says that
   the owner was told of the key; the last five fields record whether one handler has overtaken
   another.
   */
  datatype Config = Config(s: Session, k: KeyPc, p: PeerPc, q: PostPc, data: seq<byte>,
                           told: bool, missed: bool, gap: bool, early: bool, lost: bool, torn: bool)

  datatype Move =
    | KeyReturns(n: NewKey)
    | KeyMoves
    | PeerArrives(data: seq<byte>)
    | PeerMoves
    | PostBegins
    | PostMoves

  // ---------------------------------------------------------------- the steps

  predicate SameKind(s: Session, s': Session) {
    s'.tcp == s.tcp && s'.server == s.server && s'.seqNo == s.seqNo
  }

  function StepsLeft(h: Handler): nat {
    match h
    case HTest => 9
    case HNotify => 8
    case HMark => 7
    case HList => 6
    case HStatus => 5
    case HDeliver => 4
    case HPass => 3
    case HVerify => 2
    case HAlloc => 3
    case HFill => 2
    case HLength => 1
    case _ => 0
  }

  /**
   listed is what AuthIsSeqInKeyList answers. A block that is not filled yet is the empty sequence;
   a handler that finds its block gone reports a failure.
   */
  function HandlerStep(s: Session, listed: bool, h: Handler, data: seq<byte>): (r: (Session, Handler))
    ensures SameKind(s, r.0) && (StepsLeft(r.1) < StepsLeft(h) || StepsLeft(h) == 0)
  {
    match h
    case HTest => (s, if s.tcp && s.server && s.info == KeyGenerated then HNotify else HMark)
    case HNotify => (s.(calls := s.calls + [OnKeyGenerated]), HMark)
    case HMark => (s.(info := RecvEncryptData), HList)
    case HList => (s, if listed then HStatus else HAlloc)
    case HStatus => (s, if s.status == InSyncProgress then HAlloc else HDeliver)
    case HAlloc => (s.(saved := Some([])), HFill)
    case HFill =>
      if s.saved.None? then (s.(calls := s.calls + [OnDeviceVerifyFail]), HFailed)
      else (s.(saved := Some(data)), HLength)
    case HLength => (s.(len := |data|), HKept)
    case HDeliver => (s.(calls := s.calls + [OnRecvSyncDeviceInfo(data)]), HPass)
    case HPass => (s.(status := AuthPassed), if s.tcp then HVerify else HDone)
    case HVerify => (s.(calls := s.calls + [OnDeviceVerifyPass]), HDone)
    case _ => (s, h)
  }

  /** A write of the key state inside the peer's test and mark, or the reverse, is recorded as missed. */
  function KeyStep(c: Config): (r: Config)
    ensures SameKind(c.s, r.s) && (r.k == KIdle <==> c.k == KIdle)
  {
    match c.k
    case KStored => c.(s := c.s.(status := InSyncProgress), k := KSynced)
    case KSynced =>
      c.(k := if !(c.s.tcp && c.s.server) then KNotify else if c.s.info == InitialState then KWrite else KReadAgain)
    case KWrite =>
      c.(s := c.s.(info := KeyGenerated), k := KWaiting,
         missed := c.missed || c.p == PAt(HNotify) || c.p == PAt(HMark))
    case KReadAgain => c.(k := if c.s.info == RecvEncryptData then KNotify else KError)
    case KNotify => c.(s := c.s.(calls := c.s.calls + [OnKeyGenerated]), k := KTold, told := true)
    case _ => c
  }

  function PeerStep(c: Config, listed: bool): (r: Config)
    requires c.p.PAt?
    ensures SameKind(c.s, r.s)
  {
    var (s', h') := HandlerStep(c.s, listed, c.p.h, c.data);
    c.(s := s', p := PAt(h'),
       told := c.told || c.p.h == HNotify,
       missed := c.missed || (c.p.h == HMark && c.k == KWrite),
       gap := if c.p.h == HStatus then c.k == KStored else c.gap,
       early := c.early || (c.p.h == HDeliver && c.gap && c.q == QIdle))
  }

  /** The peer handler has its block and has not yet written its length. */
  predicate Saving(p: PeerPc) { p == PAt(HFill) || p == PAt(HLength) }

  function PostStep(c: Config, listed: bool): (r: Config)
    ensures SameKind(c.s, r.s)
  {
    match c.q
    case QLook =>
      if c.s.saved.Some? then c.(q := QArgs) else c.(q := QEmpty, lost := c.lost || c.p == PAt(HAlloc))
    case QArgs =>
      var arg := if c.s.saved.Some? then Argument(c.s.saved.value, c.s.len) else [];
      c.(q := if DataOk(arg) then QCall(HTest, arg) else QFree, torn := c.torn || Saving(c.p))
    case QCall(h, arg) =>
      var (s', h') := HandlerStep(c.s, listed, h, arg);
      c.(s := s', q := if StepsLeft(h') == 0 then QFree else QCall(h', arg), told := c.told || h == HNotify)
    case QFree => c.(q := QClear)
    case QClear => c.(s := c.s.(saved := None), q := QDone)
    case _ => c
  }

  /** Each handler runs once; the owner posts only after it was told of the key. */
  predicate May(c: Config, e: Move) {
    match e
    case KeyReturns(n) => c.k == KIdle && n.info.seqNo == c.s.seqNo
    case PeerArrives(data) => c.p == PIdle && DataOk(data)
    case PeerMoves => c.p.PAt?
    case PostBegins => c.told && c.q == QIdle
    case _ => true
  }

  function Do(c: Config, e: Move, listed: bool): (r: Config)
    requires May(c, e)
    ensures SameKind(c.s, r.s) && (r.k == KIdle <==> c.k == KIdle && !e.KeyReturns?)
  {
    match e
    case KeyReturns(n) => c.(k := KStored)
    case KeyMoves => KeyStep(c)
    case PeerArrives(data) => c.(p := PAt(HTest), data := data)
    case PeerMoves => PeerStep(c, listed)
    case PostBegins => c.(s := c.s.(status := SyncFinish, calls := c.s.calls + [LocalPost]), q := QLook)
    case PostMoves => PostStep(c, listed)
  }

  /** The key is listed from the moment it is stored. */
  predicate Listed(c: Config) { c.k != KIdle }

  function Start(tcp: bool, server: bool, seqNo: int): Config {
    Config(Session(tcp, server, seqNo, InAuthProgress, InitialState, None, 0, []), KIdle, PIdle, QIdle, [],
           false, false, false, false, false, false)
  }

  predicate Trace(c: Config, es: seq<Move>, c': Config)
    decreases |es|
  {
    if es == [] then c' == c
    else May(c, es[0]) && Trace(Do(c, es[0], Listed(c)), es[1..], c')
  }

  // ---------------------------------------------------------------- what a reachable configuration looks like

  predicate Server(c: Config) { c.s.tcp && c.s.server }

  predicate Marked(p: PeerPc) { p.PAt? && p.h != HTest && p.h != HNotify && p.h != HMark }

  predicate HandedOver(h: Handler) { h == HPass || h == HVerify || h == HDone }

  predicate InfoOk(c: Config) {
    var plain := if Marked(c.p) then RecvEncryptData else InitialState;
    match c.k
    case KWrite => Server(c) && c.s.info == plain && (Marked(c.p) ==> c.missed)
    case KReadAgain => Server(c) && Marked(c.p) && c.s.info == RecvEncryptData
    case KNotify => (Server(c) ==> Marked(c.p)) && c.s.info == plain
    case KTold => (Server(c) ==> Marked(c.p)) && c.s.info == plain
    case KWaiting => Server(c) && if Marked(c.p) then c.missed || c.s.info == RecvEncryptData else c.s.info == KeyGenerated
    case KError => false
    case _ => c.s.info == plain
  }

  predicate ToldOk(c: Config) {
    && (c.p == PAt(HNotify) ==> c.k == KWaiting)
    && (c.missed ==> (c.k == KWrite || c.k == KWaiting) && (c.p == PAt(HMark) || Marked(c.p)))
    && match c.k
       case KTold => c.told
       case KWaiting => if c.p == PAt(HMark) || Marked(c.p) then c.told <==> !c.missed else !c.told
       case _ => !c.told
  }

  /** The status a test finds before the session has passed. */
  function StatusNow(c: Config): Status {
    if c.k == KIdle || c.k == KStored then InAuthProgress
    else if c.q == QIdle then InSyncProgress else SyncFinish
  }

  predicate PostDone(c: Config) { c.q == QFree || c.q == QClear || c.q == QDone }

  /** A decision to save has been made. */
  predicate Keeps(p: PeerPc) { p == PAt(HAlloc) || Saving(p) || p == PAt(HKept) || p == PAt(HFailed) }

  predicate StatusOk(c: Config) {
    || (c.p.PAt? && (c.p.h == HVerify || c.p.h == HDone))
    || (c.q.QCall? && c.q.h == HVerify) || PostDone(c)
    || c.s.status == StatusNow(c)
  }

  predicate SavedOk(c: Config) {
    && c.s.saved == (if c.q == QDone then None
                     else if c.p == PAt(HFill) then Some([])
                     else if c.p == PAt(HLength) || c.p == PAt(HKept) then Some(c.data) else None)
    && c.s.len == (if c.p == PAt(HKept) then |c.data| else 0)
  }

  predicate PostOk(c: Config) {
    && (c.q != QIdle ==> c.told)
    && (c.q == QArgs ==> Saving(c.p) || c.p == PAt(HKept))
    && (c.q.QCall? ==> c.p == PAt(HKept) && c.q.arg == c.data && StepsLeft(c.q.h) > 0 &&
                       c.q.h != HNotify && c.q.h != HAlloc && c.q.h != HFill && c.q.h != HLength)
    && (c.q.QCall? && c.q.h == HVerify ==> c.s.tcp)
    && (PostDone(c) ==> if c.torn then Keeps(c.p) && c.p != PAt(HAlloc) else c.p == PAt(HKept))
    && (c.torn ==> PostDone(c)) && (c.p == PAt(HFailed) ==> c.torn && c.q == QDone)
    && (c.lost <==> c.q == QEmpty && Keeps(c.p))
  }

  predicate PeerOk(c: Config) {
    && (c.p.PAt? ==> DataOk(c.data))
    && (c.p == PAt(HStatus) ==> c.k != KIdle) && (c.p == PAt(HVerify) ==> c.s.tcp)
    && (c.gap ==> c.p.PAt? && (c.p.h == HDeliver || HandedOver(c.p.h)))
    && (c.early ==> c.gap && HandedOver(c.p.h))
    && (c.p.PAt? && c.p.h == HDeliver && !c.gap ==> c.q != QIdle)
    && (c.p.PAt? && HandedOver(c.p.h) && !c.early ==> c.q != QIdle)
  }

  function Append(s: seq<Act>, b: bool, a: Act): seq<Act> {
    if b then s + [a] else s
  }

  /** What the owner has gone through when nothing was handed over early. */
  function Orderly(c: Config): seq<Act> {
    var byPost := PostDone(c) && !c.torn;
    var handed := (c.p.PAt? && HandedOver(c.p.h)) || (c.q.QCall? && HandedOver(c.q.h)) || byPost;
    var verified := c.s.tcp && (c.p == PAt(HDone) || byPost);
    Append(Append(Append(Append(Append([], c.told, OnKeyGenerated), c.q != QIdle, LocalPost),
                         handed, OnRecvSyncDeviceInfo(c.data)), verified, OnDeviceVerifyPass),
           c.p == PAt(HFailed), OnDeviceVerifyFail)
  }

  /** Data was handed over before the owner posted. */
  predicate TooSoon(calls: seq<Act>) {
    exists i: nat :: i < |calls| && calls[i].OnRecvSyncDeviceInfo? && LocalPost !in calls[..i]
  }

  predicate CallsOk(c: Config) {
    && (!c.early ==> c.s.calls == Orderly(c))
    && (c.early ==> TooSoon(c.s.calls))
    && (!c.told ==> OnKeyGenerated !in c.s.calls)
  }

  predicate Control(c: Config) {
    && InfoOk(c) && ToldOk(c) && StatusOk(c) && SavedOk(c) && PostOk(c) && PeerOk(c)
  }

  predicate Reachable(c: Config) {
    Control(c) && CallsOk(c)
  }

  lemma StillTooSoon(calls: seq<Act>, a: Act)
    requires TooSoon(calls)
    ensures TooSoon(calls + [a])
  {
    var i: nat :| i < |calls| && calls[i].OnRecvSyncDeviceInfo? && LocalPost !in calls[..i];
    assert (calls + [a])[..i] == calls[..i] && (calls + [a])[i] == calls[i];
  }

  lemma HandedOverTooSoon(calls: seq<Act>, data: seq<byte>)
    requires LocalPost !in calls
    ensures TooSoon(calls + [OnRecvSyncDeviceInfo(data)])
  {
    var r := calls + [OnRecvSyncDeviceInfo(data)];
    assert r[..|calls|] == calls && r[|calls|].OnRecvSyncDeviceInfo?;
  }

  lemma KeyControl(c: Config)
    requires Control(c)
    ensures Control(KeyStep(c))
  {
  }

  lemma PeerAnnounces(c: Config)
    requires Control(c) && c.p.PAt? && (c.p.h == HTest || c.p.h == HNotify || c.p.h == HMark)
    ensures Control(PeerStep(c, Listed(c)))
  {
  }

  lemma PeerDecides(c: Config)
    requires Control(c) && (c.p == PAt(HList) || c.p == PAt(HStatus))
    ensures Control(PeerStep(c, Listed(c)))
  {
  }

  lemma PeerSaving(c: Config)
    requires Control(c) && (c.p == PAt(HAlloc) || Saving(c.p))
    ensures Control(PeerStep(c, Listed(c)))
  {
  }

  lemma PeerHandsOver(c: Config)
    requires Control(c) && c.p.PAt? && (c.p.h == HDeliver || HandedOver(c.p.h) || StepsLeft(c.p.h) == 0)
    ensures Control(PeerStep(c, Listed(c)))
  {
  }

  lemma PeerControl(c: Config)
    requires Control(c) && c.p.PAt?
    ensures Control(PeerStep(c, Listed(c)))
  {
    match c.p.h
    case HTest => PeerAnnounces(c);
    case HNotify => PeerAnnounces(c);
    case HMark => PeerAnnounces(c);
    case HList => PeerDecides(c);
    case HStatus => PeerDecides(c);
    case HAlloc => PeerSaving(c);
    case HFill => PeerSaving(c);
    case HLength => PeerSaving(c);
    case _ => PeerHandsOver(c);
  }

  lemma PostLooks(c: Config)
    requires Control(c) && (c.q == QLook || c.q == QArgs)
    ensures Control(PostStep(c, Listed(c)))
  {
    if c.q == QArgs {
      assert PostStep(c, Listed(c)) ==
        if Saving(c.p) then c.(q := QFree, torn := true) else c.(q := QCall(HTest, c.data));
    }
  }

  lemma PostReleases(c: Config)
    requires Control(c) && (c.q == QFree || c.q == QClear)
    ensures Control(PostStep(c, Listed(c)))
  {
  }

  /** The handler called by the post always hands over: it never reaches its saving step. */
  lemma PostHandsOver(c: Config)
    requires Control(c) && c.q.QCall?
    ensures Control(PostStep(c, Listed(c)))
  {
  }

  lemma KeyCalls(c: Config)
    requires CallsOk(c) && ToldOk(c) && PostOk(c) && PeerOk(c)
    ensures CallsOk(KeyStep(c))
  {
    if c.k == KNotify && c.early { StillTooSoon(c.s.calls, OnKeyGenerated); }
  }

  lemma PeerCalls(c: Config)
    requires CallsOk(c) && ToldOk(c) && SavedOk(c) && PostOk(c) && PeerOk(c)
    requires c.p.PAt? && c.p.h != HDeliver && !HandedOver(c.p.h)
    ensures CallsOk(PeerStep(c, Listed(c)))
  {
    if c.p == PAt(HFill) && c.s.saved.None? {
      assert c.torn && !c.early;
    }
  }

  lemma HandOverCalls(c: Config)
    requires CallsOk(c) && PostOk(c) && PeerOk(c) && c.p.PAt? && (c.p.h == HDeliver || HandedOver(c.p.h))
    ensures CallsOk(PeerStep(c, Listed(c)))
  {
    match c.p.h
    case HDeliver => if c.gap && c.q == QIdle { HandedOverTooSoon(c.s.calls, c.data); }
    case HVerify => if c.early { StillTooSoon(c.s.calls, OnDeviceVerifyPass); }
    case _ =>
  }

  lemma PostCalls(c: Config)
    requires CallsOk(c) && PostOk(c) && PeerOk(c) && !c.q.QCall? && c.q != QArgs
    ensures CallsOk(PostStep(c, Listed(c)))
  {
  }

  lemma ArgsCalls(c: Config)
    requires CallsOk(c) && PostOk(c) && PeerOk(c) && SavedOk(c) && c.q == QArgs
    ensures CallsOk(PostStep(c, Listed(c)))
  {
    assert PostStep(c, Listed(c)) ==
      if Saving(c.p) then c.(q := QFree, torn := true) else c.(q := QCall(HTest, c.data));
  }

  lemma CallCalls(c: Config)
    requires CallsOk(c) && PostOk(c) && PeerOk(c) && c.q.QCall?
    ensures CallsOk(PostStep(c, Listed(c)))
  {
    assert c.p == PAt(HKept) && !c.early && c.told;
  }

  lemma BeginKeeps(c: Config)
    requires Reachable(c) && c.told && c.q == QIdle
    ensures Reachable(Do(c, PostBegins, Listed(c)))
  {
    if c.early { StillTooSoon(c.s.calls, LocalPost); }
  }

  lemma MoveKeeps(c: Config, e: Move)
    requires Reachable(c) && May(c, e)
    ensures Reachable(Do(c, e, Listed(c)))
  {
    match e
    case KeyMoves => KeyControl(c); KeyCalls(c);
    case PeerMoves =>
      PeerControl(c);
      if c.p.h == HDeliver || HandedOver(c.p.h) { HandOverCalls(c); } else { PeerCalls(c); }
    case PostMoves =>
      if c.q.QCall? { PostHandsOver(c); CallCalls(c); }
      else {
        if c.q == QLook || c.q == QArgs { PostLooks(c); } else if c.q == QFree || c.q == QClear { PostReleases(c); }
        if c.q == QArgs { ArgsCalls(c); } else { PostCalls(c); }
      }
    case PostBegins => BeginKeeps(c);
    case _ =>
  }

  // ---------------------------------------------------------------- every interleaving

  lemma StartReachable(tcp: bool, server: bool, seqNo: int)
    ensures Reachable(Start(tcp, server, seqNo))
  {
  }

  /** What every move keeps, every run keeps. */
  lemma {:induction false} Always(inv: Config -> bool, c: Config, es: seq<Move>, c': Config)
    requires inv(c) && Trace(c, es, c')
    requires forall d: Config, e: Move :: inv(d) && May(d, e) ==> inv(Do(d, e, Listed(d)))
    ensures inv(c')
    decreases |es|
  {
    if es != [] {
      Always(inv, Do(c, es[0], Listed(c)), es[1..], c');
    }
  }

  lemma EveryMoveKeeps()
    ensures forall d: Config, e: Move :: Reachable(d) && May(d, e) ==> Reachable(Do(d, e, Listed(d)))
  {
    forall d: Config, e: Move | Reachable(d) && May(d, e) ensures Reachable(Do(d, e, Listed(d))) {
      MoveKeeps(d, e);
    }
  }

  function OfKind(tcp: bool): Config -> bool {
    (d: Config) => d.s.tcp == tcp
  }

  lemma TraceReaches(tcp: bool, server: bool, seqNo: int, es: seq<Move>, c: Config)
    requires Trace(Start(tcp, server, seqNo), es, c)
    ensures Reachable(c)
  {
    StartReachable(tcp, server, seqNo);
    EveryMoveKeeps();
    Always(Reachable, Start(tcp, server, seqNo), es, c);
  }

  lemma TraceKeepsKind(tcp: bool, server: bool, seqNo: int, es: seq<Move>, c: Config)
    requires Trace(Start(tcp, server, seqNo), es, c)
    ensures c.s.tcp == tcp
  {
    Always(OfKind(tcp), Start(tcp, server, seqNo), es, c);
  }

  /** What the owner is meant to go through. */
  function Right(tcp: bool, data: seq<byte>): seq<Act> {
    [OnKeyGenerated, LocalPost, OnRecvSyncDeviceInfo(data)] + if tcp then [OnDeviceVerifyPass] else []
  }

  /** All handlers have run to their end; an owner that was told of the key has posted. */
  predicate Settled(c: Config) {
    && (c.k == KTold || c.k == KWaiting) && c.p.PAt? && StepsLeft(c.p.h) == 0
    && (c.told ==> c.q == QDone || c.q == QEmpty)
  }

  /**
   missed: a handler wrote the key state between the other's test and write of it. early: the peer
   handler tested the status between the key handler's storing the key and setting the status, and
   handed over before the post. lost: the post looked for saved data between the peer handler's
   decision to save and its block. torn: the post read its arguments between the peer handler's
   block and its length.
   */
  predicate Overtaken(c: Config) {
    c.missed || c.early || c.lost || c.torn
  }

  /**
   In every interleaving of the three handlers' steps, with other sessions using the store in
   between, the owner is told of the key once, posts, and then gets the peer's data once and
   unchanged, if and only if none of the four overtakings has occurred.
   */
  lemma RightExactlyUnlessOvertaken(tcp: bool, server: bool, seqNo: int, es: seq<Move>, c: Config)
    requires Trace(Start(tcp, server, seqNo), es, c) && Settled(c)
    ensures c.s.calls == Right(tcp, c.data) <==> !Overtaken(c)
  {
    TraceReaches(tcp, server, seqNo, es, c);
    TraceKeepsKind(tcp, server, seqNo, es, c);
    if Overtaken(c) { SettledWrong(c); } else { SettledRight(c); }
  }

  lemma SettledRight(c: Config)
    requires Reachable(c) && Settled(c) && !Overtaken(c)
    ensures c.s.calls == Right(c.s.tcp, c.data)
  {
  }

  lemma SettledWrong(c: Config)
    requires Reachable(c) && Settled(c) && Overtaken(c)
    ensures c.s.calls != Right(c.s.tcp, c.data)
  {
    if c.early {
      TooSoonIsWrong(c.s.calls, c.s.tcp, c.data);
    } else if c.missed {
      assert Right(c.s.tcp, c.data)[0] == OnKeyGenerated;
    } else {
      assert Right(c.s.tcp, c.data)[2] == OnRecvSyncDeviceInfo(c.data);
    }
  }

  lemma TooSoonIsWrong(calls: seq<Act>, tcp: bool, data: seq<byte>)
    requires TooSoon(calls)
    ensures calls != Right(tcp, data)
  {
    var i: nat :| i < |calls| && calls[i].OnRecvSyncDeviceInfo? && LocalPost !in calls[..i];
    var right := Right(tcp, data);
    assert i < |right| && right[i].OnRecvSyncDeviceInfo? ==> i == 2 && right[..i][1] == LocalPost;
  }

  /**
   At every moment at which nothing was handed over early, the owner has gone through a part of
   that, in order; or the peer handler has lost its block and reported a failure after the post.
   */
  lemma PrefixUnlessEarly(tcp: bool, server: bool, seqNo: int, es: seq<Move>, c: Config)
    requires Trace(Start(tcp, server, seqNo), es, c) && !c.early
    ensures if c.p == PAt(HFailed) then c.torn && c.s.calls == [OnKeyGenerated, LocalPost, OnDeviceVerifyFail]
            else c.s.calls <= Right(tcp, c.data)
  {
    TraceReaches(tcp, server, seqNo, es, c);
    TraceKeepsKind(tcp, server, seqNo, es, c);
    if c.p == PAt(HFailed) { FailedOrder(c); } else { OrderlyPrefix(c); }
  }

  lemma FailedOrder(c: Config)
    requires Reachable(c) && c.p == PAt(HFailed)
    ensures c.torn && c.s.calls == [OnKeyGenerated, LocalPost, OnDeviceVerifyFail]
  {
    assert c.told && c.q == QDone && !c.early;
  }

  lemma OrderlyPrefix(c: Config)
    requires Reachable(c) && c.p != PAt(HFailed) && !c.early
    ensures c.s.calls <= Right(c.s.tcp, c.data)
  {
    assert c.q != QIdle ==> c.told;
  }

  /** While the key stays listed, the handler called by the post never reaches its saving step. */
  lemma PostNeverKeepsItsOwn(tcp: bool, server: bool, seqNo: int, es: seq<Move>, c: Config)
    requires Trace(Start(tcp, server, seqNo), es, c)
    ensures c.q.QCall? ==> c.q.h != HAlloc && c.s.saved == Some(c.q.arg) && c.q.arg == c.data
  {
    TraceReaches(tcp, server, seqNo, es, c);
  }

  /** The peer handler fills a block that was released or is gone only after that overtaking. */
  lemma FillsItsBlockUnlessTorn(tcp: bool, server: bool, seqNo: int, es: seq<Move>, c: Config)
    requires Trace(Start(tcp, server, seqNo), es, c) && c.p == PAt(HFill) && !c.torn
    ensures c.s.saved.Some? && c.q != QClear && c.q != QDone
  {
    TraceReaches(tcp, server, seqNo, es, c);
  }

  // ---------------------------------------------------------------- handlers that keep out of each other's way

  /**
   No step of the key handler between the peer handler's test and write of the key state, none of
   the peer handler between the key handler's test and write of it or between its storing the key
   and setting the status, and none of the post from the peer handler's look-up of the status until its saving is complete.
   */
  predicate OutOfTheWay(c: Config, e: Move) {
    match e
    case KeyMoves => c.p != PAt(HNotify) && c.p != PAt(HMark)
    case PeerMoves => c.k != KStored && c.k != KWrite && c.k != KReadAgain
    case PostMoves => c.p != PAt(HStatus) && c.p != PAt(HAlloc) && !Saving(c.p)
    case PostBegins => c.p != PAt(HStatus) && c.p != PAt(HAlloc) && !Saving(c.p)
    case _ => true
  }

  predicate Polite(c: Config, es: seq<Move>)
    decreases |es|
  {
    es == [] || (May(c, es[0]) && OutOfTheWay(c, es[0]) && Polite(Do(c, es[0], Listed(c)), es[1..]))
  }

  lemma {:induction false} PoliteNeverOvertakes(c: Config, es: seq<Move>, c': Config)
    requires !Overtaken(c) && !c.gap && Trace(c, es, c') && Polite(c, es)
    ensures !Overtaken(c') && !c'.gap
    decreases |es|
  {
    if es != [] {
      PoliteNeverOvertakes(Do(c, es[0], Listed(c)), es[1..], c');
    }
  }

  /** So every run without such a step, whatever else interleaves, ends right. */
  lemma PoliteEndsRight(tcp: bool, server: bool, seqNo: int, es: seq<Move>, c: Config)
    requires Trace(Start(tcp, server, seqNo), es, c) && Settled(c)
    requires Polite(Start(tcp, server, seqNo), es)
    ensures c.s.calls == Right(tcp, c.data)
  {
    PoliteNeverOvertakes(Start(tcp, server, seqNo), es, c);
    RightExactlyUnlessOvertaken(tcp, server, seqNo, es, c);
  }

  // ---------------------------------------------------------------- each overtaking happens

  lemma {:induction false} Snoc(c: Config, es: seq<Move>, d: Config, e: Move)
    requires Trace(c, es, d) && May(d, e)
    ensures Trace(c, es + [e], Do(d, e, Listed(d)))
    decreases |es|
  {
    if es == [] {
      assert Trace(Do(c, e, Listed(c)), [], Do(d, e, Listed(d)));
      assert (es + [e])[1..] == [];
    } else {
      Snoc(Do(c, es[0], Listed(c)), es[1..], d, e);
      assert (es + [e])[1..] == es[1..] + [e];
    }
  }

  /** One more move of a run. */
  lemma Go(c: Config, es: seq<Move>, d: Config, e: Move) returns (es': seq<Move>, d': Config)
    requires Trace(c, es, d) && May(d, e)
    ensures Trace(c, es', d') && d' == Do(d, e, Listed(d))
  {
    Snoc(c, es, d, e);
    es', d' := es + [e], Do(d, e, Listed(d));
  }

  lemma GoKey(c: Config, es: seq<Move>, d: Config) returns (es': seq<Move>, d': Config)
    requires Trace(c, es, d)
    ensures Trace(c, es', d') && d' == KeyStep(d)
  {
    es', d' := Go(c, es, d, KeyMoves);
  }

  lemma GoPeer(c: Config, es: seq<Move>, d: Config) returns (es': seq<Move>, d': Config)
    requires Trace(c, es, d) && d.p.PAt?
    ensures Trace(c, es', d') && d' == PeerStep(d, Listed(d))
  {
    es', d' := Go(c, es, d, PeerMoves);
  }

  lemma GoPost(c: Config, es: seq<Move>, d: Config) returns (es': seq<Move>, d': Config)
    requires Trace(c, es, d)
    ensures Trace(c, es', d') && d' == PostStep(d, Listed(d))
  {
    es', d' := Go(c, es, d, PostMoves);
  }

  /** The peer's data has been announced and the peer handler is about to look for the key. */
  lemma Announced(tcp: bool, server: bool, n: NewKey, data: seq<byte>)
    returns (es: seq<Move>, c: Config)
    requires DataOk(data)
    ensures Trace(Start(tcp, server, n.info.seqNo), es, c)
    ensures c == Start(tcp, server, n.info.seqNo).(p := PAt(HList), data := data, s := c.s)
    ensures c.s == Start(tcp, server, n.info.seqNo).s.(info := RecvEncryptData)
  {
    var c0 := Start(tcp, server, n.info.seqNo);
    es, c := Go(c0, [], c0, PeerArrives(data));
    es, c := GoPeer(c0, es, c);
    es, c := GoPeer(c0, es, c);
  }

  lemma KeyRest(c: Config)
    requires c.k == KSynced && c.s.info == RecvEncryptData
    ensures
      var c2 := KeyStep(KeyStep(c));
      (if c.s.tcp && c.s.server then KeyStep(c2) else c2)
        == c.(k := KTold, told := true, s := c.s.(calls := c.s.calls + [OnKeyGenerated]))
  {
  }

  /** The rest of the key handler when the peer's data has been announced. */
  lemma KeyTells(c0: Config, before: seq<Move>, c: Config) returns (es: seq<Move>, c': Config)
    requires Trace(c0, before, c) && c.k == KSynced && c.s.info == RecvEncryptData
    ensures Trace(c0, es, c')
    ensures c' == c.(k := KTold, told := true, s := c.s.(calls := c.s.calls + [OnKeyGenerated]))
  {
    KeyRest(c);
    es, c' := GoKey(c0, before, c);
    es, c' := GoKey(c0, es, c');
    if c.s.tcp && c.s.server {
      es, c' := GoKey(c0, es, c');
    }
  }

  /** The whole key handler after the announcement. */
  lemma KeyRuns(c0: Config, before: seq<Move>, c: Config, n: NewKey) returns (es: seq<Move>, c': Config)
    requires Trace(c0, before, c) && c.k == KIdle && c.p == PAt(HList) && c.s.info == RecvEncryptData
    requires n.info.seqNo == c.s.seqNo
    ensures Trace(c0, es, c')
    ensures c' == c.(k := KTold, told := true,
                     s := c.s.(status := InSyncProgress, calls := c.s.calls + [OnKeyGenerated]))
  {
    es, c' := Go(c0, before, c, KeyReturns(n));
    es, c' := GoKey(c0, es, c');
    es, c' := KeyTells(c0, es, c');
  }

  /** The peer handler finds the key and a session that waits for the post. */
  lemma PeerWillSave(c0: Config, before: seq<Move>, c: Config) returns (es: seq<Move>, c': Config)
    requires Trace(c0, before, c) && (c.k == KWaiting || c.k == KTold)
    requires c.p == PAt(HList) && c.s.status == InSyncProgress
    ensures Trace(c0, es, c') && c' == c.(p := PAt(HAlloc), gap := false)
  {
    es, c' := GoPeer(c0, before, c);
    es, c' := GoPeer(c0, es, c');
  }

  lemma PeerAllocates(c0: Config, before: seq<Move>, c: Config) returns (es: seq<Move>, c': Config)
    requires Trace(c0, before, c) && c.p == PAt(HAlloc)
    ensures Trace(c0, es, c') && c' == c.(p := PAt(HFill), s := c.s.(saved := Some([])))
  {
    es, c' := GoPeer(c0, before, c);
  }

  lemma PeerFills(c0: Config, before: seq<Move>, c: Config) returns (es: seq<Move>, c': Config)
    requires Trace(c0, before, c) && c.p == PAt(HFill)
    ensures Trace(c0, es, c')
    ensures c' == if c.s.saved.Some? then c.(p := PAt(HLength), s := c.s.(saved := Some(c.data)))
                  else c.(p := PAt(HFailed), s := c.s.(calls := c.s.calls + [OnDeviceVerifyFail]))
  {
    es, c' := GoPeer(c0, before, c);
  }

  lemma PeerWritesLength(c0: Config, before: seq<Move>, c: Config) returns (es: seq<Move>, c': Config)
    requires Trace(c0, before, c) && c.p == PAt(HLength)
    ensures Trace(c0, es, c') && c' == c.(p := PAt(HKept), s := c.s.(len := |c.data|))
  {
    es, c' := GoPeer(c0, before, c);
  }

  /** The three steps of saving. */
  lemma PeerSaves(c0: Config, before: seq<Move>, c: Config) returns (es: seq<Move>, c': Config)
    requires Trace(c0, before, c) && c.p == PAt(HAlloc)
    ensures Trace(c0, es, c')
    ensures c' == c.(p := PAt(HKept), s := c.s.(saved := Some(c.data), len := |c.data|))
  {
    es, c' := PeerAllocates(c0, before, c);
    es, c' := PeerFills(c0, es, c');
    es, c' := PeerWritesLength(c0, es, c');
  }

  /** The peer decides to save, the post finds nothing saved, the peer saves. */
  lemma PostPassesBy(c0: Config, before: seq<Move>, c: Config) returns (es: seq<Move>, c': Config)
    requires Trace(c0, before, c) && c.k == KTold && c.told && c.p == PAt(HList) && c.q == QIdle
    requires c.s.status == InSyncProgress && c.s.saved == None
    ensures Trace(c0, es, c') && Settled(c')
    ensures c'.s.calls == c.s.calls + [LocalPost] && c'.s.saved == Some(c.data)
  {
    es, c' := PeerWillSave(c0, before, c);
    es, c' := Go(c0, es, c', PostBegins);
    es, c' := GoPost(c0, es, c');
    es, c' := PeerSaves(c0, es, c');
  }

  /** A run for every kind of session after which all is done and the data stays with the session for good. */
  lemma DeliveryCanBeLost(tcp: bool, server: bool, n: NewKey, data: seq<byte>)
    returns (es: seq<Move>, c: Config)
    requires DataOk(data)
    ensures Trace(Start(tcp, server, n.info.seqNo), es, c) && Settled(c)
    ensures c.s.calls == [OnKeyGenerated, LocalPost] && c.s.saved == Some(data)
  {
    var c0 := Start(tcp, server, n.info.seqNo);
    es, c := Announced(tcp, server, n, data);
    es, c := KeyRuns(c0, es, c, n);
    es, c := PostPassesBy(c0, es, c);
  }

  /** The key handler of a server over TCP has tested the key state and not yet written it. */
  lemma KeyTests(n: NewKey, data: seq<byte>) returns (es: seq<Move>, c: Config)
    requires DataOk(data)
    ensures Trace(Start(true, true, n.info.seqNo), es, c)
    ensures c == Start(true, true, n.info.seqNo).(
                   k := KWrite, p := PAt(HTest), data := data,
                   s := Start(true, true, n.info.seqNo).s.(status := InSyncProgress))
  {
    var c0 := Start(true, true, n.info.seqNo);
    es, c := Go(c0, [], c0, PeerArrives(data));
    es, c := Go(c0, es, c, KeyReturns(n));
    es, c := GoKey(c0, es, c);
    es, c := GoKey(c0, es, c);
  }

  /** The peer handler runs past a key handler that is about to write. */
  lemma PeerPassesBy(c0: Config, before: seq<Move>, c: Config) returns (es: seq<Move>, c': Config)
    requires Trace(c0, before, c) && c.k == KWrite && !c.told && c.p == PAt(HTest)
    requires c.s.info == InitialState && c.s.status == InSyncProgress
    ensures Trace(c0, es, c') && Settled(c') && c'.s.calls == c.s.calls && c'.s.saved == Some(c.data)
  {
    es, c' := GoPeer(c0, before, c);
    es, c' := GoPeer(c0, es, c');
    es, c' := GoKey(c0, es, c');
    es, c' := PeerWillSave(c0, es, c');
    es, c' := PeerSaves(c0, es, c');
  }

  /** On a server over TCP each handler tests the key state before the other writes it: no one tells the owner. */
  lemma NoticeCanBeMissed(n: NewKey, data: seq<byte>) returns (es: seq<Move>, c: Config)
    requires DataOk(data)
    ensures Trace(Start(true, true, n.info.seqNo), es, c) && Settled(c)
    ensures c.s.calls == [] && c.s.saved == Some(data)
  {
    es, c := KeyTests(n, data);
    es, c := PeerPassesBy(Start(true, true, n.info.seqNo), es, c);
  }

  /** The peer finds the key stored but the status not yet set. */
  lemma PeerGoesAhead(c0: Config, before: seq<Move>, c: Config, n: NewKey) returns (es: seq<Move>, c': Config)
    requires Trace(c0, before, c) && c.k == KIdle && c.p == PAt(HList) && c.s.status == InAuthProgress
    requires n.info.seqNo == c.s.seqNo
    ensures Trace(c0, es, c') && c'.s.calls == c.s.calls + [OnRecvSyncDeviceInfo(c.data)]
    ensures c'.told == c.told && c'.q == c.q
  {
    es, c' := PeerFindsKey(c0, before, c, n);
    es, c' := GoPeer(c0, es, c');
    es, c' := GoPeer(c0, es, c');
  }

  lemma PeerFindsKey(c0: Config, before: seq<Move>, c: Config, n: NewKey) returns (es: seq<Move>, c': Config)
    requires Trace(c0, before, c) && c.k == KIdle && c.p == PAt(HList) && n.info.seqNo == c.s.seqNo
    ensures Trace(c0, es, c') && c' == c.(k := KStored, p := PAt(HStatus))
  {
    es, c' := Go(c0, before, c, KeyReturns(n));
    es, c' := GoPeer(c0, es, c');
  }

  /** A run for every kind of session in which the data comes before the owner knows of the key or has posted. */
  lemma DeliveryCanBeEarly(tcp: bool, server: bool, n: NewKey, data: seq<byte>)
    returns (es: seq<Move>, c: Config)
    requires DataOk(data)
    ensures Trace(Start(tcp, server, n.info.seqNo), es, c) && !c.told && c.q == QIdle
    ensures c.s.calls == [OnRecvSyncDeviceInfo(data)]
  {
    var c0 := Start(tcp, server, n.info.seqNo);
    es, c := Announced(tcp, server, n, data);
    es, c := PeerGoesAhead(c0, es, c, n);
  }

  /** The post finds the block but not yet its length. */
  lemma PostReadsArgs(c0: Config, before: seq<Move>, c: Config) returns (es: seq<Move>, c': Config)
    requires Trace(c0, before, c) && c.q == QLook && c.s.saved.Some? && c.s.len == 0
    ensures Trace(c0, es, c') && c' == c.(q := QFree, torn := c.torn || Saving(c.p))
  {
    es, c' := GoPost(c0, before, c);
    es, c' := GoPost(c0, es, c');
  }

  lemma PostDrops(c0: Config, before: seq<Move>, c: Config) returns (es: seq<Move>, c': Config)
    requires Trace(c0, before, c) && c.q == QFree
    ensures Trace(c0, es, c') && c' == c.(q := QDone, s := c.s.(saved := None))
  {
    es, c' := GoPost(c0, before, c);
    es, c' := GoPost(c0, es, c');
  }

  /** It releases the block after a call that does nothing. */
  lemma PostTakesBlock(c0: Config, before: seq<Move>, c: Config) returns (es: seq<Move>, c': Config)
    requires Trace(c0, before, c) && c.told && c.q == QIdle && c.s.saved.Some? && c.s.len == 0
    ensures Trace(c0, es, c')
    ensures c' == c.(q := QDone, torn := c.torn || Saving(c.p),
                     s := c.s.(status := SyncFinish, calls := c.s.calls + [LocalPost], saved := None))
  {
    es, c' := Go(c0, before, c, PostBegins);
    es, c' := PostReadsArgs(c0, es, c');
    es, c' := PostDrops(c0, es, c');
  }

  /** The peer handler has filled its block when the post takes it. */
  lemma PostTakesFilled(c0: Config, before: seq<Move>, c: Config) returns (es: seq<Move>, c': Config)
    requires Trace(c0, before, c) && c.k == KTold && c.told && c.p == PAt(HLength) && c.q == QIdle
    requires c.s.saved.Some? && c.s.len == 0
    ensures Trace(c0, es, c') && Settled(c') && c'.s.saved == None && c'.s.calls == c.s.calls + [LocalPost]
  {
    es, c' := PostTakesBlock(c0, before, c);
    es, c' := PeerWritesLength(c0, es, c');
  }

  /** The peer handler has not filled it. */
  lemma PostTakesRaw(c0: Config, before: seq<Move>, c: Config) returns (es: seq<Move>, c': Config)
    requires Trace(c0, before, c) && c.k == KTold && c.told && c.p == PAt(HFill) && c.q == QIdle
    requires c.s.saved.Some? && c.s.len == 0
    ensures Trace(c0, es, c') && Settled(c') && c'.s.saved == None
    ensures c'.s.calls == c.s.calls + [LocalPost] + [OnDeviceVerifyFail]
  {
    es, c' := PostTakesBlock(c0, before, c);
    es, c' := PeerFills(c0, es, c');
  }

  /**
   A run for every kind of session in which the post reads the length before it is written: all is
   done, the data is gone and was never handed over. When the block was not even filled, the peer
   handler is left without it and reports a failure.
   */
  lemma DeliveryCanBeTorn(tcp: bool, server: bool, n: NewKey, data: seq<byte>, filled: bool)
    returns (es: seq<Move>, c: Config)
    requires DataOk(data)
    ensures Trace(Start(tcp, server, n.info.seqNo), es, c) && Settled(c) && c.s.saved == None
    ensures c.s.calls == [OnKeyGenerated, LocalPost] + if filled then [] else [OnDeviceVerifyFail]
  {
    var c0 := Start(tcp, server, n.info.seqNo);
    es, c := Announced(tcp, server, n, data);
    es, c := KeyRuns(c0, es, c, n);
    es, c := PeerWillSave(c0, es, c);
    es, c := PeerAllocates(c0, es, c);
    if filled {
      es, c := PeerFills(c0, es, c);
      es, c := PostTakesFilled(c0, es, c);
    } else {
      es, c := PostTakesRaw(c0, es, c);
    }
  }
}
