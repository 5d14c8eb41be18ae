/**
 The end of an authentication: the session key arrives, the peer's encrypted device data arrives,
 and the local data is posted, in any order the network and the callbacks allow. Here every handler
 runs undisturbed; AuthSteps takes the handlers apart.
 */
module AuthOrder {
  import opened Basics
  import opened SessionKeys

  const AUTH_MAX_DATA_LEN := 64 * 1024

  datatype Status = InAuthProgress | InSyncProgress | SyncFinish | AuthPassed
  datatype InfoStatus = InitialState | KeyGenerated | RecvEncryptData

  /** What the owner of a session goes through: the callbacks it gets, and its own post. */
  datatype Act =
    | OnKeyGenerated
    | LocalPost
    | OnRecvSyncDeviceInfo(data: seq<byte>)
    | OnDeviceVerifyPass
    | OnDeviceVerifyFail

  /**
   A session; tcp and server never change, seqNo is the low half of its authId. saved and len are
   encryptDevData and encryptLen.
   */
  datatype Session = Session(tcp: bool, server: bool, seqNo: int, status: Status, info: InfoStatus,
                             saved: Option<seq<byte>>, len: nat, calls: seq<Act>)

  predicate InList(keys: seq<SessionKey>, seqNo: int) {
    exists k :: k in keys && k.seqNo == seqNo
  }

  predicate DataOk(data: seq<byte>) {
    0 < |data| <= AUTH_MAX_DATA_LEN
  }

  /** AuthHandlePeerSyncDeviceInfo from its second step on: keep the data, or hand it over. */
  function Received(s: Session, keys: seq<SessionKey>, data: seq<byte>): Session {
    var s1 := s.(info := RecvEncryptData);
    if !InList(keys, s.seqNo) || s.status == InSyncProgress then s1.(saved := Some(data), len := |data|)
    else s1.(calls := s1.calls + [OnRecvSyncDeviceInfo(data)] + (if s.tcp then [OnDeviceVerifyPass] else []),
             status := AuthPassed)
  }

  /** The bytes a call with a block and a length speaks of. */
  function Argument(block: seq<byte>, len: nat): seq<byte> {
    if len < |block| then block[..len] else block
  }

  /** AuthHandlePeerSyncDeviceInfo as called by a post: any key-generated callback does not post again. */
  function Again(s: Session, keys: seq<SessionKey>, data: seq<byte>): Session {
    if !DataOk(data) then s
    else
      var s1 := if s.tcp && s.server && s.info == KeyGenerated then s.(calls := s.calls + [OnKeyGenerated]) else s;
      Received(s1, keys, data)
  }

  /** HandlePeerSyncDeviceInfo, after the local data of type DATA_TYPE_SYNC has been sent. */
  function Posted(s: Session, keys: seq<SessionKey>): Session {
    var s1 := s.(status := SyncFinish, calls := s.calls + [LocalPost]);
    if s1.saved.None? then s1
    else Again(s1, keys, Argument(s1.saved.value, s1.len)).(saved := None)
  }

  /** The owner is told that the key is there; it may post its own data within the callback. */
  function Notify(s: Session, keys: seq<SessionKey>, posts: bool): Session {
    var s1 := s.(calls := s.calls + [OnKeyGenerated]);
    if posts then Posted(s1, keys) else s1
  }

  /** AuthHandlePeerSyncDeviceInfo as called for data from the network. */
  function PeerData(s: Session, keys: seq<SessionKey>, data: seq<byte>, posts: bool): Session {
    if !DataOk(data) then s
    else
      var s1 := if s.tcp && s.server && s.info == KeyGenerated then Notify(s, keys, posts) else s;
      Received(s1, keys, data)
  }

  /** Empty data and data of more than 64 KiB are ignored; any other data is taken note of. */
  lemma BadLengthIgnored(s: Session, keys: seq<SessionKey>, data: seq<byte>, posts: bool)
    ensures |data| == 0 || |data| > 65536 ==> PeerData(s, keys, data, posts) == s
    ensures 0 < |data| <= 65536 ==> PeerData(s, keys, data, posts).info == RecvEncryptData
  {
  }

  /** AuthOnSessionKeyReturned, after the key has been stored. */
  function KeyReturned(s: Session, keys: seq<SessionKey>, posts: bool): Session {
    var s1 := s.(status := InSyncProgress);
    if s.tcp && s.server then
      match s.info
      case InitialState => s1.(info := KeyGenerated)
      case RecvEncryptData => Notify(s1, keys, posts)
      case KeyGenerated => s1
    else Notify(s1, keys, posts)
  }

  // ---------------------------------------------------------------- runs

  /** posts says whether the owner posts its data inside the key-generated callback. */
  datatype Event =
    | Key(n: NewKey, posts: bool)
    | Peer(data: seq<byte>, posts: bool)
    | Post
    | Others(op: Op)

  /** A session with the store it shares, and what has happened to it so far. */
  datatype World = World(s: Session, keys: seq<SessionKey>, key: bool, peer: Option<seq<byte>>, posted: bool)

  /** Whether the owner has been told of the key. */
  predicate Told(w: World) {
    w.key && (w.s.tcp && w.s.server ==> w.peer.Some?)
  }

  function KeysAfter(w: World, e: Event): seq<SessionKey> {
    match e
    case Key(n, _) => Apply(w.keys, SetKey(n))
    case Others(op) => Apply(w.keys, op)
    case _ => w.keys
  }

  /**
   The three events happen at most once, the local post only after the owner was told of the key,
   and the store holds a key with the session's number exactly from the key event on.
   */
  predicate Admissible(w: World, e: Event) {
    && (InList(KeysAfter(w, e), w.s.seqNo) <==> w.key || e.Key?)
    && match e
       case Key(n, posts) => !w.key && n.info.seqNo == w.s.seqNo
       case Peer(data, posts) => w.peer.None? && DataOk(data)
       case Post => Told(w) && !w.posted
       case Others(op) => true
  }

  function Next(w: World, e: Event): World {
    var keys := KeysAfter(w, e);
    match e
    case Key(n, posts) =>
      var w1 := w.(keys := keys, s := KeyReturned(w.s, keys, posts), key := true);
      w1.(posted := w.posted || (posts && Told(w1)))
    case Peer(data, posts) =>
      var w1 := w.(s := PeerData(w.s, keys, data, posts), peer := Some(data));
      w1.(posted := w.posted || (posts && !Told(w) && Told(w1)))
    case Post => w.(s := Posted(w.s, keys), posted := true)
    case Others(op) => w.(keys := keys)
  }

  function Initial(tcp: bool, server: bool, seqNo: int, keys: seq<SessionKey>): World {
    World(Session(tcp, server, seqNo, InAuthProgress, InitialState, None, 0, []), keys, false, None, false)
  }

  predicate Run(w: World, es: seq<Event>, w': World)
    decreases |es|
  {
    if es == [] then w' == w else Admissible(w, es[0]) && Run(Next(w, es[0]), es[1..], w')
  }

  /** What the owner must have been told when these events have happened, whatever their order. */
  function Outcome(tcp: bool, told: bool, peer: Option<seq<byte>>, posted: bool): seq<Act> {
    (if told then [OnKeyGenerated] else []) + (if posted then [LocalPost] else []) +
    (if told && peer.Some? && posted
     then [OnRecvSyncDeviceInfo(peer.value)] + (if tcp then [OnDeviceVerifyPass] else []) else [])
  }

  /** The session's fields are a function of which events have happened. */
  ghost predicate Invariant(w: World) {
    var s := w.s;
    && (InList(w.keys, s.seqNo) <==> w.key)
    && (w.posted ==> Told(w)) && (w.peer.Some? ==> DataOk(w.peer.value))
    && s.calls == Outcome(s.tcp, Told(w), w.peer, w.posted)
    && s.saved == (if w.posted then None else w.peer) && (s.saved.Some? ==> s.len == |s.saved.value|)
    && s.info == (if w.peer.Some? then RecvEncryptData
                  else if w.key && s.tcp && s.server then KeyGenerated else InitialState)
    && s.status == (if !w.key then InAuthProgress
                    else if !w.posted then InSyncProgress
                    else if w.peer.None? then SyncFinish else AuthPassed)
  }

  lemma KeyKeeps(w: World, e: Event)
    requires Invariant(w) && Admissible(w, e) && e.Key?
    ensures Invariant(Next(w, e))
  {
    assert w.peer.None? ==> w.s.saved == None;
  }

  lemma PeerKeeps(w: World, e: Event)
    requires Invariant(w) && Admissible(w, e) && e.Peer?
    ensures Invariant(Next(w, e))
  {
    assert w.s.saved == None;
  }

  lemma PostKeeps(w: World, e: Event)
    requires Invariant(w) && Admissible(w, e) && e.Post?
    ensures Invariant(Next(w, e))
  {
    assert w.s.saved == w.peer;
  }

  /** Every admissible event keeps the invariant. */
  lemma EventKeeps(w: World, e: Event)
    requires Invariant(w) && Admissible(w, e)
    ensures Invariant(Next(w, e))
  {
    match e
    case Key(n, posts) => KeyKeeps(w, e);
    case Peer(data, posts) => PeerKeeps(w, e);
    case Post => PostKeeps(w, e);
    case Others(op) =>
  }

  /**
   For every order of the events the owner is told of the key exactly once, receives the peer's
   data exactly once and unchanged, and receives it only when all three events have happened.
   */
  lemma {:induction false} OrderDoesNotMatter(w: World, es: seq<Event>, w': World)
    requires Invariant(w) && Run(w, es, w')
    ensures Invariant(w')
    ensures w'.s.calls == Outcome(w'.s.tcp, Told(w'), w'.peer, w'.posted)
    decreases |es|
  {
    if es != [] {
      EventKeeps(w, es[0]);
      OrderDoesNotMatter(Next(w, es[0]), es[1..], w');
    }
  }

  lemma InitialInvariant(tcp: bool, server: bool, seqNo: int, keys: seq<SessionKey>)
    requires !InList(keys, seqNo)
    ensures Invariant(Initial(tcp, server, seqNo, keys))
  {
  }

  // ---------------------------------------------------------------- from the events alone

  /** What has happened, read off the events: the key came, the peer's data came, the owner posted. */
  datatype Facts = Facts(key: bool, peer: Option<seq<byte>>, posted: bool)
  {
    /** A server over TCP tells its owner of the key only when the peer's data is there too. */
    predicate Told(waits: bool) { key && (waits ==> peer.Some?) }
  }

  function Note(f: Facts, waits: bool, e: Event): Facts {
    match e
    case Key(_, posts) =>
      var f1 := f.(key := true);
      f1.(posted := f.posted || (posts && f1.Told(waits)))
    case Peer(data, posts) =>
      var f1 := f.(peer := Some(data));
      f1.(posted := f.posted || (posts && !f.Told(waits) && f1.Told(waits)))
    case Post => f.(posted := true)
    case Others(_) => f
  }

  function NoteAll(f: Facts, waits: bool, es: seq<Event>): Facts
    decreases |es|
  {
    if es == [] then f else NoteAll(Note(f, waits, es[0]), waits, es[1..])
  }

  /** What the events do to the shared store. */
  function StoreOps(es: seq<Event>): seq<Op> {
    if es == [] then []
    else match es[0]
      case Key(n, _) => [SetKey(n)] + StoreOps(es[1..])
      case Others(op) => [op] + StoreOps(es[1..])
      case _ => StoreOps(es[1..])
  }

  lemma HandlersKeepKind(s: Session, keys: seq<SessionKey>, data: seq<byte>, posts: bool)
    ensures
      forall s' :: s' in {Posted(s, keys), PeerData(s, keys, data, posts), KeyReturned(s, keys, posts)} ==>
        s'.tcp == s.tcp && s'.server == s.server && s'.seqNo == s.seqNo
  {
  }

  lemma OneFact(w: World, e: Event)
    ensures
      var w', waits := Next(w, e), w.s.tcp && w.s.server;
      && Facts(w'.key, w'.peer, w'.posted) == Note(Facts(w.key, w.peer, w.posted), waits, e)
      && w'.keys == ApplyAll(w.keys, StoreOps([e]))
      && w'.s.tcp == w.s.tcp && w'.s.server == w.s.server && w'.s.seqNo == w.s.seqNo
  {
    match e
    case Key(n, posts) => HandlersKeepKind(w.s, KeysAfter(w, e), [], posts);
    case Peer(data, posts) => HandlersKeepKind(w.s, w.keys, data, posts);
    case Post => HandlersKeepKind(w.s, w.keys, [], false);
    case Others(op) =>
  }

  lemma {:induction false} EventsDecide(w: World, es: seq<Event>, w': World)
    requires Run(w, es, w')
    ensures Facts(w'.key, w'.peer, w'.posted) ==
            NoteAll(Facts(w.key, w.peer, w.posted), w.s.tcp && w.s.server, es)
    ensures w'.keys == ApplyAll(w.keys, StoreOps(es))
    ensures w'.s.tcp == w.s.tcp && w'.s.server == w.s.server
    decreases |es|
  {
    if es != [] {
      OneFact(w, es[0]);
      EventsDecide(Next(w, es[0]), es[1..], w');
      var first, rest := StoreOps([es[0]]), StoreOps(es[1..]);
      if first == [] {
        assert StoreOps(es) == rest;
      } else {
        assert StoreOps(es) == [first[0]] + rest && StoreOps(es)[1..] == rest && first[1..] == [];
      }
    }
  }

  /**
   The same from the events alone: what the owner of a new session went through is decided by which
   of the three things have happened, and in what order they happened does not matter.
   */
  lemma OwnerGoesThrough(tcp: bool, server: bool, seqNo: int, keys: seq<SessionKey>, es: seq<Event>, w': World)
    requires !InList(keys, seqNo) && Run(Initial(tcp, server, seqNo, keys), es, w')
    ensures
      var f := NoteAll(Facts(false, None, false), tcp && server, es);
      w'.s.calls == Outcome(tcp, f.Told(tcp && server), f.peer, f.posted)
  {
    InitialInvariant(tcp, server, seqNo, keys);
    OrderDoesNotMatter(Initial(tcp, server, seqNo, keys), es, w');
    EventsDecide(Initial(tcp, server, seqNo, keys), es, w');
  }

  /** Saved data has been announced, has passed the length check and has its length beside it. */
  predicate Consistent(s: Session) {
    s.saved.Some? ==> s.info == RecvEncryptData && DataOk(s.saved.value) && s.len == |s.saved.value|
  }

  /**
   Every handler keeps that, so when a post calls the peer handler again, the handler's test for a
   waiting key is idle: it goes straight on to keep or hand over the data.
   */
  lemma ConsistentKept(s: Session, keys: seq<SessionKey>, data: seq<byte>, posts: bool)
    requires Consistent(s)
    ensures Consistent(Posted(s, keys)) && Consistent(PeerData(s, keys, data, posts))
    ensures Consistent(KeyReturned(s, keys, posts))
    ensures s.saved.Some? ==>
      var s1 := s.(status := SyncFinish, calls := s.calls + [LocalPost]);
      && Posted(s, keys) == Received(s1, keys, s.saved.value).(saved := None)
      && Posted(s, keys) == PeerData(s1, keys, s.saved.value, posts).(saved := None)
  {
    if s.saved.None? && s.info == KeyGenerated {
      assert Consistent(Notify(s, keys, posts));
    }
  }

  /**
   Why the store matters: saved data is handed over by the local post exactly if the key is still
   listed then, and is lost otherwise; data that comes before any key is held back exactly if no
   other session's key has the same number.
   */
  lemma HandedOverExactlyIfListed(s: Session, keys: seq<SessionKey>, data: seq<byte>)
    requires Consistent(s)
    ensures s.saved.Some? ==>
      && Posted(s, keys).saved == None
      && (OnRecvSyncDeviceInfo(s.saved.value) in Posted(s, keys).calls[|s.calls|..] <==> InList(keys, s.seqNo))
    ensures s.status == InAuthProgress ==>
      (Received(s, keys, data).saved == Some(data) && Received(s, keys, data).calls == s.calls
       <==> !InList(keys, s.seqNo))
  {
    if s.saved.Some? && InList(keys, s.seqNo) {
      assert Posted(s, keys).calls[|s.calls| + 1] == OnRecvSyncDeviceInfo(s.saved.value);
    }
    if s.status == InAuthProgress && InList(keys, s.seqNo) {
      assert |Received(s, keys, data).calls| > |s.calls|;
    }
  }

  /**
   The handler called by a post takes its keeping branch exactly if the key is not listed. In that
   branch the code releases encryptDevData and then copies from its argument, which is the same
   block, so nothing is claimed of what is kept there; the post drops it in any case.
   */
  lemma KeepsItsOwnExactlyIfUnlisted(s: Session, keys: seq<SessionKey>)
    requires Consistent(s) && s.saved.Some?
    ensures
      var s1 := s.(status := SyncFinish, calls := s.calls + [LocalPost]);
      Again(s1, keys, s.saved.value).calls == s1.calls <==> !InList(keys, s.seqNo)
  {
    var s1 := s.(status := SyncFinish, calls := s.calls + [LocalPost]);
    assert InList(keys, s.seqNo) ==> |Again(s1, keys, s.saved.value).calls| > |s1.calls|;
  }

  // ---------------------------------------------------------------- the session object

  class AuthSession {
    const tcp: bool
    const server: bool
    const seqNo: int
    const store: KeyStore
    var status: Status
    var encryptInfoStatus: InfoStatus
    var encryptDevData: Option<seq<byte>>
    var encryptLen: nat
    ghost var calls: seq<Act>

    ghost function State(): Session
      reads this
    {
      Session(tcp, server, seqNo, status, encryptInfoStatus, encryptDevData, encryptLen, calls)
    }

    constructor (tcp: bool, server: bool, seqNo: int, store: KeyStore)
      ensures State() == Initial(tcp, server, seqNo, store.keys).s && this.store == store
    {
      this.tcp, this.server, this.seqNo, this.store := tcp, server, seqNo, store;
      status, encryptInfoStatus, encryptDevData, encryptLen, calls := InAuthProgress, InitialState, None, 0, [];
    }

    /** The onKeyGenerated callback of the owner, which may post at once. */
    method RunOnKeyGenerated(posts: bool)
      modifies this
      ensures State() == Notify(old(State()), store.keys, posts)
      decreases posts, 1
    {
      calls := calls + [OnKeyGenerated];
      if posts {
        HandlePeerSyncDeviceInfo();
      }
    }

    /** The last step of AuthPostData for data of type DATA_TYPE_SYNC. */
    method HandlePeerSyncDeviceInfo()
      modifies this
      ensures State() == Posted(old(State()), store.keys)
      decreases true, 0
    {
      status := SyncFinish;
      calls := calls + [LocalPost];
      if encryptDevData.Some? {
        AuthHandlePeerSyncDeviceInfo(Argument(encryptDevData.value, encryptLen), false);
        encryptDevData := None;
      }
    }

    method KeepOrDeliver(data: seq<byte>)
      modifies this
      ensures State() == Received(old(State()), store.keys, data)
    {
      encryptInfoStatus := RecvEncryptData;
      var listed := store.AuthIsSeqInKeyList(seqNo);
      if !listed || status == InSyncProgress {
        encryptDevData := Some(data);
        encryptLen := |data|;
        return;
      }
      calls := calls + [OnRecvSyncDeviceInfo(data)];
      status := AuthPassed;
      if tcp {
        calls := calls + [OnDeviceVerifyPass];
      }
    }

    method AuthHandlePeerSyncDeviceInfo(data: seq<byte>, posts: bool)
      modifies this
      ensures State() == PeerData(old(State()), store.keys, data, posts)
      decreases posts, 2
    {
      if data == [] || |data| > AUTH_MAX_DATA_LEN {
        return;
      }
      if tcp && server && encryptInfoStatus == KeyGenerated {
        RunOnKeyGenerated(posts);
      }
      KeepOrDeliver(data);
    }

    method AuthOnSessionKeyReturned(n: NewKey, posts: bool)
      requires store.Valid()
      modifies this, store
      ensures store.Valid() && store.keys == Apply(old(store.keys), SetKey(n))
      ensures State() == KeyReturned(old(State()), store.keys, posts)
    {
      store.AuthSetLocalSessionKey(n);
      status := InSyncProgress;
      if tcp && server {
        if encryptInfoStatus == InitialState {
          encryptInfoStatus := KeyGenerated;
        } else if encryptInfoStatus == RecvEncryptData {
          RunOnKeyGenerated(posts);
        }
      } else {
        RunOnKeyGenerated(posts);
      }
    }
  }
}
