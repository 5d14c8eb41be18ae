/**
 The descriptor bookkeeping of the base listener: three shared descriptor sets for select and one
 list of descriptors per module.
 */
module BaseListener {

  const MAX_LISTEN_EVENTS := 1024
  const UNUSE_BUTT := 4

  datatype Trigger = READ_TRIGGER | WRITE_TRIGGER | EXCEPT_TRIGGER | RW_TRIGGER | INVALID_TRIGGER

  datatype Code = SOFTBUS_OK | SOFTBUS_ERR | SOFTBUS_INVALID_PARAM

  /** The sets handed to select. */
  datatype Sets = Sets(read: set<int>, write: set<int>, except: set<int>)
  {
    predicate Has(fd: int) { fd in read || fd in write || fd in except }
  }

  /** SoftbusBaseListenerInfo, as far as descriptors are concerned. */
  datatype Info = Info(fds: seq<int>, fdCount: int)

  datatype State = State(sets: Sets, infos: map<int, Info>, listening: set<int>)

  function AddToSets(s: Sets, fd: int, t: Trigger): Sets {
    match t
    case READ_TRIGGER => s.(read := s.read + {fd})
    case WRITE_TRIGGER => s.(write := s.write + {fd})
    case EXCEPT_TRIGGER => s.(except := s.except + {fd})
    case RW_TRIGGER => s.(read := s.read + {fd}, write := s.write + {fd})
    case INVALID_TRIGGER => s
  }

  function DelFromSets(s: Sets, fd: int, t: Trigger): Sets {
    match t
    case READ_TRIGGER => s.(read := s.read - {fd})
    case WRITE_TRIGGER => s.(write := s.write - {fd})
    case EXCEPT_TRIGGER => s.(except := s.except - {fd})
    case RW_TRIGGER => s.(read := s.read - {fd}, write := s.write - {fd})
    case INVALID_TRIGGER => s
  }

  function ClearFromSets(s: Sets, fds: seq<int>): Sets
    decreases |fds|
  {
    if fds == [] then s
    else ClearFromSets(Sets(s.read - {fds[0]}, s.write - {fds[0]}, s.except - {fds[0]}), fds[1..])
  }

  /** Without the first occurrence of fd. */
  function DropFirst(fds: seq<int>, fd: int): seq<int> {
    if fds == [] then [] else if fds[0] == fd then fds[1..] else [fds[0]] + DropFirst(fds[1..], fd)
  }

  predicate ModuleOk(m: int) { 0 <= m < UNUSE_BUTT }

  /** What AddTrigger does; hasNode says whether the list node could be had. */
  function Added(s: State, m: int, fd: int, t: Trigger, hasNode: bool): (State, Code) {
    if !ModuleOk(m) || fd < 0 || t == INVALID_TRIGGER then (s, SOFTBUS_INVALID_PARAM)
    else if m !in s.infos || s.infos[m].fdCount > MAX_LISTEN_EVENTS then (s, SOFTBUS_ERR)
    else
      var info, sets := s.infos[m], AddToSets(s.sets, fd, t);
      if fd in info.fds then (s.(sets := sets), SOFTBUS_OK)
      else if !hasNode then (s.(sets := DelFromSets(sets, fd, t)), SOFTBUS_ERR)
      else (s.(sets := sets, infos := s.infos[m := Info([fd] + info.fds, info.fdCount + 1)]), SOFTBUS_OK)
  }

  /** What DelTrigger does. */
  function Removed(s: State, m: int, fd: int, t: Trigger): (State, Code) {
    if !ModuleOk(m) || fd < 0 || t == INVALID_TRIGGER then (s, SOFTBUS_INVALID_PARAM)
    else if m !in s.infos then (s, SOFTBUS_ERR)
    else
      var info, sets := s.infos[m], DelFromSets(s.sets, fd, t);
      if sets.Has(fd) then (s.(sets := sets), SOFTBUS_OK)
      else
        var info' := if fd in info.fds then Info(DropFirst(info.fds, fd), info.fdCount - 1) else info;
        (s.(sets := sets, infos := s.infos[m := info']), SOFTBUS_OK)
  }

  /** ResetBaseListener and ResetBaseListenerSet: both empty the list and its descriptors' bits. */
  function Reset(s: State, m: int): State {
    if !ModuleOk(m) || m !in s.infos then s
    else s.(sets := ClearFromSets(s.sets, s.infos[m].fds), infos := s.infos[m := Info([], 0)])
  }

  /** The second critical section of DestroyBaseListener: the info is freed, whatever its list holds by then. */
  function Release(s: State, m: int): State {
    if ModuleOk(m) then s.(infos := s.infos - {m}) else s
  }

  /** DestroyBaseListener with nothing between its two critical sections. */
  function Destroy(s: State, m: int): State {
    Release(Reset(s, m), m)
  }

  datatype Event =
    | Add(m: int, fd: int, t: Trigger, hasNode: bool)
    | Del(m: int, fd: int, t: Trigger)
    | ResetModule(m: int)
    | ReleaseInfo(m: int)
    | StartClient(m: int)
    | StartListener(m: int, listenFd: int)

  function Next(s: State, e: Event): State {
    match e
    case Add(m, fd, t, hasNode) => Added(s, m, fd, t, hasNode).0
    case Del(m, fd, t) => Removed(s, m, fd, t).0
    case ResetModule(m) => Reset(s, m)
    case ReleaseInfo(m) => Release(s, m)
    case StartClient(m) =>
      if ModuleOk(m) && m !in s.infos then s.(infos := s.infos[m := Info([], 0)]) else s
    case StartListener(m, fd) =>
      if ModuleOk(m) then
        State(s.sets.(read := s.sets.read + {fd}),
              s.infos[m := Info(if m in s.infos then s.infos[m].fds else [], 1)], s.listening + {fd})
      else s
  }

  // ---------------------------------------------------------------- what is watched

  datatype Interest = In | Out | Exceptional

  function Interests(t: Trigger): set<Interest> {
    match t
    case READ_TRIGGER => {In}
    case WRITE_TRIGGER => {Out}
    case EXCEPT_TRIGGER => {Exceptional}
    case RW_TRIGGER => {In, Out}
    case INVALID_TRIGGER => {}
  }

  /** What select watches a descriptor for. */
  function Watched(s: State, fd: int): set<Interest> {
    (if fd in s.sets.read then {In} else {}) + (if fd in s.sets.write then {Out} else {})
    + (if fd in s.sets.except then {Exceptional} else {})
  }

  /** A successful AddTrigger adds exactly its interests, a failed one adds none; others are untouched. */
  lemma AddWatches(s: State, m: int, fd: int, t: Trigger, hasNode: bool, x: int, owner: int -> int)
    requires Invariant(s, owner) && owner(fd) == m && fd !in s.listening
    ensures
      var (s', code) := Added(s, m, fd, t, hasNode);
      Watched(s', x) == Watched(s, x) + if code == SOFTBUS_OK && x == fd then Interests(t) else {}
  {
    assert OnList(s, m, fd) <==> s.sets.Has(fd);
  }

  /** DelTrigger takes exactly its interests away; the node stays while any is left. */
  lemma DelWatches(s: State, m: int, fd: int, t: Trigger, x: int, owner: int -> int)
    requires Invariant(s, owner) && owner(fd) == m && fd !in s.listening
    ensures
      var (s', code) := Removed(s, m, fd, t);
      && Watched(s', x) == Watched(s, x) - (if code == SOFTBUS_OK && x == fd then Interests(t) else {})
      && (code == SOFTBUS_OK ==> (OnList(s', m, fd) <==> Watched(s', fd) != {}))
  {
    DelKeeps(s, m, fd, t, owner);
    var s' := Removed(s, m, fd, t).0;
    assert OnList(s', m, fd) <==> s'.sets.Has(fd);
    assert s'.sets.Has(fd) <==> Watched(s', fd) != {};
  }

  /** Which of its three answers AddTrigger gives. */
  lemma AddCodes(s: State, m: int, fd: int, t: Trigger, hasNode: bool)
    ensures
      var code, sound := Added(s, m, fd, t, hasNode).1, 0 <= m < UNUSE_BUTT && fd >= 0 && t != INVALID_TRIGGER;
      && (code == SOFTBUS_INVALID_PARAM <==> !sound)
      && (code == SOFTBUS_OK <==>
            sound && m in s.infos && s.infos[m].fdCount <= MAX_LISTEN_EVENTS && (hasNode || OnList(s, m, fd)))
      && Next(s, Add(m, fd, t, hasNode)) == Added(s, m, fd, t, hasNode).0
  {
  }

  /** And DelTrigger; that the descriptor is not there is no error. */
  lemma DelCodes(s: State, m: int, fd: int, t: Trigger)
    ensures
      var code, sound := Removed(s, m, fd, t).1, 0 <= m < UNUSE_BUTT && fd >= 0 && t != INVALID_TRIGGER;
      && (code == SOFTBUS_INVALID_PARAM <==> !sound)
      && (code == SOFTBUS_OK <==> sound && m in s.infos)
      && Next(s, Del(m, fd, t)) == Removed(s, m, fd, t).0
  {
  }

  /** When no node can be had the trigger's interests are taken back, also those the descriptor had before. */
  lemma AddTakesBack(s: State, m: int, fd: int, t: Trigger, x: int)
    requires Added(s, m, fd, t, false).1 == SOFTBUS_ERR && m in s.infos && s.infos[m].fdCount <= MAX_LISTEN_EVENTS
    ensures
      var s' := Added(s, m, fd, t, false).0;
      Watched(s', x) == Watched(s, x) - (if x == fd then Interests(t) else {}) && s'.infos == s.infos
  {
  }

  lemma {:induction false} DropLength(fds: seq<int>, fd: int)
    ensures |DropFirst(fds, fd)| == |fds| - if fd in fds then 1 else 0
  {
    if fds != [] && fds[0] != fd { DropLength(fds[1..], fd); }
  }

  /** Neither of them changes by how much fdCount differs from the length of the list, nor another module's info. */
  lemma CountFollowsList(s: State, e: Event, k: int)
    requires (e.Add? || e.Del?) && k in s.infos
    ensures
      var s' := Next(s, e);
      && k in s'.infos && s'.infos[k].fdCount - |s'.infos[k].fds| == s.infos[k].fdCount - |s.infos[k].fds|
      && (k != e.m ==> s'.infos[k] == s.infos[k])
  {
    if e.Del? { DropLength(s.infos[k].fds, e.fd); }
  }

  /** A reset stops exactly what the module's list names, and leaves the other modules alone. */
  lemma ResetWatches(s: State, m: int, x: int)
    requires ModuleOk(m)
    ensures Watched(Reset(s, m), x) == if OnList(s, m, x) then {} else Watched(s, x)
    ensures Reset(s, m).infos == (if m in s.infos then s.infos[m := Info([], 0)] else s.infos)
  {
    if m in s.infos { ClearWatches(s, s.infos[m].fds, x); }
  }

  lemma {:induction false} ClearWatches(s: State, fds: seq<int>, x: int)
    ensures Watched(s.(sets := ClearFromSets(s.sets, fds)), x) == if x in fds then {} else Watched(s, x)
    decreases |fds|
  {
    if fds != [] {
      var s1 := s.(sets := Sets(s.sets.read - {fds[0]}, s.sets.write - {fds[0]}, s.sets.except - {fds[0]}));
      ClearWatches(s1, fds[1..], x);
      assert Watched(s1, x) == if x == fds[0] then {} else Watched(s, x);
    }
  }

  /** Starting a listener watches its socket for input and nothing else. */
  lemma StartWatches(s: State, m: int, fd: int, x: int)
    ensures Watched(Next(s, StartListener(m, fd)), x) ==
      Watched(s, x) + if ModuleOk(m) && x == fd then {In} else {}
    ensures Watched(Next(s, StartClient(m)), x) == Watched(s, x)
    ensures ModuleOk(m) ==> m in Next(s, StartListener(m, fd)).infos && m in Next(s, StartClient(m)).infos
    ensures forall k :: OnList(Next(s, StartListener(m, fd)), k, x) <==> OnList(s, k, x)
    ensures forall k :: OnList(Next(s, StartClient(m)), k, x) <==> OnList(s, k, x)
  {
  }

  /** Destroying a module forgets it and what its list named, and nothing else. */
  lemma DestroyExact(s: State, m: int, x: int)
    requires ModuleOk(m)
    ensures Destroy(s, m).infos == s.infos - {m}
    ensures Watched(Destroy(s, m), x) == if OnList(s, m, x) then {} else Watched(s, x)
  {
    ResetWatches(s, m, x);
  }

  // ---------------------------------------------------------------- list and sets agree

  /**
   Each descriptor is used by one module only and never doubles as a listening socket, and an info is
   released only while its list is empty.
   */
  predicate Admissible(s: State, e: Event, owner: int -> int) {
    match e
    case Add(m, fd, _, _) => owner(fd) == m && fd !in s.listening
    case Del(m, fd, _) => owner(fd) == m && fd !in s.listening
    case StartListener(m, fd) => fd in s.listening || !s.sets.Has(fd)
    case ReleaseInfo(m) => ModuleOk(m) && m in s.infos ==> s.infos[m].fds == []
    case _ => true
  }

  ghost predicate NoDuplicates(fds: seq<int>) {
    forall i: nat, j: nat :: i < j < |fds| ==> fds[i] != fds[j]
  }

  predicate OnList(s: State, m: int, fd: int) {
    m in s.infos && fd in s.infos[m].fds
  }

  /** On its module's list exactly when in one of the sets. */
  ghost predicate Invariant(s: State, owner: int -> int) {
    && (forall fd :: fd !in s.listening ==> (OnList(s, owner(fd), fd) <==> s.sets.Has(fd)))
    && (forall m, fd :: OnList(s, m, fd) ==> owner(fd) == m && fd !in s.listening)
    && (forall m :: m in s.infos ==> NoDuplicates(s.infos[m].fds))
  }

  lemma {:induction false} ClearExact(s: Sets, fds: seq<int>, fd: int)
    ensures ClearFromSets(s, fds).Has(fd) <==> s.Has(fd) && fd !in fds
    decreases |fds|
  {
    if fds != [] {
      ClearExact(Sets(s.read - {fds[0]}, s.write - {fds[0]}, s.except - {fds[0]}), fds[1..], fd);
    }
  }

  lemma {:induction false} DropExact(fds: seq<int>, fd: int)
    requires NoDuplicates(fds)
    ensures NoDuplicates(DropFirst(fds, fd))
    ensures forall x :: x in DropFirst(fds, fd) <==> x in fds && x != fd
  {
    if fds != [] {
      if fds[0] == fd {
        forall x | x in fds[1..] ensures x != fd {
        }
      } else {
        DropExact(fds[1..], fd);
        var rest := DropFirst(fds[1..], fd);
        forall j: nat | j < |rest| ensures rest[j] != fds[0] {
          assert rest[j] in rest;
        }
      }
    }
  }

  lemma AddKeeps(s: State, m: int, fd: int, t: Trigger, hasNode: bool, owner: int -> int)
    requires Invariant(s, owner) && owner(fd) == m && fd !in s.listening
    ensures Invariant(Added(s, m, fd, t, hasNode).0, owner)
  {
    var s' := Added(s, m, fd, t, hasNode).0;
    forall x | x != fd ensures s'.sets.Has(x) <==> s.sets.Has(x) {
    }
    if s' != s {
      assert OnList(s, m, fd) <==> s.sets.Has(fd);
      forall k, x ensures OnList(s', k, x) <==> OnList(s, k, x) || (k == m && x == fd && s'.infos != s.infos) {
      }
    }
  }

  lemma DelKeeps(s: State, m: int, fd: int, t: Trigger, owner: int -> int)
    requires Invariant(s, owner) && owner(fd) == m && fd !in s.listening
    ensures Invariant(Removed(s, m, fd, t).0, owner)
  {
    var s' := Removed(s, m, fd, t).0;
    forall x | x != fd ensures s'.sets.Has(x) <==> s.sets.Has(x) {
    }
    if m in s.infos {
      assert OnList(s, m, fd) <==> s.sets.Has(fd);
      DropExact(s.infos[m].fds, fd);
      forall k, x | x != fd || k != m ensures OnList(s', k, x) <==> OnList(s, k, x) {
      }
    }
  }

  lemma ResetKeeps(s: State, m: int, owner: int -> int)
    requires Invariant(s, owner)
    ensures Invariant(Reset(s, m), owner)
    ensures forall x :: !OnList(Reset(s, m), m, x) || !ModuleOk(m)
  {
    var s' := Reset(s, m);
    if ModuleOk(m) && m in s.infos {
      forall x ensures s'.sets.Has(x) <==> s.sets.Has(x) && !OnList(s, m, x) {
        ClearExact(s.sets, s.infos[m].fds, x);
      }
      forall k, x ensures OnList(s', k, x) <==> OnList(s, k, x) && k != m {
      }
    }
  }

  /** Releasing an info keeps the agreement exactly if its list is empty. */
  lemma ReleaseKeepsExactlyIfEmpty(s: State, m: int, owner: int -> int)
    requires Invariant(s, owner) && ModuleOk(m)
    ensures Invariant(Release(s, m), owner) <==> (m in s.infos ==> s.infos[m].fds == [])
  {
    var s' := Release(s, m);
    if m in s.infos && s.infos[m].fds != [] {
      var fd := s.infos[m].fds[0];
      assert OnList(s, m, fd) && owner(fd) == m;
      assert s'.sets.Has(fd) && !OnList(s', m, fd);
    } else {
      assert forall k, x :: OnList(s', k, x) <==> OnList(s, k, x);
    }
  }

  lemma ReleaseKeeps(s: State, m: int, owner: int -> int)
    requires Invariant(s, owner) && Admissible(s, ReleaseInfo(m), owner)
    ensures Invariant(Release(s, m), owner)
  {
    if ModuleOk(m) { ReleaseKeepsExactlyIfEmpty(s, m, owner); }
  }

  /** With nothing in between, destroying a module meets that condition. */
  lemma DestroyKeeps(s: State, m: int, owner: int -> int)
    requires Invariant(s, owner)
    ensures Invariant(Destroy(s, m), owner)
  {
    ResetKeeps(s, m, owner);
    ReleaseKeeps(Reset(s, m), m, owner);
  }

  lemma StartKeeps(s: State, e: Event, owner: int -> int)
    requires Invariant(s, owner) && Admissible(s, e, owner) && (e.StartClient? || e.StartListener?)
    ensures Invariant(Next(s, e), owner)
  {
    var s' := Next(s, e);
    forall k, x ensures OnList(s', k, x) <==> OnList(s, k, x) {
    }
    if e.StartListener? {
      forall x | x != e.listenFd ensures s'.sets.Has(x) <==> s.sets.Has(x) {
      }
      var fd := e.listenFd;
      assert !OnList(s, owner(fd), fd);
      assert forall k :: !OnList(s, k, fd);
    }
  }

  lemma EventKeeps(s: State, e: Event, owner: int -> int)
    requires Invariant(s, owner) && Admissible(s, e, owner)
    ensures Invariant(Next(s, e), owner)
  {
    match e
    case Add(m, fd, t, hasNode) => AddKeeps(s, m, fd, t, hasNode, owner);
    case Del(m, fd, t) => DelKeeps(s, m, fd, t, owner);
    case ResetModule(m) => ResetKeeps(s, m, owner);
    case ReleaseInfo(m) => ReleaseKeeps(s, m, owner);
    case StartClient(m) => StartKeeps(s, e, owner);
    case StartListener(m, fd) => StartKeeps(s, e, owner);
  }

  predicate Run(s: State, es: seq<Event>, owner: int -> int, s': State)
    decreases |es|
  {
    if es == [] then s' == s else Admissible(s, es[0], owner) && Run(Next(s, es[0]), es[1..], owner, s')
  }

  const START := State(Sets({}, {}, {}), map[], {})

  lemma {:induction false} RunKeeps(s: State, es: seq<Event>, owner: int -> int, s': State)
    requires Invariant(s, owner) && Run(s, es, owner, s')
    ensures Invariant(s', owner)
    decreases |es|
  {
    if es != [] {
      EventKeeps(s, es[0], owner);
      RunKeeps(Next(s, es[0]), es[1..], owner, s');
    }
  }

  /** After every run, a descriptor is on its module's list, once, exactly when it is in one of the sets. */
  lemma ListsMatchSets(es: seq<Event>, owner: int -> int, s: State, fd: int)
    requires Run(START, es, owner, s) && fd !in s.listening
    ensures OnList(s, owner(fd), fd) <==> fd in s.sets.read || fd in s.sets.write || fd in s.sets.except
    ensures forall m :: OnList(s, m, fd) ==> m == owner(fd) && NoDuplicates(s.infos[m].fds)
  {
    assert Invariant(START, owner);
    RunKeeps(START, es, owner, s);
  }

  /**
   The sets are shared: resetting one module strips a descriptor that another module still lists,
   whatever the state, so the lists match the sets only while descriptors are not shared.
   */
  lemma SharedDescriptorIsLost(s: State, m: int, k: int, fd: int)
    requires ModuleOk(m) && m != k && OnList(s, m, fd) && OnList(s, k, fd)
    ensures OnList(Reset(s, m), k, fd) && !Reset(s, m).sets.Has(fd)
  {
    ClearExact(s.sets, s.infos[m].fds, fd);
  }

  /** A trigger added between the two critical sections leaves a descriptor in a set and on no list. */
  lemma AddDuringDestroy(s: State, m: int, fd: int, t: Trigger)
    requires m in s.infos && ModuleOk(m) && fd >= 0 && t != INVALID_TRIGGER
    ensures
      var s1 := Next(s, ResetModule(m));
      var s2 := Next(s1, Add(m, fd, t, true));
      var s3 := Next(s2, ReleaseInfo(m));
      Added(s1, m, fd, t, true).1 == SOFTBUS_OK && s3.sets.Has(fd) && !OnList(s3, m, fd)
  {
  }

  /** A listening socket keeps its read bit across a reset and is on no list. */
  lemma ListeningBitStays(s: State, m: int, fd: int, owner: int -> int)
    requires Invariant(s, owner) && ModuleOk(m) && Admissible(s, StartListener(m, fd), owner)
    ensures var s' := Reset(Next(s, StartListener(m, fd)), m); s'.sets.Has(fd) && forall k :: !OnList(s', k, fd)
  {
    var s1 := Next(s, StartListener(m, fd));
    StartKeeps(s, StartListener(m, fd), owner);
    assert s1.infos[m].fds == if m in s.infos then s.infos[m].fds else [];
    assert !OnList(s1, m, fd);
    ClearExact(s1.sets, s1.infos[m].fds, fd);
    ResetKeeps(s1, m, owner);
  }

  // ---------------------------------------------------------------- the code

  lemma {:induction false} DropFirstSplit(a: seq<int>, b: seq<int>, fd: int)
    requires fd !in a
    ensures DropFirst(a + [fd] + b, fd) == a + b
  {
    if a == [] {
      assert a + [fd] + b == [fd] + b && a + b == b;
    } else {
      DropFirstSplit(a[1..], b, fd);
      assert (a + [fd] + b)[1..] == a[1..] + [fd] + b;
      assert a + b == [a[0]] + (a[1..] + b);
    }
  }

  /** CheckFdIsExist. */
  method CheckFdIsExist(fds: seq<int>, fd: int) returns (found: bool)
    ensures found <==> fd in fds
  {
    var i := 0;
    while i < |fds|
      invariant i <= |fds| && fd !in fds[..i]
    {
      if fds[i] == fd {
        return true;
      }
      i := i + 1;
    }
    return false;
  }

  class Listener {
    var readSet: set<int>
    var writeSet: set<int>
    var exceptSet: set<int>
    var infos: map<int, Info>
    ghost var listening: set<int>

    ghost function Value(): State
      reads this
    {
      State(Sets(readSet, writeSet, exceptSet), infos, listening)
    }

    /** Nothing is watched until a module starts. */
    constructor ()
      ensures Value() == START
    {
      readSet, writeSet, exceptSet, infos, listening := {}, {}, {}, map[], {};
    }

    method AddTriggerToSet(fd: int, t: Trigger) returns (code: Code)
      modifies `readSet, `writeSet, `exceptSet
      ensures code == if t == INVALID_TRIGGER then SOFTBUS_INVALID_PARAM else SOFTBUS_OK
      ensures Value() == old(Value()).(sets := AddToSets(old(Value()).sets, fd, t))
    {
      code := SOFTBUS_OK;
      match t {
        case READ_TRIGGER => readSet := readSet + {fd};
        case WRITE_TRIGGER => writeSet := writeSet + {fd};
        case EXCEPT_TRIGGER => exceptSet := exceptSet + {fd};
        case RW_TRIGGER =>
          readSet := readSet + {fd};
          writeSet := writeSet + {fd};
        case INVALID_TRIGGER => code := SOFTBUS_INVALID_PARAM;
      }
    }

    method DelTriggerFromSet(fd: int, t: Trigger) returns (code: Code)
      modifies `readSet, `writeSet, `exceptSet
      ensures code == if t == INVALID_TRIGGER then SOFTBUS_INVALID_PARAM else SOFTBUS_OK
      ensures Value() == old(Value()).(sets := DelFromSets(old(Value()).sets, fd, t))
    {
      code := SOFTBUS_OK;
      match t {
        case READ_TRIGGER => readSet := readSet - {fd};
        case WRITE_TRIGGER => writeSet := writeSet - {fd};
        case EXCEPT_TRIGGER => exceptSet := exceptSet - {fd};
        case RW_TRIGGER =>
          readSet := readSet - {fd};
          writeSet := writeSet - {fd};
        case INVALID_TRIGGER => code := SOFTBUS_INVALID_PARAM;
      }
    }

    /** DelFdNode: unlinks the first node that holds fd. */
    method DelFdNode(m: int, fd: int)
      requires m in infos
      modifies `infos
      ensures fd in old(infos)[m].fds ==>
                infos == old(infos)[m := Info(DropFirst(old(infos)[m].fds, fd), old(infos)[m].fdCount - 1)]
      ensures fd !in old(infos)[m].fds ==> infos == old(infos)
    {
      var fds := infos[m].fds;
      var i := 0;
      while i < |fds|
        invariant i <= |fds| && fd !in fds[..i] && infos == old(infos)
      {
        if fds[i] == fd {
          DropFirstSplit(fds[..i], fds[i + 1..], fd);
          assert fds == fds[..i] + [fd] + fds[i + 1..];
          infos := infos[m := Info(fds[..i] + fds[i + 1..], infos[m].fdCount - 1)];
          return;
        }
        i := i + 1;
      }
    }

    method AddTrigger(m: int, fd: int, t: Trigger, hasNode: bool) returns (code: Code)
      modifies this
      ensures (Value(), code) == Added(old(Value()), m, fd, t, hasNode)
    {
      if !ModuleOk(m) || fd < 0 || t == INVALID_TRIGGER {
        return SOFTBUS_INVALID_PARAM;
      }
      if m !in infos || infos[m].fdCount > MAX_LISTEN_EVENTS {
        return SOFTBUS_ERR;
      }
      code := AddTriggerToSet(fd, t);
      var found := CheckFdIsExist(infos[m].fds, fd);
      if found {
        return SOFTBUS_OK;
      }
      if !hasNode {
        code := DelTriggerFromSet(fd, t);
        return SOFTBUS_ERR;
      }
      infos := infos[m := Info([fd] + infos[m].fds, infos[m].fdCount + 1)];
      return SOFTBUS_OK;
    }

    method DelTrigger(m: int, fd: int, t: Trigger) returns (code: Code)
      modifies this
      ensures (Value(), code) == Removed(old(Value()), m, fd, t)
    {
      if !ModuleOk(m) || fd < 0 || t == INVALID_TRIGGER {
        return SOFTBUS_INVALID_PARAM;
      }
      if m !in infos {
        return SOFTBUS_ERR;
      }
      code := DelTriggerFromSet(fd, t);
      if fd in writeSet || fd in readSet || fd in exceptSet {
        return SOFTBUS_OK;
      }
      DelFdNode(m, fd);
      assert infos == old(infos)[m := infos[m]];
      return SOFTBUS_OK;
    }

    /** ClearListenerFdList: takes nodes off the front until none is left. */
    method ClearListenerFdList(m: int)
      requires m in infos
      modifies `readSet, `writeSet, `exceptSet, `infos
      ensures infos == old(infos)[m := old(infos)[m].(fds := [])]
      ensures Value().sets == ClearFromSets(old(Value()).sets, old(infos)[m].fds)
    {
      while infos[m].fds != []
        invariant m in infos && infos == old(infos)[m := old(infos)[m].(fds := infos[m].fds)]
        invariant ClearFromSets(Value().sets, infos[m].fds) == ClearFromSets(old(Value()).sets, old(infos)[m].fds)
        decreases |infos[m].fds|
      {
        var fd := infos[m].fds[0];
        infos := infos[m := infos[m].(fds := infos[m].fds[1..])];
        readSet := readSet - {fd};
        writeSet := writeSet - {fd};
        exceptSet := exceptSet - {fd};
      }
    }

    /** ResetBaseListener and ResetBaseListenerSet. */
    method ResetBaseListener(m: int)
      modifies this
      ensures Value() == Reset(old(Value()), m)
    {
      if !ModuleOk(m) || m !in infos {
        return;
      }
      ClearListenerFdList(m);
      infos := infos[m := infos[m].(fdCount := 0)];
      assert infos == old(infos)[m := Info([], 0)];
    }

    method DestroyBaseListener(m: int)
      modifies this
      ensures Value() == Destroy(old(Value()), m)
    {
      if !ModuleOk(m) {
        assert infos - {} == infos;
        return;
      }
      ResetBaseListener(m);
      infos := infos - {m};
    }
  }
}
