/**
 The session-key store: at most twenty keys, newest first, looked up by connection type, sequence
 number and device key.
 */
module SessionKeys {
  import opened Basics

  const MAX_KEY_LIST_SIZE := 20
  const MAX_DEVICE_KEY_LEN := 64
  const SESSION_KEY_LENGTH := 32
  const UDID_BUF_LEN := 65

  type DeviceKey = k: seq<byte> | |k| == MAX_DEVICE_KEY_LEN witness seq(MAX_DEVICE_KEY_LEN, i => 0)

  /** NecessaryDevInfo. */
  datatype DevInfo = DevInfo(kind: int, deviceKey: DeviceKey, deviceKeyLen: nat, side: int, seqNo: int)

  /** An entry of the list. */
  datatype SessionKey = SessionKey(kind: int, deviceKey: DeviceKey, deviceKeyLen: nat, side: int, seqNo: int,
                                   peerUdid: seq<byte>, key: seq<byte>)

  /** strncmp(a, b, n) == 0 on buffers of at least n bytes. */
  predicate StrnEq(a: seq<byte>, b: seq<byte>, n: nat)
    requires n <= |a| && n <= |b|
  {
    n == 0 || (a[0] == b[0] && (a[0] == 0 || StrnEq(a[1..], b[1..], n - 1)))
  }

  /** Whether an entry answers a query for the newest key of a device. */
  predicate ForDevice(k: SessionKey, q: DevInfo) {
    q.deviceKeyLen <= MAX_DEVICE_KEY_LEN && k.kind == q.kind && StrnEq(k.deviceKey, q.deviceKey, q.deviceKeyLen)
  }

  /** Whether an entry answers a query for one particular key of a device. */
  predicate ForSeq(k: SessionKey, q: DevInfo) {
    ForDevice(k, q) && k.seqNo == q.seqNo
  }

  function DeviceTest(q: DevInfo): SessionKey -> bool {
    (k: SessionKey) => ForDevice(k, q)
  }

  function SeqTest(q: DevInfo): SessionKey -> bool {
    (k: SessionKey) => ForSeq(k, q)
  }

  function First(s: seq<SessionKey>, p: SessionKey -> bool): (r: Option<SessionKey>)
    ensures r.Some? ==> r.value in s && p(r.value)
    ensures r.None? ==> forall k :: k in s ==> !p(k)
  {
    if s == [] then None else if p(s[0]) then Some(s[0]) else First(s[1..], p)
  }

  // ---------------------------------------------------------------- operations on the list

  /** What AuthSetLocalSessionKey is given. */
  datatype NewKey = NewKey(info: DevInfo, peerUdid: seq<byte>, key: seq<byte>)

  /** Each copy must fit its field. */
  predicate Fits(n: NewKey) {
    |n.peerUdid| <= UDID_BUF_LEN && n.info.deviceKeyLen <= MAX_DEVICE_KEY_LEN && |n.key| <= SESSION_KEY_LENGTH
  }

  function Entry(n: NewKey): SessionKey
    requires Fits(n)
  {
    var len := n.info.deviceKeyLen;
    SessionKey(n.info.kind, n.info.deviceKey[..len] + seq(MAX_DEVICE_KEY_LEN - len, i => 0), len,
               n.info.side, n.info.seqNo, n.peerUdid, n.key)
  }

  /** The oldest key leaves a full list even when the new one then turns out not to fit. */
  function Evicted(keys: seq<SessionKey>): seq<SessionKey> {
    if |keys| == MAX_KEY_LIST_SIZE then keys[..|keys| - 1] else keys
  }

  function Set(keys: seq<SessionKey>, n: NewKey): seq<SessionKey> {
    if Fits(n) then [Entry(n)] + Evicted(keys) else Evicted(keys)
  }

  function HasOtherSeq(seqNo: int): SessionKey -> bool {
    (k: SessionKey) => k.seqNo != seqNo
  }

  function ClearBySeq(keys: seq<SessionKey>, seqNo: int): seq<SessionKey> {
    Filter(keys, HasOtherSeq(seqNo))
  }

  datatype Op = SetKey(n: NewKey) | ClearSeq(seqNo: int) | ClearAll

  function Apply(keys: seq<SessionKey>, op: Op): seq<SessionKey> {
    match op
    case SetKey(n) => Set(keys, n)
    case ClearSeq(s) => ClearBySeq(keys, s)
    case ClearAll => []
  }

  /** The same operation on a list that never forgets by itself. */
  function Logged(log: seq<SessionKey>, op: Op): seq<SessionKey> {
    match op
    case SetKey(n) => if Fits(n) then [Entry(n)] + log else log
    case ClearSeq(s) => Filter(log, HasOtherSeq(s))
    case ClearAll => []
  }

  function ApplyAll(keys: seq<SessionKey>, ops: seq<Op>): seq<SessionKey>
    decreases |ops|
  {
    if ops == [] then keys else ApplyAll(Apply(keys, ops[0]), ops[1..])
  }

  function LogAll(log: seq<SessionKey>, ops: seq<Op>): seq<SessionKey>
    decreases |ops|
  {
    if ops == [] then log else LogAll(Logged(log, ops[0]), ops[1..])
  }

  // ---------------------------------------------------------------- the newest keys

  lemma {:induction false} FilterPrefix(s: seq<SessionKey>, t: seq<SessionKey>, p: SessionKey -> bool)
    requires s <= t
    ensures Filter(s, p) <= Filter(t, p)
  {
    if s != [] {
      FilterFront(s, p);
      FilterFront(t, p);
      FilterPrefix(s[1..], t[1..], p);
    }
  }

  lemma ApplyPrefix(keys: seq<SessionKey>, log: seq<SessionKey>, op: Op)
    requires keys <= log && |keys| <= MAX_KEY_LIST_SIZE
    ensures Apply(keys, op) <= Logged(log, op) && |Apply(keys, op)| <= MAX_KEY_LIST_SIZE
  {
    match op
    case SetKey(n) =>
    case ClearSeq(s) => FilterPrefix(keys, log, HasOtherSeq(s));
    case ClearAll =>
  }

  /** After any trace the store is the newest part of the insertions that were not cleared. */
  lemma {:induction false} NewestKeys(keys: seq<SessionKey>, log: seq<SessionKey>, ops: seq<Op>)
    requires keys <= log && |keys| <= MAX_KEY_LIST_SIZE
    ensures ApplyAll(keys, ops) <= LogAll(log, ops) && |ApplyAll(keys, ops)| <= MAX_KEY_LIST_SIZE
    decreases |ops|
  {
    if ops != [] {
      ApplyPrefix(keys, log, ops[0]);
      NewestKeys(Apply(keys, ops[0]), Logged(log, ops[0]), ops[1..]);
    }
  }

  lemma {:induction false} FirstInPrefix(s: seq<SessionKey>, t: seq<SessionKey>, p: SessionKey -> bool)
    requires s <= t && First(s, p).Some?
    ensures First(t, p) == First(s, p)
  {
    if !p(s[0]) { FirstInPrefix(s[1..], t[1..], p); }
  }

  /** So a lookup that succeeds returns the newest key of that device that was ever set and not cleared. */
  lemma LookupIsNewest(ops: seq<Op>, q: DevInfo)
    ensures
      var found := First(ApplyAll([], ops), DeviceTest(q));
      found.Some? ==> found == First(LogAll([], ops), DeviceTest(q))
  {
    NewestKeys([], [], ops);
    var p := DeviceTest(q);
    if First(ApplyAll([], ops), p).Some? {
      FirstInPrefix(ApplyAll([], ops), LogAll([], ops), p);
    }
  }

  // ---------------------------------------------------------------- whose key it is

  /** The first n bytes agree, up to and including the first zero byte. */
  ghost predicate SameText(a: seq<byte>, b: seq<byte>, n: nat)
    requires n <= |a| && n <= |b|
  {
    forall i: nat :: i < n && (forall j: nat :: j < i ==> a[j] != 0) ==> a[i] == b[i]
  }

  lemma {:induction false} StrnEqExact(a: seq<byte>, b: seq<byte>, n: nat)
    requires n <= |a| && n <= |b|
    ensures StrnEq(a, b, n) <==> SameText(a, b, n)
  {
    if n > 0 {
      StrnEqExact(a[1..], b[1..], n - 1);
      if SameText(a, b, n) && a[0] != 0 {
        forall i: nat | i < n - 1 && forall j: nat :: j < i ==> a[1..][j] != 0 ensures a[1..][i] == b[1..][i] {
          forall j: nat | j < i + 1 ensures a[j] != 0 {
            assert j > 0 ==> a[j] == a[1..][j - 1];
          }
          assert a[i + 1] == b[i + 1];
        }
      }
      if a[0] == b[0] && (a[0] == 0 || SameText(a[1..], b[1..], n - 1)) {
        forall i: nat | i < n && forall j: nat :: j < i ==> a[j] != 0 ensures a[i] == b[i] {
          if i > 0 {
            assert a[0] != 0 && forall j: nat :: j < i - 1 ==> a[1..][j] == a[j + 1];
            assert a[1..][i - 1] == b[1..][i - 1];
          }
        }
      }
    }
  }

  /** The entry is for the connection type and the device that q names. */
  ghost predicate Belongs(k: SessionKey, q: DevInfo) {
    && q.deviceKeyLen <= MAX_DEVICE_KEY_LEN && k.kind == q.kind
    && SameText(k.deviceKey, q.deviceKey, q.deviceKeyLen)
  }

  lemma {:induction false} FirstPlace(keys: seq<SessionKey>, p: SessionKey -> bool) returns (i: nat)
    ensures i <= |keys| && forall j: nat :: j < i ==> !p(keys[j])
    ensures First(keys, p) == if i < |keys| then Some(keys[i]) else None
    ensures i < |keys| ==> p(keys[i])
  {
    i := 0;
    if keys != [] && !p(keys[0]) {
      var i' := FirstPlace(keys[1..], p);
      i := i' + 1;
    }
  }

  /** A lookup by device answers with the newest entry that belongs to the device, and with none exactly if none does. */
  lemma DeviceLookupExact(keys: seq<SessionKey>, q: DevInfo) returns (i: nat)
    ensures i <= |keys| && forall j: nat :: j < i ==> !Belongs(keys[j], q)
    ensures First(keys, DeviceTest(q)) == if i < |keys| then Some(keys[i]) else None
    ensures i < |keys| ==> Belongs(keys[i], q)
  {
    i := FirstPlace(keys, DeviceTest(q));
    forall j: nat | j < |keys| ensures DeviceTest(q)(keys[j]) <==> Belongs(keys[j], q) {
      if q.deviceKeyLen <= MAX_DEVICE_KEY_LEN { StrnEqExact(keys[j].deviceKey, q.deviceKey, q.deviceKeyLen); }
    }
  }

  /** The same for a lookup by number, which the entry must have too. */
  lemma SeqLookupExact(keys: seq<SessionKey>, q: DevInfo) returns (i: nat)
    ensures i <= |keys| && forall j: nat :: j < i ==> !(Belongs(keys[j], q) && keys[j].seqNo == q.seqNo)
    ensures First(keys, SeqTest(q)) == if i < |keys| then Some(keys[i]) else None
    ensures i < |keys| ==> Belongs(keys[i], q) && keys[i].seqNo == q.seqNo
  {
    i := FirstPlace(keys, SeqTest(q));
    forall j: nat | j < |keys| ensures SeqTest(q)(keys[j]) <==> Belongs(keys[j], q) && keys[j].seqNo == q.seqNo {
      if q.deviceKeyLen <= MAX_DEVICE_KEY_LEN { StrnEqExact(keys[j].deviceKey, q.deviceKey, q.deviceKeyLen); }
    }
  }

  /** Clearing a number leaves the entries with other numbers, all of them, in order, and no others. */
  lemma ClearExact(keys: seq<SessionKey>, seqNo: int) returns (idx: seq<nat>)
    ensures
      var left := Apply(keys, ClearSeq(seqNo));
      && |idx| == |left| && (forall i: nat, j: nat :: i < j < |idx| ==> idx[i] < idx[j])
      && (forall i: nat :: i < |idx| ==> idx[i] < |keys| && left[i] == keys[idx[i]] && left[i].seqNo != seqNo)
      && (forall k: nat :: k < |keys| && keys[k].seqNo != seqNo ==> k in idx)
  {
    idx := FilterSelects(keys, HasOtherSeq(seqNo));
  }

  /** An attempt to set a key moves nothing else, and costs a full list its oldest entry, also if it fails. */
  lemma SetExact(keys: seq<SessionKey>, n: NewKey)
    requires |keys| <= 20
    ensures
      var now, kept := Apply(keys, SetKey(n)), if |keys| < 20 then |keys| else 19;
      var fits := |n.peerUdid| <= 65 && n.info.deviceKeyLen <= 64 && |n.key| <= 32;
      |now| == kept + (if fits then 1 else 0) && now[|now| - kept..] == keys[..kept]
  {
  }

  // ---------------------------------------------------------------- how long a key survives

  lemma {:induction false} SamePrefix(a: seq<byte>, b: seq<byte>, n: nat)
    requires n <= |a| && n <= |b| && a[..n] == b[..n]
    ensures StrnEq(a, b, n)
  {
    if n > 0 {
      assert a[0] == a[..n][0] == b[..n][0] && a[1..][..n - 1] == a[..n][1..] == b[1..][..n - 1];
      SamePrefix(a[1..], b[1..], n - 1);
    }
  }

  /** A key that fits is found at once, by device and by number, with everything it was stored with. */
  lemma StoredKeyAnswers(keys: seq<SessionKey>, n: NewKey)
    requires |n.peerUdid| <= 65 && n.info.deviceKeyLen <= 64 && |n.key| <= 32
    ensures
      var k := First(Apply(keys, SetKey(n)), DeviceTest(n.info));
      && k.Some? && First(Apply(keys, SetKey(n)), SeqTest(n.info)) == k
      && k.value.key == n.key && k.value.side == n.info.side && k.value.seqNo == n.info.seqNo
      && k.value.peerUdid == n.peerUdid && k.value.kind == n.info.kind
      && k.value.deviceKeyLen == n.info.deviceKeyLen
      && k.value.deviceKey[..n.info.deviceKeyLen] == n.info.deviceKey[..n.info.deviceKeyLen]
      && (forall i: nat :: n.info.deviceKeyLen <= i < MAX_DEVICE_KEY_LEN ==> k.value.deviceKey[i] == 0)
  {
    SamePrefix(Entry(n).deviceKey, n.info.deviceKey, n.info.deviceKeyLen);
  }

  /** How many keys a trace tries to set. */
  function Attempts(ops: seq<Op>): nat {
    if ops == [] then 0 else (if ops[0].SetKey? then 1 else 0) + Attempts(ops[1..])
  }

  predicate Clears(ops: seq<Op>, seqNo: int) {
    exists op :: op in ops && (op == ClearSeq(seqNo) || op == ClearAll)
  }

  lemma {:induction false} FilterKeeps(s: seq<SessionKey>, i: nat, p: SessionKey -> bool) returns (j: nat)
    requires i < |s| && p(s[i])
    ensures j <= i && j < |Filter(s, p)| && Filter(s, p)[j] == s[i]
  {
    FilterFront(s, p);
    if i == 0 {
      j := 0;
    } else {
      var j' := FilterKeeps(s[1..], i - 1, p);
      j := j' + |if p(s[0]) then [s[0]] else []|;
    }
  }

  /** A key stays in the store until twenty later attempts to set a key, unless it is cleared. */
  lemma {:induction false} Survives(keys: seq<SessionKey>, i: nat, ops: seq<Op>) returns (j: nat)
    requires i < |keys| <= MAX_KEY_LIST_SIZE && i + Attempts(ops) < MAX_KEY_LIST_SIZE
    requires !Clears(ops, keys[i].seqNo)
    ensures j < |ApplyAll(keys, ops)| && ApplyAll(keys, ops)[j] == keys[i] && j <= i + Attempts(ops)
    decreases |ops|
  {
    if ops == [] {
      j := i;
    } else {
      ApplyPrefix(keys, keys, ops[0]);
      assert ops[0] in ops && forall op :: op in ops[1..] ==> op in ops;
      match ops[0]
      case SetKey(n) =>
        j := Survives(Apply(keys, ops[0]), if Fits(n) then i + 1 else i, ops[1..]);
      case ClearSeq(s) =>
        var i' := FilterKeeps(keys, i, HasOtherSeq(s));
        j := Survives(Apply(keys, ops[0]), i', ops[1..]);
    }
  }

  function Newest(s: seq<SessionKey>): seq<SessionKey> {
    if |s| > MAX_KEY_LIST_SIZE then s[..MAX_KEY_LIST_SIZE] else s
  }

  /** With insertions only, the store is exactly the twenty newest keys. */
  lemma {:induction false} TwentyNewest(keys: seq<SessionKey>, log: seq<SessionKey>, ops: seq<Op>)
    requires keys == Newest(log) && forall op :: op in ops ==> op.SetKey? && Fits(op.n)
    ensures ApplyAll(keys, ops) == Newest(LogAll(log, ops))
    decreases |ops|
  {
    if ops != [] {
      assert ops[0] in ops && forall op :: op in ops[1..] ==> op in ops;
      assert Apply(keys, ops[0]) == Newest(Logged(log, ops[0]));
      TwentyNewest(Apply(keys, ops[0]), Logged(log, ops[0]), ops[1..]);
    }
  }

  /** The keys that answer a query for one sequence number, newest first. */
  function Answers(keys: seq<SessionKey>, q: DevInfo): seq<SessionKey> {
    Filter(keys, SeqTest(q))
  }

  /** The operation does not set another key that answers q. */
  predicate AddsNoAnswer(op: Op, q: DevInfo) {
    op.SetKey? && Fits(op.n) ==> !ForSeq(Entry(op.n), q)
  }

  lemma {:induction false} FilterOfPrefix(s: seq<SessionKey>, k: nat, p: SessionKey -> bool)
    requires k <= |s|
    ensures Filter(s[..k], p) <= Filter(s, p)
  {
    FilterPrefix(s[..k], s, p);
  }

  lemma {:induction false} FilterTwice(s: seq<SessionKey>, p: SessionKey -> bool, r: SessionKey -> bool)
    requires forall k :: p(k) ==> r(k)
    ensures Filter(Filter(s, r), p) == Filter(s, p)
  {
    if s != [] {
      FilterTwice(s[1..], p, r);
      var rest := Filter(s[1..], r);
      FilterFront(s, p);
      FilterFront(s, r);
      FilterFront([s[0]] + rest, p);
      assert ([s[0]] + rest)[1..] == rest && [] + rest == rest;
    }
  }

  lemma {:induction false} FilterNone(s: seq<SessionKey>, p: SessionKey -> bool, r: SessionKey -> bool)
    requires forall k :: p(k) ==> !r(k)
    ensures Filter(Filter(s, r), p) == []
  {
    if s != [] {
      FilterNone(s[1..], p, r);
      var rest := Filter(s[1..], r);
      FilterFront(s, p);
      FilterFront(s, r);
      FilterFront([s[0]] + rest, p);
      assert ([s[0]] + rest)[1..] == rest && [] + rest == rest;
    }
  }

  /** Such an operation leaves the answers as they are, or drops the oldest, or drops them all. */
  lemma AnswersKept(keys: seq<SessionKey>, q: DevInfo, op: Op)
    requires AddsNoAnswer(op, q)
    ensures Answers(Apply(keys, op), q) <= Answers(keys, q)
  {
    var p := SeqTest(q);
    match op
    case SetKey(n) =>
      FilterOfPrefix(keys, |Evicted(keys)|, p);
      if Fits(n) {
        FilterFront([Entry(n)] + Evicted(keys), p);
        assert ([Entry(n)] + Evicted(keys))[1..] == Evicted(keys);
      }
    case ClearSeq(s) =>
      if s == q.seqNo { FilterNone(keys, p, HasOtherSeq(s)); } else { FilterTwice(keys, p, HasOtherSeq(s)); }
    case ClearAll =>
  }

  /**
   So through any such trace the answers for a sequence number remain a prefix: the newest keeps
   answering until it is evicted or cleared, and no other answers in its place.
   */
  lemma {:induction false} AnswerSurvives(keys: seq<SessionKey>, q: DevInfo, ops: seq<Op>)
    requires forall op :: op in ops ==> AddsNoAnswer(op, q)
    ensures Answers(ApplyAll(keys, ops), q) <= Answers(keys, q)
    decreases |ops|
  {
    if ops != [] {
      assert ops[0] in ops && forall op :: op in ops[1..] ==> op in ops;
      AnswersKept(keys, q, ops[0]);
      AnswerSurvives(Apply(keys, ops[0]), q, ops[1..]);
    }
  }

  lemma {:induction false} FirstIsHead(keys: seq<SessionKey>, p: SessionKey -> bool)
    ensures First(keys, p) == var f := Filter(keys, p); if f == [] then None else Some(f[0])
  {
    if keys != [] {
      FilterFront(keys, p);
      FirstIsHead(keys[1..], p);
    }
  }

  // ---------------------------------------------------------------- the list object

  class KeyStore {
    var keys: seq<SessionKey>

    ghost predicate Valid()
      reads this
    {
      |keys| <= MAX_KEY_LIST_SIZE
    }

    constructor ()
      ensures Valid() && keys == []
    {
      keys := [];
    }

    method AuthSetLocalSessionKey(n: NewKey)
      requires Valid()
      modifies this
      ensures Valid() && keys == Apply(old(keys), SetKey(n))
    {
      var listSize := 0;
      while listSize < |keys|
        invariant 0 <= listSize <= |keys|
      {
        listSize := listSize + 1;
      }
      if listSize == MAX_KEY_LIST_SIZE {
        keys := keys[..|keys| - 1];
      }
      if !Fits(n) {
        return;
      }
      keys := [Entry(n)] + keys;
    }

    method AuthGetLastSessionKey(q: DevInfo) returns (r: Option<SessionKey>)
      ensures r == First(keys, DeviceTest(q))
    {
      r := FindFirst(keys, DeviceTest(q));
    }

    method GetSessionKeyByDevinfo(q: DevInfo) returns (r: Option<SessionKey>)
      ensures r == First(keys, SeqTest(q))
    {
      r := FindFirst(keys, SeqTest(q));
    }

    method AuthIsSeqInKeyList(seqNo: int) returns (found: bool)
      ensures found <==> exists k :: k in keys && k.seqNo == seqNo
    {
      var i := 0;
      while i < |keys|
        invariant 0 <= i <= |keys|
        invariant forall j: nat :: j < i ==> keys[j].seqNo != seqNo
      {
        if keys[i].seqNo == seqNo {
          return true;
        }
        i := i + 1;
      }
      return false;
    }

    /** Deletes inside the traversal. */
    method AuthClearSessionKeyBySeq(seqNo: int)
      requires Valid()
      modifies this
      ensures Valid() && keys == Apply(old(keys), ClearSeq(seqNo))
    {
      var i := 0;
      while i < |keys|
        invariant 0 <= i <= |keys|
        invariant keys[..i] + Filter(keys[i..], HasOtherSeq(seqNo)) == ClearBySeq(old(keys), seqNo)
        decreases |keys| - i
      {
        SplitFilter(keys, i, HasOtherSeq(seqNo));
        if keys[i].seqNo == seqNo {
          keys := keys[..i] + keys[i + 1..];
        } else {
          i := i + 1;
        }
      }
      assert keys[..i] + [] == keys;
    }
  }

  method FindFirst(keys: seq<SessionKey>, p: SessionKey -> bool) returns (r: Option<SessionKey>)
    ensures r == First(keys, p)
  {
    var i := 0;
    while i < |keys|
      invariant 0 <= i <= |keys|
      invariant First(keys, p) == First(keys[i..], p)
    {
      if p(keys[i]) {
        return Some(keys[i]);
      }
      i := i + 1;
    }
    return None;
  }

  lemma SplitFilter(keys: seq<SessionKey>, i: nat, p: SessionKey -> bool)
    requires i < |keys|
    ensures keys[..i] + Filter(keys[i..], p) ==
            if p(keys[i]) then keys[..i + 1] + Filter(keys[i + 1..], p)
            else (keys[..i] + keys[i + 1..])[..i] + Filter((keys[..i] + keys[i + 1..])[i..], p)
  {
    FilterFront(keys[i..], p);
    assert keys[i..][1..] == keys[i + 1..];
    assert (keys[..i] + keys[i + 1..])[..i] == keys[..i];
    assert (keys[..i] + keys[i + 1..])[i..] == keys[i + 1..];
    assert [] + Filter(keys[i + 1..], p) == Filter(keys[i + 1..], p);
    assert keys[..i + 1] == keys[..i] + [keys[i]];
  }
}
