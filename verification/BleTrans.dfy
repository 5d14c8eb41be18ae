/**
 Fragmentation and reassembly of a BLE message: the wire header, the sender's cutting loop and
 the receiver's three cache slots per connection.
 */
module BleTrans {
  import opened Basics

  const HEADER_SIZE := 16
  const MTU_HEADER_SIZE := 3
  const MAX_DATA_LEN := 4096
  const MAX_CACHE_NUM_PER_CONN := 3
  const SOFTBUS_OK := 0

  type int32 = x: int | -0x8000_0000 <= x < 0x8000_0000

  /** 32-bit signed addition, with two's complement wrap-around. */
  function Add32(a: int32, b: int32): (r: int32)
    ensures (a + b - r) % 0x1_0000_0000 == 0
  {
    if a + b >= 0x8000_0000 then a + b - 0x1_0000_0000
    else if a + b < -0x8000_0000 then a + b + 0x1_0000_0000
    else a + b
  }

  datatype Header = Header(seqNo: int32, size: int32, offset: int32, total: int32)

  // ---------------------------------------------------------------- wire format

  /** The k low bytes of u, most significant first. */
  function Bytes(u: nat, k: nat): (b: seq<byte>)
    ensures |b| == k
    decreases k
  {
    if k == 0 then [] else Bytes(u / 256, k - 1) + [u % 256]
  }

  function Value(b: seq<byte>): nat {
    if b == [] then 0 else Value(b[..|b| - 1]) * 256 + b[|b| - 1]
  }

  lemma {:induction false} BytesRoundTrip(u: nat, k: nat)
    requires u < Limit(k)
    ensures Value(Bytes(u, k)) == u
    decreases k
  {
    if k > 0 {
      BytesRoundTrip(u / 256, k - 1);
      assert Bytes(u, k)[..k - 1] == Bytes(u / 256, k - 1);
    }
  }

  /** Network byte order. */
  function PutInt32(n: int32): (b: seq<byte>)
    ensures |b| == 4
  {
    Bytes(if n < 0 then n + 0x1_0000_0000 else n, 4)
  }

  function GetInt32(b: seq<byte>): int32
    requires |b| == 4
  {
    var v := Value(b) % 0x1_0000_0000;
    if v < 0x8000_0000 then v else v - 0x1_0000_0000
  }

  lemma Int32RoundTrip(n: int32)
    ensures GetInt32(PutInt32(n)) == n
  {
    assert Limit(4) == 0x1_0000_0000;
    BytesRoundTrip(if n < 0 then n + 0x1_0000_0000 else n, 4);
  }

  lemma FourBytes(u: nat, a: nat, b: nat, c: nat)
    requires a == u / 256 && b == a / 256 && c == b / 256 && c < 256
    ensures Bytes(u, 4) == [c, b % 256, a % 256, u % 256]
  {
    assert Bytes(c, 1) == [] + [c];
    assert Bytes(b, 2) == Bytes(c, 1) + [b % 256];
    assert Bytes(a, 3) == Bytes(b, 2) + [a % 256];
  }

  /** Most significant byte first, a negative number as its two's complement. */
  lemma Int32Bytes(n: int32)
    ensures
      var u := if n < 0 then n + 0x1_0000_0000 else n;
      PutInt32(n) == [u / 16777216, u / 65536 % 256, u / 256 % 256, u % 256]
  {
    var u := if n < 0 then n + 0x1_0000_0000 else n;
    FourBytes(u, u / 256, u / 65536, u / 16777216);
  }

  function PutFields(ns: seq<int32>): (b: seq<byte>)
    ensures |b| == 4 * |ns|
  {
    if ns == [] then [] else PutInt32(ns[0]) + PutFields(ns[1..])
  }

  function PutHeader(h: Header): (b: seq<byte>)
    ensures |b| == HEADER_SIZE
  {
    PutFields([h.seqNo, h.size, h.offset, h.total])
  }

  function GetHeader(value: seq<byte>): Header
    requires |value| >= HEADER_SIZE
  {
    Header(GetInt32(value[0..4]), GetInt32(value[4..8]), GetInt32(value[8..12]), GetInt32(value[12..16]))
  }

  lemma SliceAfter(a: seq<byte>, b: seq<byte>, i: nat, j: nat)
    requires i <= j <= |b|
    ensures (a + b)[|a| + i..|a| + j] == b[i..j] && (a + b)[..|a|] == a
  {
  }

  lemma ConcatAssoc(a: seq<byte>, b: seq<byte>, c: seq<byte>)
    ensures (a + b) + c == a + (b + c)
  {
  }

  /** Field k of a header occupies bytes 4k to 4k + 3. */
  lemma {:induction false} FieldAt(ns: seq<int32>, k: nat, rest: seq<byte>)
    requires k < |ns|
    ensures (PutFields(ns) + rest)[4 * k..4 * k + 4] == PutInt32(ns[k])
  {
    var head, tail := PutInt32(ns[0]), PutFields(ns[1..]) + rest;
    ConcatAssoc(head, PutFields(ns[1..]), rest);
    if k == 0 {
      SliceAfter(head, tail, 0, 0);
    } else {
      FieldAt(ns[1..], k - 1, rest);
      SliceAfter(head, tail, 4 * (k - 1), 4 * (k - 1) + 4);
    }
  }

  /** The receiver reads back every header the sender writes. */
  lemma HeaderRoundTrip(h: Header, payload: seq<byte>)
    ensures GetHeader(PutHeader(h) + payload) == h
    ensures (PutHeader(h) + payload)[HEADER_SIZE..] == payload
  {
    var ns := [h.seqNo, h.size, h.offset, h.total];
    FieldAt(ns, 0, payload);
    FieldAt(ns, 1, payload);
    FieldAt(ns, 2, payload);
    FieldAt(ns, 3, payload);
    Int32RoundTrip(h.seqNo);
    Int32RoundTrip(h.size);
    Int32RoundTrip(h.offset);
    Int32RoundTrip(h.total);
  }

  /** The checks of GetTransHeader; the sum is a 32-bit sum. */
  predicate HeaderAccepted(h: Header, len: int) {
    && h.size == len - HEADER_SIZE
    && h.total >= Add32(h.size, h.offset)
    && h.offset >= 0
    && h.total <= MAX_DATA_LEN
  }

  /** Which headers pass, in plain arithmetic: only a sum of 2^31 or more is compared wrapped. */
  lemma AcceptedExact(h: Header, len: int)
    ensures HeaderAccepted(h, len) <==>
      && h.size == len - 16 && 0 <= h.offset && h.total <= 4096
      && h.total >= h.size + h.offset - (if h.size + h.offset >= 0x8000_0000 then 0x1_0000_0000 else 0)
  {
  }

  // ---------------------------------------------------------------- sender

  /** How many bytes the fragment starting at off carries. */
  function Size(n: nat, max: nat, off: nat): nat
    requires off <= n
  {
    if n - off > max then max else n - off
  }

  /** A send buffer: the header structure and the payload behind it. */
  datatype Packet = Packet(h: Header, piece: seq<byte>)

  /** The bytes of a send buffer. */
  function Encode(p: Packet): (f: seq<byte>)
    ensures |f| == HEADER_SIZE + |p.piece|
  {
    PutHeader(p.h) + p.piece
  }

  /** The fragment starting at off. */
  function Frame(data: seq<byte>, max: nat, seqNo: int32, off: nat): Packet
    requires off < |data| < 0x8000_0000
  {
    var size := Size(|data|, max, off);
    Packet(Header(seqNo, size, off, |data|), data[off..off + size])
  }

  /** All fragments from off on. */
  function Frames(data: seq<byte>, max: nat, seqNo: int32, off: nat): seq<Packet>
    requires max > 0 && off <= |data| < 0x8000_0000
    decreases |data| - off
  {
    if off == |data| then []
    else [Frame(data, max, seqNo, off)] + Frames(data, max, seqNo, off + Size(|data|, max, off))
  }

  lemma MoveOne<T>(sent: seq<T>, first: T, rest: seq<T>, all: seq<T>)
    requires sent + ([first] + rest) == all
    ensures (sent + [first]) + rest == all && sent + [first] <= all
  {
    assert (sent + [first]) + rest == sent + ([first] + rest);
  }

  /** sent holds consecutive fragments from the start; offs are the offsets where they begin and end. */
  ghost predicate Cut(data: seq<byte>, max: nat, seqNo: int32, sent: seq<Packet>, offs: seq<nat>)
    requires max > 0 && |data| < 0x8000_0000
  {
    && |offs| == |sent| + 1 && offs[0] == 0 && offs[|sent|] <= |data|
    && (forall k: nat {:trigger sent[k]} :: k < |sent| ==> CutAt(data, max, seqNo, sent[k], offs[k], offs[k + 1]))
  }

  ghost predicate CutAt(data: seq<byte>, max: nat, seqNo: int32, p: Packet, off: nat, next: nat)
    requires max > 0 && |data| < 0x8000_0000
  {
    off < |data| && next == off + Size(|data|, max, off) && p == Frame(data, max, seqNo, off)
  }

  lemma CutExtends(data: seq<byte>, max: nat, seqNo: int32, sent: seq<Packet>, offs: seq<nat>)
    requires max > 0 && |data| < 0x8000_0000 && Cut(data, max, seqNo, sent, offs) && offs[|sent|] < |data|
    ensures
      var off := offs[|sent|];
      Cut(data, max, seqNo, sent + [Frame(data, max, seqNo, off)], offs + [off + Size(|data|, max, off)])
  {
    var off := offs[|sent|];
    var sent', offs' := sent + [Frame(data, max, seqNo, off)], offs + [off + Size(|data|, max, off)];
    forall k: nat | k < |sent'| ensures CutAt(data, max, seqNo, sent'[k], offs'[k], offs'[k + 1]) {
      if k < |sent| { assert CutAt(data, max, seqNo, sent[k], offs[k], offs[k + 1]); }
    }
  }

  lemma FramesUnfold(data: seq<byte>, max: nat, seqNo: int32, off: nat)
    requires max > 0 && off < |data| < 0x8000_0000
    ensures Frames(data, max, seqNo, off) ==
            [Frame(data, max, seqNo, off)] + Frames(data, max, seqNo, off + Size(|data|, max, off))
  {
  }

  lemma {:induction false} CutIsPrefix(data: seq<byte>, max: nat, seqNo: int32,
                                       sent: seq<Packet>, offs: seq<nat>, k: nat)
    requires max > 0 && |data| < 0x8000_0000 && Cut(data, max, seqNo, sent, offs) && k <= |sent|
    requires offs[k] <= |data|
    ensures sent[..k] + Frames(data, max, seqNo, offs[k]) == Frames(data, max, seqNo, 0)
    ensures sent[..k] <= Frames(data, max, seqNo, 0)
  {
    if k > 0 {
      var j := k - 1;
      assert CutAt(data, max, seqNo, sent[j], offs[j], offs[k]);
      CutIsPrefix(data, max, seqNo, sent, offs, j);
      FramesUnfold(data, max, seqNo, offs[j]);
      MoveOne(sent[..j], sent[j], Frames(data, max, seqNo, offs[k]), Frames(data, max, seqNo, 0));
      assert sent[..k] == sent[..j] + [sent[j]];
    }
  }

  lemma SentFrames(data: seq<byte>, max: nat, seqNo: int32, sent: seq<Packet>, offs: seq<nat>)
    requires max > 0 && |data| < 0x8000_0000 && Cut(data, max, seqNo, sent, offs)
    ensures sent <= Frames(data, max, seqNo, 0)
    ensures offs[|sent|] == |data| ==> sent == Frames(data, max, seqNo, 0)
  {
    CutIsPrefix(data, max, seqNo, sent, offs, |sent|);
    assert sent[..|sent|] == sent;
  }

  lemma DropDrop(data: seq<byte>, a: nat, b: nat)
    requires a + b <= |data|
    ensures data[a..][b..] == data[a + b..]
  {
  }

  /** One round of the sending loop: the length of the next fragment and its packet. */
  method BuildPacket(seqNo: int32, total: int32, offset: int32, sendData: seq<byte>, dataLenMax: int32,
                     ghost data: seq<byte>)
    returns (sendlenth: int32, buff: Packet)
    requires dataLenMax > 0 && total == |data| && 0 <= offset < total && sendData == data[offset..]
    ensures sendlenth == Size(|data|, dataLenMax, offset) && buff == Frame(data, dataLenMax, seqNo, offset)
  {
    sendlenth := |sendData|;
    if sendlenth > dataLenMax {
      sendlenth := dataLenMax;
    }
    assert sendData[..sendlenth] == data[offset..offset + sendlenth];
    buff := Packet(Header(seqNo, sendlenth, offset, total), sendData[..sendlenth]);
  }

  /**
   The sending loop. hal(k) is what the radio layer answers to the k-th packet; the loop stops at
   the first refusal, so what was sent is always a prefix of the fragments.
   */
  method BleTransSend(mtu: int32, data: seq<byte>, seqNo: int32, hal: nat -> int)
    returns (ret: int, sent: seq<Packet>)
    requires mtu > MTU_HEADER_SIZE + HEADER_SIZE && |data| < 0x8000_0000
    ensures sent <= Frames(data, mtu - MTU_HEADER_SIZE - HEADER_SIZE, seqNo, 0)
    ensures ret == SOFTBUS_OK ==> sent == Frames(data, mtu - MTU_HEADER_SIZE - HEADER_SIZE, seqNo, 0)
    ensures ret == SOFTBUS_OK ==> forall k: nat :: k < |sent| ==> hal(k) == SOFTBUS_OK
    ensures ret != SOFTBUS_OK ==> |sent| > 0 && ret == hal(|sent| - 1)
    ensures ret != SOFTBUS_OK ==> forall k: nat :: k < |sent| - 1 ==> hal(k) == SOFTBUS_OK
  {
    var templen := |data|;
    var sendData := data;
    var dataLenMax := mtu - MTU_HEADER_SIZE - HEADER_SIZE;
    var offset := 0;
    ghost var offs: seq<nat> := [0];
    sent := [];
    while templen > 0
      invariant 0 <= offset <= |data| && templen == |data| - offset && sendData == data[offset..]
      invariant Cut(data, dataLenMax, seqNo, sent, offs) && offs[|sent|] == offset
      invariant forall k: nat :: k < |sent| ==> hal(k) == SOFTBUS_OK
    {
      CutExtends(data, dataLenMax, seqNo, sent, offs);
      var sendlenth, buff := BuildPacket(seqNo, |data|, offset, sendData, dataLenMax, data);
      sent, offs := sent + [buff], offs + [offset + sendlenth];
      ret := hal(|sent| - 1);
      if ret != SOFTBUS_OK {
        SentFrames(data, dataLenMax, seqNo, sent, offs);
        return;
      }
      DropDrop(data, offset, sendlenth);
      sendData := sendData[sendlenth..];
      templen := templen - sendlenth;
      offset := offset + sendlenth;
    }
    SentFrames(data, dataLenMax, seqNo, sent, offs);
    ret := SOFTBUS_OK;
  }

  // ---------------------------------------------------------------- receiver

  /** One BleRecvCache; the cache pointer is NULL until the slot is first used. */
  datatype Slot = Slot(isUsed: bool, seqNo: int32, currentSize: int32, cache: Option<seq<byte>>)

  /** What BleTransRecv hands to its caller; index is -1 for a message that needed no slot. */
  datatype Recv = Nothing | Message(data: seq<byte>, index: int)

  ghost predicate SlotsOk(slots: seq<Slot>) {
    && |slots| == MAX_CACHE_NUM_PER_CONN
    && (forall i: nat :: i < |slots| && slots[i].cache.Some? ==> |slots[i].cache.value| == MAX_DATA_LEN)
    && (forall i: nat :: i < |slots| && slots[i].isUsed ==> slots[i].cache.Some?)
  }

  /** The first used slot with the sequence number, or the number of slots. */
  function MatchFrom(slots: seq<Slot>, seqNo: int32, i: nat): (r: nat)
    requires i <= |slots|
    ensures i <= r <= |slots|
    ensures r < |slots| ==> slots[r].isUsed && slots[r].seqNo == seqNo
    ensures forall j: nat :: i <= j < r ==> !(slots[j].isUsed && slots[j].seqNo == seqNo)
    decreases |slots| - i
  {
    if i == |slots| || (slots[i].isUsed && slots[i].seqNo == seqNo) then i
    else MatchFrom(slots, seqNo, i + 1)
  }

  /** The first unused slot, or the number of slots. */
  function FreeFrom(slots: seq<Slot>, i: nat): (r: nat)
    requires i <= |slots|
    ensures i <= r <= |slots|
    ensures r < |slots| ==> !slots[r].isUsed
    ensures forall j: nat :: i <= j < r ==> slots[j].isUsed
    decreases |slots| - i
  {
    if i == |slots| || !slots[i].isUsed then i else FreeFrom(slots, i + 1)
  }

  function Zeros(n: nat): (z: seq<byte>)
    ensures |z| == n
  {
    seq(n, i => 0)
  }

  /** A freshly claimed slot keeps an old buffer and gets a zeroed one otherwise. */
  function Claim(s: Slot, seqNo: int32): Slot {
    Slot(true, seqNo, 0, if s.cache.None? then Some(Zeros(MAX_DATA_LEN)) else s.cache)
  }

  function Splice(buf: seq<byte>, off: nat, piece: seq<byte>): (r: seq<byte>)
    requires off + |piece| <= |buf|
    ensures |r| == |buf|
  {
    buf[..off] + piece + buf[off + |piece|..]
  }

  /** Storing a fragment in slot i, after the slot has been found or claimed. */
  function Store(slots: seq<Slot>, i: nat, h: Header, piece: seq<byte>): (seq<Slot>, Recv)
    requires i < |slots| && slots[i].cache.Some? && |slots[i].cache.value| == MAX_DATA_LEN
    requires HeaderAccepted(h, HEADER_SIZE + |piece|)
  {
    if h.offset >= MAX_DATA_LEN || |piece| > MAX_DATA_LEN - h.offset then
      // memcpy_s refuses an empty or too small destination
      (slots[i := slots[i].(isUsed := false)], Nothing)
    else
      var buf := Splice(slots[i].cache.value, h.offset, piece);
      var size := Add32(slots[i].currentSize, |piece|);
      var slots' := slots[i := slots[i].(cache := Some(buf), currentSize := size)];
      (slots', if size == h.total then Message(buf[..h.total], i) else Nothing)
  }

  /** BleTransRecv as a function of the slots and the packet. */
  function Receive(slots: seq<Slot>, value: seq<byte>): (seq<Slot>, Recv)
    requires SlotsOk(slots) && |value| >= HEADER_SIZE
  {
    var h := GetHeader(value);
    if !HeaderAccepted(h, |value|) then (slots, Nothing)
    else if h.size == h.total then (slots, Message(value[HEADER_SIZE..], -1))
    else
      var i := MatchFrom(slots, h.seqNo, 0);
      if i < |slots| then Store(slots, i, h, value[HEADER_SIZE..])
      else
        var a := FreeFrom(slots, 0);
        if a == |slots| then (slots, Nothing)
        else Store(slots[a := Claim(slots[a], h.seqNo)], a, h, value[HEADER_SIZE..])
  }

  function CacheFree(slots: seq<Slot>, index: nat): seq<Slot>
    requires index < |slots|
  {
    slots[index := slots[index].(cache := None, isUsed := false)]
  }

  /** BleRequestWriteCallback: receive, hand a complete message up, release its slot. */
  function Deliver(slots: seq<Slot>, value: seq<byte>): (seq<Slot>, Option<seq<byte>>)
    requires SlotsOk(slots) && |value| >= HEADER_SIZE
  {
    match Receive(slots, value)
    case (s, Nothing) => (s, None)
    case (s, Message(data, index)) =>
      (if 0 <= index < |s| then CacheFree(s, index) else s, Some(data))
  }

  lemma ReceiveKeepsSlotsOk(slots: seq<Slot>, value: seq<byte>)
    requires SlotsOk(slots) && |value| >= HEADER_SIZE
    ensures SlotsOk(Receive(slots, value).0)
    ensures Receive(slots, value).1.Message? ==> -1 <= Receive(slots, value).1.index < MAX_CACHE_NUM_PER_CONN
  {
  }

  /**
   Whatever the packet, only one slot changes, and no other message loses it: it was free or
   belongs to the packet's number. A message handed up is the packet itself or what that slot holds.
   */
  lemma OnlyItsSlot(slots: seq<Slot>, value: seq<byte>) returns (i: nat)
    requires SlotsOk(slots) && |value| >= HEADER_SIZE
    ensures
      var (slots', r) := Receive(slots, value);
      && |slots'| == |slots| && (forall j: nat :: j < |slots| && j != i ==> slots'[j] == slots[j])
      && (i < |slots| && slots[i].isUsed ==> slots[i].seqNo == GetHeader(value).seqNo)
      && (r.Message? && r.index == -1 ==> r.data == value[HEADER_SIZE..] && slots' == slots)
      && (r.Message? && r.index != -1 ==>
            r.index == i < |slots'| && slots'[i].isUsed && slots'[i].cache.Some? && r.data <= slots'[i].cache.value)
  {
    i := MatchFrom(slots, GetHeader(value).seqNo, 0);
    if i == |slots| { i := FreeFrom(slots, 0); }
  }

  /** An accepted header whose bytes do not fit the buffer costs its message the slot. */
  lemma MisfitReleases(slots: seq<Slot>, value: seq<byte>, j: nat)
    requires SlotsOk(slots) && |value| >= HEADER_SIZE
    requires
      var h := GetHeader(value);
      && HeaderAccepted(h, |value|) && h.size != h.total && (h.offset >= MAX_DATA_LEN || h.offset + h.size > MAX_DATA_LEN)
      && j < |slots| && slots[j].seqNo == h.seqNo
    ensures Receive(slots, value).1 == Nothing && (j == MatchFrom(slots, slots[j].seqNo, 0) ==> !Receive(slots, value).0[j].isUsed)
  {
  }

  /** A message that was put together leaves its slot unused and without a buffer; all others stay. */
  lemma HandedUpIsReleased(slots: seq<Slot>, value: seq<byte>, j: nat)
    requires SlotsOk(slots) && |value| >= HEADER_SIZE && j < |slots|
    ensures
      var ((s, r), (s', up)) := (Receive(slots, value), Deliver(slots, value));
      && |s'| == |s| == |slots| && (r.Nothing? <==> up.None?) && (r.Message? ==> up == Some(r.data))
      && (if r.Message? && r.index == j then !s'[j].isUsed && s'[j].cache.None? else s'[j] == s[j])
  {
    ReceiveKeepsSlotsOk(slots, value);
  }

  lemma DeliverKeepsSlotsOk(slots: seq<Slot>, value: seq<byte>)
    requires SlotsOk(slots) && |value| >= HEADER_SIZE
    ensures SlotsOk(Deliver(slots, value).0)
  {
    ReceiveKeepsSlotsOk(slots, value);
  }

  /** The receiving side of one connection. */
  class BleConnection {
    const recvCache: array<Slot>

    ghost predicate Valid()
      reads this, recvCache
    {
      SlotsOk(recvCache[..])
    }

    constructor ()
      ensures Valid() && fresh(recvCache)
      ensures forall i: nat :: i < recvCache.Length ==> !recvCache[i].isUsed
    {
      recvCache := new Slot[MAX_CACHE_NUM_PER_CONN](i => Slot(false, 0, 0, None));
    }

    /** The loop over the slots: the matching slot if there is one, and the first free slot before it. */
    method FindSlot(seqNo: int32) returns (i: nat, availableIndex: int)
      requires Valid()
      ensures i == MatchFrom(recvCache[..], seqNo, 0)
      ensures i == recvCache.Length ==>
        availableIndex == (if FreeFrom(recvCache[..], 0) == recvCache.Length then -1 else FreeFrom(recvCache[..], 0))
    {
      availableIndex := -1;
      i := 0;
      while i < MAX_CACHE_NUM_PER_CONN
        invariant i <= MAX_CACHE_NUM_PER_CONN
        invariant MatchFrom(recvCache[..], seqNo, i) == MatchFrom(recvCache[..], seqNo, 0)
        invariant availableIndex == -1 ==> FreeFrom(recvCache[..], i) == FreeFrom(recvCache[..], 0)
        invariant availableIndex != -1 ==> availableIndex == FreeFrom(recvCache[..], 0) < i
      {
        if !recvCache[i].isUsed {
          availableIndex := if availableIndex > -1 then availableIndex else i;
          i := i + 1;
          continue;
        }
        if recvCache[i].seqNo == seqNo {
          break;
        }
        i := i + 1;
      }
    }

    method BleTransRecv(value: seq<byte>) returns (r: Recv)
      requires Valid() && HEADER_SIZE <= |value| < 0x8000_0000
      modifies recvCache
      ensures Valid()
      ensures (recvCache[..], r) == Receive(old(recvCache[..]), value)
    {
      ReceiveKeepsSlotsOk(recvCache[..], value);
      var h := GetHeader(value);
      if !HeaderAccepted(h, |value|) {
        return Nothing;
      }
      if h.size == h.total {
        return Message(value[HEADER_SIZE..], -1);
      }
      var i, availableIndex := FindSlot(h.seqNo);
      if i == MAX_CACHE_NUM_PER_CONN && availableIndex == -1 {
        return Nothing;
      }
      if i == MAX_CACHE_NUM_PER_CONN {
        i := availableIndex;
        recvCache[i] := recvCache[i].(isUsed := true);
        recvCache[i] := recvCache[i].(currentSize := 0);
        recvCache[i] := recvCache[i].(seqNo := h.seqNo);
        if recvCache[i].cache.None? {
          recvCache[i] := recvCache[i].(cache := Some(Zeros(MAX_DATA_LEN)));
        }
        assert recvCache[..] == old(recvCache[..])[i := Claim(old(recvCache[..])[i], h.seqNo)];
      }
      r := StoreFragment(i, h, value[HEADER_SIZE..]);
    }

    method StoreFragment(i: nat, h: Header, piece: seq<byte>) returns (r: Recv)
      requires i < recvCache.Length && recvCache[i].cache.Some? && |recvCache[i].cache.value| == MAX_DATA_LEN
      requires HeaderAccepted(h, HEADER_SIZE + |piece|)
      modifies recvCache
      ensures (recvCache[..], r) == Store(old(recvCache[..]), i, h, piece)
    {
      if h.offset >= MAX_DATA_LEN || |piece| > MAX_DATA_LEN - h.offset {
        recvCache[i] := recvCache[i].(isUsed := false);
        return Nothing;
      }
      recvCache[i] := recvCache[i].(cache := Some(Splice(recvCache[i].cache.value, h.offset, piece)));
      recvCache[i] := recvCache[i].(currentSize := Add32(recvCache[i].currentSize, |piece|));
      assert recvCache[..] == Store(old(recvCache[..]), i, h, piece).0;
      if recvCache[i].currentSize == h.total {
        return Message(recvCache[i].cache.value[..h.total], i);
      }
      return Nothing;
    }

    method BleTransCacheFree(index: nat)
      requires Valid() && index < recvCache.Length
      modifies recvCache
      ensures Valid() && recvCache[..] == CacheFree(old(recvCache[..]), index)
    {
      if recvCache[index].cache.Some? {
        recvCache[index] := recvCache[index].(cache := None);
      }
      recvCache[index] := recvCache[index].(isUsed := false);
    }

    method BleRequestWriteCallback(value: seq<byte>) returns (up: Option<seq<byte>>)
      requires Valid() && HEADER_SIZE <= |value| < 0x8000_0000
      modifies recvCache
      ensures Valid() && (recvCache[..], up) == Deliver(old(recvCache[..]), value)
    {
      ReceiveKeepsSlotsOk(recvCache[..], value);
      var r := BleTransRecv(value);
      if r.Nothing? {
        return None;
      }
      if r.index != -1 {
        BleTransCacheFree(r.index);
      }
      return Some(r.data);
    }
  }
}
