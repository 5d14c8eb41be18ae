/**
 Every message cut by the sender is rebuilt by the receiver, whatever the order of its fragments
 and whatever else is in flight, as long as at most three messages are partly received.
 */
module BleTransProofs {
  import opened BleTrans
  import opened Basics

  // ---------------------------------------------------------------- the cut

  function Join(ps: seq<Packet>): seq<byte> {
    if ps == [] then [] else ps[0].piece + Join(ps[1..])
  }

  /** The fragments are not empty, fit the MTU and tile the message exactly. */
  lemma {:induction false} FramesTile(data: seq<byte>, max: nat, seqNo: int32, off: nat)
    requires max > 0 && off <= |data| < 0x8000_0000
    ensures Join(Frames(data, max, seqNo, off)) == data[off..]
    ensures forall p :: p in Frames(data, max, seqNo, off) ==>
      0 < |p.piece| == p.h.size <= max && p.h.total == |data| && p.h.seqNo == seqNo
    decreases |data| - off
  {
    if off < |data| {
      var next := off + Size(|data|, max, off);
      FramesTile(data, max, seqNo, next);
      var ps := Frames(data, max, seqNo, off);
      assert ps[1..] == Frames(data, max, seqNo, next);
      assert data[off..next] + data[next..] == data[off..];
    }
  }

  /** off is where a fragment of an n-byte message starts, counting from the start from. */
  predicate IsStart(n: nat, max: nat, from: nat, off: nat)
    requires max > 0
    decreases n - from
  {
    from < n && (off == from || IsStart(n, max, from + Size(n, max, from), off))
  }

  lemma {:induction false} StartRange(n: nat, max: nat, from: nat, off: nat)
    requires max > 0 && IsStart(n, max, from, off)
    ensures from <= off < n
    ensures off == from || from + Size(n, max, from) <= off
    decreases n - from
  {
    if off != from { StartRange(n, max, from + Size(n, max, from), off); }
  }

  /** The starts are exactly the offsets of the packets the sender makes. */
  lemma {:induction false} FramesAreStarts(data: seq<byte>, max: nat, seqNo: int32, from: nat, p: Packet)
    requires max > 0 && from <= |data| < 0x8000_0000
    ensures p in Frames(data, max, seqNo, from) <==>
      p.h.offset >= 0 && IsStart(|data|, max, from, p.h.offset) && p.h.offset < |data| &&
      p == Frame(data, max, seqNo, p.h.offset)
    decreases |data| - from
  {
    if from < |data| {
      var next := from + Size(|data|, max, from);
      FramesAreStarts(data, max, seqNo, next, p);
      var ps := Frames(data, max, seqNo, from);
      assert ps == [Frame(data, max, seqNo, from)] + Frames(data, max, seqNo, next);
    }
  }

  /** How many bytes have arrived when the fragments at the offsets got have. */
  function Received(n: nat, max: nat, from: nat, got: set<nat>): nat
    requires max > 0
    decreases n - from
  {
    if from >= n then 0
    else (if from in got then Size(n, max, from) else 0) + Received(n, max, from + Size(n, max, from), got)
  }

  predicate Complete(n: nat, max: nat, from: nat, got: set<nat>)
    requires max > 0
    decreases n - from
  {
    from >= n || (from in got && Complete(n, max, from + Size(n, max, from), got))
  }

  lemma {:induction false} ReceivedBound(n: nat, max: nat, from: nat, got: set<nat>)
    requires max > 0 && from <= n
    ensures Received(n, max, from, got) <= n - from
    ensures Received(n, max, from, got) == n - from <==> Complete(n, max, from, got)
    decreases n - from
  {
    if from < n { ReceivedBound(n, max, from + Size(n, max, from), got); }
  }

  lemma {:induction false} ReceivedEarlier(n: nat, max: nat, from: nat, got: set<nat>, k: nat)
    requires max > 0 && k < from
    ensures Received(n, max, from, got + {k}) == Received(n, max, from, got)
    decreases n - from
  {
    if from < n { ReceivedEarlier(n, max, from + Size(n, max, from), got, k); }
  }

  lemma {:induction false} ReceivedMore(n: nat, max: nat, from: nat, got: set<nat>, k: nat)
    requires max > 0 && IsStart(n, max, from, k) && k < n && k !in got
    ensures Received(n, max, from, got + {k}) == Received(n, max, from, got) + Size(n, max, k)
    decreases n - from
  {
    var next := from + Size(n, max, from);
    if k == from {
      ReceivedEarlier(n, max, next, got, k);
    } else {
      ReceivedMore(n, max, next, got, k);
    }
  }

  lemma {:induction false} NothingReceived(n: nat, max: nat, from: nat)
    requires max > 0
    ensures Received(n, max, from, {}) == 0
    decreases n - from
  {
    if from < n { NothingReceived(n, max, from + Size(n, max, from)); }
  }

  /** The arrived fragments stand in the buffer at their places. */
  predicate Covered(data: seq<byte>, max: nat, from: nat, got: set<nat>, buf: seq<byte>)
    requires max > 0 && |data| <= |buf|
    decreases |data| - from
  {
    from >= |data| ||
    (var next := from + Size(|data|, max, from);
     (from in got ==> buf[from..next] == data[from..next]) && Covered(data, max, next, got, buf))
  }

  lemma {:induction false} NothingCovered(data: seq<byte>, max: nat, from: nat, buf: seq<byte>)
    requires max > 0 && |data| <= |buf|
    ensures Covered(data, max, from, {}, buf)
    decreases |data| - from
  {
    if from < |data| { NothingCovered(data, max, from + Size(|data|, max, from), buf); }
  }

  lemma SpliceOutside(buf: seq<byte>, off: nat, piece: seq<byte>, lo: nat, hi: nat)
    requires off + |piece| <= |buf| && lo <= hi <= |buf|
    requires hi <= off || off + |piece| <= lo
    ensures Splice(buf, off, piece)[lo..hi] == buf[lo..hi]
  {
  }

  lemma SpliceInside(buf: seq<byte>, off: nat, piece: seq<byte>)
    requires off + |piece| <= |buf|
    ensures Splice(buf, off, piece)[off..off + |piece|] == piece
  {
  }

  lemma {:induction false} CoveredAfter(data: seq<byte>, max: nat, from: nat, got: set<nat>, buf: seq<byte>,
                                        k: nat, piece: seq<byte>)
    requires max > 0 && |data| <= |buf| && k + |piece| <= |buf|
    requires k + |piece| <= from && |piece| > 0
    requires Covered(data, max, from, got, buf)
    ensures Covered(data, max, from, got + {k}, Splice(buf, k, piece))
    decreases |data| - from
  {
    if from < |data| {
      var next := from + Size(|data|, max, from);
      SpliceOutside(buf, k, piece, from, next);
      CoveredAfter(data, max, next, got, buf, k, piece);
    }
  }

  /** Copying a fragment to its offset covers it and disturbs no other. */
  lemma {:induction false} CoveredMore(data: seq<byte>, max: nat, from: nat, got: set<nat>, buf: seq<byte>, k: nat)
    requires max > 0 && |data| <= |buf|
    requires IsStart(|data|, max, from, k) && k < |data| && k !in got
    requires Covered(data, max, from, got, buf)
    ensures Covered(data, max, from, got + {k}, Splice(buf, k, data[k..k + Size(|data|, max, k)]))
    decreases |data| - from
  {
    var next := from + Size(|data|, max, from);
    var piece := data[k..k + Size(|data|, max, k)];
    if k == from {
      SpliceInside(buf, k, piece);
      CoveredAfter(data, max, next, got, buf, k, piece);
    } else {
      StartRange(|data|, max, from, k);
      SpliceOutside(buf, k, piece, from, next);
      CoveredMore(data, max, next, got, buf, k);
    }
  }

  lemma {:induction false} CompleteIsData(data: seq<byte>, max: nat, from: nat, got: set<nat>, buf: seq<byte>)
    requires max > 0 && from <= |data| <= |buf|
    requires Complete(|data|, max, from, got) && Covered(data, max, from, got, buf)
    ensures buf[from..|data|] == data[from..]
    decreases |data| - from
  {
    if from < |data| {
      var next := from + Size(|data|, max, from);
      CompleteIsData(data, max, next, got, buf);
      assert buf[from..|data|] == buf[from..next] + buf[next..|data|];
      assert data[from..] == data[from..next] + data[next..];
    }
  }

  // ---------------------------------------------------------------- messages in flight

  type Positive = n: nat | n > 0 witness 1

  /** A message on its way: its bytes, the fragment size and the fragments that have arrived. */
  datatype Flight = Flight(data: seq<byte>, max: Positive, got: set<nat>)

  ghost predicate FlightOk(f: Flight) {
    && 0 < |f.data| <= MAX_DATA_LEN
    && (forall g :: g in f.got ==> IsStart(|f.data|, f.max, 0, g))
    && !Complete(|f.data|, f.max, 0, f.got)
  }

  datatype Event = Open(seqNo: int32, data: seq<byte>, mtu: int32) | Arrive(seqNo: int32, off: nat)

  datatype World = World(slots: seq<Slot>, flights: map<int32, Flight>)

  /** The sequence numbers of the messages that have arrived in part. */
  function Partial(flights: map<int32, Flight>): set<int32> {
    set s | s in flights && flights[s].got != {}
  }

  /**
   A new message takes a sequence number not in flight. A fragment arrives once, and only if it
   continues a message or fewer than three messages are partly received; a message of a single
   fragment is not counted.
   */
  predicate Admissible(flights: map<int32, Flight>, e: Event) {
    match e
    case Open(s, data, mtu) =>
      s !in flights && 0 < |data| <= MAX_DATA_LEN && mtu > MTU_HEADER_SIZE + HEADER_SIZE
    case Arrive(s, off) =>
      && s in flights && var f := flights[s];
      && off < |f.data| && IsStart(|f.data|, f.max, 0, off) && off !in f.got
      && (|f.data| > f.max && f.got == {} ==> |Partial(flights)| < MAX_CACHE_NUM_PER_CONN)
  }

  /** The abstract effect: what should be in flight after the event and what should come out. */
  function Track(flights: map<int32, Flight>, e: Event): (map<int32, Flight>, Option<seq<byte>>)
    requires Admissible(flights, e)
  {
    match e
    case Open(s, data, mtu) => (flights[s := Flight(data, mtu - MTU_HEADER_SIZE - HEADER_SIZE, {})], None)
    case Arrive(s, off) =>
      var f := flights[s];
      var f' := f.(got := f.got + {off});
      if Complete(|f.data|, f.max, 0, f'.got) then (flights - {s}, Some(f.data)) else (flights[s := f'], None)
  }

  ghost function Wire(w: World, e: Event): seq<byte>
    requires Invariant(w) && e.Arrive? && Admissible(w.flights, e)
  {
    var f := w.flights[e.seqNo];
    Encode(Frame(f.data, f.max, e.seqNo, e.off))
  }

  /** The receiver's code runs on the bytes of the fragment. */
  ghost function Next(w: World, e: Event): (World, Option<seq<byte>>)
    requires Invariant(w) && Admissible(w.flights, e)
  {
    var flights := Track(w.flights, e).0;
    match e
    case Open(_, _, _) => (World(w.slots, flights), None)
    case Arrive(_, _) => var (slots, up) := Deliver(w.slots, Wire(w, e)); (World(slots, flights), up)
  }

  /** A slot holds exactly what has arrived of its message. */
  ghost predicate Holds(slot: Slot, f: Flight)
    requires f.max > 0
  {
    && slot.cache.Some? && |slot.cache.value| == MAX_DATA_LEN && |f.data| <= MAX_DATA_LEN
    && slot.currentSize == Received(|f.data|, f.max, 0, f.got)
    && Covered(f.data, f.max, 0, f.got, slot.cache.value)
  }

  ghost predicate SlotInvariant(w: World, i: nat)
    requires i < |w.slots|
  {
    w.slots[i].isUsed ==>
      && w.slots[i].seqNo in w.flights && var f := w.flights[w.slots[i].seqNo];
      && f.got != {} && |f.data| > f.max > 0 && Holds(w.slots[i], f)
  }

  ghost predicate HasSlot(slots: seq<Slot>, s: int32) {
    exists i: nat :: i < |slots| && slots[i].isUsed && slots[i].seqNo == s
  }

  ghost predicate Invariant(w: World) {
    && SlotsOk(w.slots)
    && (forall s :: s in w.flights ==> FlightOk(w.flights[s]))
    && (forall i: nat :: i < |w.slots| ==> SlotInvariant(w, i))
    && (forall i: nat, j: nat :: i < j < |w.slots| && w.slots[i].isUsed && w.slots[j].isUsed ==>
          w.slots[i].seqNo != w.slots[j].seqNo)
    && (forall s :: s in w.flights && w.flights[s].got != {} ==> HasSlot(w.slots, s))
  }

  /** What the receiver makes of a fragment's bytes. */
  lemma WireHeader(f: Flight, s: int32, off: nat)
    requires FlightOk(f) && off < |f.data|
    ensures
      var p := Frame(f.data, f.max, s, off);
      && GetHeader(Encode(p)) == p.h && Encode(p)[HEADER_SIZE..] == p.piece
      && HeaderAccepted(p.h, |Encode(p)|)
      && |p.piece| == Size(|f.data|, f.max, off)
  {
    var p := Frame(f.data, f.max, s, off);
    HeaderRoundTrip(p.h, p.piece);
  }

  /** A message that fits one fragment has a single start and is complete with it. */
  lemma SingleFragment(f: Flight, off: nat)
    requires FlightOk(f) && |f.data| <= f.max && IsStart(|f.data|, f.max, 0, off) && off !in f.got
    ensures off == 0 && f.got == {} && Complete(|f.data|, f.max, 0, f.got + {off})
  {
    var n := |f.data|;
    assert Size(n, f.max, 0) == n;
    assert forall x: nat :: IsStart(n, f.max, 0, x) ==> x == 0;
    assert Complete(n, f.max, n, f.got + {off});
  }

  /** Three used slots mean three partly received messages. */
  lemma FreeSlotExists(w: World)
    requires Invariant(w) && |Partial(w.flights)| < MAX_CACHE_NUM_PER_CONN
    ensures FreeFrom(w.slots, 0) < |w.slots|
  {
    if FreeFrom(w.slots, 0) == |w.slots| {
      assert SlotInvariant(w, 0) && SlotInvariant(w, 1) && SlotInvariant(w, 2);
      var three := {w.slots[0].seqNo, w.slots[1].seqNo, w.slots[2].seqNo};
      assert three <= Partial(w.flights);
      SubsetSize(three, Partial(w.flights));
    }
  }

  /** The slot a fragment goes to: claimed now or found, it holds what came before. */
  lemma TargetSlot(w: World, e: Event) returns (i: nat, slots: seq<Slot>)
    requires Invariant(w) && e.Arrive? && Admissible(w.flights, e)
    requires var f := w.flights[e.seqNo]; |f.data| > f.max
    ensures i < |w.slots| == |slots| && slots == w.slots[i := slots[i]]
    ensures slots[i].isUsed && slots[i].seqNo == e.seqNo && Holds(slots[i], w.flights[e.seqNo])
    ensures w.slots[i].isUsed ==> w.slots[i].seqNo == e.seqNo
    ensures forall j: nat :: j < |w.slots| && j != i && w.slots[j].isUsed ==> w.slots[j].seqNo != e.seqNo
    ensures
      var p := Frame(w.flights[e.seqNo].data, w.flights[e.seqNo].max, e.seqNo, e.off);
      HeaderAccepted(p.h, HEADER_SIZE + |p.piece|) && Receive(w.slots, Wire(w, e)) == Store(slots, i, p.h, p.piece)
  {
    var f := w.flights[e.seqNo];
    WireHeader(f, e.seqNo, e.off);
    i := MatchFrom(w.slots, e.seqNo, 0);
    if i < |w.slots| {
      slots := w.slots;
      assert SlotInvariant(w, i);
    } else {
      assert !HasSlot(w.slots, e.seqNo);
      FreeSlotExists(w);
      i := FreeFrom(w.slots, 0);
      slots := w.slots[i := Claim(w.slots[i], e.seqNo)];
      NothingReceived(|f.data|, f.max, 0);
      NothingCovered(f.data, f.max, 0, slots[i].cache.value);
    }
  }

  lemma StoreCopies(slots: seq<Slot>, i: nat, h: Header, piece: seq<byte>)
    requires i < |slots| && slots[i].cache.Some? && |slots[i].cache.value| == MAX_DATA_LEN
    requires HeaderAccepted(h, HEADER_SIZE + |piece|)
    requires 0 < |piece| && h.offset + |piece| <= MAX_DATA_LEN && 0 <= slots[i].currentSize <= MAX_DATA_LEN
    ensures
      var buf := Splice(slots[i].cache.value, h.offset, piece);
      var size := slots[i].currentSize + |piece|;
      && 0 <= h.total <= MAX_DATA_LEN
      && Store(slots, i, h, piece) ==
         (slots[i := slots[i].(cache := Some(buf), currentSize := size)],
          if size == h.total then Message(buf[..h.total], i) else Nothing)
  {
  }

  /** Storing one more fragment: the slot holds one more, and reports the whole message at the end. */
  lemma StoreHolds(slots: seq<Slot>, i: nat, f: Flight, s: int32, off: nat)
    requires i < |slots| && FlightOk(f) && Holds(slots[i], f)
    requires off < |f.data| && IsStart(|f.data|, f.max, 0, off) && off !in f.got
    requires var p := Frame(f.data, f.max, s, off); HeaderAccepted(p.h, HEADER_SIZE + |p.piece|)
    ensures
      var p := Frame(f.data, f.max, s, off);
      var f' := f.(got := f.got + {off});
      var (after, r) := Store(slots, i, p.h, p.piece);
      && |after| == |slots| && after == slots[i := after[i]]
      && after[i].isUsed == slots[i].isUsed && after[i].seqNo == slots[i].seqNo
      && Holds(after[i], f')
      && r == (if Complete(|f.data|, f.max, 0, f'.got) then Message(f.data, i) else Nothing)
  {
    var n, max := |f.data|, f.max;
    var p := Frame(f.data, max, s, off);
    var buf := Splice(slots[i].cache.value, off, p.piece);
    ReceivedBound(n, max, 0, f.got);
    StoreCopies(slots, i, p.h, p.piece);
    ReceivedMore(n, max, 0, f.got, off);
    ReceivedBound(n, max, 0, f.got + {off});
    CoveredMore(f.data, max, 0, f.got, slots[i].cache.value, off);
    if Complete(n, max, 0, f.got + {off}) {
      CompleteIsData(f.data, max, 0, f.got + {off}, buf);
    }
  }

  /** What one fragment does to the world: one slot changes, and is freed with the last fragment. */
  lemma ArriveEffect(w: World, e: Event) returns (i: nat, slot: Slot)
    requires Invariant(w) && e.Arrive? && Admissible(w.flights, e)
    requires var f := w.flights[e.seqNo]; |f.data| > f.max
    ensures i < |w.slots| && Deliver(w.slots, Wire(w, e)).0 == w.slots[i := slot]
    ensures forall j: nat :: j < |w.slots| && j != i && w.slots[j].isUsed ==> w.slots[j].seqNo != e.seqNo
    ensures w.slots[i].isUsed ==> w.slots[i].seqNo == e.seqNo
    ensures
      var f := w.flights[e.seqNo];
      var f' := f.(got := f.got + {e.off});
      var up := Deliver(w.slots, Wire(w, e)).1;
      if Complete(|f.data|, f.max, 0, f'.got) then up == Some(f.data) && !slot.isUsed
      else up == None && slot.isUsed && slot.seqNo == e.seqNo && Holds(slot, f')
  {
    var slots;
    i, slots := TargetSlot(w, e);
    StoreHolds(slots, i, w.flights[e.seqNo], e.seqNo, e.off);
    slot := Deliver(w.slots, Wire(w, e)).0[i];
  }

  /** A fragment of a message of several fragments. */
  lemma ArriveKeeps(w: World, e: Event)
    requires Invariant(w) && e.Arrive? && Admissible(w.flights, e)
    requires var f := w.flights[e.seqNo]; |f.data| > f.max
    ensures Invariant(Next(w, e).0) && Next(w, e).1 == Track(w.flights, e).1
  {
    var i, slot := ArriveEffect(w, e);
    DeliverKeepsSlotsOk(w.slots, Wire(w, e));
    SlotReplaced(w, e, i, slot, World(w.slots[i := slot], Track(w.flights, e).0));
  }

  lemma SlotReplaced(w: World, e: Event, i: nat, slot: Slot, w': World)
    requires Invariant(w) && e.Arrive? && Admissible(w.flights, e) && i < |w.slots|
    requires w' == World(w.slots[i := slot], Track(w.flights, e).0) && SlotsOk(w'.slots)
    requires forall j: nat :: j < |w.slots| && j != i && w.slots[j].isUsed ==> w.slots[j].seqNo != e.seqNo
    requires w.slots[i].isUsed ==> w.slots[i].seqNo == e.seqNo
    requires e.seqNo in w'.flights ==>
      && slot.isUsed && slot.seqNo == e.seqNo && |w'.flights[e.seqNo].data| > w'.flights[e.seqNo].max
      && Holds(slot, w'.flights[e.seqNo])
    requires e.seqNo !in w'.flights ==> !slot.isUsed
    ensures Invariant(w')
  {
    forall j: nat | j < |w'.slots| ensures SlotInvariant(w', j) {
      if j != i { assert SlotInvariant(w, j); }
    }
    forall t | t in w'.flights && w'.flights[t].got != {} ensures HasSlot(w'.slots, t) {
      if t == e.seqNo {
        assert w'.slots[i].isUsed && w'.slots[i].seqNo == t;
      } else {
        assert HasSlot(w.slots, t);
        var j: nat :| j < |w.slots| && w.slots[j].isUsed && w.slots[j].seqNo == t;
        assert w'.slots[j] == w.slots[j];
      }
    }
  }

  /** A message of one fragment passes straight through. */
  lemma ArriveWhole(w: World, e: Event)
    requires Invariant(w) && e.Arrive? && Admissible(w.flights, e)
    requires var f := w.flights[e.seqNo]; |f.data| <= f.max
    ensures Invariant(Next(w, e).0) && Next(w, e).1 == Track(w.flights, e).1
  {
    var f := w.flights[e.seqNo];
    SingleFragment(f, e.off);
    WireHeader(f, e.seqNo, e.off);
    assert f.data[0..|f.data|] == f.data;
    var w' := Next(w, e).0;
    assert w'.slots == w.slots;
    forall j: nat | j < |w'.slots| ensures SlotInvariant(w', j) {
      assert SlotInvariant(w, j);
    }
  }

  lemma OpenKeeps(w: World, e: Event)
    requires Invariant(w) && e.Open? && Admissible(w.flights, e)
    ensures Invariant(Next(w, e).0)
  {
    var w' := Next(w, e).0;
    forall j: nat | j < |w'.slots| ensures SlotInvariant(w', j) {
      assert SlotInvariant(w, j);
    }
  }

  /** Every admissible event keeps the invariant and yields exactly what the abstract view expects. */
  lemma EventKeeps(w: World, e: Event)
    requires Invariant(w) && Admissible(w.flights, e)
    ensures Invariant(Next(w, e).0) && Next(w, e).1 == Track(w.flights, e).1
  {
    match e
    case Open(_, _, _) => OpenKeeps(w, e);
    case Arrive(s, _) => if |w.flights[s].data| > w.flights[s].max { ArriveKeeps(w, e); } else { ArriveWhole(w, e); }
  }

  // ---------------------------------------------------------------- whole runs

  /** Messages are opened and their fragments arrive as allowed, whatever the receiver does. */
  predicate Schedule(flights: map<int32, Flight>, es: seq<Event>)
    decreases |es|
  {
    es == [] || (Admissible(flights, es[0]) && Schedule(Track(flights, es[0]).0, es[1..]))
  }

  /** What should come out, event by event: each message, unchanged, with its last fragment. */
  function Due(flights: map<int32, Flight>, es: seq<Event>): seq<Option<seq<byte>>>
    requires Schedule(flights, es)
    decreases |es|
  {
    if es == [] then [] else [Track(flights, es[0]).1] + Due(Track(flights, es[0]).0, es[1..])
  }

  /** What the receiver hands up, event by event; the invariant is what makes every step defined. */
  ghost function HandedUp(w: World, es: seq<Event>): seq<Option<seq<byte>>>
    requires Invariant(w) && Schedule(w.flights, es)
    decreases |es|
  {
    if es == [] then []
    else (EventKeeps(w, es[0]); [Next(w, es[0]).1] + HandedUp(Next(w, es[0]).0, es[1..]))
  }

  lemma {:induction false} HandsUpWhatIsDue(w: World, es: seq<Event>)
    requires Invariant(w) && Schedule(w.flights, es)
    ensures HandedUp(w, es) == Due(w.flights, es)
    decreases |es|
  {
    if es != [] {
      EventKeeps(w, es[0]);
      HandsUpWhatIsDue(Next(w, es[0]).0, es[1..]);
    }
  }

  /** A new connection, with no slot used, satisfies the invariant. */
  lemma NewConnection(slots: seq<Slot>)
    requires SlotsOk(slots) && forall i: nat :: i < |slots| ==> !slots[i].isUsed
    ensures Invariant(World(slots, map[]))
  {
    var w := World(slots, map[]);
    forall j: nat | j < |w.slots| ensures SlotInvariant(w, j) {
    }
  }

  /** For every interleaving a new connection delivers each message exactly, on its last fragment. */
  lemma EveryMessageRebuilt(slots: seq<Slot>, es: seq<Event>)
    requires SlotsOk(slots) && forall i: nat :: i < |slots| ==> !slots[i].isUsed
    requires Schedule(map[], es)
    ensures Invariant(World(slots, map[])) && HandedUp(World(slots, map[]), es) == Due(map[], es)
  {
    NewConnection(slots);
    HandsUpWhatIsDue(World(slots, map[]), es);
  }

  // ---------------------------------------------------------------- where the bounds lie

  /** A longer message is cut like any other, but the receiver rejects each of its fragments. */
  lemma TooLongIsRejected(slots: seq<Slot>, data: seq<byte>, max: nat, s: int32, off: nat)
    requires SlotsOk(slots) && max > 0 && off < |data| && MAX_DATA_LEN < |data| < 0x8000_0000 - HEADER_SIZE
    ensures Deliver(slots, Encode(Frame(data, max, s, off))) == (slots, None)
  {
    var p := Frame(data, max, s, off);
    HeaderRoundTrip(p.h, p.piece);
  }

  /** A fourth message is dropped while three others are partly received. */
  lemma FourthIsDropped(slots: seq<Slot>, f: Flight, s: int32, off: nat)
    requires SlotsOk(slots) && FlightOk(f) && |f.data| > f.max && off < |f.data|
    requires forall i: nat :: i < |slots| ==> slots[i].isUsed && slots[i].seqNo != s
    ensures Deliver(slots, Encode(Frame(f.data, f.max, s, off))) == (slots, None)
  {
    WireHeader(f, s, off);
  }
}
