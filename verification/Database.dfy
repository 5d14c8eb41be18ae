/**
 The fixed-capacity record database: a bitmap of 32-bit rows says which records are in use. The
 bitmap always has more bits than there are records.
 */
module Database {
  import opened Basics

  const ROW_SIZE := 32
  const UINT32_MAX := 0xFFFF_FFFF

  /** A row of the bitmap: the 32 bits of an unsigned word, least significant first. */
  type Row = r: seq<bool> | |r| == ROW_SIZE witness seq(ROW_SIZE, i => false)

  predicate AllOnes(r: Row) {
    forall j: nat :: j < ROW_SIZE ==> r[j]
  }

  predicate IsZero(r: Row) {
    forall j: nat :: j < ROW_SIZE ==> !r[j]
  }

  // ---------------------------------------------------------------- bitmaps as sets

  predicate Has(m: seq<Row>, k: nat) {
    k / ROW_SIZE < |m| && m[k / ROW_SIZE][k % ROW_SIZE]
  }

  /** The records a bitmap marks as used. */
  function Used(m: seq<Row>): set<nat> {
    set k: nat | k < |m| * ROW_SIZE && Has(m, k)
  }

  lemma RowAndOffset(i: nat, j: nat)
    requires j < ROW_SIZE
    ensures (i * ROW_SIZE + j) / ROW_SIZE == i && (i * ROW_SIZE + j) % ROW_SIZE == j
  {
  }

  lemma UsedAt(m: seq<Row>, i: nat, j: nat)
    requires i < |m| && j < ROW_SIZE
    ensures i * ROW_SIZE + j in Used(m) <==> m[i][j]
  {
    RowAndOffset(i, j);
  }

  /** Writing one bit adds or removes exactly one record. */
  lemma UsedAfterWrite(m: seq<Row>, i: nat, j: nat, b: bool)
    requires i < |m| && j < ROW_SIZE
    ensures Used(m[i := m[i][j := b]]) ==
            if b then Used(m) + {i * ROW_SIZE + j} else Used(m) - {i * ROW_SIZE + j}
  {
    RowAndOffset(i, j);
    var m' := m[i := m[i][j := b]];
    assert forall k: nat :: k != i * ROW_SIZE + j ==> (Has(m', k) <==> Has(m, k));
  }

  lemma UsedOfZeros(m: seq<Row>)
    requires forall i: nat :: i < |m| ==> IsZero(m[i])
    ensures Used(m) == {}
  {
  }

  // ---------------------------------------------------------------- sets of record numbers

  function Below(n: nat): (r: set<nat>)
    ensures forall k: nat :: k in r <==> k < n
  {
    if n == 0 then {} else Below(n - 1) + {n - 1}
  }

  lemma {:induction false} BelowSize(n: nat)
    ensures |Below(n)| == n
  {
    if n > 0 {
      BelowSize(n - 1);
    }
  }

  /** Pigeonhole: a set of fewer than n numbers misses a number below n. */
  lemma SomeBelowMissing(s: set<nat>, n: nat, low: nat)
    requires |s| < n
    requires forall k: nat :: k < low ==> k in s
    ensures low < n
  {
    if low >= n {
      BelowSize(n);
      SubsetSize(Below(n), s);
    }
  }

  /** The least number that is not in the set. */
  ghost predicate LeastFree(s: set<nat>, r: nat) {
    r !in s && forall k: nat :: k < r ==> k in s
  }

  /** The members of s from lo to hi - 1 in increasing order. */
  function Ascending(s: set<nat>, lo: nat, hi: nat): (r: seq<nat>)
    decreases hi - lo
  {
    if lo >= hi then [] else (if lo in s then [lo] else []) + Ascending(s, lo + 1, hi)
  }

  lemma {:induction false} AscendingMembers(s: set<nat>, lo: nat, hi: nat)
    ensures forall k: nat :: k in Ascending(s, lo, hi) <==> lo <= k < hi && k in s
    ensures forall i: nat, j: nat :: i < j < |Ascending(s, lo, hi)| ==>
      Ascending(s, lo, hi)[i] < Ascending(s, lo, hi)[j]
    decreases hi - lo
  {
    if lo < hi {
      AscendingMembers(s, lo + 1, hi);
      var rest := Ascending(s, lo + 1, hi);
      forall j: nat | j < |rest| ensures lo < rest[j] {
        assert rest[j] in rest;
      }
    }
  }

  /** The first member of s from lo to hi - 1, or -1. */
  function FirstFrom(s: set<nat>, lo: nat, hi: nat): (r: int)
    ensures r == -1 || (lo <= r < hi && r in s)
    ensures forall k: nat :: lo <= k < hi && (r == -1 || k < r) ==> k !in s
    decreases hi - lo
  {
    if lo >= hi then -1 else if lo in s then lo else FirstFrom(s, lo + 1, hi)
  }

  /** Calling DatabaseGetNextRecord again and again, each time with the index it left. */
  function Walk(s: set<nat>, idx: int, hi: nat): seq<nat>
    requires idx >= -1
    decreases hi - idx
  {
    var r := FirstFrom(s, idx + 1, hi);
    if r == -1 then [] else [r] + Walk(s, r, hi)
  }

  /** The iteration visits exactly the used records, each once, in increasing order. */
  lemma {:induction false} WalkIsAscending(s: set<nat>, idx: int, hi: nat)
    requires idx >= -1
    ensures Walk(s, idx, hi) == Ascending(s, idx + 1, hi)
    decreases hi - idx
  {
    var r := FirstFrom(s, idx + 1, hi);
    SkipToFirst(s, idx + 1, hi);
    if r != -1 {
      WalkIsAscending(s, r, hi);
    }
  }

  lemma {:induction false} SkipToFirst(s: set<nat>, lo: nat, hi: nat)
    ensures
      var r := FirstFrom(s, lo, hi);
      Ascending(s, lo, hi) == if r == -1 then [] else [r] + Ascending(s, r + 1, hi)
    decreases hi - lo
  {
    if lo < hi && lo !in s { SkipToFirst(s, lo + 1, hi); }
  }

  // ---------------------------------------------------------------- the allocator

  /** The allocation state of a database. */
  datatype Bitmap = Bitmap(rows: seq<Row>, useCount: nat, maxCount: nat)

  /** The number of used records is the number of set bits, and no spare bit is ever set. */
  ghost predicate BitmapOk(b: Bitmap) {
    && |b.rows| == b.maxCount / ROW_SIZE + 1
    && b.useCount == |Used(b.rows)|
    && forall k: nat :: k in Used(b.rows) ==> k < b.maxCount
  }

  /** The first clear bit of the whole bitmap, spare bits included. */
  function FirstClear(m: seq<Row>, k: nat): (r: nat)
    requires k <= |m| * ROW_SIZE
    ensures k <= r <= |m| * ROW_SIZE
    ensures r < |m| * ROW_SIZE ==> !Has(m, r)
    ensures forall i: nat :: k <= i < r ==> Has(m, i)
    decreases |m| * ROW_SIZE - k
  {
    if k == |m| * ROW_SIZE || !Has(m, k) then k else FirstClear(m, k + 1)
  }

  function Write(m: seq<Row>, k: nat, b: bool): seq<Row>
    requires k / ROW_SIZE < |m|
  {
    m[k / ROW_SIZE := m[k / ROW_SIZE][k % ROW_SIZE := b]]
  }

  lemma UsedAfter(m: seq<Row>, k: nat, b: bool)
    requires k / ROW_SIZE < |m|
    ensures Used(Write(m, k, b)) == if b then Used(m) + {k} else Used(m) - {k}
  {
    UsedAfterWrite(m, k / ROW_SIZE, k % ROW_SIZE, b);
  }

  /** DatabaseAllocRecord; -1 stands for NULL. */
  function Alloc(b: Bitmap): (Bitmap, int) {
    if b.useCount >= b.maxCount then (b, -1 as int)
    else
      var r := FirstClear(b.rows, 0);
      if r == |b.rows| * ROW_SIZE then (b, -1)
      else (b.(rows := Write(b.rows, r, true), useCount := b.useCount + 1), r as int)
  }

  /** DatabaseFreeRecord, given the record number computed from the pointer. */
  function Free(b: Bitmap, recNum: int): Bitmap {
    if b.useCount == 0 || recNum < 0 || recNum >= b.maxCount || !Has(b.rows, recNum) then b
    else b.(rows := Write(b.rows, recNum, false), useCount := b.useCount - 1)
  }

  /**
   Allocation fails exactly when all maxCount records are in use, and otherwise takes the lowest
   unused record; the scan runs over spare bits too but never hands one out.
   */
  lemma AllocExact(b: Bitmap)
    requires BitmapOk(b)
    ensures
      var (b', r) := Alloc(b);
      && BitmapOk(b') && b'.maxCount == b.maxCount
      && (r == -1 <==> |Used(b.rows)| == b.maxCount)
      && (r == -1 ==> b' == b)
      && (r != -1 ==> 0 <= r < b.maxCount && LeastFree(Used(b.rows), r) && Used(b'.rows) == Used(b.rows) + {r})
  {
    BelowSize(b.maxCount);
    SubsetSize(Used(b.rows), Below(b.maxCount));
    if b.useCount < b.maxCount {
      var r := FirstClear(b.rows, 0);
      forall k: nat | k < r ensures k in Used(b.rows) {
        assert Has(b.rows, k);
      }
      SomeBelowMissing(Used(b.rows), b.maxCount, r);
      UsedAfter(b.rows, r, true);
    }
  }

  /** Freeing removes exactly the given record, and does nothing for any other number. */
  lemma FreeExact(b: Bitmap, recNum: int)
    requires BitmapOk(b)
    ensures BitmapOk(Free(b, recNum)) && Free(b, recNum).maxCount == b.maxCount
    ensures Used(Free(b, recNum).rows) == Used(b.rows) - {recNum}
  {
    if 0 <= recNum < b.maxCount && Has(b.rows, recNum) {
      assert recNum in Used(b.rows);
      UsedAfter(b.rows, recNum, false);
    }
  }

  datatype Op = AllocOp | FreeOp(recNum: int)

  function Init(recNumber: nat): Bitmap {
    Bitmap(seq(recNumber / ROW_SIZE + 1, i => seq(ROW_SIZE, j => false)), 0, recNumber)
  }

  function Run(b: Bitmap, ops: seq<Op>): Bitmap
    decreases |ops|
  {
    if ops == [] then b
    else Run(match ops[0] { case AllocOp => Alloc(b).0 case FreeOp(n) => Free(b, n) }, ops[1..])
  }

  /** The count and the bitmap agree after every trace of allocations and frees. */
  lemma {:induction false} TraceKeeps(b: Bitmap, ops: seq<Op>)
    requires BitmapOk(b)
    ensures BitmapOk(Run(b, ops)) && Run(b, ops).maxCount == b.maxCount
    decreases |ops|
  {
    if ops != [] {
      match ops[0] {
        case AllocOp =>
          AllocExact(b);
          TraceKeeps(Alloc(b).0, ops[1..]);
        case FreeOp(n) =>
          FreeExact(b, n);
          TraceKeeps(Free(b, n), ops[1..]);
      }
    }
  }

  /** The same trace on a set of at most max numbers: allocation adds the least free one, freeing takes out. */
  ghost predicate OnSet(s: set<nat>, max: nat, ops: seq<Op>, s': set<nat>)
    decreases |ops|
  {
    if ops == [] then s' == s
    else match ops[0]
      case FreeOp(n) => OnSet(s - {n}, max, ops[1..], s')
      case AllocOp =>
        if |s| == max then OnSet(s, max, ops[1..], s')
        else exists r: nat :: LeastFree(s, r) && r < max && OnSet(s + {r}, max, ops[1..], s')
  }

  /** After every trace the bitmap is that set. */
  lemma {:induction false} BitmapIsSet(b: Bitmap, ops: seq<Op>)
    requires BitmapOk(b)
    ensures OnSet(Used(b.rows), b.maxCount, ops, Used(Run(b, ops).rows))
    decreases |ops|
  {
    if ops != [] {
      match ops[0] {
        case AllocOp =>
          AllocExact(b);
          BitmapIsSet(Alloc(b).0, ops[1..]);
        case FreeOp(n) =>
          FreeExact(b, n);
          BitmapIsSet(Free(b, n), ops[1..]);
      }
    }
  }

  lemma InitOk(recNumber: nat)
    ensures BitmapOk(Init(recNumber)) && Used(Init(recNumber).rows) == {}
  {
    UsedOfZeros(Init(recNumber).rows);
  }

  /** After any trace from DatabaseInit, an allocation below capacity returns the lowest free record. */
  lemma NeverASpareBit(recNumber: nat, ops: seq<Op>)
    ensures
      var b := Run(Init(recNumber), ops);
      && (|Used(b.rows)| < recNumber <==> Alloc(b).1 != -1)
      && (Alloc(b).1 != -1 ==> 0 <= Alloc(b).1 < recNumber && LeastFree(Used(b.rows), Alloc(b).1))
      && OnSet({}, recNumber, ops, Used(b.rows))
  {
    InitOk(recNumber);
    TraceKeeps(Init(recNumber), ops);
    BitmapIsSet(Init(recNumber), ops);
    var b := Run(Init(recNumber), ops);
    AllocExact(b);
    BelowSize(recNumber);
    SubsetSize(Used(b.rows), Below(recNumber));
  }

  /** The first used record from lo to hi - 1 that satisfies p, or -1. */
  function FirstMatch<R>(s: set<nat>, recs: seq<R>, p: R -> bool, lo: nat, hi: nat): (r: int)
    ensures r == -1 || (lo <= r < hi && r in s && r < |recs| && p(recs[r]))
    ensures forall k: nat :: lo <= k < hi && (r == -1 || k < r) && k in s && k < |recs| ==> !p(recs[k])
    decreases hi - lo
  {
    if lo >= hi then -1
    else if lo in s && lo < |recs| && p(recs[lo]) then lo
    else FirstMatch(s, recs, p, lo + 1, hi)
  }

  lemma {:induction false} FirstMatchSkip<R>(s: set<nat>, recs: seq<R>, p: R -> bool, lo: nat, mid: nat, hi: nat)
    requires lo <= mid
    requires forall k: nat :: lo <= k < mid && k in s && k < |recs| ==> !p(recs[k])
    ensures FirstMatch(s, recs, p, lo, hi) == FirstMatch(s, recs, p, mid, hi)
    decreases mid - lo
  {
    if lo < mid && lo < hi { FirstMatchSkip(s, recs, p, lo + 1, mid, hi); }
  }
}
