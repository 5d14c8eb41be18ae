/** The database object: scanning loops over the bitmap, proved against the set of used records. */
module RecordDb {
  import opened Database

  class RecordDb<R> {
    const blk: array<R>
    const usedMap: array<Row>
    const maxCount: nat
    var useCount: nat
    const zero: R

    ghost predicate Valid()
      reads this, usedMap
    {
      && 0 < maxCount <= UINT32_MAX && blk.Length == maxCount && blk as object != usedMap
      && BitmapOk(State())
    }

    ghost function State(): Bitmap
      reads this, usedMap
    {
      Bitmap(usedMap[..], useCount, maxCount)
    }

    /** The numbers of the used records. */
    ghost function Numbers(): set<nat>
      reads this, usedMap
    {
      Used(usedMap[..])
    }

    ghost function Repr(): set<object> {
      {this, blk, usedMap}
    }

    /** DatabaseInit after its argument check. */
    constructor (recNumber: nat, zero: R)
      requires 0 < recNumber <= UINT32_MAX
      ensures Valid() && fresh(Repr()) && Numbers() == {} && maxCount == recNumber && this.zero == zero
    {
      maxCount := recNumber;
      useCount := 0;
      this.zero := zero;
      usedMap := new Row[recNumber / ROW_SIZE + 1](i => seq(ROW_SIZE, j => false));
      blk := new R[recNumber](i => zero);
      new;
      UsedOfZeros(usedMap[..]);
    }

    method IsRecordOccupied(recNum: nat) returns (occupied: bool, i: nat, off: nat)
      requires Valid() && recNum < maxCount
      ensures occupied <==> recNum in Numbers()
      ensures i == recNum / ROW_SIZE < usedMap.Length && off == recNum % ROW_SIZE
    {
      i := recNum / ROW_SIZE;
      off := recNum % ROW_SIZE;
      occupied := usedMap[i][off];
    }

    /** The inner loop of the allocator: the first clear bit of a row, or ROW_SIZE. */
    method ScanRow(i: nat) returns (j: nat)
      requires i < usedMap.Length
      ensures j <= ROW_SIZE && FirstClear(usedMap[..], i * ROW_SIZE) == FirstClear(usedMap[..], i * ROW_SIZE + j)
      ensures j < ROW_SIZE ==> !usedMap[i][j]
    {
      j := 0;
      while j < ROW_SIZE
        invariant 0 <= j <= ROW_SIZE
        invariant FirstClear(usedMap[..], i * ROW_SIZE) == FirstClear(usedMap[..], i * ROW_SIZE + j)
      {
        RowAndOffset(i, j);
        if !usedMap[i][j] {
          return;
        }
        j := j + 1;
      }
    }

    /** The outer loop of the allocator: the first clear bit of the whole map, or -1. */
    method FindClear() returns (rec: int)
      ensures rec == var r := FirstClear(usedMap[..], 0); if r == usedMap.Length * ROW_SIZE then -1 else r
    {
      ghost var m := usedMap[..];
      var i := 0;
      while i < usedMap.Length
        invariant 0 <= i <= usedMap.Length
        invariant FirstClear(m, 0) == FirstClear(m, i * ROW_SIZE)
      {
        if AllOnes(usedMap[i]) {
          SkipRow(m, i, ROW_SIZE);
          i := i + 1;
          continue;
        }
        var j := ScanRow(i);
        if j < ROW_SIZE {
          RowAndOffset(i, j);
          return i * ROW_SIZE + j;
        }
        i := i + 1;
      }
      return -1;
    }

    /** Fails exactly when the database is full; otherwise zeroes and returns the lowest unused record. */
    method DatabaseAllocRecord() returns (rec: int)
      requires Valid()
      modifies this, usedMap, blk
      ensures Valid()
      ensures (State(), rec) == Alloc(old(State()))
      ensures rec == -1 <==> |old(Numbers())| == maxCount
      ensures rec == -1 ==> Numbers() == old(Numbers()) && blk[..] == old(blk[..])
      ensures rec != -1 ==> 0 <= rec < maxCount && LeastFree(old(Numbers()), rec)
      ensures rec != -1 ==> Numbers() == old(Numbers()) + {rec} && blk[..] == old(blk[..])[rec := zero]
    {
      AllocExact(State());
      if useCount >= maxCount {
        return -1;
      }
      rec := FindClear();
      if rec != -1 {
        ghost var m := usedMap[..];
        var i, j := rec / ROW_SIZE, rec % ROW_SIZE;
        blk[rec] := zero;
        usedMap[i] := usedMap[i][j := true];
        useCount := useCount + 1;
        assert usedMap[..] == Write(m, rec, true);
      }
    }

    method DatabaseFreeRecord(recNum: int)
      requires Valid()
      modifies this, usedMap
      ensures Valid() && State() == Free(old(State()), recNum)
      ensures Numbers() == old(Numbers()) - {recNum}
    {
      FreeExact(State(), recNum);
      if useCount == 0 || recNum < 0 || recNum >= maxCount {
        return;
      }
      var occupied, i, off := IsRecordOccupied(recNum);
      if !occupied {
        return;
      }
      ghost var m := usedMap[..];
      usedMap[i] := usedMap[i][off := false];
      useCount := useCount - 1;
      assert usedMap[..] == Write(m, recNum, false);
    }

    /** The inner loop of the search: the first matching record of a row, or -1. */
    method SearchRow(i: nat, p: R -> bool) returns (rec: int)
      requires Valid() && i < usedMap.Length
      ensures
        var top := usedMap.Length * ROW_SIZE;
        if rec == -1 then
          FirstMatch(Numbers(), blk[..], p, i * ROW_SIZE, top) == FirstMatch(Numbers(), blk[..], p, (i + 1) * ROW_SIZE, top)
        else
          rec == FirstMatch(Numbers(), blk[..], p, i * ROW_SIZE, top)
    {
      ghost var s, recs, top := Numbers(), blk[..], usedMap.Length * ROW_SIZE;
      var j := 0;
      while j < ROW_SIZE
        invariant 0 <= j <= ROW_SIZE
        invariant FirstMatch(s, recs, p, i * ROW_SIZE, top) == FirstMatch(s, recs, p, i * ROW_SIZE + j, top)
      {
        UsedAt(usedMap[..], i, j);
        if !usedMap[i][j] {
          j := j + 1;
          continue;
        }
        rec := i * ROW_SIZE + j;
        if p(blk[rec]) {
          return;
        }
        j := j + 1;
      }
      return -1;
    }

    /** The scan over all the bits of the map finds what a scan of the records alone would find. */
    method DatabaseSearchRecord(p: R -> bool) returns (rec: int)
      requires Valid()
      ensures rec == FirstMatch(Numbers(), blk[..], p, 0, maxCount)
    {
      ghost var s, recs, top := Numbers(), blk[..], usedMap.Length * ROW_SIZE;
      SearchBeyond(s, recs, p, 0, maxCount, top);
      var i := 0;
      while i < usedMap.Length
        invariant 0 <= i <= usedMap.Length
        invariant FirstMatch(s, recs, p, 0, top) == FirstMatch(s, recs, p, i * ROW_SIZE, top)
      {
        if IsZero(usedMap[i]) {
          EmptyRow(usedMap[..], i);
          FirstMatchSkip(s, recs, p, i * ROW_SIZE, (i + 1) * ROW_SIZE, top);
          i := i + 1;
          continue;
        }
        rec := SearchRow(i, p);
        if rec != -1 {
          return;
        }
        i := i + 1;
      }
      return -1;
    }

    /** The next used record after idx, and the index to continue from. */
    method DatabaseGetNextRecord(idx: int) returns (rec: int, idx': int)
      requires Valid()
      ensures idx >= UINT32_MAX ==> rec == -1 && idx' == idx
      ensures idx < UINT32_MAX ==>
        var from: nat := if idx >= 0 then idx + 1 else 0;
        rec == FirstFrom(Numbers(), from, maxCount) && idx' == if rec == -1 then from else rec
    {
      if idx >= UINT32_MAX {
        return -1, idx;
      }
      idx' := if idx >= 0 then idx + 1 else 0;
      ghost var from: nat := idx';
      var i: nat := idx';
      while i < maxCount
        invariant from <= i
        invariant FirstFrom(Numbers(), from, maxCount) == FirstFrom(Numbers(), i, maxCount)
      {
        var occupied, _, _ := IsRecordOccupied(i);
        if occupied {
          return i, i;
        }
        i := i + 1;
      }
      return -1, idx';
    }
  }

  /** The used records from number k on. */
  ghost function Select<R>(s: set<nat>, recs: seq<R>, k: nat): seq<R>
    decreases |recs| - k
  {
    if k >= |recs| then [] else (if k in s then [recs[k]] else []) + Select(s, recs, k + 1)
  }

  lemma {:induction false} SkipRow(m: seq<Row>, i: nat, n: nat)
    requires i < |m| && n <= ROW_SIZE && AllOnes(m[i])
    ensures FirstClear(m, i * ROW_SIZE) == FirstClear(m, i * ROW_SIZE + n)
  {
    if n > 0 {
      SkipRow(m, i, n - 1);
      RowAndOffset(i, n - 1);
    }
  }

  lemma EmptyRow(m: seq<Row>, i: nat)
    requires i < |m| && IsZero(m[i])
    ensures forall k: nat :: i * ROW_SIZE <= k < (i + 1) * ROW_SIZE ==> k !in Used(m)
  {
    forall k: nat | i * ROW_SIZE <= k < (i + 1) * ROW_SIZE ensures k !in Used(m) {
      RowAndOffset(i, k - i * ROW_SIZE);
    }
  }

  lemma {:induction false} SearchBeyond<R>(s: set<nat>, recs: seq<R>, p: R -> bool, lo: nat, hi: nat, top: nat)
    requires hi <= top && forall k: nat :: k in s ==> k < hi
    ensures FirstMatch(s, recs, p, lo, hi) == FirstMatch(s, recs, p, lo, top)
    decreases top - lo
  {
    if lo < top { SearchBeyond(s, recs, p, lo + 1, hi, top); }
  }

  /** DatabaseInit; recSize is the size of an R. */
  method DatabaseInit<R>(recNumber: nat, zero: R) returns (db: RecordDb?<R>)
    requires recNumber <= UINT32_MAX
    ensures db == null <==> recNumber == 0
    ensures db != null ==> db.Valid() && fresh(db.Repr()) && db.Numbers() == {} && db.maxCount == recNumber
  {
    if recNumber == 0 {
      return null;
    }
    db := new RecordDb(recNumber, zero);
  }
}
