/**
 The device registry on top of the record database: at most one record per device, and a backup
 that mirrors the main list.
 */
module DeviceRegistry {
  import opened Database
  import opened RecordDb
  import opened Basics

  const NSTACKX_EOK := 0
  const NSTACKX_EFAILED := -1
  const NSTACKX_ENOMEM := -5
  const NSTACKX_MAX_DEVICE_NUM := 20
  const NSTACKX_MAX_CAPABILITY_NUM := 2
  const NSTACKX_MAX_DEVICE_ID_LEN := 96

  type Word = x: int | 0 <= x < 0x1_0000_0000
  type Capability = c: seq<Word> | |c| == NSTACKX_MAX_CAPABILITY_NUM witness [0, 0]

  /** A device record; deviceId is a terminated string in a buffer of 96 bytes. */
  datatype DeviceInfo = DeviceInfo(deviceId: string, deviceName: string, deviceType: int, portNumber: int,
                                   netChannelInfo: string, capabilityNum: Word, capability: Capability,
                                   version: string, mode: int, deviceHash: string, serviceData: string)

  const ZERO_INFO := DeviceInfo("", "", 0, 0, "", 0, [0, 0], "", 0, "", "")

  // ---------------------------------------------------------------- merging a report

  /** The bitmap copy: the words beyond the reported ones become zero. */
  function CopyCapability(from: Capability, num: nat): Capability
    requires num <= NSTACKX_MAX_CAPABILITY_NUM
  {
    from[..num] + seq(NSTACKX_MAX_CAPABILITY_NUM - num, i => 0)
  }

  datatype Merge = Merge(info: DeviceInfo, updated: bool, ok: bool)

  /** UpdateDeviceInfoInner: the fields it has written so far stay written when it fails. */
  function MergeInner(cur: DeviceInfo, new_: DeviceInfo): Merge {
    if cur.deviceType != new_.deviceType then Merge(cur, false, false)
    else
      var u1 := cur.deviceName != new_.deviceName;
      var u2 := |new_.version| > 0 && cur.version != new_.version;
      var m := cur.(deviceName := new_.deviceName,
                    version := if |new_.version| > 0 then new_.version else cur.version,
                    capabilityNum := new_.capabilityNum);
      if new_.capabilityNum > NSTACKX_MAX_CAPABILITY_NUM then
        Merge(m.(capability := [0, 0]), true, false)
      else
        var u3 := cur.capabilityNum != new_.capabilityNum ||
                  cur.capability[..new_.capabilityNum] != new_.capability[..new_.capabilityNum];
        Merge(m.(capability := CopyCapability(new_.capability, new_.capabilityNum)), u1 || u2 || u3, true)
  }

  /** UpdateDeviceInfo. */
  function MergeInfo(cur: DeviceInfo, new_: DeviceInfo): Merge {
    var m := MergeInner(cur, new_);
    if !m.ok then m
    else
      var u := || cur.deviceHash != new_.deviceHash || cur.mode != new_.mode
               || cur.serviceData != new_.serviceData
               || cur.netChannelInfo != new_.netChannelInfo || cur.portNumber != new_.portNumber;
      Merge(m.info.(deviceHash := new_.deviceHash, mode := new_.mode, serviceData := new_.serviceData,
                    netChannelInfo := new_.netChannelInfo, portNumber := new_.portNumber),
            m.updated || u, true)
  }

  /** Merging never changes which device a record is about, and a repeated report is no update. */
  lemma MergeTwice(cur: DeviceInfo, new_: DeviceInfo)
    ensures MergeInfo(cur, new_).info.deviceId == cur.deviceId
    ensures MergeInfo(cur, new_).ok <==>
      cur.deviceType == new_.deviceType && new_.capabilityNum <= NSTACKX_MAX_CAPABILITY_NUM
    ensures MergeInfo(cur, new_).ok ==>
      var again := MergeInfo(MergeInfo(cur, new_).info, new_);
      again.ok && !again.updated && again.info == MergeInfo(cur, new_).info
  {
  }

  /** A record as its readers see it: capability words beyond capabilityNum do not count. */
  function Seen(d: DeviceInfo): (DeviceInfo, seq<Word>) {
    (d.(capability := [0, 0]), if d.capabilityNum <= |d.capability| then d.capability[..d.capabilityNum] else [])
  }

  /** What a record tells after a report: the report, but an empty version does not replace a known one. */
  function Told(cur: DeviceInfo, new_: DeviceInfo): DeviceInfo {
    new_.(deviceId := cur.deviceId, version := if new_.version == "" then cur.version else new_.version)
  }

  /** An accepted merge leaves what the report told, and is an update exactly when readers see a change. */
  lemma MergeExact(cur: DeviceInfo, new_: DeviceInfo)
    requires MergeInfo(cur, new_).ok
    ensures Seen(MergeInfo(cur, new_).info) == Seen(Told(cur, new_))
    ensures MergeInfo(cur, new_).updated <==> Seen(MergeInfo(cur, new_).info) != Seen(cur)
    ensures forall i: nat :: new_.capabilityNum <= i < |cur.capability| ==> MergeInfo(cur, new_).info.capability[i] == 0
  {
    var m := MergeInfo(cur, new_).info;
    assert m.capability[..new_.capabilityNum] == new_.capability[..new_.capabilityNum];
  }

  // ---------------------------------------------------------------- tables

  /** A device database seen from outside. */
  datatype Table = Table(used: set<nat>, recs: seq<DeviceInfo>)

  ghost predicate TableOk(t: Table) {
    |t.recs| == NSTACKX_MAX_DEVICE_NUM && forall k :: k in t.used ==> k < NSTACKX_MAX_DEVICE_NUM
  }

  /** No two used records are about the same device. */
  ghost predicate Unique(t: Table) {
    forall i: nat, j: nat :: i < j && i in t.used && j in t.used && j < |t.recs| ==>
      t.recs[i].deviceId != t.recs[j].deviceId
  }

  /** IsSameDevice, partially applied. */
  function IsSameDevice(id: string): DeviceInfo -> bool {
    (d: DeviceInfo) => d.deviceId == id
  }

  ghost function Find(t: Table, id: string): int {
    FirstMatch(t.used, t.recs, IsSameDevice(id), 0, NSTACKX_MAX_DEVICE_NUM)
  }

  function LowestFree(s: set<nat>, lo: nat, hi: nat): (r: nat)
    ensures lo <= hi ==> lo <= r <= hi
    ensures r < hi ==> r !in s
    ensures forall k: nat :: lo <= k < r && k < hi ==> k in s
    decreases hi - lo
  {
    if lo >= hi || lo !in s then lo else LowestFree(s, lo + 1, hi)
  }

  /** UpdateDeviceDb on a table. */
  ghost function Update(t: Table, info: DeviceInfo): (Table, int)
    requires TableOk(t)
  {
    var r := Find(t, info.deviceId);
    if r != -1 then
      var m := MergeInfo(t.recs[r], info);
      (t.(recs := t.recs[r := m.info]), if m.ok then NSTACKX_EOK else NSTACKX_EFAILED)
    else
      var f := LowestFree(t.used, 0, NSTACKX_MAX_DEVICE_NUM);
      if f == NSTACKX_MAX_DEVICE_NUM then (t, NSTACKX_ENOMEM)
      else (Table(t.used + {f}, t.recs[f := info]), NSTACKX_EOK)
  }

  /** The used records in order. */
  ghost function Devices(t: Table): seq<DeviceInfo> {
    Select(t.used, t.recs, 0)
  }

  /** BackupDeviceDB on tables: the main records, packed to the front. */
  ghost function Backup(main: Table, backup: Table): Table
    requires TableOk(main) && TableOk(backup) && |Devices(main)| <= |backup.recs|
  {
    var ds := Devices(main);
    Table(Below(|ds|), ds + backup.recs[|ds|..])
  }

  /** b holds the main records, packed to the front of the old ones. */
  ghost predicate IsBackup(main: Table, was: seq<DeviceInfo>, b: Table) {
    var ds := Devices(main);
    |ds| <= |was| && b == Table(Below(|ds|), ds + was[|ds|..])
  }

  lemma MergedKeepsUnique(t: Table, r: nat, info: DeviceInfo)
    requires TableOk(t) && Unique(t) && r < |t.recs| && info.deviceId == t.recs[r].deviceId
    ensures Unique(t.(recs := t.recs[r := info]))
  {
  }

  lemma CreatedKeepsUnique(t: Table, f: nat, info: DeviceInfo)
    requires TableOk(t) && Unique(t) && f < |t.recs| && Find(t, info.deviceId) == -1
    ensures Unique(Table(t.used + {f}, t.recs[f := info]))
  {
    forall k: nat | k in t.used ensures t.recs[k].deviceId != info.deviceId {
      assert !IsSameDevice(info.deviceId)(t.recs[k]);
    }
  }

  lemma FindsIt(t: Table, k: nat)
    requires TableOk(t) && k in t.used
    ensures 0 <= Find(t, t.recs[k].deviceId)
  {
    assert IsSameDevice(t.recs[k].deviceId)(t.recs[k]);
  }

  /** An update keeps every other device as it was and leaves one record for this one. */
  lemma UpdateExact(t: Table, info: DeviceInfo)
    requires TableOk(t) && Unique(t)
    ensures
      var (t', ret) := Update(t, info);
      && TableOk(t') && Unique(t') && t.used <= t'.used
      && (ret == NSTACKX_ENOMEM <==> Find(t, info.deviceId) == -1 && t.used == Below(NSTACKX_MAX_DEVICE_NUM))
      && (ret == NSTACKX_ENOMEM ==> t' == t)
      && (ret != NSTACKX_ENOMEM ==> 0 <= Find(t', info.deviceId))
      && (forall k: nat :: k in t.used && t.recs[k].deviceId != info.deviceId ==> t'.recs[k] == t.recs[k])
  {
    var r := Find(t, info.deviceId);
    var (t', ret) := Update(t, info);
    var f := LowestFree(t.used, 0, NSTACKX_MAX_DEVICE_NUM);
    if r != -1 {
      var m := MergeInfo(t.recs[r], info);
      MergeTwice(t.recs[r], info);
      MergedKeepsUnique(t, r, m.info);
      FindsIt(t', r);
    } else if f == NSTACKX_MAX_DEVICE_NUM {
      assert t.used == Below(NSTACKX_MAX_DEVICE_NUM);
    } else {
      CreatedKeepsUnique(t, f, info);
      FindsIt(t', f);
      assert f in Below(NSTACKX_MAX_DEVICE_NUM);
    }
  }

  /** Record k is in use and is about the device. */
  ghost predicate Holds(t: Table, k: nat, id: string) {
    k in t.used && k < |t.recs| && t.recs[k].deviceId == id
  }

  /** A known record takes a report of the same device type with no more capability words than it has room for. */
  predicate Mergeable(cur: DeviceInfo, info: DeviceInfo) {
    cur.deviceType == info.deviceType && info.capabilityNum <= NSTACKX_MAX_CAPABILITY_NUM
  }

  /** The device is unknown and a record is free, or it is known and the report can be merged. */
  ghost predicate Acceptable(t: Table, info: DeviceInfo) {
    || ((forall k: nat :: !Holds(t, k, info.deviceId)) && exists f: nat :: f < NSTACKX_MAX_DEVICE_NUM && f !in t.used)
    || (exists k: nat :: Holds(t, k, info.deviceId) && Mergeable(t.recs[k], info))
  }

  /** Finding goes by the identifier and nothing else. */
  lemma FindExact(t: Table, id: string)
    requires TableOk(t)
    ensures 0 <= Find(t, id) ==> Holds(t, Find(t, id), id)
    ensures Find(t, id) < 0 ==> Find(t, id) == -1 && forall k: nat :: !Holds(t, k, id)
  {
    if Find(t, id) < 0 {
      forall k: nat ensures !Holds(t, k, id) {
        assert k in t.used ==> (IsSameDevice(id)(t.recs[k]) <==> t.recs[k].deviceId == id);
      }
    }
  }

  /** Every report gets one of three answers, and it depends only on what the table holds. */
  lemma UpdateCodes(t: Table, info: DeviceInfo)
    requires TableOk(t) && Unique(t)
    ensures
      var ret := Update(t, info).1;
      && ret in {NSTACKX_EOK, NSTACKX_EFAILED, NSTACKX_ENOMEM}
      && (ret == NSTACKX_EOK <==> Acceptable(t, info))
      && (ret == NSTACKX_EFAILED <==>
            exists k: nat :: Holds(t, k, info.deviceId) && !Mergeable(t.recs[k], info))
  {
    var r := Find(t, info.deviceId);
    FindExact(t, info.deviceId);
    if 0 <= r {
      MergeTwice(t.recs[r], info);
      assert forall k: nat :: Holds(t, k, info.deviceId) ==> k == r;
    }
  }

  /** A report that can be accepted is what a reader then finds under its identifier. */
  lemma ReportIsStored(t: Table, info: DeviceInfo)
    requires TableOk(t) && Unique(t) && Acceptable(t, info)
    ensures
      var t' := Update(t, info).0;
      var was, now := Find(t, info.deviceId), Find(t', info.deviceId);
      && 0 <= now < |t'.recs|
      && Seen(t'.recs[now]) == Seen(if was == -1 then info else Told(t.recs[was], info))
  {
    UpdateExact(t, info);
    UpdateCodes(t, info);
    var was := Find(t, info.deviceId);
    var r := if was == -1 then LowestFree(t.used, 0, NSTACKX_MAX_DEVICE_NUM) else was;
    if was != -1 {
      MergeTwice(t.recs[was], info);
      MergeExact(t.recs[was], info);
    }
    OnlyOne(Update(t, info).0, r);
  }

  /**
   A refused merge is not undone. For another device type nothing was written; for too many
   capability words the name, a given version and the count were, and the words are gone.
   */
  lemma RefusedIsHalfWritten(t: Table, k: nat, info: DeviceInfo)
    requires TableOk(t) && Unique(t) && Holds(t, k, info.deviceId) && !Mergeable(t.recs[k], info)
    ensures
      var cur, t' := t.recs[k], Update(t, info).0;
      t' == if cur.deviceType != info.deviceType then t else
        t.(recs := t.recs[k := cur.(deviceName := info.deviceName, capabilityNum := info.capabilityNum,
                                    version := if info.version == "" then cur.version else info.version,
                                    capability := [0, 0])])
  {
    FindExact(t, info.deviceId);
    assert Find(t, info.deviceId) == k;
    assert t.recs[k := t.recs[k]] == t.recs;
  }

  lemma OnlyOne(t: Table, r: nat)
    requires TableOk(t) && Unique(t) && r in t.used
    ensures Find(t, t.recs[r].deviceId) == r
  {
    FindsIt(t, r);
  }

  // ---------------------------------------------------------------- the backup

  lemma {:induction false} SelectLength(s: set<nat>, recs: seq<DeviceInfo>, k: nat)
    ensures k <= |recs| ==> |Select(s, recs, k)| <= |recs| - k
    ensures k > |recs| ==> Select(s, recs, k) == []
    decreases |recs| - k
  {
    if k < |recs| { SelectLength(s, recs, k + 1); }
  }

  /** Records packed to the front are listed as they stand. */
  lemma {:induction false} SelectPacked(n: nat, recs: seq<DeviceInfo>, k: nat)
    requires k <= n <= |recs|
    ensures Select(Below(n), recs, k) == recs[k..n]
    decreases |recs| - k
  {
    if k < n {
      SelectPacked(n, recs, k + 1);
      assert recs[k..n] == [recs[k]] + recs[k + 1..n];
    } else {
      NothingSelected(Below(n), recs, k);
    }
  }

  lemma {:induction false} NothingSelected(s: set<nat>, recs: seq<DeviceInfo>, k: nat)
    requires forall i: nat :: k <= i < |recs| ==> i !in s
    ensures Select(s, recs, k) == []
    decreases |recs| - k
  {
    if k < |recs| { NothingSelected(s, recs, k + 1); }
  }

  ghost predicate DistinctIds(ds: seq<DeviceInfo>) {
    forall i: nat, j: nat :: i < j < |ds| ==> ds[i].deviceId != ds[j].deviceId
  }

  lemma {:induction false} SelectDistinct(t: Table, k: nat)
    requires Unique(t)
    ensures DistinctIds(Select(t.used, t.recs, k))
    ensures forall d :: d in Select(t.used, t.recs, k) ==>
      exists i: nat :: k <= i < |t.recs| && i in t.used && t.recs[i] == d
    decreases |t.recs| - k
  {
    if k < |t.recs| {
      SelectDistinct(t, k + 1);
      var rest := Select(t.used, t.recs, k + 1);
      forall j: nat | j < |rest| && k in t.used ensures rest[j].deviceId != t.recs[k].deviceId {
        assert rest[j] in rest;
      }
    }
  }

  /** The backup lists exactly the main records, in the same order. */
  lemma BackupExact(main: Table, backup: Table)
    requires TableOk(main) && TableOk(backup) && Unique(main)
    ensures |Devices(main)| <= |backup.recs|
    ensures
      var b := Backup(main, backup);
      TableOk(b) && Unique(b) && Devices(b) == Devices(main)
  {
    SelectLength(main.used, main.recs, 0);
    var ds := Devices(main);
    var b := Backup(main, backup);
    SelectPacked(|ds|, b.recs, 0);
    assert b.recs[0..|ds|] == ds;
    SelectDistinct(main, 0);
    forall i: nat, j: nat | i < j && i in b.used && j in b.used && j < |b.recs|
      ensures b.recs[i].deviceId != b.recs[j].deviceId
    {
      assert b.recs[i] == ds[i] && b.recs[j] == ds[j];
    }
  }

  // ---------------------------------------------------------------- every run

  datatype Event = Report(info: DeviceInfo) | ClearMain | ClearBackup | DoBackup

  datatype Tables = Tables(main: Table, backup: Table)

  ghost predicate TablesOk(r: Tables) {
    TableOk(r.main) && TableOk(r.backup) && Unique(r.main) && Unique(r.backup)
  }

  ghost function Step(r: Tables, e: Event): Tables
    requires TablesOk(r)
  {
    match e
    case Report(info) => r.(main := Update(r.main, info).0)
    case ClearMain => r.(main := r.main.(used := {}))
    case ClearBackup => r.(backup := r.backup.(used := {}))
    case DoBackup => (BackupExact(r.main, r.backup); r.(backup := Backup(r.main, r.backup)))
  }

  lemma StepKeeps(r: Tables, e: Event)
    requires TablesOk(r)
    ensures TablesOk(Step(r, e))
  {
    match e
    case Report(info) => UpdateExact(r.main, info);
    case ClearMain =>
    case ClearBackup =>
    case DoBackup => BackupExact(r.main, r.backup);
  }

  /** The tables after the events of a run; the invariant is what makes every step defined. */
  ghost function RunTo(r: Tables, es: seq<Event>): (r': Tables)
    requires TablesOk(r)
    ensures TablesOk(r')
    decreases |es|
  {
    if es == [] then r else (StepKeeps(r, es[0]); RunTo(Step(r, es[0]), es[1..]))
  }

  function Reported(es: seq<Event>): set<string> {
    if es == [] then {} else (if es[0].Report? then {es[0].info.deviceId} else {}) + Reported(es[1..])
  }

  ghost predicate IdsWithin(t: Table, ids: set<string>)
    requires TableOk(t)
  {
    forall k: nat :: k in t.used ==> t.recs[k].deviceId in ids
  }

  lemma UpdateIds(t: Table, info: DeviceInfo, ids: set<string>)
    requires TableOk(t) && Unique(t) && IdsWithin(t, ids)
    ensures TableOk(Update(t, info).0) && IdsWithin(Update(t, info).0, ids + {info.deviceId})
  {
    UpdateExact(t, info);
    var r := Find(t, info.deviceId);
    if r != -1 { MergeTwice(t.recs[r], info); }
  }

  lemma BackupIds(r: Tables, ids: set<string>)
    requires TablesOk(r) && IdsWithin(r.main, ids)
    ensures TableOk(Step(r, DoBackup).backup) && IdsWithin(Step(r, DoBackup).backup, ids)
  {
    BackupExact(r.main, r.backup);
    SelectDistinct(r.main, 0);
    var ds, b := Devices(r.main), Backup(r.main, r.backup);
    forall k: nat | k in b.used ensures b.recs[k].deviceId in ids {
      assert b.recs[k] == ds[k] && ds[k] in ds;
    }
  }

  lemma {:induction false} OnlyReported(r: Tables, es: seq<Event>, ids: set<string>)
    requires TablesOk(r) && IdsWithin(r.main, ids) && IdsWithin(r.backup, ids)
    ensures IdsWithin(RunTo(r, es).main, ids + Reported(es)) && IdsWithin(RunTo(r, es).backup, ids + Reported(es))
    decreases |es|
  {
    if es != [] {
      StepKeeps(r, es[0]);
      match es[0] {
        case Report(info) => UpdateIds(r.main, info, ids);
        case DoBackup => BackupIds(r, ids);
        case _ =>
      }
      var ids' := ids + Reported(es[..1]);
      assert Reported(es[..1]) == (if es[0].Report? then {es[0].info.deviceId} else {}) + Reported(es[..1][1..]);
      OnlyReported(Step(r, es[0]), es[1..], ids');
      assert ids' + Reported(es[1..]) == ids + Reported(es);
    }
  }

  /**
   In every state the registry reaches from its two empty tables, each device has at most one
   record in each of them, and only devices that were reported have one.
   */
  lemma OneRecordPerDevice(main: seq<DeviceInfo>, backup: seq<DeviceInfo>, es: seq<Event>)
    requires |main| == |backup| == NSTACKX_MAX_DEVICE_NUM
    ensures
      var r := RunTo(Tables(Table({}, main), Table({}, backup)), es);
      && Unique(r.main) && Unique(r.backup)
      && IdsWithin(r.main, Reported(es)) && IdsWithin(r.backup, Reported(es))
  {
    OnlyReported(Tables(Table({}, main), Table({}, backup)), es, {});
    assert {} + Reported(es) == Reported(es);
  }

  /** Record k of the main table stays as it is while nothing is reported about its device and the table is not cleared. */
  lemma {:induction false} RecordPersists(r: Tables, k: nat, id: string, es: seq<Event>)
    requires TablesOk(r) && Holds(r.main, k, id)
    requires forall i: nat :: i < |es| ==> !es[i].ClearMain? && (es[i].Report? ==> es[i].info.deviceId != id)
    ensures Holds(RunTo(r, es).main, k, id) && RunTo(r, es).main.recs[k] == r.main.recs[k]
    decreases |es|
  {
    if es != [] {
      StepKeeps(r, es[0]);
      if es[0].Report? { UpdateExact(r.main, es[0].info); }
      RecordPersists(Step(r, es[0]), k, id, es[1..]);
    }
  }

  /** So what was last reported and accepted about a device is what a reader finds, however long after. */
  lemma ReportPersists(r: Tables, info: DeviceInfo, es: seq<Event>)
    requires TablesOk(r) && Acceptable(r.main, info)
    requires forall i: nat :: i < |es| ==> !es[i].ClearMain? && (es[i].Report? ==> es[i].info.deviceId != info.deviceId)
    ensures
      var t := RunTo(r, [Report(info)] + es).main;
      var was, now := Find(r.main, info.deviceId), Find(t, info.deviceId);
      && 0 <= now < |t.recs|
      && Seen(t.recs[now]) == Seen(if was == -1 then info else Told(r.main.recs[was], info))
  {
    var r1 := Step(r, Report(info));
    StepKeeps(r, Report(info));
    ReportIsStored(r.main, info);
    var k := Find(r1.main, info.deviceId);
    FindExact(r1.main, info.deviceId);
    RecordPersists(r1, k, info.deviceId, es);
    assert ([Report(info)] + es)[1..] == es;
    OnlyOne(RunTo(r1, es).main, k);
  }

  /** And the backup lists what the main table listed when it was last taken. */
  lemma {:induction false} BackupPersists(r: Tables, es: seq<Event>)
    requires TablesOk(r) && forall i: nat :: i < |es| ==> !es[i].ClearBackup? && !es[i].DoBackup?
    ensures RunTo(r, es).backup == r.backup
    decreases |es|
  {
    if es != [] {
      StepKeeps(r, es[0]);
      BackupPersists(Step(r, es[0]), es[1..]);
    }
  }

  lemma BackupRemembers(r: Tables, es: seq<Event>)
    requires TablesOk(r) && forall i: nat :: i < |es| ==> !es[i].ClearBackup? && !es[i].DoBackup?
    ensures Devices(RunTo(r, [DoBackup] + es).backup) == Devices(r.main)
  {
    StepKeeps(r, DoBackup);
    BackupExact(r.main, r.backup);
    BackupPersists(Step(r, DoBackup), es);
    assert ([DoBackup] + es)[1..] == es;
  }

  /** Clearing a table empties it and leaves the other one alone. */
  lemma ClearExact(r: Tables)
    requires TablesOk(r)
    ensures Devices(Step(r, ClearMain).main) == [] && Step(r, ClearMain).backup == r.backup
    ensures Devices(Step(r, ClearBackup).backup) == [] && Step(r, ClearBackup).main == r.main
  {
    NothingSelected({}, r.main.recs, 0);
    NothingSelected({}, r.backup.recs, 0);
  }

  // ---------------------------------------------------------------- the objects

  ghost function View(db: RecordDb<DeviceInfo>): Table
    reads db, db.usedMap, db.blk
  {
    Table(db.Numbers(), db.blk[..])
  }

  ghost predicate DeviceDb(db: RecordDb<DeviceInfo>)
    reads db, db.usedMap
  {
    db.Valid() && db.maxCount == NSTACKX_MAX_DEVICE_NUM
  }

  /** Frees while it iterates, and yet leaves no record behind. */
  method ClearDevices(db: RecordDb<DeviceInfo>) returns (deviceRemoved: bool)
    requires DeviceDb(db)
    modifies db, db.usedMap
    ensures DeviceDb(db) && db.Numbers() == {} && db.blk[..] == old(db.blk[..])
    ensures deviceRemoved <==> old(db.Numbers()) != {}
  {
    var idx := -1;
    deviceRemoved := false;
    ghost var start := db.Numbers();
    var i := 0;
    while i < NSTACKX_MAX_DEVICE_NUM
      invariant 0 <= i <= NSTACKX_MAX_DEVICE_NUM && i - 1 <= idx < NSTACKX_MAX_DEVICE_NUM
      invariant DeviceDb(db)
      invariant db.Numbers() == set k | k in start && k > idx
      invariant deviceRemoved <==> exists k :: k in start && k <= idx
    {
      var dev;
      dev, idx := db.DatabaseGetNextRecord(idx);
      if dev == -1 {
        break;
      }
      db.DatabaseFreeRecord(dev);
      deviceRemoved := true;
      assert dev in start;
      i := i + 1;
    }
  }

  /** GetDeviceInfoById; an identifier that does not fit its buffer is not found. */
  method GetDeviceInfoById(deviceId: string, db: RecordDb<DeviceInfo>) returns (rec: int)
    requires DeviceDb(db)
    ensures rec == if |deviceId| >= NSTACKX_MAX_DEVICE_ID_LEN then -1 else Find(View(db), deviceId)
  {
    if |deviceId| >= NSTACKX_MAX_DEVICE_ID_LEN {
      return -1;
    }
    rec := db.DatabaseSearchRecord(IsSameDevice(deviceId));
  }

  /** CreateNewDevice: the lowest unused record, or -1 when all are in use. */
  method CreateNewDevice(db: RecordDb<DeviceInfo>, info: DeviceInfo) returns (rec: int)
    requires DeviceDb(db)
    modifies db, db.usedMap, db.blk
    ensures DeviceDb(db)
    ensures
      var t := old(View(db));
      var f := LowestFree(t.used, 0, NSTACKX_MAX_DEVICE_NUM);
      if f == NSTACKX_MAX_DEVICE_NUM then rec == -1 && View(db) == t
      else rec == f && View(db) == Table(t.used + {f}, t.recs[f := info])
  {
    FullTable(View(db));
    rec := db.DatabaseAllocRecord();
    if rec != -1 {
      db.blk[rec] := info;
    }
  }

  /** UpdateDeviceDb on the list it works on. */
  method UpdateIn(db: RecordDb<DeviceInfo>, info: DeviceInfo) returns (ret: int)
    requires DeviceDb(db) && |info.deviceId| < NSTACKX_MAX_DEVICE_ID_LEN
    modifies db, db.usedMap, db.blk
    ensures DeviceDb(db) && (View(db), ret) == Update(old(View(db)), info)
  {
    var rec := GetDeviceInfoById(info.deviceId, db);
    if rec == -1 {
      rec := CreateNewDevice(db, info);
      if rec == -1 {
        return NSTACKX_ENOMEM;
      }
      return NSTACKX_EOK;
    }
    var m := MergeInfo(db.blk[rec], info);
    db.blk[rec] := m.info;
    return if m.ok then NSTACKX_EOK else NSTACKX_EFAILED;
  }

  /** Records 0 to i - 1 of the backup are in use and are main's up to place k. */
  ghost predicate CopyOk(backup: RecordDb<DeviceInfo>, main: Table, was: seq<DeviceInfo>, i: nat, k: nat)
    reads backup, backup.usedMap, backup.blk
  {
    DeviceDb(backup) && backup.Numbers() == Below(i) && Copied(main, was, backup.blk[..], i, k)
  }

  /** One round of the copying loop, from place idx + 1 of the main records on. */
  method CopyNext(db: RecordDb<DeviceInfo>, backup: RecordDb<DeviceInfo>, i: nat, idx: int,
                  ghost main: Table, ghost was: seq<DeviceInfo>)
    returns (ret: int, idx': int, failed: bool)
    requires DeviceDb(db) && db.Repr() !! backup.Repr() && main == View(db)
    requires i < NSTACKX_MAX_DEVICE_NUM && -1 <= idx < NSTACKX_MAX_DEVICE_NUM && CopyOk(backup, main, was, i, idx + 1)
    modifies backup, backup.usedMap, backup.blk
    ensures !failed && (ret == -1 ==> CopyOk(backup, main, was, i, idx + 1))
    ensures ret == -1 ==> FirstFrom(main.used, idx + 1, NSTACKX_MAX_DEVICE_NUM) == -1
    ensures ret != -1 ==> idx < idx' < NSTACKX_MAX_DEVICE_NUM && CopyOk(backup, main, was, i + 1, idx' + 1)
  {
    ret, idx' := db.DatabaseGetNextRecord(idx);
    if ret == -1 {
      failed := false;
      return;
    }
    var rec := AppendRecord(backup, i, db.blk[ret], main, was, idx + 1, ret);
    failed := rec == -1;
  }

  /** The copying loop of BackupDeviceDB, into an emptied backup; n records are copied, up to place k. */
  method CopyLoop(db: RecordDb<DeviceInfo>, backup: RecordDb<DeviceInfo>,
                  ghost main: Table, ghost was: seq<DeviceInfo>)
    returns (ret: int, ghost n: nat, ghost k: nat)
    requires DeviceDb(db) && db.Repr() !! backup.Repr() && main == View(db) && CopyOk(backup, main, was, 0, 0)
    modifies backup, backup.usedMap, backup.blk
    ensures ret == NSTACKX_EOK && n <= NSTACKX_MAX_DEVICE_NUM && CopyOk(backup, main, was, n, k)
    ensures k >= NSTACKX_MAX_DEVICE_NUM || FirstFrom(main.used, k, NSTACKX_MAX_DEVICE_NUM) == -1
  {
    var idx, i := -1, 0;
    ret, n, k := NSTACKX_EFAILED, 0, 0;
    while i < NSTACKX_MAX_DEVICE_NUM
      invariant 0 <= i <= idx + 1 <= NSTACKX_MAX_DEVICE_NUM
      invariant CopyOk(backup, main, was, i, idx + 1)
    {
      var dev, next, failed := CopyNext(db, backup, i, idx, main, was);
      if dev == -1 {
        break;
      }
      if failed {
        return;
      }
      i, idx := i + 1, next;
    }
    return NSTACKX_EOK, i, idx + 1;
  }

  /** So the backup ends as specified. */
  method CopyDevices(db: RecordDb<DeviceInfo>, backup: RecordDb<DeviceInfo>) returns (ret: int)
    requires DeviceDb(db) && DeviceDb(backup) && db.Repr() !! backup.Repr() && backup.Numbers() == {}
    modifies backup, backup.usedMap, backup.blk
    ensures DeviceDb(backup) && ret == NSTACKX_EOK
    ensures IsBackup(View(db), old(backup.blk[..]), View(backup))
  {
    ghost var n, k;
    assert Copied(View(db), backup.blk[..], backup.blk[..], 0, 0) && Below(0) == {};
    ret, n, k := CopyLoop(db, backup, View(db), backup.blk[..]);
    SelectNext(View(db), k);
    CopiedAll(View(db), old(backup.blk[..]), View(backup), n, k);
  }

  /** One round of the copying loop: records 0 to i - 1 are in use, so record i is taken. */
  method AppendRecord(db: RecordDb<DeviceInfo>, i: nat, info: DeviceInfo,
                      ghost main: Table, ghost was: seq<DeviceInfo>, ghost k: nat, ghost r: nat)
    returns (rec: int)
    requires i < NSTACKX_MAX_DEVICE_NUM && TableOk(main) && CopyOk(db, main, was, i, k)
    requires r == FirstFrom(main.used, k, NSTACKX_MAX_DEVICE_NUM) && info == main.recs[r]
    modifies db, db.usedMap, db.blk
    ensures rec == i && CopyOk(db, main, was, i + 1, r + 1)
  {
    BelowSize(i);
    ghost var recs := db.blk[..];
    rec := db.DatabaseAllocRecord();
    LeastFreeBelow(i, rec);
    db.blk[rec] := info;
    assert db.blk[..] == recs[i := info];
    CopiedNext(main, was, recs, i, k);
  }

  lemma LeastFreeBelow(i: nat, r: nat)
    requires LeastFree(Below(i), r)
    ensures r == i && Below(i) + {r} == Below(i + 1)
  {
    assert i < r ==> i in Below(i);
  }

  /** The first i records of recs are main's up to place k; the others are still the old ones. */
  ghost predicate Copied(main: Table, was: seq<DeviceInfo>, recs: seq<DeviceInfo>, i: nat, k: nat) {
    && i <= |recs| == |was|
    && recs[..i] + Select(main.used, main.recs, k) == Devices(main) && recs[i..] == was[i..]
  }

  lemma CopiedNext(main: Table, was: seq<DeviceInfo>, recs: seq<DeviceInfo>, i: nat, k: nat)
    requires TableOk(main) && Copied(main, was, recs, i, k) && i < |recs|
    ensures
      var r := FirstFrom(main.used, k, NSTACKX_MAX_DEVICE_NUM);
      if r == -1 then Select(main.used, main.recs, k) == []
      else Copied(main, was, recs[i := main.recs[r]], i + 1, r + 1)
  {
    SelectNext(main, k);
    var r := FirstFrom(main.used, k, NSTACKX_MAX_DEVICE_NUM);
    if r != -1 {
      var recs', rest := recs[i := main.recs[r]], Select(main.used, main.recs, r + 1);
      assert recs'[..i + 1] == recs[..i] + [main.recs[r]];
      assert recs[..i] + ([main.recs[r]] + rest) == recs'[..i + 1] + rest;
      assert recs'[i + 1..] == recs[i..][1..] == was[i + 1..];
    }
  }

  class Registry {
    const deviceList: RecordDb<DeviceInfo>
    const deviceListBackup: RecordDb<DeviceInfo>

    ghost function Repr(): set<object> {
      deviceList.Repr() + deviceListBackup.Repr()
    }

    ghost predicate Valid()
      reads Repr()
    {
      && DeviceDb(deviceList) && DeviceDb(deviceListBackup)
      && deviceList.Repr() !! deviceListBackup.Repr()
      && TablesOk(State())
    }

    ghost function State(): Tables
      reads Repr()
    {
      Tables(View(deviceList), View(deviceListBackup))
    }

    /** DeviceModuleInit: two empty databases. */
    constructor ()
      ensures Valid() && fresh(Repr()) && State().main.used == {} == State().backup.used
    {
      deviceList := new RecordDb(NSTACKX_MAX_DEVICE_NUM, ZERO_INFO);
      deviceListBackup := new RecordDb(NSTACKX_MAX_DEVICE_NUM, ZERO_INFO);
    }

    method UpdateDeviceDb(info: DeviceInfo) returns (ret: int)
      requires Valid() && |info.deviceId| < NSTACKX_MAX_DEVICE_ID_LEN
      modifies Repr()
      ensures Valid()
      ensures State() == Step(old(State()), Report(info)) && ret == Update(old(State()).main, info).1
    {
      StepKeeps(State(), Report(info));
      ret := UpdateIn(deviceList, info);
    }

    /** Never fails, and leaves in the backup exactly the main records in the same order. */
    method BackupDeviceDB() returns (ret: int)
      requires Valid()
      modifies Repr()
      ensures Valid() && ret == NSTACKX_EOK
      ensures State() == Step(old(State()), DoBackup)
      ensures State().main == old(State()).main && Devices(State().backup) == Devices(old(State()).main)
    {
      BackupExact(State().main, State().backup);
      var result := ClearDevices(deviceListBackup);
      ret := CopyDevices(deviceList, deviceListBackup);
    }
  }

  lemma FullTable(t: Table)
    requires TableOk(t)
    ensures |t.used| == NSTACKX_MAX_DEVICE_NUM <==> LowestFree(t.used, 0, NSTACKX_MAX_DEVICE_NUM) == NSTACKX_MAX_DEVICE_NUM
  {
    BelowSize(NSTACKX_MAX_DEVICE_NUM);
    var all := Below(NSTACKX_MAX_DEVICE_NUM);
    var f := LowestFree(t.used, 0, NSTACKX_MAX_DEVICE_NUM);
    if f == NSTACKX_MAX_DEVICE_NUM {
      assert t.used == all;
    } else {
      SubsetSize(t.used, all - {f});
    }
  }

  lemma {:induction false} SelectNext(t: Table, k: nat)
    requires TableOk(t)
    ensures
      var r := FirstFrom(t.used, k, NSTACKX_MAX_DEVICE_NUM);
      Select(t.used, t.recs, k) == if r == -1 then [] else [t.recs[r]] + Select(t.used, t.recs, r + 1)
    decreases NSTACKX_MAX_DEVICE_NUM - k
  {
    if k < NSTACKX_MAX_DEVICE_NUM && k !in t.used { SelectNext(t, k + 1); }
  }

  lemma CopiedAll(main: Table, was: seq<DeviceInfo>, b: Table, n: nat, k: nat)
    requires Copied(main, was, b.recs, n, k) && b.used == Below(n)
    requires k >= |main.recs| || Select(main.used, main.recs, k) == []
    ensures IsBackup(main, was, b)
  {
    assert b.recs[..n] == Devices(main);
    assert b.recs == b.recs[..n] + b.recs[n..];
  }
}
