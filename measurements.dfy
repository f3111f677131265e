/**
 * The measurement service (thermal_local/services/measurements.py): queries
 * and changes on the local store, the folder tree under the data root, and the
 * push of a measurement and its readings to the remote store. Each operation
 * opens its own connection; an operation that raises before `commit` leaves
 * its store as it was (the open transaction is rolled back).
 */
module MeasurementService {
  import opened Wrappers
  import opened Text
  import opened Records
  import opened Folders

  /** The exceptions the service raises, one constructor per cause. */
  datatype ServiceError =
    | DeviceNotFound        // RuntimeError("Device not found")
    | MeasurementNotFound   // RuntimeError("Measurement not found")
    | NameTaken             // ValueError("Measurement name already exists for this device")
    | NotOwner              // PermissionError("You can only delete measurements you created")
    | IntegrityError        // a foreign-key violation reported by the database
    | ServerUnavailable     // the connection to the remote database failed
    | ServerSyncFailed      // RuntimeError("Local delete succeeded, but server sync failed: ...")
    | FolderMissing(path: Path)

  /** The position of the first element satisfying `p`: the row `fetchone` returns. */
  function FirstWhere<T>(s: seq<T>, p: T -> bool): (r: Option<nat>)
    ensures r.None? <==> forall i | 0 <= i < |s| :: !p(s[i])
    ensures r.Some? ==> r.value < |s| && p(s[r.value]) && forall j | 0 <= j < r.value :: !p(s[j])
  {
    if s == [] then None
    else if p(s[0]) then Some(0)
    else match FirstWhere(s[1..], p)
      case None => None
      case Some(i) => Some(i + 1)
  }

  // ---------------------------------------------------------------- queries

  /**
   * `get_device_id`: the id of a device with that name. Deleted devices are
   * found too: the query has no `is_delete` condition.
   */
  function GetDeviceId(store: Store, deviceName: string): (r: Result<Id, ServiceError>)
    reads store
    ensures r.Err? <==> forall d | d in store.devices :: d.name != deviceName
    ensures r.Err? ==> r.error == DeviceNotFound
    ensures r.Ok? ==> exists d | d in store.devices :: d.name == deviceName && d.id == r.value
    ensures r.Ok? && Distinct(DeviceNames(store.devices)) ==>
              forall d | d in store.devices && d.name == deviceName :: d.id == r.value
  {
    DeviceNameIsKey(store.devices);
    match FirstWhere(store.devices, (d: Device) => d.name == deviceName)
    case None => Err(DeviceNotFound)
    case Some(i) =>
      Ok(store.devices[i].id)
  }

  /**
   * A row of `measurements m JOIN devices d ON m.device_id = d.id` with the
   * given names and `m.is_delete = 0`; the device itself may be deleted.
   */
  predicate NamedLive(ds: seq<Device>, deviceName: string, measurementName: string, m: Measurement)
  {
    && !m.isDelete && m.name == Some(measurementName)
    && exists d | d in ds :: d.id == m.deviceId && d.name == deviceName
  }

  /** The position of the first measurement the name join finds. */
  function NamedIndex(db: Db, deviceName: string, measurementName: string): Option<nat>
  {
    FirstWhere(db.measurements, (m: Measurement) => NamedLive(db.devices, deviceName, measurementName, m))
  }

  /** `get_measurement_id`: the id of a live measurement with that name under a device with that name. */
  function GetMeasurementId(store: Store, deviceName: string, measurementName: string): (r: Result<Id, ServiceError>)
    reads store
    ensures r.Err? <==> forall m | m in store.measurements :: !NamedLive(store.devices, deviceName, measurementName, m)
    ensures r.Err? ==> r.error == MeasurementNotFound
    ensures r.Ok? ==> exists m | m in store.measurements ::
                        NamedLive(store.devices, deviceName, measurementName, m) && m.id == r.value
  {
    match NamedIndex(store.Snapshot(), deviceName, measurementName)
    case None => Err(MeasurementNotFound)
    case Some(i) => Ok(store.measurements[i].id)
  }

  /** The position of the first live measurement with that id. */
  function LiveById(ms: seq<Measurement>, mid: Id): Option<nat>
  {
    FirstWhere(ms, (m: Measurement) => m.id == mid && !m.isDelete)
  }

  /**
   * `is_measurement_owner`: false, not an error, when no live measurement has
   * that id; otherwise whether its creator is `username`.
   */
  function IsMeasurementOwner(store: Store, mid: Id, username: string): (r: bool)
    reads store
    ensures r ==> exists m | m in store.measurements :: m.id == mid && !m.isDelete && m.createdBy == username
    ensures (forall m | m in store.measurements :: m.id != mid || m.isDelete) ==> !r
    ensures Distinct(MeasurementIds(store.measurements)) ==>
              (r <==> exists m | m in store.measurements :: m.id == mid && !m.isDelete && m.createdBy == username)
  {
    MeasurementIdIsKey(store.measurements);
    match LiveById(store.measurements, mid)
    case None => false
    case Some(i) => store.measurements[i].createdBy == username
  }

  /** `has_cole_cole`, `has_standard_plot`, `has_nanothickness`. */
  function HasReadings(store: Store, k: Kind, mid: Id): (r: bool)
    reads store
    ensures r <==> exists x | x in store.Readings(k) :: x.measurementId == mid && !x.isDelete
  {
    FirstWhere(store.Readings(k), (x: Reading) => x.measurementId == mid && !x.isDelete).Some?
  }

  /** The values of the live rows of one measurement, in table order. */
  function LiveValues(rs: seq<Reading>, mid: Id): (r: seq<seq<Value>>)
    ensures |r| <= |rs|
  {
    if rs == [] then []
    else (if rs[0].measurementId == mid && !rs[0].isDelete then [rs[0].values] else [])
         + LiveValues(rs[1..], mid)
  }

  /** `read_cole_cole_from_db`, `read_standard_plot_from_db`, `read_nanothickness_from_db`. */
  function ReadFromDb(store: Store, k: Kind, mid: Id): (r: seq<seq<Value>>)
    reads store
    ensures r != [] <==> HasReadings(store, k, mid)
  {
    LiveValuesEmpty(store.Readings(k), mid);
    LiveValues(store.Readings(k), mid)
  }

  /** A measurement has no live values exactly when none of the rows is a live row of it. */
  lemma {:induction false} LiveValuesEmpty(rs: seq<Reading>, mid: Id)
    ensures LiveValues(rs, mid) == [] <==> forall x | x in rs :: x.measurementId != mid || x.isDelete
  {
    if rs != [] {
      LiveValuesEmpty(rs[1..], mid);
      assert forall x :: x in rs <==> x == rs[0] || x in rs[1..];
    }
  }

  /** The live values of one row of `mid`: its values, or nothing. */
  function LiveHead(x: Reading, mid: Id): seq<seq<Value>>
  {
    if x.measurementId == mid && !x.isDelete then [x.values] else []
  }

  lemma LiveValuesCons(rs: seq<Reading>, mid: Id)
    requires rs != []
    ensures LiveValues(rs, mid) == LiveHead(rs[0], mid) + LiveValues(rs[1..], mid)
  {
  }

  lemma {:induction false} LiveValuesAppend(a: seq<Reading>, b: seq<Reading>, mid: Id)
    ensures LiveValues(a + b, mid) == LiveValues(a, mid) + LiveValues(b, mid)
  {
    if a == [] {
      assert a + b == b;
    } else {
      assert (a + b)[1..] == a[1..] + b;
      LiveValuesCons(a + b, mid);
      LiveValuesCons(a, mid);
      LiveValuesAppend(a[1..], b, mid);
    }
  }

  // ---------------------------------------------------------------- readings

  /** The rows the INSERT loop of `insert_*` (and of the push) writes: one per record, each with its own new id. */
  function Copied(rows: seq<seq<Value>>, mid: Id, ids: seq<Id>): (r: seq<Reading>)
    requires |ids| == |rows|
  {
    seq(|rows|, i requires 0 <= i < |rows| => Reading(ids[i], mid, rows[i], false))
  }

  /** The copies of `rows` are live, belong to `mid`, and carry exactly the values of `rows`, in order. */
  lemma {:induction false} CopiedLiveValues(rows: seq<seq<Value>>, mid: Id, ids: seq<Id>)
    requires |ids| == |rows|
    ensures LiveValues(Copied(rows, mid, ids), mid) == rows
    decreases |rows|
  {
    if rows != [] {
      var c := Copied(rows, mid, ids);
      assert c[1..] == Copied(rows[1..], mid, ids[1..]);
      CopiedLiveValues(rows[1..], mid, ids[1..]);
      assert rows == [rows[0]] + rows[1..];
    }
  }

  /** New ids: pairwise different and not used by any row of the table. */
  predicate FreshFor(ids: seq<Id>, rs: seq<Reading>)
  {
    Distinct(ids) && forall i | 0 <= i < |ids| :: ids[i] !in ReadingIds(rs)
  }

  /** Appending copies with new ids for an existing measurement keeps the table's constraints. */
  lemma AppendKeepsValid(rs: seq<Reading>, ms: seq<Measurement>, rows: seq<seq<Value>>, mid: Id, ids: seq<Id>)
    requires |ids| == |rows| && FreshFor(ids, rs)
    requires ReadingsValid(rs, ms) && mid in MeasurementIds(ms)
    ensures ReadingsValid(rs + Copied(rows, mid, ids), ms)
  {
    var t := rs + Copied(rows, mid, ids);
    assert ReadingIds(t) == ReadingIds(rs) + ids;
    forall x | x in t
      ensures x.measurementId in MeasurementIds(ms)
    {
      if x !in rs {
        var i :| 0 <= i < |t| && t[i] == x;
      }
    }
  }

  /**
   * Rows are never de-duplicated: two calls with the same records leave the
   * measurement with the records twice over, whatever ids they receive.
   */
  lemma RepeatedCopiesDuplicate(rs: seq<Reading>, rows: seq<seq<Value>>, mid: Id, ids1: seq<Id>, ids2: seq<Id>)
    requires |ids1| == |rows| && |ids2| == |rows|
    ensures LiveValues(rs + Copied(rows, mid, ids1) + Copied(rows, mid, ids2), mid)
            == LiveValues(rs, mid) + rows + rows
  {
    LiveValuesAppend(rs + Copied(rows, mid, ids1), Copied(rows, mid, ids2), mid);
    LiveValuesAppend(rs, Copied(rows, mid, ids1), mid);
    CopiedLiveValues(rows, mid, ids1);
    CopiedLiveValues(rows, mid, ids2);
  }

  /** The INSERT loop: one new row per record, appended in order. */
  method AppendReadings(store: Store, k: Kind, mid: Id, rows: seq<seq<Value>>, ids: seq<Id>)
    requires |ids| == |rows|
    modifies store`coleCole, store`standardPlot, store`nanothickness
    ensures store.Snapshot() == WithRows(old(store.Snapshot()), k, old(store.Readings(k)) + Copied(rows, mid, ids))
    ensures store.Readings(k) == old(store.Readings(k)) + Copied(rows, mid, ids)
    ensures forall k' | k' != k :: store.Readings(k') == old(store.Readings(k'))
  {
    var i := 0;
    while i < |rows|
      invariant 0 <= i <= |rows|
      invariant store.Readings(k) == old(store.Readings(k)) + Copied(rows[..i], mid, ids[..i])
      invariant forall k' | k' != k :: store.Readings(k') == old(store.Readings(k'))
      invariant store.Snapshot() == WithRows(old(store.Snapshot()), k, store.Readings(k))
    {
      assert Copied(rows[..i + 1], mid, ids[..i + 1])
             == Copied(rows[..i], mid, ids[..i]) + [Reading(ids[i], mid, rows[i], false)];
      store.SetReadings(k, store.Readings(k) + [Reading(ids[i], mid, rows[i], false)]);
      i := i + 1;
    }
    assert rows[..i] == rows && ids[..i] == ids;
  }

  /**
   * `insert_cole_cole`, `insert_standard_plot`, `insert_nanothickness`: the
   * first INSERT fails on the foreign key when no measurement has that id
   * (deleted ones count), and nothing is committed; otherwise every record is
   * appended.
   */
  method InsertReadings(store: Store, k: Kind, mid: Id, records: seq<seq<Value>>, ids: seq<Id>)
    returns (r: Outcome<ServiceError>)
    requires |ids| == |records| && FreshFor(ids, store.Readings(k))
    modifies store`coleCole, store`standardPlot, store`nanothickness
    ensures r.Fail? <==> records != [] && mid !in MeasurementIds(store.measurements)
    ensures r.Fail? ==> r.error == IntegrityError && store.Snapshot() == old(store.Snapshot())
    ensures r.Pass? ==> store.Readings(k) == old(store.Readings(k)) + Copied(records, mid, ids)
    ensures forall k' | k' != k :: store.Readings(k') == old(store.Readings(k'))
    ensures old(Valid(store.Snapshot())) ==> Valid(store.Snapshot())
  {
    if records != [] && mid !in MeasurementIds(store.measurements) {
      return Fail(IntegrityError);
    }
    ghost var before := store.Readings(k);
    AppendReadings(store, k, mid, records, ids);
    if records != [] {
      if Valid(old(store.Snapshot())) {
        AppendKeepsValid(before, store.measurements, records, mid, ids);
        ValidWithRows(old(store.Snapshot()), k, store.Readings(k));
      }
    } else {
      assert store.Readings(k) == before;
    }
    r := Pass;
  }

  // ---------------------------------------------------------------- creating

  /** A live measurement of that device already carries that name. */
  predicate NameTakenIn(ms: seq<Measurement>, deviceId: Id, name: string)
  {
    exists m | m in ms :: m.deviceId == deviceId && m.name == Some(name) && !m.isDelete
  }

  /** No two live measurements of one device share a name: the rule `create_measurement` enforces. */
  predicate LiveNamesUnique(ms: seq<Measurement>)
  {
    forall i, j | 0 <= i < j < |ms| && !ms[i].isDelete && !ms[j].isDelete
                  && ms[i].deviceId == ms[j].deviceId && ms[i].name.Some? ::
      ms[i].name != ms[j].name
  }

  /** `data_root / "devices" / device_name / measurement_name`. */
  function MeasurementFolder(dataRoot: Path, deviceName: string, measurementName: string): Path
  {
    Join(Join(Join(dataRoot, "devices"), deviceName), measurementName)
  }

  /** The row `create_measurement` inserts: no order number yet, not deleted. */
  function NewMeasurement(id: Id, deviceId: Id, name: string, createdBy: string, now: Stamp): Measurement
  {
    Measurement(id, deviceId, None, Some(name), createdBy, Some(now), false)
  }

  /**
   * `create_measurement`: the name is stripped first; a live namesake under the
   * same device is refused, a foreign key to no device fails the INSERT, and
   * otherwise exactly one row and one folder (with its parents) are added.
   */
  method CreateMeasurement(store: Store, fs: FileSystem, dataRoot: Path, deviceName: string, deviceId: Id,
                           measurementName: string, createdBy: string, freshId: Id, now: Stamp)
    returns (r: Outcome<ServiceError>)
    requires freshId !in MeasurementIds(store.measurements)
    modifies store`measurements, fs
    ensures r == Fail(NameTaken) <==> NameTakenIn(old(store.measurements), deviceId, Strip(measurementName))
    ensures r == Fail(IntegrityError) <==>
              !NameTakenIn(old(store.measurements), deviceId, Strip(measurementName)) && deviceId !in DeviceIds(store.devices)
    ensures r.Fail? ==> r == Fail(NameTaken) || r == Fail(IntegrityError)
    ensures r.Fail? ==> store.measurements == old(store.measurements) && fs.dirs == old(fs.dirs)
    ensures r.Pass? ==> store.measurements == old(store.measurements)
                          + [NewMeasurement(freshId, deviceId, Strip(measurementName), createdBy, now)]
    ensures r.Pass? ==> fs.dirs == old(fs.dirs) + Ancestry(MeasurementFolder(dataRoot, deviceName, Strip(measurementName)))
    ensures old(Valid(store.Snapshot())) ==> Valid(store.Snapshot())
    ensures old(LiveNamesUnique(store.measurements)) ==> LiveNamesUnique(store.measurements)
    ensures old(fs.Valid()) ==> fs.Valid()
  {
    var name := Strip(measurementName);
    var taken := FirstWhere(store.measurements,
                            (m: Measurement) => m.deviceId == deviceId && m.name == Some(name) && !m.isDelete);
    if taken.Some? {
      assert store.measurements[taken.value] in store.measurements;
      return Fail(NameTaken);
    }
    assert !NameTakenIn(store.measurements, deviceId, name);
    if deviceId !in DeviceIds(store.devices) {
      return Fail(IntegrityError);
    }
    ghost var before := store.Snapshot();
    var row := NewMeasurement(freshId, deviceId, name, createdBy, now);
    MeasurementAppendKeepsValid(before, row);
    FreeNameKeepsUnique(store.measurements, row);
    store.measurements := store.measurements + [row];
    fs.MakeDirs(MeasurementFolder(dataRoot, deviceName, name));
    r := Pass;
  }

  /** Appending a live measurement whose name is free under its device keeps live names unique. */
  lemma FreeNameKeepsUnique(ms: seq<Measurement>, m: Measurement)
    requires m.name.Some? && !NameTakenIn(ms, m.deviceId, m.name.value)
    ensures LiveNamesUnique(ms) ==> LiveNamesUnique(ms + [m])
  {
    var ms' := ms + [m];
    if LiveNamesUnique(ms) {
      forall i, j | 0 <= i < j < |ms'| && !ms'[i].isDelete && !ms'[j].isDelete
                    && ms'[i].deviceId == ms'[j].deviceId && ms'[i].name.Some?
        ensures ms'[i].name != ms'[j].name
      {
        if j == |ms| {
          assert ms'[i] in ms;
        }
      }
    }
  }

  /** Appending a measurement with a new id, an existing device and a free order number keeps every constraint. */
  lemma MeasurementAppendKeepsValid(db: Db, m: Measurement)
    requires m.id !in MeasurementIds(db.measurements) && m.deviceId in DeviceIds(db.devices)
    requires forall x | x in db.measurements && x.deviceId == m.deviceId && m.numOrder.Some? :: x.numOrder != m.numOrder
    ensures Valid(db) ==> Valid(db.(measurements := db.measurements + [m]))
  {
    var ms := db.measurements + [m];
    assert MeasurementIds(ms) == MeasurementIds(db.measurements) + [m.id];
    if Valid(db) {
      assert OrdersUnique(ms) by {
        forall i, j | 0 <= i < j < |ms| && ms[i].deviceId == ms[j].deviceId && ms[i].numOrder.Some?
          ensures ms[i].numOrder != ms[j].numOrder
        {
          if j == |ms| - 1 {
            assert ms[i] in db.measurements;
          }
        }
      }
    }
  }

  // ---------------------------------------------------------------- deleting

  /** `UPDATE measurements SET is_delete = 1 WHERE id = ?`. */
  function MarkMeasurements(ms: seq<Measurement>, mid: Id): seq<Measurement>
  {
    seq(|ms|, i requires 0 <= i < |ms| => if ms[i].id == mid then ms[i].(isDelete := true) else ms[i])
  }

  /** `UPDATE <reading table> SET is_delete = 1 WHERE measurement_id = ?`. */
  function MarkReadings(rs: seq<Reading>, mid: Id): seq<Reading>
  {
    seq(|rs|, i requires 0 <= i < |rs| => if rs[i].measurementId == mid then rs[i].(isDelete := true) else rs[i])
  }

  /** The four UPDATE statements of the soft delete, on one store. */
  function Marked(db: Db, mid: Id): Db
  {
    db.(measurements := MarkMeasurements(db.measurements, mid),
        coleCole := MarkReadings(db.coleCole, mid),
        standardPlot := MarkReadings(db.standardPlot, mid),
        nanothickness := MarkReadings(db.nanothickness, mid))
  }

  /**
   * After the soft delete the measurement and every reading of it are gone
   * from every query that filters on `is_delete`, while every row of any other
   * measurement is as it was and no row is added or removed.
   */
  lemma MarkedHidesOnlyTarget(db: Db, mid: Id, k: Kind)
    ensures forall m | m in Marked(db, mid).measurements :: m.id == mid ==> m.isDelete
    ensures LiveValues(RowsOf(Marked(db, mid), k), mid) == []
    ensures |Marked(db, mid).measurements| == |db.measurements|
    ensures |RowsOf(Marked(db, mid), k)| == |RowsOf(db, k)|
    ensures forall i | 0 <= i < |db.measurements| && db.measurements[i].id != mid ::
              Marked(db, mid).measurements[i] == db.measurements[i]
    ensures forall i | 0 <= i < |RowsOf(db, k)| && RowsOf(db, k)[i].measurementId != mid ::
              RowsOf(Marked(db, mid), k)[i] == RowsOf(db, k)[i]
    ensures forall mid' | mid' != mid :: LiveValues(RowsOf(Marked(db, mid), k), mid') == LiveValues(RowsOf(db, k), mid')
  {
    forall mid' | mid' != mid
      ensures LiveValues(MarkReadings(RowsOf(db, k), mid), mid') == LiveValues(RowsOf(db, k), mid')
    {
      MarkKeepsOtherValues(RowsOf(db, k), mid, mid');
    }
    assert RowsOf(Marked(db, mid), k) == MarkReadings(RowsOf(db, k), mid);
    LiveValuesEmpty(RowsOf(Marked(db, mid), k), mid);
  }

  lemma {:induction false} MarkKeepsOtherValues(rs: seq<Reading>, mid: Id, other: Id)
    requires other != mid
    ensures LiveValues(MarkReadings(rs, mid), other) == LiveValues(rs, other)
    decreases |rs|
  {
    if rs != [] {
      assert MarkReadings(rs, mid)[1..] == MarkReadings(rs[1..], mid);
      MarkKeepsOtherValues(rs[1..], mid, other);
    }
  }

  /** Flipping `is_delete` touches no id, key or reference, so every constraint still holds. */
  lemma MarkedKeepsValid(db: Db, mid: Id)
    ensures Valid(db) ==> Valid(Marked(db, mid))
  {
    var m := Marked(db, mid);
    assert MeasurementIds(m.measurements) == MeasurementIds(db.measurements);
    assert ReadingIds(m.coleCole) == ReadingIds(db.coleCole);
    assert ReadingIds(m.standardPlot) == ReadingIds(db.standardPlot);
    assert ReadingIds(m.nanothickness) == ReadingIds(db.nanothickness);
    if Valid(db) {
      forall x | x in m.measurements
        ensures x.deviceId in DeviceIds(db.devices)
      {
        var i :| 0 <= i < |m.measurements| && m.measurements[i] == x;
        assert db.measurements[i] in db.measurements;
      }
      forall k: Kind, x | x in RowsOf(m, k)
        ensures x.measurementId in MeasurementIds(db.measurements)
      {
        var i :| 0 <= i < |RowsOf(m, k)| && RowsOf(m, k)[i] == x;
        assert RowsOf(db, k)[i] in RowsOf(db, k);
      }
      assert ReadingsValid(m.coleCole, m.measurements) by {
        assert RowsOf(m, ColeColeRows) == m.coleCole;
      }
      assert ReadingsValid(m.standardPlot, m.measurements) by {
        assert RowsOf(m, StandardPlotRows) == m.standardPlot;
      }
      assert ReadingsValid(m.nanothickness, m.measurements) by {
        assert RowsOf(m, NanothicknessRows) == m.nanothickness;
      }
    }
  }

  /** The four UPDATE statements, issued on one store (the local one, or the remote one by `_sync_soft_delete_to_server`). */
  method MarkDeleted(store: Store, mid: Id)
    modifies store`measurements, store`coleCole, store`standardPlot, store`nanothickness
    ensures store.Snapshot() == Marked(old(store.Snapshot()), mid)
  {
    store.measurements := MarkMeasurements(store.measurements, mid);
    store.coleCole := MarkReadings(store.coleCole, mid);
    store.standardPlot := MarkReadings(store.standardPlot, mid);
    store.nanothickness := MarkReadings(store.nanothickness, mid);
  }

  /**
   * `soft_delete_measurement`. Both refusals leave both stores as they were.
   * Otherwise the local store is marked and committed first; a failing remote
   * update (`serverOk` false) then leaves the remote store as it was, keeps the
   * local change, and reports the composite error.
   */
  method SoftDeleteMeasurement(local: Store, remote: Store, deviceName: string, measurementName: string,
                               username: string, serverOk: bool)
    returns (r: Outcome<ServiceError>)
    requires local != remote
    modifies local`measurements, local`coleCole, local`standardPlot, local`nanothickness
    modifies remote`measurements, remote`coleCole, remote`standardPlot, remote`nanothickness
    ensures var found := NamedIndex(old(local.Snapshot()), deviceName, measurementName);
      && (found.None? ==> r == Fail(MeasurementNotFound))
      && (found.Some? && old(local.measurements[found.value].createdBy) != username ==> r == Fail(NotOwner))
      && (r == Fail(MeasurementNotFound) || r == Fail(NotOwner) ==>
            local.Snapshot() == old(local.Snapshot()) && remote.Snapshot() == old(remote.Snapshot()))
      && (found.Some? && old(local.measurements[found.value].createdBy) == username ==>
            var mid := old(local.measurements[found.value].id);
            && local.Snapshot() == Marked(old(local.Snapshot()), mid)
            && (serverOk ==> r == Pass && remote.Snapshot() == Marked(old(remote.Snapshot()), mid))
            && (!serverOk ==> r == Fail(ServerSyncFailed) && remote.Snapshot() == old(remote.Snapshot())))
    ensures old(Valid(local.Snapshot())) ==> Valid(local.Snapshot())
    ensures old(Valid(remote.Snapshot())) ==> Valid(remote.Snapshot())
  {
    var found := NamedIndex(local.Snapshot(), deviceName, measurementName);
    if found.None? {
      return Fail(MeasurementNotFound);
    }
    var mid := local.measurements[found.value].id;
    if local.measurements[found.value].createdBy != username {
      return Fail(NotOwner);
    }
    MarkDeleted(local, mid);
    MarkedKeepsValid(old(local.Snapshot()), mid);
    if !serverOk {
      return Fail(ServerSyncFailed);
    }
    MarkDeleted(remote, mid);
    MarkedKeepsValid(old(remote.Snapshot()), mid);
    r := Pass;
  }

  /**
   * The name join finds at most one row when device names are unique (the
   * UNIQUE constraint) and no device has two live measurements of one name (the
   * rule `create_measurement` keeps). The row `SoftDeleteMeasurement` decides
   * on is then the only one the query can return, whatever order it scans in.
   */
  lemma NamedIndexIsOnlyMatch(db: Db, deviceName: string, measurementName: string)
    requires Distinct(DeviceNames(db.devices)) && LiveNamesUnique(db.measurements)
    ensures forall i | 0 <= i < |db.measurements| && NamedLive(db.devices, deviceName, measurementName, db.measurements[i]) ::
              NamedIndex(db, deviceName, measurementName) == Some(i)
  {
    var ms := db.measurements;
    var found := NamedIndex(db, deviceName, measurementName);
    forall i | 0 <= i < |ms| && NamedLive(db.devices, deviceName, measurementName, ms[i])
      ensures found == Some(i)
    {
      assert found.Some?;
      var k := found.value;
      if k != i {
        assert k < i;
        var a :| a in db.devices && a.id == ms[k].deviceId && a.name == deviceName;
        var b :| b in db.devices && b.id == ms[i].deviceId && b.name == deviceName;
        DeviceNameIsKey(db.devices);
        assert false;
      }
    }
  }

  // ---------------------------------------------------------------- pushing

  /** `MAX(num_order)` over the rows of one device, deleted rows included; None when every one is NULL. */
  function MaxOrder(ms: seq<Measurement>, deviceId: Id): (r: Option<int>)
    ensures r.None? <==> forall m | m in ms && m.deviceId == deviceId :: m.numOrder.None?
    ensures r.Some? ==> exists m | m in ms && m.deviceId == deviceId :: m.numOrder == r
    ensures r.Some? ==> forall m | m in ms && m.deviceId == deviceId && m.numOrder.Some? :: m.numOrder.value <= r.value
  {
    if ms == [] then None
    else
      var rest := MaxOrder(ms[1..], deviceId);
      assert forall m | m in ms[1..] :: m in ms;
      assert forall m | m in ms :: m == ms[0] || m in ms[1..];
      if ms[0].deviceId != deviceId || ms[0].numOrder.None? then rest
      else if rest.None? || rest.value < ms[0].numOrder.value then ms[0].numOrder
      else rest
  }

  /** `COALESCE(MAX(num_order), 0) + 1`: above every order number the device has, and 1 when it has none. */
  function NextOrder(ms: seq<Measurement>, deviceId: Id): (n: int)
    ensures forall m | m in ms && m.deviceId == deviceId && m.numOrder.Some? :: m.numOrder.value < n
    ensures (forall m | m in ms && m.deviceId == deviceId :: m.numOrder.None?) ==> n == 1
    ensures (exists m | m in ms && m.deviceId == deviceId :: m.numOrder.Some?) ==>
              exists m | m in ms && m.deviceId == deviceId :: m.numOrder == Some(n - 1)
  {
    match MaxOrder(ms, deviceId)
    case None => 0 + 1
    case Some(x) => x + 1
  }

  /** The next order number takes no slot already in use for that device, so it cannot break UNIQUE (device_id, num_order). */
  lemma NextOrderIsFree(ms: seq<Measurement>, deviceId: Id)
    ensures forall m | m in ms && m.deviceId == deviceId :: m.numOrder != Some(NextOrder(ms, deviceId))
  {
  }

  /** Deleted rows still count: a device whose only row is a deleted one with order 5 gets order 6. */
  lemma DeletedRowsCount(m: Measurement)
    requires m.isDelete && m.numOrder == Some(5)
    ensures NextOrder([m], m.deviceId) == 6
  {
    assert MaxOrder([m][1..], m.deviceId) == None;
  }

  /** The row `sync_measurement_to_server` inserts remotely; `is_delete` is left to its default. */
  function Pushed(m: Measurement, order: int): Measurement
  {
    Measurement(m.id, m.deviceId, Some(order), m.name, m.createdBy, m.createdAt, false)
  }

  /**
   * What `sync_measurement_to_server` makes of the remote measurements table:
   * the local row must exist and be live, the server must be reachable, an
   * id already present remotely makes the INSERT do nothing, a device missing
   * remotely fails the foreign key; otherwise the row is appended with the
   * next order number.
   */
  function PushMeasurement(local: Db, remote: Db, mid: Id, reachable: bool): (r: Result<seq<Measurement>, ServiceError>)
    ensures r == Err(MeasurementNotFound) <==> forall m | m in local.measurements :: m.id != mid || m.isDelete
    ensures r == Err(ServerUnavailable) <==> LiveById(local.measurements, mid).Some? && !reachable
    ensures r.Err? ==> r.error in {MeasurementNotFound, ServerUnavailable, IntegrityError}
    ensures r.Ok? ==> mid in MeasurementIds(r.value) && remote.measurements <= r.value
                      && |r.value| <= |remote.measurements| + 1
    ensures r.Ok? && mid in MeasurementIds(remote.measurements) ==> r.value == remote.measurements
  {
    match LiveById(local.measurements, mid)
    case None => Err(MeasurementNotFound)
    case Some(i) =>
      var m := local.measurements[i];
      if !reachable then Err(ServerUnavailable)
      else if mid in MeasurementIds(remote.measurements) then Ok(remote.measurements)
      else if m.deviceId !in DeviceIds(remote.devices) then Err(IntegrityError)
      else
        assert MeasurementIds(remote.measurements + [Pushed(m, NextOrder(remote.measurements, m.deviceId))])
               == MeasurementIds(remote.measurements) + [mid];
        Ok(remote.measurements + [Pushed(m, NextOrder(remote.measurements, m.deviceId))])
  }

  /**
   * A push of an id new to the server appends the live local row with the next
   * order number when its device exists remotely, and fails the foreign key
   * when it does not.
   */
  lemma PushAppendsOrRefuses(local: Db, remote: Db, mid: Id, reachable: bool)
    ensures var r := PushMeasurement(local, remote, mid, reachable);
            r.Ok? && mid !in MeasurementIds(remote.measurements) ==>
              exists m | m in local.measurements && m.id == mid && !m.isDelete ::
                && m.deviceId in DeviceIds(remote.devices)
                && r.value == remote.measurements + [Pushed(m, NextOrder(remote.measurements, m.deviceId))]
    ensures var r := PushMeasurement(local, remote, mid, reachable);
            r == Err(IntegrityError) ==>
              && reachable && mid !in MeasurementIds(remote.measurements)
              && exists m | m in local.measurements && m.id == mid && !m.isDelete :: m.deviceId !in DeviceIds(remote.devices)
  {
    var found := LiveById(local.measurements, mid);
    if found.Some? {
      var m := local.measurements[found.value];
      assert m in local.measurements && m.id == mid && !m.isDelete;
    }
  }

  /** A push that succeeds keeps every constraint of the remote store. */
  lemma PushKeepsValid(local: Db, remote: Db, mid: Id, reachable: bool)
    requires Valid(remote) && PushMeasurement(local, remote, mid, reachable).Ok?
    ensures Valid(remote.(measurements := PushMeasurement(local, remote, mid, reachable).value))
  {
    var i := LiveById(local.measurements, mid).value;
    var m := local.measurements[i];
    if mid !in MeasurementIds(remote.measurements) {
      var order := NextOrder(remote.measurements, m.deviceId);
      MeasurementAppendKeepsValid(remote, Pushed(m, order));
    } else {
      assert remote.(measurements := remote.measurements) == remote;
    }
  }

  /** `sync_measurement_to_server`. */
  method SyncMeasurementToServer(local: Store, remote: Store, mid: Id, reachable: bool)
    returns (r: Outcome<ServiceError>)
    requires local != remote
    modifies remote`measurements
    ensures match PushMeasurement(old(local.Snapshot()), old(remote.Snapshot()), mid, reachable)
            case Ok(ms) => r == Pass && remote.measurements == ms
            case Err(e) => r == Fail(e) && remote.measurements == old(remote.measurements)
    ensures old(Valid(remote.Snapshot())) ==> Valid(remote.Snapshot())
  {
    var found := LiveById(local.measurements, mid);
    if found.None? {
      return Fail(MeasurementNotFound);
    }
    var m := local.measurements[found.value];
    if !reachable {
      return Fail(ServerUnavailable);
    }
    var order := NextOrder(remote.measurements, m.deviceId);
    if mid in MeasurementIds(remote.measurements) {
      return Pass;
    }
    if m.deviceId !in DeviceIds(remote.devices) {
      return Fail(IntegrityError);
    }
    ghost var before := remote.Snapshot();
    remote.measurements := remote.measurements + [Pushed(m, order)];
    if Valid(before) {
      PushKeepsValid(old(local.Snapshot()), before, mid, reachable);
    }
    r := Pass;
  }

  /** How many reading rows the push copies: the live rows of the measurement in the three local tables. */
  function CopyCount(local: Db, mid: Id): nat
  {
    |LiveValues(local.coleCole, mid)| + |LiveValues(local.standardPlot, mid)| + |LiveValues(local.nanothickness, mid)|
  }

  /** The new ids the push gives the copies of one reading table: consecutive slices of `ids`, in table order. */
  function IdsFor(local: Db, mid: Id, ids: seq<Id>, k: Kind): (r: seq<Id>)
    requires |ids| == CopyCount(local, mid)
    ensures |r| == |LiveValues(RowsOf(local, k), mid)|
    ensures forall i | 0 <= i < |r| :: r[i] in ids
    ensures Distinct(ids) ==> Distinct(r)
  {
    var a := |LiveValues(local.coleCole, mid)|;
    var b := |LiveValues(local.standardPlot, mid)|;
    DistinctSlice(ids, 0, a);
    DistinctSlice(ids, a, a + b);
    DistinctSlice(ids, a + b, |ids|);
    assert ids[..a] == ids[0..a] && ids[a + b..] == ids[a + b..|ids|];
    match k
    case ColeColeRows => ids[..a]
    case StandardPlotRows => ids[a..a + b]
    case NanothicknessRows => ids[a + b..]
  }

  /**
   * The second connection of `sync_sqlite_to_server` and its three copy
   * loops: when the server is reachable, every live local reading of the
   * measurement is inserted remotely with a new id.
   */
  method CopyReadingsToServer(local: Store, remote: Store, mid: Id, reachable: bool, ids: seq<Id>)
    returns (r: Outcome<ServiceError>)
    requires local != remote
    requires |ids| == CopyCount(local.Snapshot(), mid) && Distinct(ids)
    requires forall k: Kind, x | x in ids :: x !in ReadingIds(remote.Readings(k))
    modifies remote`coleCole, remote`standardPlot, remote`nanothickness
    ensures !reachable ==> r == Fail(ServerUnavailable) && remote.Snapshot() == old(remote.Snapshot())
    ensures reachable ==> r == Pass
    ensures reachable ==> forall k :: (remote.Readings(k) == old(remote.Readings(k))
              + Copied(LiveValues(local.Readings(k), mid), mid, IdsFor(local.Snapshot(), mid, ids, k)))
    ensures r.Pass? ==> forall k :: LiveValues(remote.Readings(k), mid)
                                    == old(LiveValues(remote.Readings(k), mid)) + LiveValues(local.Readings(k), mid)
    ensures old(Valid(remote.Snapshot())) && mid in MeasurementIds(remote.measurements) ==> Valid(remote.Snapshot())
  {
    if !reachable {
      return Fail(ServerUnavailable);
    }
    ghost var s0 := remote.Snapshot();
    var db := local.Snapshot();
    var cc := IdsFor(db, mid, ids, ColeColeRows);
    var sp := IdsFor(db, mid, ids, StandardPlotRows);
    var nt := IdsFor(db, mid, ids, NanothicknessRows);
    SliceFresh(ids, cc, remote.Readings(ColeColeRows));
    SliceFresh(ids, sp, remote.Readings(StandardPlotRows));
    SliceFresh(ids, nt, remote.Readings(NanothicknessRows));
    AppendReadings(remote, ColeColeRows, mid, LiveValues(local.coleCole, mid), cc);
    ghost var s1 := remote.Snapshot();
    AppendReadings(remote, StandardPlotRows, mid, LiveValues(local.standardPlot, mid), sp);
    ghost var s2 := remote.Snapshot();
    AppendReadings(remote, NanothicknessRows, mid, LiveValues(local.nanothickness, mid), nt);
    assert remote.coleCole == s0.coleCole + Copied(LiveValues(db.coleCole, mid), mid, cc);
    assert remote.standardPlot == s0.standardPlot + Copied(LiveValues(db.standardPlot, mid), mid, sp);
    assert remote.nanothickness == s0.nanothickness + Copied(LiveValues(db.nanothickness, mid), mid, nt);
    if Valid(s0) && mid in MeasurementIds(s0.measurements) {
      CopyKeepsValid(s0, ColeColeRows, LiveValues(db.coleCole, mid), mid, cc);
      CopyKeepsValid(s1, StandardPlotRows, LiveValues(db.standardPlot, mid), mid, sp);
      CopyKeepsValid(s2, NanothicknessRows, LiveValues(db.nanothickness, mid), mid, nt);
    }
    CopiesAppendAll(s0, remote.Snapshot(), db, mid, ids);
    r := Pass;
  }

  /** After copies are appended, the live values of the measurement are the old ones followed by the copied ones. */
  lemma CopiesAppendValues(before: seq<Reading>, rows: seq<seq<Value>>, mid: Id, ids: seq<Id>)
    requires |ids| == |rows|
    ensures LiveValues(before + Copied(rows, mid, ids), mid) == LiveValues(before, mid) + rows
  {
    LiveValuesAppend(before, Copied(rows, mid, ids), mid);
    CopiedLiveValues(rows, mid, ids);
  }

  /**
   * `sync_sqlite_to_server`: the measurement is pushed first (its failure is
   * the operation's failure); then, over a second connection, every live
   * local reading of the measurement is copied with a new id, and all copies
   * are committed together. Copies are never matched against rows already on
   * the server.
   */
  method SyncSqliteToServer(local: Store, remote: Store, mid: Id, reachable: bool, reachableAgain: bool, ids: seq<Id>)
    returns (r: Outcome<ServiceError>)
    requires local != remote
    requires |ids| == CopyCount(local.Snapshot(), mid) && Distinct(ids)
    requires forall k: Kind, x | x in ids :: x !in ReadingIds(remote.Readings(k))
    modifies remote`measurements, remote`coleCole, remote`standardPlot, remote`nanothickness
    ensures match PushMeasurement(old(local.Snapshot()), old(remote.Snapshot()), mid, reachable)
            case Err(e) => r == Fail(e) && remote.Snapshot() == old(remote.Snapshot())
            case Ok(ms) =>
              && remote.measurements == ms
              && (!reachableAgain ==> r == Fail(ServerUnavailable)
                                      && forall k :: remote.Readings(k) == old(remote.Readings(k)))
              && (reachableAgain ==> r == Pass)
              && (reachableAgain ==> forall k :: (remote.Readings(k) == old(remote.Readings(k))
                    + Copied(LiveValues(local.Readings(k), mid), mid, IdsFor(local.Snapshot(), mid, ids, k))))
    ensures r.Pass? ==> forall k :: LiveValues(remote.Readings(k), mid)
                                    == old(LiveValues(remote.Readings(k), mid)) + LiveValues(local.Readings(k), mid)
    ensures old(Valid(remote.Snapshot())) ==> Valid(remote.Snapshot())
  {
    ghost var push := PushMeasurement(local.Snapshot(), remote.Snapshot(), mid, reachable);
    r := SyncMeasurementToServer(local, remote, mid, reachable);
    ghost var before := remote.Snapshot();
    assert before == old(remote.Snapshot()).(measurements := remote.measurements);
    if r.Fail? {
      assert push.Err? && remote.Snapshot() == old(remote.Snapshot());
      return;
    }
    assert push.Ok? && remote.measurements == push.value;
    assert forall k :: remote.Readings(k) == old(remote.Readings(k)) by {
      assert forall k :: RowsOf(before, k) == RowsOf(old(remote.Snapshot()), k);
    }
    r := CopyReadingsToServer(local, remote, mid, reachableAgain, ids);
  }

  /** After the three copy loops, the measurement's live values on the server gain exactly the local ones. */
  lemma CopiesAppendAll(before: Db, after: Db, local: Db, mid: Id, ids: seq<Id>)
    requires |ids| == CopyCount(local, mid)
    requires forall k :: RowsOf(after, k) == RowsOf(before, k)
                           + Copied(LiveValues(RowsOf(local, k), mid), mid, IdsFor(local, mid, ids, k))
    ensures forall k :: LiveValues(RowsOf(after, k), mid) == LiveValues(RowsOf(before, k), mid) + LiveValues(RowsOf(local, k), mid)
  {
    forall k: Kind
      ensures LiveValues(RowsOf(after, k), mid) == LiveValues(RowsOf(before, k), mid) + LiveValues(RowsOf(local, k), mid)
    {
      CopiesAppendValues(RowsOf(before, k), LiveValues(RowsOf(local, k), mid), mid, IdsFor(local, mid, ids, k));
    }
  }

  /** One copy loop of the push keeps the remote store's constraints. */
  lemma CopyKeepsValid(db: Db, k: Kind, rows: seq<seq<Value>>, mid: Id, newIds: seq<Id>)
    requires Valid(db) && mid in MeasurementIds(db.measurements)
    requires |newIds| == |rows| && FreshFor(newIds, RowsOf(db, k))
    ensures Valid(WithRows(db, k, RowsOf(db, k) + Copied(rows, mid, newIds)))
  {
    AppendKeepsValid(RowsOf(db, k), db.measurements, rows, mid, newIds);
    ValidWithRows(db, k, RowsOf(db, k) + Copied(rows, mid, newIds));
  }

  /** Distinct ids drawn from a pool that avoids every id of `rs` are fresh for `rs`. */
  lemma SliceFresh(pool: seq<Id>, ids: seq<Id>, rs: seq<Reading>)
    requires Distinct(ids) && (forall i | 0 <= i < |ids| :: ids[i] in pool)
    requires forall x | x in pool :: x !in ReadingIds(rs)
    ensures FreshFor(ids, rs)
  {
  }

  lemma DistinctSlice<T>(s: seq<T>, lo: nat, hi: nat)
    requires lo <= hi <= |s|
    ensures Distinct(s) ==> Distinct(s[lo..hi])
  {
    if Distinct(s) {
      forall i, j | 0 <= i < j < hi - lo
        ensures s[lo..hi][i] != s[lo..hi][j]
      {
        assert s[lo..hi][i] == s[lo + i] && s[lo..hi][j] == s[lo + j];
      }
    }
  }
}
