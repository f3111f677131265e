/**
 * The pull of thermal_local/services/sync.py (`sync_server_to_sqlite`): every
 * local table is cleared, children before parents, and then reloaded from the
 * remote store, parents before children, with each remote value normalised
 * for SQLite (`_normalize_value`). Nothing is committed until the end, so a
 * constraint violated by any insert leaves the local store as it was.
 */
module ServerSync {
  import opened Wrappers
  import opened Records
  import opened MeasurementService

  // ---------------------------------------------------------------- values

  /** The driver values SQLite cannot bind as they are: JSON objects and arrays, NUMERIC and TIMESTAMP. */
  predicate Special(v: Value)
  {
    v.Dict? || v.List? || v.Decimal? || v.DateTime?
  }

  /**
   * `_normalize_value`. `dumps` stands for `json.dumps` and `isoformat` for
   * `datetime.isoformat`; a Decimal keeps its number and becomes a float.
   */
  function Normalize(v: Value, dumps: Value -> string, isoformat: Stamp -> string): (r: Value)
    ensures !Special(r)
    ensures !Special(v) ==> r == v
    ensures (v.Dict? || v.List?) ==> r == Text(dumps(v))
    ensures v.Decimal? ==> r == Float(v.d)
    ensures v.DateTime? ==> r == Text(isoformat(v.t))
  {
    match v
    case Dict(_) => Text(dumps(v))
    case List(_) => Text(dumps(v))
    case Decimal(d) => Float(d)
    case DateTime(t) => Text(isoformat(t))
    case _ => v
  }

  /** Normalising twice is normalising once. */
  lemma NormalizeIdempotent(v: Value, dumps: Value -> string, isoformat: Stamp -> string)
    ensures Normalize(Normalize(v, dumps, isoformat), dumps, isoformat) == Normalize(v, dumps, isoformat)
  {
  }

  /** The values of one row, each normalised. */
  function NormalizeAll(vs: seq<Value>, dumps: Value -> string, isoformat: Stamp -> string): (r: seq<Value>)
    ensures |r| == |vs|
    ensures forall i | 0 <= i < |r| :: !Special(r[i])
  {
    seq(|vs|, i requires 0 <= i < |vs| => Normalize(vs[i], dumps, isoformat))
  }

  // ---------------------------------------------------------------- reloaded rows

  /**
   * The column lists of the pull never name `is_delete`, so every reloaded row
   * takes the column default 0: it is live, whatever it is remotely.
   */
  function ReloadUser(u: User, dumps: Value -> string, isoformat: Stamp -> string): User
  {
    User(u.id, u.username, Normalize(u.role, dumps, isoformat), Normalize(u.active, dumps, isoformat),
         Normalize(u.hashedPassword, dumps, isoformat), u.createdAt, false)
  }

  function ReloadDevice(d: Device, dumps: Value -> string, isoformat: Stamp -> string): Device
  {
    Device(d.id, d.name, Normalize(d.structure, dumps, isoformat), Normalize(d.experimentBy, dumps, isoformat),
           Normalize(d.createdBy, dumps, isoformat), d.createdAt, false)
  }

  function ReloadMeasurement(m: Measurement): Measurement
  {
    m.(isDelete := false)
  }

  function ReloadReading(r: Reading, dumps: Value -> string, isoformat: Stamp -> string): Reading
  {
    Reading(r.id, r.measurementId, NormalizeAll(r.values, dumps, isoformat), false)
  }

  /** How many remote devices carry the id: the number of partners `JOIN devices` finds. */
  function CountId(ds: seq<Device>, id: Id): (n: nat)
    ensures n > 0 <==> id in DeviceIds(ds)
    ensures n <= |ds|
  {
    if ds == [] then 0
    else
      assert DeviceIds(ds) == [ds[0].id] + DeviceIds(ds[1..]);
      (if ds[0].id == id then 1 else 0) + CountId(ds[1..], id)
  }

  /** With distinct ids, an id present once is found once. */
  lemma {:induction false} CountIdOfKey(ds: seq<Device>, id: Id)
    requires Distinct(DeviceIds(ds)) && id in DeviceIds(ds)
    ensures CountId(ds, id) == 1
  {
    assert DeviceIds(ds) == [ds[0].id] + DeviceIds(ds[1..]);
    assert Distinct(DeviceIds(ds[1..])) by {
      forall i, j | 0 <= i < j < |ds[1..]|
        ensures DeviceIds(ds[1..])[i] != DeviceIds(ds[1..])[j]
      {
        assert DeviceIds(ds[1..])[i] == DeviceIds(ds)[i + 1] && DeviceIds(ds[1..])[j] == DeviceIds(ds)[j + 1];
      }
    }
    if ds[0].id == id {
      forall k | 0 <= k < |ds[1..]|
        ensures DeviceIds(ds[1..])[k] != id
      {
        assert DeviceIds(ds[1..])[k] == DeviceIds(ds)[k + 1] && DeviceIds(ds)[0] == id;
      }
    } else {
      CountIdOfKey(ds[1..], id);
    }
  }

  /**
   * `SELECT … FROM measurements m JOIN devices d ON m.device_id = d.id`: each
   * remote measurement once per device carrying its device id, in
   * measurement order.
   */
  function PulledMeasurements(ms: seq<Measurement>, ds: seq<Device>): seq<Measurement>
  {
    if ms == [] then []
    else seq(CountId(ds, ms[0].deviceId), _ => ReloadMeasurement(ms[0])) + PulledMeasurements(ms[1..], ds)
  }

  /** A pulled measurement is a remote one whose device exists remotely, and every such one is pulled. */
  lemma {:induction false} PulledMembers(ms: seq<Measurement>, ds: seq<Device>, m: Measurement)
    ensures m in PulledMeasurements(ms, ds) <==>
              exists m' | m' in ms :: m == ReloadMeasurement(m') && m'.deviceId in DeviceIds(ds)
  {
    if ms != [] {
      PulledMembers(ms[1..], ds, m);
      assert forall x :: x in ms <==> x == ms[0] || x in ms[1..];
      var copies := seq(CountId(ds, ms[0].deviceId), _ => ReloadMeasurement(ms[0]));
      assert m in copies <==> CountId(ds, ms[0].deviceId) > 0 && m == ReloadMeasurement(ms[0]) by {
        if CountId(ds, ms[0].deviceId) > 0 {
          assert copies[0] == ReloadMeasurement(ms[0]);
        }
      }
    }
  }

  /** With distinct remote device ids and every foreign key resolved, the join drops and repeats nothing. */
  lemma {:induction false} PulledIsCopy(ms: seq<Measurement>, ds: seq<Device>)
    requires Distinct(DeviceIds(ds)) && forall m | m in ms :: m.deviceId in DeviceIds(ds)
    ensures PulledMeasurements(ms, ds) == seq(|ms|, i requires 0 <= i < |ms| => ReloadMeasurement(ms[i]))
  {
    if ms != [] {
      assert ms[0] in ms;
      CountIdOfKey(ds, ms[0].deviceId);
      PulledIsCopy(ms[1..], ds);
    }
  }

  /** The local tables after a pull that commits. The nanothickness table is cleared and never reloaded. */
  function Reloaded(remote: Db, dumps: Value -> string, isoformat: Stamp -> string): Db
  {
    Db(seq(|remote.users|, i requires 0 <= i < |remote.users| => ReloadUser(remote.users[i], dumps, isoformat)),
       seq(|remote.devices|, i requires 0 <= i < |remote.devices| => ReloadDevice(remote.devices[i], dumps, isoformat)),
       PulledMeasurements(remote.measurements, remote.devices),
       seq(|remote.coleCole|, i requires 0 <= i < |remote.coleCole| =>
             ReloadReading(remote.coleCole[i], dumps, isoformat)),
       seq(|remote.standardPlot|, i requires 0 <= i < |remote.standardPlot| =>
             ReloadReading(remote.standardPlot[i], dumps, isoformat)),
       [])
  }

  // ---------------------------------------------------------------- what a pull leaves

  /**
   * Nothing local survives a pull: every row comes from the remote store and is
   * live, so a measurement never pushed is gone, and nanothickness is empty.
   */
  lemma ReloadedComesFromRemote(remote: Db, dumps: Value -> string, isoformat: Stamp -> string)
    ensures var db := Reloaded(remote, dumps, isoformat);
            && UserIds(db.users) == UserIds(remote.users)
            && DeviceIds(db.devices) == DeviceIds(remote.devices)
            && (forall m | m in db.measurements :: m.id in MeasurementIds(remote.measurements) && !m.isDelete)
            && ReadingIds(db.coleCole) == ReadingIds(remote.coleCole)
            && ReadingIds(db.standardPlot) == ReadingIds(remote.standardPlot)
            && db.nanothickness == []
            && (forall u | u in db.users :: !u.isDelete)
            && (forall d | d in db.devices :: !d.isDelete)
            && (forall r | r in db.coleCole + db.standardPlot :: !r.isDelete)
  {
    var db := Reloaded(remote, dumps, isoformat);
    forall m | m in db.measurements
      ensures m.id in MeasurementIds(remote.measurements) && !m.isDelete
    {
      PulledMembers(remote.measurements, remote.devices, m);
      var m' :| m' in remote.measurements && m == ReloadMeasurement(m') && m'.deviceId in DeviceIds(remote.devices);
      var i :| 0 <= i < |remote.measurements| && remote.measurements[i] == m';
      assert MeasurementIds(remote.measurements)[i] == m.id;
    }
  }

  /** Only the measurements whose device exists remotely are pulled, and all of them are. */
  lemma PulledJoinsDevices(remote: Db, dumps: Value -> string, isoformat: Stamp -> string, m: Measurement)
    ensures m in remote.measurements && m.deviceId in DeviceIds(remote.devices)
            ==> ReloadMeasurement(m) in Reloaded(remote, dumps, isoformat).measurements
    ensures m in Reloaded(remote, dumps, isoformat).measurements ==> m.deviceId in DeviceIds(remote.devices)
  {
    PulledMembers(remote.measurements, remote.devices, ReloadMeasurement(m));
    PulledMembers(remote.measurements, remote.devices, m);
  }

  /** A consistent remote store reloads into a consistent local one: the pull then commits. */
  lemma ValidRemoteReloads(remote: Db, dumps: Value -> string, isoformat: Stamp -> string)
    requires Valid(remote)
    ensures Valid(Reloaded(remote, dumps, isoformat))
  {
    var db := Reloaded(remote, dumps, isoformat);
    ReloadedComesFromRemote(remote, dumps, isoformat);
    assert Usernames(db.users) == Usernames(remote.users);
    assert DeviceNames(db.devices) == DeviceNames(remote.devices);
    ReloadedMeasurementsValid(remote, dumps, isoformat);
    ReloadedReadingsValid(remote.coleCole, remote.measurements, db.measurements, dumps, isoformat);
    ReloadedReadingsValid(remote.standardPlot, remote.measurements, db.measurements, dumps, isoformat);
  }

  /** The pulled measurements keep their keys, their devices and their order numbers. */
  lemma ReloadedMeasurementsValid(remote: Db, dumps: Value -> string, isoformat: Stamp -> string)
    requires Valid(remote)
    ensures var db := Reloaded(remote, dumps, isoformat);
            && MeasurementIds(db.measurements) == MeasurementIds(remote.measurements)
            && MeasurementsValid(db.measurements, db.devices)
  {
    var db := Reloaded(remote, dumps, isoformat);
    assert DeviceIds(db.devices) == DeviceIds(remote.devices);
    PulledIsCopy(remote.measurements, remote.devices);
    assert MeasurementIds(db.measurements) == MeasurementIds(remote.measurements);
    forall m | m in db.measurements
      ensures m.deviceId in DeviceIds(db.devices)
    {
      var i :| 0 <= i < |db.measurements| && db.measurements[i] == m;
      assert remote.measurements[i] in remote.measurements;
    }
  }

  /** A reloaded reading table keeps its keys, and its references stay resolved when the measurement ids are kept. */
  lemma ReloadedReadingsValid(rs: seq<Reading>, ms: seq<Measurement>, ms': seq<Measurement>,
                              dumps: Value -> string, isoformat: Stamp -> string)
    requires ReadingsValid(rs, ms) && MeasurementIds(ms') == MeasurementIds(ms)
    ensures ReadingsValid(seq(|rs|, i requires 0 <= i < |rs| => ReloadReading(rs[i], dumps, isoformat)), ms')
  {
    var rs' := seq(|rs|, i requires 0 <= i < |rs| => ReloadReading(rs[i], dumps, isoformat));
    assert ReadingIds(rs') == ReadingIds(rs);
    forall r | r in rs'
      ensures r.measurementId in MeasurementIds(ms')
    {
      var i :| 0 <= i < |rs'| && rs'[i] == r;
      assert rs[i] in rs;
    }
  }

  // ---------------------------------------------------------------- clearing

  /** The local tables after the first `n` DELETE statements, which run children before parents. */
  function ClearedUpTo(db: Db, n: nat): Db
  {
    var db1 := if n >= 1 then db.(coleCole := []) else db;
    var db2 := if n >= 2 then db1.(standardPlot := []) else db1;
    var db3 := if n >= 3 then db2.(nanothickness := []) else db2;
    var db4 := if n >= 4 then db3.(measurements := []) else db3;
    var db5 := if n >= 5 then db4.(devices := []) else db4;
    if n >= 6 then db5.(users := []) else db5
  }

  /** No DELETE of the pull leaves a row pointing at a deleted parent. */
  lemma ClearingKeepsValid(db: Db, n: nat)
    requires Valid(db) && n <= 6
    ensures Valid(ClearedUpTo(db, n))
    ensures ClearedUpTo(db, 6) == Db([], [], [], [], [], [])
  {
  }

  // ---------------------------------------------------------------- the pull

  /**
   * `sync_server_to_sqlite`. The remote connection is made first, so an
   * unreachable server changes nothing. Each `executemany` fails on the first
   * row that breaks a constraint of its table; the exception escapes before
   * `commit`, and the local store is rolled back to where it was.
   */
  method Pull(local: Store, remote: Store, reachable: bool, dumps: Value -> string, isoformat: Stamp -> string)
    returns (r: Outcome<ServiceError>)
    requires local != remote
    modifies local
    ensures !reachable ==> r == Fail(ServerUnavailable) && local.Snapshot() == old(local.Snapshot())
    ensures reachable ==> (r == Pass <==> Valid(Reloaded(old(remote.Snapshot()), dumps, isoformat)))
    ensures r == Pass ==> local.Snapshot() == Reloaded(old(remote.Snapshot()), dumps, isoformat)
    ensures reachable && r != Pass ==> r == Fail(IntegrityError) && local.Snapshot() == old(local.Snapshot())
    ensures old(Valid(local.Snapshot())) ==> Valid(local.Snapshot())
  {
    if !reachable {
      return Fail(ServerUnavailable);
    }
    var saved := local.Snapshot();
    var target := Reloaded(remote.Snapshot(), dumps, isoformat);

    // Children before parents: by ClearingKeepsValid, no DELETE leaves a row pointing at a deleted parent.
    local.coleCole := [];
    assert local.Snapshot() == ClearedUpTo(saved, 1);
    local.standardPlot := [];
    assert local.Snapshot() == ClearedUpTo(saved, 2);
    local.nanothickness := [];
    assert local.Snapshot() == ClearedUpTo(saved, 3);
    local.measurements := [];
    assert local.Snapshot() == ClearedUpTo(saved, 4);
    local.devices := [];
    assert local.Snapshot() == ClearedUpTo(saved, 5);
    local.users := [];
    assert local.Snapshot() == ClearedUpTo(saved, 6);

    local.users := target.users;
    if !(Distinct(UserIds(local.users)) && Distinct(Usernames(local.users))) {
      local.Load(saved);
      return Fail(IntegrityError);
    }
    local.devices := target.devices;
    if !(Distinct(DeviceIds(local.devices)) && Distinct(DeviceNames(local.devices))) {
      local.Load(saved);
      return Fail(IntegrityError);
    }
    local.measurements := target.measurements;
    if !MeasurementsValid(local.measurements, local.devices) {
      local.Load(saved);
      return Fail(IntegrityError);
    }
    local.coleCole := target.coleCole;
    if !ReadingsValid(local.coleCole, local.measurements) {
      local.Load(saved);
      return Fail(IntegrityError);
    }
    local.standardPlot := target.standardPlot;
    if !ReadingsValid(local.standardPlot, local.measurements) {
      local.Load(saved);
      return Fail(IntegrityError);
    }
    r := Pass;
  }
}
