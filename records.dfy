/**
 * The rows of the six tables both databases hold (the CREATE statements of
 * thermal_local/db/migrations.py), the integrity constraints the local SQLite
 * database enforces (primary keys, UNIQUE columns, foreign keys, switched on by
 * `PRAGMA foreign_keys = ON`), and the in-memory store that holds the tables.
 * The same record types and the same store serve for the local database and
 * for the remote one.
 */
module Records {
  import opened Wrappers

  /** A row id (a `uuid4` string in the source). */
  type Id = string

  /**
   * A `created_at` value. The source stores an ISO-8601 text; the model keeps
   * only its order, so a stamp is an integer. The column is nullable (a table
   * upgraded by ALTER TABLE gives its old rows NULL there), so rows hold an
   * `Option<Stamp>`.
   */
  type Stamp = int

  /**
   * A column value as a database driver hands it back: the SQL scalars plus the
   * Python objects a PostgreSQL driver returns for NUMERIC (`Decimal`),
   * TIMESTAMP (`datetime`) and JSON columns (`dict`, `list`).
   */
  datatype Value =
    | Null
    | Bool(b: bool)
    | Int(i: int)
    | Float(f: real)
    | Decimal(d: real)
    | Text(s: string)
    | DateTime(t: Stamp)
    | Dict(entries: seq<(string, Value)>)
    | List(items: seq<Value>)

  datatype User = User(id: Id, username: string, role: Value, active: Value,
                       hashedPassword: Value, createdAt: Option<Stamp>, isDelete: bool)

  datatype Device = Device(id: Id, name: string, structure: Value, experimentBy: Value,
                           createdBy: Value, createdAt: Option<Stamp>, isDelete: bool)

  /** `measurements.name` and `measurements.num_order` are nullable columns. */
  datatype Measurement = Measurement(id: Id, deviceId: Id, numOrder: Option<int>, name: Option<string>,
                                     createdBy: string, createdAt: Option<Stamp>, isDelete: bool)

  /** The three reading tables, which share one row shape. */
  datatype Kind = ColeColeRows | StandardPlotRows | NanothicknessRows

  /** A row of `cole_cole`, `standard_plot` or `nanothickness`. */
  datatype Reading = Reading(id: Id, measurementId: Id, values: seq<Value>, isDelete: bool)

  /** The contents of one database. */
  datatype Db = Db(users: seq<User>, devices: seq<Device>, measurements: seq<Measurement>,
                   coleCole: seq<Reading>, standardPlot: seq<Reading>, nanothickness: seq<Reading>)

  function RowsOf(db: Db, k: Kind): seq<Reading>
  {
    match k
    case ColeColeRows => db.coleCole
    case StandardPlotRows => db.standardPlot
    case NanothicknessRows => db.nanothickness
  }

  function UserIds(us: seq<User>): seq<Id> { seq(|us|, i requires 0 <= i < |us| => us[i].id) }
  function Usernames(us: seq<User>): seq<string> { seq(|us|, i requires 0 <= i < |us| => us[i].username) }
  function DeviceIds(ds: seq<Device>): seq<Id> { seq(|ds|, i requires 0 <= i < |ds| => ds[i].id) }
  function DeviceNames(ds: seq<Device>): seq<string> { seq(|ds|, i requires 0 <= i < |ds| => ds[i].name) }
  function MeasurementIds(ms: seq<Measurement>): seq<Id> { seq(|ms|, i requires 0 <= i < |ms| => ms[i].id) }
  function ReadingIds(rs: seq<Reading>): seq<Id> { seq(|rs|, i requires 0 <= i < |rs| => rs[i].id) }

  /** With unique device names, a name identifies one row. */
  lemma DeviceNameIsKey(ds: seq<Device>)
    ensures Distinct(DeviceNames(ds)) ==>
              forall i, j | 0 <= i < |ds| && 0 <= j < |ds| && ds[i].name == ds[j].name :: i == j
  {
    if Distinct(DeviceNames(ds)) {
      forall i, j | 0 <= i < |ds| && 0 <= j < |ds| && ds[i].name == ds[j].name
        ensures i == j
      {
        assert DeviceNames(ds)[i] == DeviceNames(ds)[j];
      }
    }
  }

  /** With unique measurement ids, an id identifies one row. */
  lemma MeasurementIdIsKey(ms: seq<Measurement>)
    ensures Distinct(MeasurementIds(ms)) ==>
              forall i, j | 0 <= i < |ms| && 0 <= j < |ms| && ms[i].id == ms[j].id :: i == j
  {
    if Distinct(MeasurementIds(ms)) {
      forall i, j | 0 <= i < |ms| && 0 <= j < |ms| && ms[i].id == ms[j].id
        ensures i == j
      {
        assert MeasurementIds(ms)[i] == MeasurementIds(ms)[j];
      }
    }
  }

  /** UNIQUE (device_id, num_order); SQLite lets any number of rows share a NULL num_order. */
  predicate OrdersUnique(ms: seq<Measurement>)
  {
    forall i, j | 0 <= i < j < |ms| && ms[i].deviceId == ms[j].deviceId && ms[i].numOrder.Some? ::
      ms[i].numOrder != ms[j].numOrder
  }

  /** A reading table: primary key, and `measurement_id` references an existing measurement. */
  predicate ReadingsValid(rs: seq<Reading>, ms: seq<Measurement>)
  {
    && Distinct(ReadingIds(rs))
    && (forall r | r in rs :: r.measurementId in MeasurementIds(ms))
  }

  /** The measurements table: primary key, foreign key to `devices`, and the order uniqueness. */
  predicate MeasurementsValid(ms: seq<Measurement>, ds: seq<Device>)
  {
    && Distinct(MeasurementIds(ms))
    && (forall m | m in ms :: m.deviceId in DeviceIds(ds))
    && OrdersUnique(ms)
  }

  /** Every constraint of the schema holds. */
  predicate Valid(db: Db)
  {
    && Distinct(UserIds(db.users)) && Distinct(Usernames(db.users))
    && Distinct(DeviceIds(db.devices)) && Distinct(DeviceNames(db.devices))
    && MeasurementsValid(db.measurements, db.devices)
    && ReadingsValid(db.coleCole, db.measurements)
    && ReadingsValid(db.standardPlot, db.measurements)
    && ReadingsValid(db.nanothickness, db.measurements)
  }

  /** `db` with the rows of one reading table replaced. */
  function WithRows(db: Db, k: Kind, rows: seq<Reading>): (r: Db)
    ensures RowsOf(r, k) == rows
    ensures forall k' | k' != k :: RowsOf(r, k') == RowsOf(db, k')
  {
    match k
    case ColeColeRows => db.(coleCole := rows)
    case StandardPlotRows => db.(standardPlot := rows)
    case NanothicknessRows => db.(nanothickness := rows)
  }

  /** Replacing one reading table by rows that meet its constraints keeps the database valid. */
  lemma ValidWithRows(db: Db, k: Kind, rows: seq<Reading>)
    requires Valid(db) && ReadingsValid(rows, db.measurements)
    ensures Valid(WithRows(db, k, rows))
  {
  }

  /** One database: the six tables, each changed in place by the service's statements. */
  class Store {
    var users: seq<User>
    var devices: seq<Device>
    var measurements: seq<Measurement>
    var coleCole: seq<Reading>
    var standardPlot: seq<Reading>
    var nanothickness: seq<Reading>

    constructor (db: Db)
      ensures Snapshot() == db
    {
      users, devices, measurements := db.users, db.devices, db.measurements;
      coleCole, standardPlot, nanothickness := db.coleCole, db.standardPlot, db.nanothickness;
    }

    /** The tables as one value. */
    function Snapshot(): Db
      reads this
    {
      Db(users, devices, measurements, coleCole, standardPlot, nanothickness)
    }

    function Readings(k: Kind): seq<Reading>
      reads this
    {
      RowsOf(Snapshot(), k)
    }

    /** Replaces the rows of one reading table and nothing else. */
    method SetReadings(k: Kind, rows: seq<Reading>)
      modifies this`coleCole, this`standardPlot, this`nanothickness
      ensures Snapshot() == WithRows(old(Snapshot()), k, rows)
      ensures Readings(k) == rows
      ensures forall k' | k' != k :: Readings(k') == old(Readings(k'))
    {
      match k
      case ColeColeRows => coleCole := rows;
      case StandardPlotRows => standardPlot := rows;
      case NanothicknessRows => nanothickness := rows;
    }

    /** Replaces all six tables. */
    method Load(db: Db)
      modifies this
      ensures Snapshot() == db
    {
      users, devices, measurements := db.users, db.devices, db.measurements;
      coleCole, standardPlot, nanothickness := db.coleCole, db.standardPlot, db.nanothickness;
    }
  }
}
