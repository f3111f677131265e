/**
 * The two readers of `devices LEFT JOIN measurements` in
 * thermal_local/services/measurements.py: the listing of devices and their
 * measurements (`get_devices_and_measurements`) and the folder tree made to
 * match the database (`sync_db_to_filesystem`).
 */
module DeviceListing {
  import opened Wrappers
  import opened Records
  import opened Folders
  import opened MeasurementService

  /**
   * A row of the join: a live device with one of its live measurements, or a
   * live device without any, which gives one row of NULLs on the right.
   */
  datatype Row = Row(device: string, measurement: Option<string>, created: Option<Stamp>)

  /** The live measurements of one device, in table order. */
  function LiveOf(ms: seq<Measurement>, deviceId: Id): (r: seq<Measurement>)
    ensures forall m :: m in r <==> m in ms && m.deviceId == deviceId && !m.isDelete
  {
    if ms == [] then []
    else
      assert forall m :: m in ms <==> m == ms[0] || m in ms[1..];
      (if ms[0].deviceId == deviceId && !ms[0].isDelete then [ms[0]] else []) + LiveOf(ms[1..], deviceId)
  }

  /** The rows the join gives for one device: none for a deleted device. */
  function DeviceRows(d: Device, ms: seq<Measurement>): seq<Row>
  {
    if d.isDelete then []
    else
      var live := LiveOf(ms, d.id);
      if live == [] then [Row(d.name, None, None)]
      else seq(|live|, i requires 0 <= i < |live| => Row(d.name, live[i].name, live[i].createdAt))
  }

  /** The join itself, device by device. */
  function JoinRows(ds: seq<Device>, ms: seq<Measurement>): seq<Row>
  {
    if ds == [] then [] else DeviceRows(ds[0], ms) + JoinRows(ds[1..], ms)
  }

  /** The rows of one device name it exactly when it is live. */
  lemma DeviceRowsNamed(d: Device, ms: seq<Measurement>, n: string)
    ensures (exists r | r in DeviceRows(d, ms) :: r.device == n) <==> !d.isDelete && d.name == n
  {
    if !d.isDelete && d.name == n {
      var rows := DeviceRows(d, ms);
      assert rows[0] in rows;
    }
  }

  /** The rows of one device that carry a measurement name come from its live measurements. */
  lemma DeviceRowsMeasured(d: Device, ms: seq<Measurement>, n: string, mn: string)
    ensures (exists r | r in DeviceRows(d, ms) :: r.device == n && r.measurement == Some(mn))
            <==> !d.isDelete && d.name == n && exists m | m in ms :: LiveMeasurementOf(d, m) && m.name == Some(mn)
  {
    var rows := DeviceRows(d, ms);
    if !d.isDelete {
      var live := LiveOf(ms, d.id);
      if exists r | r in rows :: r.device == n && r.measurement == Some(mn) {
        var r :| r in rows && r.device == n && r.measurement == Some(mn);
        var i :| 0 <= i < |rows| && rows[i] == r;
        assert live[i] in ms && LiveMeasurementOf(d, live[i]);
      }
      if d.name == n && exists m | m in ms :: LiveMeasurementOf(d, m) && m.name == Some(mn) {
        var m :| m in ms && LiveMeasurementOf(d, m) && m.name == Some(mn);
        assert m in live;
        var i :| 0 <= i < |live| && live[i] == m;
        assert rows[i].device == n && rows[i].measurement == Some(mn);
        assert rows[i] in rows;
      }
    }
  }

  /** `m` is a live measurement of the live device `d`: the ON clause of the join plus both is_delete filters. */
  predicate LiveMeasurementOf(d: Device, m: Measurement)
  {
    !d.isDelete && !m.isDelete && m.deviceId == d.id
  }

  /** The join names exactly the live devices. */
  lemma {:induction false} JoinedDevices(ds: seq<Device>, ms: seq<Measurement>, n: string)
    ensures (exists r | r in JoinRows(ds, ms) :: r.device == n) <==> exists d | d in ds :: !d.isDelete && d.name == n
  {
    if ds != [] {
      JoinedDevices(ds[1..], ms, n);
      DeviceRowsNamed(ds[0], ms, n);
      assert forall d :: d in ds <==> d == ds[0] || d in ds[1..];
      assert forall r :: r in JoinRows(ds, ms) <==> r in DeviceRows(ds[0], ms) || r in JoinRows(ds[1..], ms);
    }
  }

  /** A join row carries a measurement name exactly when a live measurement of that name belongs to a live device. */
  lemma {:induction false} JoinedMeasurements(ds: seq<Device>, ms: seq<Measurement>, n: string, mn: string)
    ensures (exists r | r in JoinRows(ds, ms) :: r.device == n && r.measurement == Some(mn))
            <==> exists d, m | d in ds && m in ms :: LiveMeasurementOf(d, m) && d.name == n && m.name == Some(mn)
  {
    if ds != [] {
      JoinedMeasurements(ds[1..], ms, n, mn);
      DeviceRowsMeasured(ds[0], ms, n, mn);
      assert forall d :: d in ds <==> d == ds[0] || d in ds[1..];
      assert forall r :: r in JoinRows(ds, ms) <==> r in DeviceRows(ds[0], ms) || r in JoinRows(ds[1..], ms);
    }
  }

  // ---------------------------------------------------------------- ORDER BY

  /** `a` sorts no later than `b` on `created_at`; SQLite sorts NULL first. */
  predicate NoLater(a: Row, b: Row)
  {
    a.created.None? || (b.created.Some? && a.created.value <= b.created.value)
  }

  predicate SortedByCreated(rows: seq<Row>)
  {
    forall i, j | 0 <= i < j < |rows| :: NoLater(rows[i], rows[j])
  }

  /** Inserts `x` before the first row it does not sort after. */
  function InsertRow(x: Row, rows: seq<Row>): (r: seq<Row>)
    ensures multiset(r) == multiset(rows) + multiset{x}
    ensures SortedByCreated(rows) ==> SortedByCreated(r)
  {
    if rows == [] || NoLater(x, rows[0]) then
      SortedFront(x, rows);
      [x] + rows
    else
      var rest := InsertRow(x, rows[1..]);
      assert rows == [rows[0]] + rows[1..];
      assert |multiset(rest)| == |rows[1..]| + 1;
      assert rest[0] in multiset(rows[1..]) + multiset{x} by { assert rest[0] in multiset(rest); }
      SortedFront(rows[0], rest);
      [rows[0]] + rest
  }

  /** A row that sorts no later than the first of a sorted sequence (hence than all of them) can go in front. */
  lemma SortedFront(x: Row, rows: seq<Row>)
    ensures SortedByCreated(rows) && (rows == [] || NoLater(x, rows[0])) ==> SortedByCreated([x] + rows)
  {
  }

  /**
   * `ORDER BY m.created_at`, as an insertion sort. The query also orders by
   * device name first; rows of one name keep the same relative order either
   * way, and the grouping below only keeps that relative order.
   */
  function SortByCreated(rows: seq<Row>): (r: seq<Row>)
    ensures multiset(r) == multiset(rows)
    ensures SortedByCreated(r)
  {
    if rows == [] then []
    else
      assert rows == [rows[0]] + rows[1..];
      InsertRow(rows[0], SortByCreated(rows[1..]))
  }

  /** The rows `get_devices_and_measurements` walks through. */
  function ListingRows(db: Db): seq<Row>
  {
    SortByCreated(JoinRows(db.devices, db.measurements))
  }

  // ---------------------------------------------------------------- grouping

  /** Python truthiness of a measurement name: neither NULL nor empty. */
  predicate Truthy(name: Option<string>)
  {
    name.Some? && name.value != ""
  }

  /** `setdefault` for the row's device, then the append of a truthy measurement name. */
  function GroupStep(data: map<string, seq<string>>, row: Row): map<string, seq<string>>
  {
    var listed := if row.device in data then data[row.device] else [];
    data[row.device := if Truthy(row.measurement) then listed + [row.measurement.value] else listed]
  }

  /** The dictionary after every row, in order. */
  function Grouped(rows: seq<Row>): map<string, seq<string>>
  {
    if rows == [] then map[] else GroupStep(Grouped(rows[..|rows| - 1]), rows[|rows| - 1])
  }

  lemma GroupedPrefix(rows: seq<Row>, i: nat)
    requires i < |rows|
    ensures Grouped(rows[..i + 1]) == GroupStep(Grouped(rows[..i]), rows[i])
  {
    assert rows[..i + 1][..i] == rows[..i];
  }

  /** `setdefault(n, [])` leaves `n` mapped to what it held, or to the empty list. */
  lemma SetDefaultListed(data: map<string, seq<string>>, n: string)
    ensures (if n in data then data else data[n := []]) == data[n := if n in data then data[n] else []]
  {
  }

  /** The truthy measurement names of the rows of device name `n`, in row order. */
  function NamesFor(rows: seq<Row>, n: string): seq<string>
  {
    if rows == [] then []
    else (if rows[0].device == n && Truthy(rows[0].measurement) then [rows[0].measurement.value] else [])
         + NamesFor(rows[1..], n)
  }

  lemma {:induction false} NamesForAppend(a: seq<Row>, b: seq<Row>, n: string)
    ensures NamesFor(a + b, n) == NamesFor(a, n) + NamesFor(b, n)
  {
    if a == [] {
      assert a + b == b;
    } else {
      assert (a + b)[1..] == a[1..] + b;
      NamesForAppend(a[1..], b, n);
    }
  }

  /** A name is listed for `n` exactly when a row of `n` carries it and it is not empty. */
  lemma {:induction false} NamesForMembers(rows: seq<Row>, n: string, mn: string)
    ensures mn in NamesFor(rows, n) <==> mn != "" && exists r | r in rows :: r.device == n && r.measurement == Some(mn)
  {
    if rows != [] {
      NamesForMembers(rows[1..], n, mn);
      assert forall r :: r in rows <==> r == rows[0] || r in rows[1..];
    }
  }

  /** The grouping has one key per device name among the rows, holding that name's listed measurements. */
  lemma {:induction false} GroupedMeaning(rows: seq<Row>)
    ensures forall n :: n in Grouped(rows) <==> exists r | r in rows :: r.device == n
    ensures forall n | n in Grouped(rows) :: Grouped(rows)[n] == NamesFor(rows, n)
  {
    if rows != [] {
      var init, last := rows[..|rows| - 1], rows[|rows| - 1];
      assert rows == init + [last];
      GroupedMeaning(init);
      forall n
        ensures n in Grouped(rows) <==> exists r | r in rows :: r.device == n
      {
        assert forall r :: r in rows <==> r in init || r == last;
      }
      forall n | n in Grouped(rows)
        ensures Grouped(rows)[n] == NamesFor(rows, n)
      {
        NamesForAppend(init, [last], n);
        assert NamesFor([last], n)
               == (if last.device == n && Truthy(last.measurement) then [last.measurement.value] else []);
        if n !in Grouped(init) {
          NamesForAbsent(init, n);
        }
      }
    }
  }

  /** A name no row carries lists nothing. */
  lemma {:induction false} NamesForAbsent(rows: seq<Row>, n: string)
    requires forall r | r in rows :: r.device != n
    ensures NamesFor(rows, n) == []
  {
    if rows != [] {
      assert rows[0] in rows;
      NamesForAbsent(rows[1..], n);
    }
  }

  /** The dictionary `get_devices_and_measurements` returns. */
  function Listing(db: Db): map<string, seq<string>>
  {
    Grouped(ListingRows(db))
  }

  /**
   * The listing maps every live device name, and no other, to the non-empty
   * names of the live measurements of live devices of that name; the names
   * are those of the sorted join rows, in their order.
   */
  lemma ListingMeaning(db: Db, n: string, mn: string)
    ensures n in Listing(db) <==> exists d | d in db.devices :: !d.isDelete && d.name == n
    ensures n in Listing(db) ==> Listing(db)[n] == NamesFor(ListingRows(db), n)
    ensures n in Listing(db) ==>
              (mn in Listing(db)[n] <==>
                 mn != "" && exists d, m | d in db.devices && m in db.measurements ::
                               LiveMeasurementOf(d, m) && d.name == n && m.name == Some(mn))
    ensures SortedByCreated(ListingRows(db))
    ensures multiset(ListingRows(db)) == multiset(JoinRows(db.devices, db.measurements))
  {
    var join := JoinRows(db.devices, db.measurements);
    var rows := ListingRows(db);
    assert forall r :: r in rows <==> r in join by {
      assert forall r :: r in rows <==> r in multiset(rows);
      assert forall r :: r in join <==> r in multiset(join);
    }
    GroupedMeaning(rows);
    JoinedDevices(db.devices, db.measurements, n);
    JoinedMeasurements(db.devices, db.measurements, n, mn);
    NamesForMembers(rows, n, mn);
  }

  /** `get_devices_and_measurements`: the query, then the dictionary filled from its rows. */
  method GetDevicesAndMeasurements(store: Store) returns (data: map<string, seq<string>>)
    ensures data == Listing(store.Snapshot())
  {
    var rows := ListingRows(store.Snapshot());
    data := GroupRows(rows);
  }

  /** The loop of `get_devices_and_measurements`: `setdefault`, then the append of a truthy name, row by row. */
  method GroupRows(rows: seq<Row>) returns (data: map<string, seq<string>>)
    ensures data == Grouped(rows)
  {
    data := map[];
    var i := 0;
    while i < |rows|
      invariant 0 <= i <= |rows|
      invariant data == Grouped(rows[..i])
    {
      var row := rows[i];
      ghost var listed := if row.device in data then data[row.device] else [];
      ghost var next := GroupStep(data, row);
      SetDefaultListed(data, row.device);
      if row.device !in data {
        data := data[row.device := []];
      }
      assert row.device in data && data[row.device] == listed;
      if Truthy(row.measurement) {
        data := data[row.device := data[row.device] + [row.measurement.value]];
      }
      assert data == next;
      GroupedPrefix(rows, i);
      i := i + 1;
    }
    assert rows[..i] == rows;
  }

  // ---------------------------------------------------------------- folders

  /** The folders one join row asks for under `base`. */
  function RowFolders(base: Path, row: Row): set<Path>
  {
    {Join(base, row.device)}
      + (if Truthy(row.measurement) then {Join(Join(base, row.device), row.measurement.value)} else {})
  }

  /** The folders all the rows ask for. */
  function DeviceFolders(base: Path, rows: seq<Row>): set<Path>
  {
    if rows == [] then {} else DeviceFolders(base, rows[..|rows| - 1]) + RowFolders(base, rows[|rows| - 1])
  }

  lemma DeviceFoldersPrefix(base: Path, rows: seq<Row>, i: nat)
    requires i < |rows|
    ensures DeviceFolders(base, rows[..i + 1]) == DeviceFolders(base, rows[..i]) + RowFolders(base, rows[i])
  {
    assert rows[..i + 1][..i] == rows[..i];
  }

  /** A folder is asked for exactly when some row names it. */
  lemma {:induction false} FoldersMembers(base: Path, rows: seq<Row>, p: Path)
    ensures p in DeviceFolders(base, rows) <==> exists r | r in rows :: p in RowFolders(base, r)
  {
    if rows != [] {
      var init, last := rows[..|rows| - 1], rows[|rows| - 1];
      assert rows == init + [last];
      assert forall r :: r in rows <==> r in init || r == last;
      FoldersMembers(base, init, p);
    }
  }

  /**
   * The folders of the database under `base`: one per live device and one per
   * live measurement with a non-empty name inside its device's folder.
   */
  lemma DbFolders(db: Db, base: Path, p: Path)
    ensures p in DeviceFolders(base, JoinRows(db.devices, db.measurements)) <==> LiveFolder(db, base, p)
  {
    var rows := JoinRows(db.devices, db.measurements);
    FoldersMembers(base, rows, p);
    if exists r | r in rows :: p in RowFolders(base, r) {
      var r :| r in rows && p in RowFolders(base, r);
      RowFolderIsLive(db, base, r, p);
    }
    if LiveFolder(db, base, p) {
      LiveFolderIsAsked(db, base, p);
    }
  }

  /** The folder of a live device, or of a live named measurement inside its device's folder. */
  predicate LiveFolder(db: Db, base: Path, p: Path)
  {
    || (exists d | d in db.devices :: !d.isDelete && p == Join(base, d.name))
    || (exists d, m | d in db.devices && m in db.measurements ::
          LiveMeasurementOf(d, m) && Truthy(m.name) && p == Join(Join(base, d.name), m.name.value))
  }

  /** Every folder a join row asks for belongs to a live device or measurement. */
  lemma RowFolderIsLive(db: Db, base: Path, r: Row, p: Path)
    requires r in JoinRows(db.devices, db.measurements) && p in RowFolders(base, r)
    ensures LiveFolder(db, base, p)
  {
    JoinedDevices(db.devices, db.measurements, r.device);
    if p != Join(base, r.device) {
      JoinedMeasurements(db.devices, db.measurements, r.device, r.measurement.value);
    }
  }

  /** Every live device or named live measurement has a join row asking for its folder. */
  lemma LiveFolderIsAsked(db: Db, base: Path, p: Path)
    requires LiveFolder(db, base, p)
    ensures exists r | r in JoinRows(db.devices, db.measurements) :: p in RowFolders(base, r)
  {
    var ds, ms := db.devices, db.measurements;
    var rows := JoinRows(ds, ms);
    if exists d | d in ds :: !d.isDelete && p == Join(base, d.name) {
      var d :| d in ds && !d.isDelete && p == Join(base, d.name);
      JoinedDevices(ds, ms, d.name);
      var r :| r in rows && r.device == d.name;
      assert p in RowFolders(base, r);
    } else {
      var d, m :| d in ds && m in ms && LiveMeasurementOf(d, m) && Truthy(m.name)
                  && p == Join(Join(base, d.name), m.name.value);
      JoinedMeasurements(ds, ms, d.name, m.name.value);
      var r :| r in rows && r.device == d.name && r.measurement == m.name;
      assert p in RowFolders(base, r);
    }
  }

  /** The body of the loop of `sync_db_to_filesystem`: the device folder, then the measurement folder inside it. */
  method MakeRowFolders(fs: FileSystem, base: Path, row: Row)
    requires base in fs.dirs
    modifies fs
    ensures fs.dirs == old(fs.dirs) + RowFolders(base, row)
    ensures old(fs.Valid()) ==> fs.Valid()
  {
    var deviceDir := Join(base, row.device);
    var made := fs.MakeDir(deviceDir);
    assert deviceDir in fs.dirs;
    if Truthy(row.measurement) {
      made := fs.MakeDir(Join(deviceDir, row.measurement.value));
    }
  }

  /**
   * `sync_db_to_filesystem`: `data_root/devices` is made (which fails when
   * `data_root` is missing), then a folder per join row; nothing is removed.
   */
  method SyncDbToFilesystem(store: Store, fs: FileSystem, dataRoot: Path) returns (r: Outcome<ServiceError>)
    modifies fs
    ensures r == Pass <==> old(fs.Exists(dataRoot)) || old(fs.Exists(Join(dataRoot, "devices")))
    ensures r.Fail? ==> r == Fail(FolderMissing(Join(dataRoot, "devices"))) && fs.dirs == old(fs.dirs)
    ensures r.Pass? ==> fs.dirs == old(fs.dirs) + {Join(dataRoot, "devices")}
                                   + DeviceFolders(Join(dataRoot, "devices"), JoinRows(store.devices, store.measurements))
    ensures old(fs.Valid()) ==> fs.Valid()
  {
    var base := Join(dataRoot, "devices");
    var made := fs.MakeDir(base);
    if made.Fail? {
      return Fail(FolderMissing(base));
    }
    var rows := JoinRows(store.devices, store.measurements);
    var i := 0;
    while i < |rows|
      invariant 0 <= i <= |rows|
      invariant fs.dirs == old(fs.dirs) + {base} + DeviceFolders(base, rows[..i])
      invariant old(fs.Valid()) ==> fs.Valid()
      invariant base in fs.dirs
    {
      MakeRowFolders(fs, base, rows[i]);
      DeviceFoldersPrefix(base, rows, i);
      i := i + 1;
    }
    assert rows[..i] == rows;
    r := Pass;
  }
}
