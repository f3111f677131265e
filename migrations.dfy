/**
 * The local schema migration (thermal_local/db/migrations.py). The schema is
 * abstracted to a map from each table to its set of column names; column
 * types, defaults and constraints are not part of it. The migration creates
 * each of the six tables when it is missing and then adds the columns it
 * lists for that table when they are absent. It issues no statement that
 * touches rows.
 */
module Migrations {
  import opened Wrappers

  /** The six tables of the local database. */
  datatype Table = Users | Devices | Measurements | Nanothickness | ColeCole | StandardPlot

  /** The tables that exist, each with its set of column names. */
  type Layout = map<Table, set<string>>

  /** ALTER TABLE on a table that does not exist fails in SQLite. */
  datatype MigrationError = NoSuchTable(table: Table)

  /** The column set each CREATE TABLE IF NOT EXISTS statement declares. */
  function CreateColumns(t: Table): set<string>
  {
    match t
    case Users => {"id", "username", "role", "active", "hashed_password", "created_at", "is_delete"}
    case Devices => {"id", "name", "structure_json", "experiment_by", "created_by", "created_at", "is_delete"}
    case Measurements => {"id", "name", "device_id", "num_order", "created_by", "created_at", "is_delete"}
    case Nanothickness => {"id", "measurement_id", "pos1", "pos2", "pos3", "pos4", "pos5", "is_delete"}
    case ColeCole => {"id", "measurement_id", "frequency", "resistance", "reactance", "capacitance", "is_delete"}
    case StandardPlot => {"id", "measurement_id", "time", "voltage", "is_delete"}
  }

  /** The columns named by the `_add_column_if_missing` calls for each table. */
  function AddedColumns(t: Table): set<string>
  {
    match t
    case Users => {"role", "active", "hashed_password", "created_at", "is_delete"}
    case Devices => {"structure_json", "experiment_by", "created_by", "created_at", "is_delete"}
    case Measurements => {"name", "num_order", "created_at", "is_delete"}
    case _ => {"is_delete"}
  }

  /** Every column the migration adds is one the table's CREATE statement declares. */
  lemma AddedAreDeclared(t: Table)
    ensures AddedColumns(t) <= CreateColumns(t)
  {
  }

  /** The column set of one table after the migration: created in full, or upgraded with the listed columns. */
  function Upgraded(s: Layout, t: Table): set<string>
  {
    if t in s then s[t] + AddedColumns(t) else CreateColumns(t)
  }

  /** The layout `migrate_sqlite` leaves behind: every table exists, each one upgraded. */
  function Migrated(s: Layout): (r: Layout)
  {
    map t: Table | true :: Upgraded(s, t)
  }

  /** `_add_column_if_missing` on a layout where the table exists. */
  function WithColumn(s: Layout, t: Table, col: string): (r: Layout)
    requires t in s
    ensures r.Keys == s.Keys && col in r[t]
    ensures forall u | u in s && u != t :: r[u] == s[u]
    ensures r[t] == s[t] + {col}
  {
    if col in s[t] then s else s[t := s[t] + {col}]
  }

  /** Adding a column that is already there changes nothing: calling twice equals calling once. */
  lemma WithColumnIdempotent(s: Layout, t: Table, col: string)
    requires t in s
    ensures WithColumn(WithColumn(s, t, col), t, col) == WithColumn(s, t, col)
  {
  }

  /** One block of `migrate_sqlite`: table `t` gets its migrated column set, every other table stays. */
  function Block(s: Layout, t: Table): Layout
  {
    s[t := Upgraded(s, t)]
  }

  /** The local database's schema, changed statement by statement. */
  class Schema {
    var tables: Layout

    constructor (initial: Layout)
      ensures tables == initial
    {
      tables := initial;
    }

    /** `_existing_columns`: the table's column names; none for a table that does not exist. */
    function ExistingColumns(t: Table): (cols: set<string>)
      reads this
      ensures t in tables ==> cols == tables[t]
      ensures t !in tables ==> cols == {}
    {
      if t in tables then tables[t] else {}
    }

    /** CREATE TABLE IF NOT EXISTS: a present table is left exactly as it is. */
    method CreateTableIfNotExists(t: Table, columns: set<string>)
      modifies this
      ensures t in old(tables) ==> tables == old(tables)
      ensures t !in old(tables) ==> tables == old(tables)[t := columns]
    {
      if t !in tables {
        tables := tables[t := columns];
      }
    }

    /**
     * `_add_column_if_missing`: ALTER TABLE ADD COLUMN only when the column
     * is absent; the ALTER fails when the table does not exist.
     */
    method AddColumnIfMissing(t: Table, col: string) returns (r: Outcome<MigrationError>)
      modifies this
      ensures t !in old(tables) ==> r == Fail(NoSuchTable(t)) && tables == old(tables)
      ensures t in old(tables) ==> r == Pass && tables == WithColumn(old(tables), t, col)
    {
      var existing := ExistingColumns(t);
      if col in existing {
        assert tables[t] + {col} == tables[t];
        return Pass;
      }
      if t !in tables {
        return Fail(NoSuchTable(t));
      }
      tables := tables[t := tables[t] + {col}];
      r := Pass;
    }

    /** The `users` block of `migrate_sqlite`: CREATE, then five column additions. */
    method MigrateUsers()
      modifies this
      ensures tables == old(tables)[Users := Upgraded(old(tables), Users)]
    {
      ghost var s := tables;
      CreateTableIfNotExists(Users, CreateColumns(Users));
      ghost var c := tables;
      ghost var added: set<string> := {};
      AddedNone(c, Users);
      ghost var b := tables;
      var r := AddColumnIfMissing(Users, "role");
      AddedStep(c, Users, added, b, "role", tables);
      added := added + {"role"};
      b := tables;
      r := AddColumnIfMissing(Users, "active");
      AddedStep(c, Users, added, b, "active", tables);
      added := added + {"active"};
      b := tables;
      r := AddColumnIfMissing(Users, "hashed_password");
      AddedStep(c, Users, added, b, "hashed_password", tables);
      added := added + {"hashed_password"};
      b := tables;
      r := AddColumnIfMissing(Users, "created_at");
      AddedStep(c, Users, added, b, "created_at", tables);
      added := added + {"created_at"};
      b := tables;
      r := AddColumnIfMissing(Users, "is_delete");
      AddedStep(c, Users, added, b, "is_delete", tables);
      added := added + {"is_delete"};
      assert added == AddedColumns(Users);
      if Users !in s {
        assert CreateColumns(Users) + AddedColumns(Users) == CreateColumns(Users);
      }
    }

    /** The `devices` block of `migrate_sqlite`: CREATE, then five column additions. */
    method MigrateDevices()
      modifies this
      ensures tables == old(tables)[Devices := Upgraded(old(tables), Devices)]
    {
      ghost var s := tables;
      CreateTableIfNotExists(Devices, CreateColumns(Devices));
      ghost var c := tables;
      ghost var added: set<string> := {};
      AddedNone(c, Devices);
      ghost var b := tables;
      var r := AddColumnIfMissing(Devices, "structure_json");
      AddedStep(c, Devices, added, b, "structure_json", tables);
      added := added + {"structure_json"};
      b := tables;
      r := AddColumnIfMissing(Devices, "experiment_by");
      AddedStep(c, Devices, added, b, "experiment_by", tables);
      added := added + {"experiment_by"};
      b := tables;
      r := AddColumnIfMissing(Devices, "created_by");
      AddedStep(c, Devices, added, b, "created_by", tables);
      added := added + {"created_by"};
      b := tables;
      r := AddColumnIfMissing(Devices, "created_at");
      AddedStep(c, Devices, added, b, "created_at", tables);
      added := added + {"created_at"};
      b := tables;
      r := AddColumnIfMissing(Devices, "is_delete");
      AddedStep(c, Devices, added, b, "is_delete", tables);
      added := added + {"is_delete"};
      assert added == AddedColumns(Devices);
      if Devices !in s {
        assert CreateColumns(Devices) + AddedColumns(Devices) == CreateColumns(Devices);
      }
    }

    /** The `measurements` block of `migrate_sqlite`: CREATE, then four column additions. */
    method MigrateMeasurements()
      modifies this
      ensures tables == old(tables)[Measurements := Upgraded(old(tables), Measurements)]
    {
      ghost var s := tables;
      CreateTableIfNotExists(Measurements, CreateColumns(Measurements));
      ghost var c := tables;
      ghost var added: set<string> := {};
      AddedNone(c, Measurements);
      ghost var b := tables;
      var r := AddColumnIfMissing(Measurements, "name");
      AddedStep(c, Measurements, added, b, "name", tables);
      added := added + {"name"};
      b := tables;
      r := AddColumnIfMissing(Measurements, "num_order");
      AddedStep(c, Measurements, added, b, "num_order", tables);
      added := added + {"num_order"};
      b := tables;
      r := AddColumnIfMissing(Measurements, "created_at");
      AddedStep(c, Measurements, added, b, "created_at", tables);
      added := added + {"created_at"};
      b := tables;
      r := AddColumnIfMissing(Measurements, "is_delete");
      AddedStep(c, Measurements, added, b, "is_delete", tables);
      added := added + {"is_delete"};
      assert added == AddedColumns(Measurements);
      if Measurements !in s {
        assert CreateColumns(Measurements) + AddedColumns(Measurements) == CreateColumns(Measurements);
      }
    }

    /** The block for one of the three reading tables: CREATE, then `is_delete` if missing. */
    method MigrateReadingTable(t: Table)
      requires t == Nanothickness || t == ColeCole || t == StandardPlot
      modifies this
      ensures tables == old(tables)[t := Upgraded(old(tables), t)]
    {
      ghost var s := tables;
      CreateTableIfNotExists(t, CreateColumns(t));
      ghost var c := tables;
      assert t in c;
      var r := AddColumnIfMissing(t, "is_delete");
      assert tables[t] == c[t] + {"is_delete"} && tables == c[t := tables[t]];
      if t in s {
        assert c == s;
        assert AddedColumns(t) == {"is_delete"};
        assert tables == s[t := Upgraded(s, t)];
      } else {
        assert c == s[t := CreateColumns(t)];
        assert CreateColumns(t) + {"is_delete"} == CreateColumns(t);
        assert tables == s[t := Upgraded(s, t)];
      }
    }

    /** `migrate_sqlite`: the six blocks in the order the source runs them; none of the ALTERs can fail. */
    method Migrate()
      modifies this
      ensures tables == Migrated(old(tables))
    {
      ghost var s := tables;
      MigrateUsers();
      MigrateDevices();
      MigrateMeasurements();
      MigrateReadingTable(Nanothickness);
      MigrateReadingTable(ColeCole);
      MigrateReadingTable(StandardPlot);
      assert tables == Block(Block(Block(Block(Block(Block(s, Users), Devices), Measurements), Nanothickness), ColeCole), StandardPlot);
      AllBlocks(s);
    }
  }

  /** Before any `_add_column_if_missing`, nothing has been added. */
  lemma AddedNone(c: Layout, t: Table)
    requires t in c
    ensures c == c[t := c[t] + {}]
  {
    assert c[t] + {} == c[t];
  }

  /** One more `_add_column_if_missing` on table `t` of the layout `c` the CREATE left. */
  lemma AddedStep(c: Layout, t: Table, added: set<string>, before: Layout, col: string, now: Layout)
    requires t in c && before == c[t := c[t] + added]
    requires now == before[t := before[t] + {col}]
    ensures now == c[t := c[t] + (added + {col})]
  {
    assert before[t] + {col} == c[t] + (added + {col});
  }

  /** A later block for another table does not change what an earlier block left for `t`. */
  lemma BlockKeeps(s: Layout, t: Table, u: Table)
    requires u != t
    ensures u in Block(s, t) <==> u in s
    ensures u in s ==> Block(s, t)[u] == s[u]
  {
  }

  /** The six blocks, run in order, give the migrated layout. */
  lemma {:induction false} AllBlocks(s: Layout)
    ensures Block(Block(Block(Block(Block(Block(s, Users), Devices), Measurements), Nanothickness), ColeCole), StandardPlot)
            == Migrated(s)
  {
    var s1 := Block(s, Users);
    var s2 := Block(s1, Devices);
    var s3 := Block(s2, Measurements);
    var s4 := Block(s3, Nanothickness);
    var s5 := Block(s4, ColeCole);
    var s6 := Block(s5, StandardPlot);
    forall t: Table
      ensures t in s6 && s6[t] == Migrated(s)[t]
    {
      match t
      case Users =>
        assert s1[Users] == Upgraded(s, Users);
        BlockKeeps(s1, Devices, Users);
        BlockKeeps(s2, Measurements, Users);
        BlockKeeps(s3, Nanothickness, Users);
        BlockKeeps(s4, ColeCole, Users);
        BlockKeeps(s5, StandardPlot, Users);
      case Devices =>
        BlockKeeps(s, Users, Devices);
        assert Upgraded(s1, Devices) == Upgraded(s, Devices);
        BlockKeeps(s2, Measurements, Devices);
        BlockKeeps(s3, Nanothickness, Devices);
        BlockKeeps(s4, ColeCole, Devices);
        BlockKeeps(s5, StandardPlot, Devices);
      case Measurements =>
        BlockKeeps(s, Users, Measurements);
        BlockKeeps(s1, Devices, Measurements);
        assert Upgraded(s2, Measurements) == Upgraded(s, Measurements);
        BlockKeeps(s3, Nanothickness, Measurements);
        BlockKeeps(s4, ColeCole, Measurements);
        BlockKeeps(s5, StandardPlot, Measurements);
      case Nanothickness =>
        BlockKeeps(s, Users, Nanothickness);
        BlockKeeps(s1, Devices, Nanothickness);
        BlockKeeps(s2, Measurements, Nanothickness);
        assert Upgraded(s3, Nanothickness) == Upgraded(s, Nanothickness);
        BlockKeeps(s4, ColeCole, Nanothickness);
        BlockKeeps(s5, StandardPlot, Nanothickness);
      case ColeCole =>
        BlockKeeps(s, Users, ColeCole);
        BlockKeeps(s1, Devices, ColeCole);
        BlockKeeps(s2, Measurements, ColeCole);
        BlockKeeps(s3, Nanothickness, ColeCole);
        assert Upgraded(s4, ColeCole) == Upgraded(s, ColeCole);
        BlockKeeps(s5, StandardPlot, ColeCole);
      case StandardPlot =>
        BlockKeeps(s, Users, StandardPlot);
        BlockKeeps(s1, Devices, StandardPlot);
        BlockKeeps(s2, Measurements, StandardPlot);
        BlockKeeps(s3, Nanothickness, StandardPlot);
        BlockKeeps(s4, ColeCole, StandardPlot);
        assert Upgraded(s5, StandardPlot) == Upgraded(s, StandardPlot);
    }
  }

  /** After the migration all six tables exist, whatever existed before. */
  lemma MigratedHasAllTables(s: Layout, t: Table)
    ensures t in Migrated(s)
  {
  }

  /** A table that was missing exists afterwards with its full CREATE column set. */
  lemma MigratedCreatesMissing(s: Layout, t: Table)
    requires t !in s
    ensures Migrated(s)[t] == CreateColumns(t)
  {
  }

  /**
   * Nothing is removed: every column present before is still there, a
   * present table is not recreated but only gains the listed columns, and
   * every table contains every column its `_add_column_if_missing` calls name.
   */
  lemma MigratedIsMonotone(s: Layout, t: Table)
    ensures t in s ==> s[t] <= Migrated(s)[t]
    ensures t in s ==> Migrated(s)[t] == s[t] + AddedColumns(t)
    ensures AddedColumns(t) <= Migrated(s)[t]
  {
    AddedAreDeclared(t);
  }

  /** Running the migration twice yields the same schema as running it once. */
  lemma {:induction false} MigrateIdempotent(s: Layout)
    ensures Migrated(Migrated(s)) == Migrated(s)
  {
    var m := Migrated(s);
    forall t: Table
      ensures Migrated(m)[t] == m[t]
    {
      AddedAreDeclared(t);
      assert AddedColumns(t) <= m[t];
    }
  }

  /**
   * Only the listed columns are ever added back: a `measurements` table that
   * lost `device_id` and `created_by` (both declared by its CREATE statement)
   * still lacks them after the migration.
   */
  lemma MigrationDoesNotRestoreUnlistedColumns(s: Layout)
    requires Measurements in s
    requires "device_id" !in s[Measurements] && "created_by" !in s[Measurements]
    ensures "device_id" !in Migrated(s)[Measurements] && "created_by" !in Migrated(s)[Measurements]
    ensures "device_id" in CreateColumns(Measurements) && "created_by" in CreateColumns(Measurements)
  {
  }
}
