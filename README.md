# Thermal local app: record keeping, pull, migration and password bytes

This project models the record-keeping core of the thermal measurement desktop
application in Dafny, and proves properties of the model. The application keeps
a local SQLite mirror of a remote PostgreSQL lab database. It lists devices and
their measurements, creates measurements (a row plus a folder), stores readings
imported from CSV files, soft-deletes measurements, pushes a measurement and its
readings to the server, and pulls the whole server back into the local mirror.

Both databases are modelled the same way. A `Records.Store` is an object with
six sequence fields, one per table: users, devices, measurements, cole_cole,
standard_plot and nanothickness. Rows are datatypes. `Records.Valid` states the
constraints the local schema declares: primary keys, UNIQUE columns, foreign
keys (SQLite enforces them because `PRAGMA foreign_keys = ON` is set) and
`UNIQUE (device_id, num_order)`. Service operations are methods that update the
fields of the stores in place. Each method's postcondition gives the new state
as a function of the old one, and lemmas state what that function means. A
failure that happens before `commit` rolls the transaction back, so such a
failure leaves the store as it was.

The files:

- `wrappers.dfy`: `Option`, `Result` and `Outcome`.
- `text.dfy`: Python's `str.strip()` and `str.lower()`.
- `password.dfy`: UTF-8 encoding (RFC 3629) and the 72-byte cut in front of bcrypt (`thermal_local/utils.py`).
- `csv.dfy`: the two CSV readers of `thermal_local/services/sync.py`, which start from the header and rows pandas produced.
- `migrations.dfy`: `migrate_sqlite`, over a map from table to column-name set (`thermal_local/db/migrations.py`).
- `records.dfy`: rows, the constraints and the `Store` class.
- `folders.dfy`: the directory tree under the data root, with pathlib's `/` and `mkdir`.
- `measurements.dfy`: the measurement service (`thermal_local/services/measurements.py`): queries, creation, reading inserts, soft delete and the push.
- `listing.dfy`: the device/measurement join behind `get_devices_and_measurements` and `sync_db_to_filesystem`.
- `sync.dfy`: `_normalize_value` and the pull `sync_server_to_sqlite`.

Ids from `uuid.uuid4()` and the clock value from `datetime.utcnow()` are
parameters. Each carries a precondition that the id is not in use. Whether the
server can be reached is a boolean parameter, one per connection the source
opens. `json.dumps`, `datetime.isoformat` and bcrypt's `checkpw` and `hashpw`
are function parameters.

## Model

| member | source | states |
|---|---|---|
| PasswordBytes.EncodeChar | thermal_local/utils.py:8 | A character encodes to 1 to 4 bytes. It takes one byte exactly when it is ASCII, and that byte is its code. A multi-byte encoding starts with a lead byte and continues with continuation bytes. |
| PasswordBytes.Encode | thermal_local/utils.py:8 | The UTF-8 encoding of a string has between n and 4n bytes. |
| PasswordBytes.EncodeAppend | thermal_local/utils.py:8 | Encoding distributes over concatenation. |
| PasswordBytes.Truncate | thermal_local/utils.py:4-9 | The result is at most 72 bytes and a prefix of the input. It is the input itself when the input has at most 72 bytes, and exactly 72 bytes otherwise. |
| PasswordBytes.ToBcryptBytes | thermal_local/utils.py:7-9 | The bytes handed to bcrypt are at most 72 and a prefix of the password's UTF-8 encoding. |
| PasswordBytes.TruncateIdempotent | thermal_local/utils.py:9 | Cutting an already cut sequence changes nothing. |
| PasswordBytes.SamePrefixSameBytes | thermal_local/utils.py:9 | Two passwords whose encodings share their first 72 bytes give the same bcrypt bytes. |
| PasswordBytes.ShortPasswordKept | thermal_local/utils.py:9 | A password of at most 18 characters keeps its whole encoding. |
| PasswordBytes.LongPasswordCut | thermal_local/utils.py:9 | A password of more than 72 characters gives exactly the first 72 bytes of its encoding. |
| PasswordBytes.CutMaySplitCharacter | thermal_local/utils.py:9 | When 71 bytes precede a two-byte character, the cut keeps only its lead byte, so the result is not valid UTF-8. |
| PasswordBytes.LongPasswordsIndistinguishable | thermal_local/utils.py:12-25 | Passwords sharing their first 72 encoded bytes verify alike against any hash and hash alike. |
| PasswordBytes.VerifyAgainstCut | thermal_local/utils.py:14-18 | Verifying a password is verifying its 72-byte cut again: the cut of the cut gives the same answer. |
| Text.Strip | thermal_local/services/measurements.py:107 | The result has no whitespace at either end. It is the input minus a leading and a trailing run of whitespace. |
| Text.StripTrimmed | thermal_local/services/measurements.py:107 | A string with no whitespace at either end is unchanged by stripping. |
| Text.StripIdempotent | thermal_local/services/measurements.py:107 | Stripping twice is stripping once. |
| Text.StripAllSpace | thermal_local/services/sync.py:127 | A string made only of whitespace strips to the empty string. |
| Text.Lower | thermal_local/services/sync.py:127 | The result has the same length and no upper-case ASCII letter. Every character is unchanged or is an upper-case letter moved to lower case. |
| Text.LowerFixesLowercase | thermal_local/services/sync.py:127 | A string without upper-case letters is unchanged by lowering. |
| Text.LowerIdempotent | thermal_local/services/sync.py:136 | Lowering twice is lowering once. |
| CsvReaders.NormalizeHeaders | thermal_local/services/sync.py:127 | Every header is stripped and lower-cased, position by position. |
| CsvReaders.Select | thermal_local/services/sync.py:128-131 | The reader fails exactly when a required column is absent, and the error names exactly the required columns minus the present ones. On success the frame is rectangular, keeps the row count and holds only required columns. |
| CsvReaders.ReadColeColeCsv | thermal_local/services/sync.py:125-131 | After header normalisation, it fails exactly when one of frequency, resistance, reactance or capacitance is missing, naming required − present. On success it keeps the row count. |
| CsvReaders.ReadStandardPlotCsv | thermal_local/services/sync.py:134-140 | The same for time and voltage. |
| CsvReaders.CanonicalRows | thermal_local/services/sync.py:131 | The projection keeps the row count and gives each row one cell per required column. |
| CsvReaders.SelectionOfDistinct | thermal_local/services/sync.py:131 | With distinct headers, the selected positions are, in order, the positions of the required columns. |
| CsvReaders.SelectDistinct | thermal_local/services/sync.py:131 | With distinct headers containing every required column, the result is exactly the required columns in canonical order, with each row projected. |
| CsvReaders.ReadWithDistinct | thermal_local/services/sync.py:127-131 | The same statement for the whole reader, after normalisation. |
| CsvReaders.SelectIgnoresOrderAndExtras | thermal_local/services/sync.py:131 | Two files holding the same required columns, in any order and with any extra columns, read to the same frame. |
| CsvReaders.ReadIgnoresHeaderSpelling | thermal_local/services/sync.py:127 | Headers that differ only in surrounding whitespace or letter case read alike. |
| CsvReaders.ColeColeMissingAll | thermal_local/services/sync.py:128-130 | A file with none of the four columns fails, naming all four. |
| Migrations.Schema.ExistingColumns | thermal_local/db/migrations.py:7-9 | Gives exactly the column set of an existing table, and the empty set for a missing one. |
| Migrations.Schema.AddColumnIfMissing | thermal_local/db/migrations.py:12-16 | On an existing table, the column set becomes the old one plus the column, and no other table changes. On a missing table, the ALTER fails and nothing changes. |
| Migrations.WithColumn | thermal_local/db/migrations.py:12-16 | Adding a column keeps the table list, puts the column in the table, and leaves every other table alone. |
| Migrations.WithColumnIdempotent | thermal_local/db/migrations.py:12-16 | Adding the same column twice equals adding it once. |
| Migrations.Schema.CreateTableIfNotExists | thermal_local/db/migrations.py:25-35 | An existing table is not touched. A missing one is created with the declared columns. |
| Migrations.Schema.MigrateUsers | thermal_local/db/migrations.py:25-43 | Only users changes. It becomes the CREATE columns if missing, else old + {role, active, hashed_password, created_at, is_delete}. |
| Migrations.Schema.MigrateDevices | thermal_local/db/migrations.py:46-61 | The same for devices and its five listed columns. |
| Migrations.Schema.MigrateMeasurements | thermal_local/db/migrations.py:64-84 | The same for measurements and {name, num_order, created_at, is_delete}. |
| Migrations.Schema.MigrateReadingTable | thermal_local/db/migrations.py:87-137 | The same for nanothickness, cole_cole and standard_plot, adding is_delete. |
| Migrations.Schema.Migrate | thermal_local/db/migrations.py:19-140 | The schema afterwards is `Migrated` of the schema before. |
| Migrations.AddedAreDeclared | thermal_local/db/migrations.py:25-137 | Every column the migration adds to a table is one its CREATE statement declares. |
| Migrations.MigratedHasAllTables | thermal_local/db/migrations.py:25-137 | Every table exists after migration. |
| Migrations.MigratedCreatesMissing | thermal_local/db/migrations.py:25-137 | A table missing before has exactly its CREATE columns afterwards. |
| Migrations.MigratedIsMonotone | thermal_local/db/migrations.py:39-137 | An existing table keeps all its columns and gains exactly the listed ones. Every listed column is present afterwards. |
| Migrations.MigrateIdempotent | thermal_local/db/migrations.py:19-140 | Migrating twice gives the same schema as migrating once. |
| Migrations.MigrationDoesNotRestoreUnlistedColumns | thermal_local/db/migrations.py:81-84 | An old measurements table lacking device_id and created_by still lacks them after migration, though CREATE declares both. |
| Records.DeviceNameIsKey | thermal_local/db/migrations.py:49 | With unique device names, a name identifies a single row. |
| Records.MeasurementIdIsKey | thermal_local/db/migrations.py:66 | With unique measurement ids, an id identifies a single row. |
| Folders.Join | thermal_local/services/measurements.py:134 | `p / ""` and `p / "."` are `p`, as pathlib collapses both. Otherwise the result is `p` extended by the part. |
| Folders.Ancestry | thermal_local/services/measurements.py:134-135 | Holds every non-empty leading part of the path, the path itself included, and nothing else. |
| Folders.FileSystem.MakeDirs | thermal_local/services/measurements.py:135 | `mkdir(parents=True, exist_ok=True)` adds the path and all its ancestors and removes nothing. |
| Folders.FileSystem.MakeDir | thermal_local/services/measurements.py:139-140 | `mkdir(exist_ok=True)` succeeds exactly when the path exists or its parent does. On success it adds the path; on failure it changes nothing. |
| Folders.MakeDirsIdempotent | thermal_local/services/measurements.py:135 | Making the same folders twice is making them once. |
| MeasurementService.GetDeviceId | thermal_local/services/measurements.py:48-56 | Fails with "Device not found" exactly when no device, deleted or not, has the name. Otherwise it returns the id of a device with that name, and with unique names the id of every such device. |
| MeasurementService.GetMeasurementId | thermal_local/services/measurements.py:59-75 | Fails exactly when no live measurement of that name joins a device of that name. Otherwise it returns the id of one that does. |
| MeasurementService.IsMeasurementOwner | thermal_local/services/measurements.py:242-257 | True only for a live measurement with that id created by the user, and false, not an error, for a missing or deleted id. With unique ids this is an if-and-only-if. |
| MeasurementService.HasReadings | thermal_local/services/measurements.py:206-239 | True exactly when a live row of the measurement exists in that reading table. |
| MeasurementService.LiveValues | thermal_local/services/measurements.py:161-203 | The values of the measurement's live rows. The list is empty exactly when there is no such row. |
| MeasurementService.ReadFromDb | thermal_local/services/measurements.py:161-203 | The reader returns rows exactly when the matching `has_*` is true. |
| MeasurementService.CopiedLiveValues | thermal_local/services/measurements.py:259-310 | The rows inserted for a measurement read back as exactly the inserted records, in order. |
| MeasurementService.AppendKeepsValid | thermal_local/services/measurements.py:259-310 | Appending rows with fresh, distinct ids for an existing measurement keeps the table's constraints. |
| MeasurementService.RepeatedCopiesDuplicate | thermal_local/services/measurements.py:259-310 | Inserting the same n records twice leaves 2n live rows: the first copy followed by the second. |
| MeasurementService.AppendReadings | thermal_local/services/measurements.py:262-278 | The loop appends one row per record, with the next fresh id and the measurement id, and changes no other table. |
| MeasurementService.InsertReadings | thermal_local/services/measurements.py:259-310 | Fails exactly when there are records and the measurement does not exist; then nothing changes. Otherwise the copies are appended. Keeps every constraint. |
| MeasurementService.CreateMeasurement | thermal_local/services/measurements.py:99-135 | "already exists" exactly when a live measurement of the same device has the stripped name. An integrity error exactly when there is none but the device is missing; either failure changes nothing. Otherwise exactly one row (fresh id, stripped name, no order number) is appended and the folder with its parents is added. Keeps the constraints and the uniqueness of live names per device. |
| MeasurementService.MeasurementAppendKeepsValid | thermal_local/services/measurements.py:123-130 | A new row with a new id, an existing device and a free order number keeps every constraint. |
| MeasurementService.MarkedHidesOnlyTarget | thermal_local/services/measurements.py:499-515 | After the four UPDATEs, the measurement is deleted and none of its readings is live. No row is added or removed; rows of other measurements are unchanged, and so are their live values. |
| MeasurementService.MarkKeepsOtherValues | thermal_local/services/measurements.py:504-515 | Marking one measurement's readings leaves the live values of every other measurement unchanged. |
| MeasurementService.MarkedKeepsValid | thermal_local/services/measurements.py:499-517 | Soft deletion keeps every constraint. |
| MeasurementService.MarkDeleted | thermal_local/services/measurements.py:499-515 | The four tables become the marked ones. |
| MeasurementService.SoftDeleteMeasurement | thermal_local/services/measurements.py:464-525 | "Measurement not found" and the permission error change neither store. For the owner, the local store is marked. The remote store is then marked too, or is unchanged with the "server sync failed" error while the local change stays. Keeps both stores' constraints. |
| MeasurementService.NamedIndexIsOnlyMatch | thermal_local/services/measurements.py:480-489 | With unique device names and no two live namesakes under one device, every row the name join can return is the one the model picks. So the outcome of `soft_delete_measurement` does not depend on the order SQLite scans in. |
| MeasurementService.MaxOrder | thermal_local/services/measurements.py:339-341 | `MAX(num_order)` over every row of the device, deleted ones included. It is NULL exactly when every order is NULL, and otherwise an upper bound that some row attains. |
| MeasurementService.NextOrder | thermal_local/services/measurements.py:339-345 | The order is above every order of the device. It is 1 when all are NULL. When any order is set, it is one more than an existing order, so it is the maximum plus one. |
| MeasurementService.NextOrderIsFree | thermal_local/services/measurements.py:339-355 | No row of the device already holds the new order. |
| MeasurementService.DeletedRowsCount | thermal_local/services/measurements.py:339-341 | A soft-deleted row with order 5 still makes the next order 6. |
| MeasurementService.PushMeasurement | thermal_local/services/measurements.py:313-357 | Gives "Measurement not found" exactly when no live local row has the id, and an unreachable server exactly when there is one but no connection. A success holds the id, keeps every old row as a prefix and adds at most one row. An id already remote leaves the table as it was. |
| MeasurementService.PushAppendsOrRefuses | thermal_local/services/measurements.py:327-357 | For an id new to the server, a success appends the live local row with the next order number, its device existing remotely. A foreign-key failure means the device is missing remotely. |
| MeasurementService.PushKeepsValid | thermal_local/services/measurements.py:346-356 | A successful push keeps the remote constraints. |
| MeasurementService.SyncMeasurementToServer | thermal_local/services/measurements.py:313-357 | The remote measurements table becomes what `PushMeasurement` says, or stays as it was with the same error. |
| MeasurementService.IdsFor | thermal_local/services/measurements.py:381-428 | Each copy loop gets as many new ids as it copies rows, drawn from the supplied ids; they are distinct when those are. |
| MeasurementService.CopyReadingsToServer | thermal_local/services/measurements.py:366-430 | An unreachable server fails and changes nothing. Otherwise each remote reading table gains, in order, a copy of every live local row of the measurement, each with a new id, so the remote live values become the old ones followed by the local ones. The remote constraints are kept. |
| MeasurementService.CopiesAppendValues | thermal_local/services/measurements.py:372-428 | After the copies, the remote live values of the measurement are the old ones followed by the local ones. |
| MeasurementService.SyncSqliteToServer | thermal_local/services/measurements.py:360-432 | Fails exactly as the push does, changing nothing. Otherwise the measurement is pushed, and the readings are copied unless the second connection fails. Copies are never matched against rows already remote, so a second push duplicates them. Keeps the remote constraints. |
| MeasurementService.CopyKeepsValid | thermal_local/services/measurements.py:381-391 | One copy loop with fresh ids for an existing measurement keeps the remote constraints. |
| DeviceListing.LiveOf | thermal_local/services/measurements.py:34-36 | Exactly the live measurements of the device. |
| DeviceListing.JoinedDevices | thermal_local/services/measurements.py:30-36 | The join names exactly the live devices, including those without measurements. |
| DeviceListing.JoinedMeasurements | thermal_local/services/measurements.py:30-36 | A join row carries a measurement name exactly when a live measurement of that name belongs to a live device of that name. |
| DeviceListing.InsertRow | thermal_local/services/measurements.py:37 | Insertion adds the row to the multiset and keeps the rows sorted by created_at, NULL first. |
| DeviceListing.SortByCreated | thermal_local/services/measurements.py:37 | The result is a permutation of the join rows, sorted by created_at. |
| DeviceListing.NamesForMembers | thermal_local/services/measurements.py:41-43 | A name is listed for a device name exactly when it is non-empty and some row of that device carries it. |
| DeviceListing.GroupedMeaning | thermal_local/services/measurements.py:39-43 | The dictionary has one key per device name among the rows. Its list holds that name's truthy measurement names in row order. |
| DeviceListing.ListingMeaning | thermal_local/services/measurements.py:27-45 | Every live device name, and no other, is a key, mapped to the non-empty names of the live measurements of that device name. The names follow the sorted rows, and those rows are a created_at-sorted permutation of the join. |
| DeviceListing.GetDevicesAndMeasurements | thermal_local/services/measurements.py:27-45 | The query followed by the grouping loop returns exactly `Listing` of the store. |
| DeviceListing.GroupRows | thermal_local/services/measurements.py:38-42 | The `setdefault`-then-append loop over the rows builds `Grouped` of the rows, which `GroupedMeaning` characterises. |
| DeviceListing.FoldersMembers | thermal_local/services/measurements.py:150-157 | A folder is made exactly when some join row asks for it. |
| DeviceListing.DbFolders | thermal_local/services/measurements.py:144-157 | The folders are one per live device and one per live measurement with a non-empty name, inside its device's folder. |
| DeviceListing.MakeRowFolders | thermal_local/services/measurements.py:151-156 | One iteration adds the device folder and, for a truthy name, the measurement folder inside it. |
| DeviceListing.SyncDbToFilesystem | thermal_local/services/measurements.py:138-158 | Succeeds exactly when the data root (or its devices folder) exists. Then it adds `devices` and the folders of every join row and removes nothing; otherwise it changes nothing. |
| ServerSync.Normalize | thermal_local/services/sync.py:15-22 | The result is never a dict, list, Decimal or datetime. A dict or list becomes the text `json.dumps` gives for it, a Decimal a float of the same number, and a datetime the text `isoformat` gives for it. Any other value is returned unchanged. |
| ServerSync.NormalizeIdempotent | thermal_local/services/sync.py:15-22 | Normalising twice is normalising once. |
| ServerSync.NormalizeAll | thermal_local/services/sync.py:57 | A normalised row keeps its length and holds no special value. |
| ServerSync.CountId | thermal_local/services/sync.py:84 | A measurement finds a join partner exactly when its device id is among the remote devices. |
| ServerSync.CountIdOfKey | thermal_local/services/sync.py:84 | With unique device ids, it finds exactly one. |
| ServerSync.PulledMembers | thermal_local/services/sync.py:75-91 | A measurement is pulled exactly when it is a remote one, made live, whose device exists remotely. |
| ServerSync.PulledIsCopy | thermal_local/services/sync.py:75-91 | With unique device ids and no dangling foreign key, the join copies every remote measurement once, in order. |
| ServerSync.ReloadedComesFromRemote | thermal_local/services/sync.py:44-115 | After a pull every id comes from the server, so a measurement never pushed is gone. nanothickness is empty. Every reloaded row is live, because `is_delete` is never copied. |
| ServerSync.PulledJoinsDevices | thermal_local/services/sync.py:75-91 | Exactly the remote measurements whose device exists remotely are pulled. |
| ServerSync.ValidRemoteReloads | thermal_local/services/sync.py:51-117 | A remote store that meets the constraints reloads into a local store that meets them, so the pull commits. |
| ServerSync.ClearingKeepsValid | thermal_local/services/sync.py:44-49 | After each DELETE, children before parents, the constraints still hold. After all six the store is empty. |
| ServerSync.Pull | thermal_local/services/sync.py:25-122 | An unreachable server changes nothing. Otherwise the pull succeeds exactly when the reloaded tables meet the constraints, and the local store then equals them. On failure the store is rolled back with an integrity error. |

## Left out

- `get_device_structure` (thermal_local/services/measurements.py:78-96) parses JSON with a library parser. It is not part of this model.
- `pd.read_csv` and `pd.read_sql_query` are file and driver I/O. The readers start from a header row and rows already split into cells.
- The `float(...)` conversions of reading values are not modelled. Values are copied as they are, and a Decimal keeps its number as a float.
- The SQL text, the sqlite3 and psycopg2 connections and the server configuration are not modelled. A failed connection is a boolean parameter.
- `uuid.uuid4()` and `datetime.utcnow()` are parameters. `created_at` is an integer stamp that keeps only its order, or NULL. The ISO-8601 text stored locally and `isoformat` of pulled timestamps are not modelled.
- `ORDER BY d.name` only orders the keys of the listing dictionary. The model returns a map and does not keep key order. Ties on `created_at` keep table order, where SQL leaves them unspecified.
- The row order of the pull's `JOIN devices` follows the remote measurements table.
- The remote PostgreSQL schema is taken to have the same constraints as the local one, and `is_delete` defaults to live there too.
- `ON CONFLICT DO NOTHING` on the copied readings never fires, because the copies carry new ids.
- `ON DELETE CASCADE` never fires. The pull clears children before parents, and soft deletion only updates rows.
- NOT NULL constraints, column types and SQLite's type affinity are not modelled.
- `mkdir` raising because a regular file already occupies the path is not modelled, since files are not modelled. Path separators inside names are not modelled either. A `..` part stays a component, as pathlib keeps it, but the model treats it as a directory name rather than as the parent.
- bcrypt (`checkpw`, `hashpw`, `gensalt`) is a foreign library and appears only as function parameters.
- `_sync_soft_delete_to_server` either commits all four UPDATEs or none. Its failure is a boolean parameter.
- thermal_local/ui/app.py, thermal_local/paths.py and the root `sync.py` and `app.py` are not part of this model. `read_nanothickness_csv` is imported by the UI but defined nowhere in the sources, so it is not modelled.
- PasswordBytes.Encode: Dafny's `char` holds Unicode scalar values only. A string with a lone surrogate, on which `encode("utf-8")` raises UnicodeEncodeError, cannot be written, so `get_password_hash` and `verify_password` lose that error path.
- Migrations.Schema.AddColumnIfMissing: column names are compared case-sensitively, as the source's own check does. SQLite's ALTER TABLE also refuses a column that differs from an existing one only in ASCII case ("duplicate column name"). That failure, which would stop the migration before the remaining blocks run, is not modelled. For an old schema holding such a case variant, `Migrate` still gives `Migrated`, where the source stops with an error.
- MeasurementService.SoftDeleteMeasurement: the lookup has no ORDER BY, and SQLite may return any matching row. Live names are checked only against the local store, so a pull can bring in two live measurements of one name under one device, created on two clients. In that state the model decides on the first match in table order, where SQLite may pick the other row. With no such namesakes, `NamedIndexIsOnlyMatch` shows that the choice does not matter. `GetMeasurementId` commits to no particular match.
- Text.Lower: lower-cases ASCII letters only. Python's `str.lower()` also folds non-ASCII letters.
- MeasurementService.IsMeasurementOwner: the if-and-only-if is stated under unique measurement ids, which the primary key guarantees. Without it, only the first live row found decides.
- MeasurementService.GetDeviceId: the returned id is pinned to every device of that name only under unique names, which the UNIQUE column guarantees.
- MeasurementService.SyncSqliteToServer: requires the supplied ids to be distinct and unused remotely, standing for fresh `uuid4` values.
