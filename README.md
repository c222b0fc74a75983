# schema-migrations, modelled in Dafny

`SchemaMigrations` (index.js) is a small migration runner for PostgreSQL and
SQLite. It is built from:

- a base directory;
- a database handle;
- a `config` with `type` and `close`.

Construction picks the dialect and throws when the base directory is missing
or when the handle lacks the methods that dialect calls. `run()` then works
in four phases:

1. It creates the `schema_migrations` table if it does not exist.
2. It loads the applied versions from that table.
3. It lists `<base>/db/migrations` and takes, for every file name that holds
   a digit, the leftmost run of digits as that file's version.
4. It calls each pending migration module in listing order. It stops at the
   first module that returns `false`, and inserts a bookkeeping row after
   each module that succeeds.

The model has these files:

- `digits.dfy` (`DigitRun`) holds the regular expression `/\d+/`: both the
  `test` and the `match(...)[0]`.
- `discovery.dfy` (`Discovery`) holds what the listing walk produces: the
  version list and the version-to-file dictionary.
- `pending.dfy` (`Reconcile`) holds the decision what is pending. Postgresql
  tests whether the version was loaded. Sqlite compares the position with
  the number of loaded rows. `Walk` is the reference definition of the
  pending loop: which files are run, which versions are saved and how the
  loop ends. The lemmas there cover fail-fast, checkpointing, skipping what
  was applied, idempotence and resuming after a failure.
- `runner.dfy` (`Runner`) holds the `SchemaMigrations` class with its
  fields, and the database handle as a class whose table and log of
  executed modules the methods update in place. Each method is proved
  against the functions above. `Create` is the throwing constructor, and
  `RunTwice` runs the whole thing twice.
- `scenarios.dfy` (`Scenarios`) holds a few concrete listings and runs.

The environment is made of parameters:

- `fs.existsSync` becomes `pathExists: string -> bool`.
- `fs.readdirSync` becomes the listing `files: seq<string>`.
- `require(...)(this.db)` becomes `migrations: string -> Outcome`, which maps
  a file name to what calling its module produced: a success, `false`, or an
  exception.
- The effect of a migration on the database is recorded as the file name
  appended to `Database.executed`.

These behaviours follow the code:

- Versions run in listing order; nothing sorts them numerically. A byte-wise sorted listing thus runs "10_b.js" before "2_a.js".
- Loaded versions are kept in table order.
- Duplicated versions are kept. The dictionary keeps the last file listed
  for a version.
- `run` resolves to `true` even when a migration returned `false`, because
  the result of `run_pending_migrations` is discarded at index.js:82.
- An exception thrown by a migration rejects `run`, and `end()` is then not
  called.

## Model

| member | source | states |
|---|---|---|
| Runner.SchemaMigrations.constructor | index.js:15-26 | The fields are base and db as given. The dialect is sqlite exactly when `config.type` is the string "sqlite", and postgresql for every other value, absent included. `close` comes from the config. The three collections start empty. |
| Runner.Create | index.js:15-29 | Construction succeeds iff base is given, the path exists and the handle is complete for the dialect. A missing directory is reported first; otherwise an incomplete interface is reported for the chosen dialect. On success the object is fresh, valid and has empty collections. |
| Runner.SchemaMigrations.CheckBaseDirectory | index.js:39-44 | Throws exactly when base is undefined or does not exist, and the error names the base. |
| Runner.SchemaMigrations.CheckDbInterface | index.js:54-68 | Throws exactly when the handle is missing or lacks `query`, or, for sqlite, lacks `prepare`. The error names the dialect. |
| Runner.Database.constructor | index.js:15 | The handle has the given methods and table, nothing has been executed on it, and it is open. |
| Runner.SchemaMigrations.CreateIfNotExistsSchemaMigrations | index.js:97-107 | Afterwards the table exists. Its rows are unchanged when it already existed, and it is empty when it did not. Nothing else changes. |
| Runner.SchemaMigrations.CollectAllSchemaMigrations | index.js:117-133 | `schemaMigrations` becomes the old list followed by the `version` of every row, in table order. The file fields are unchanged. |
| Runner.SchemaMigrations.CollectAllMigrationFiles | index.js:142-151 | The version list grows by `MigrationVersions(files)`. The dictionary becomes `RecordFiles` of the old one. Every version still has a file. |
| Runner.SchemaMigrations.SaveVersionToDb | index.js:194-202 | Appends one row: the version for postgresql, a NULL version (`DEFAULT VALUES`) for sqlite. Nothing else changes. |
| Runner.SchemaMigrations.RunPendingMigrations | index.js:160-184 | The rows appended, the modules run and the ending are exactly those of `Walk` over the loaded versions, the discovered versions and the dictionary. |
| Runner.SchemaMigrations.Run | index.js:78-87 | On an open handle the four phases run in order, and the new table and log are those of `Walk` over the state the first three phases built. A module that threw makes `run` reject, and the handle stays open. Otherwise `run` is `Success(true)`, even after a `false`, and the handle is ended only when `close` is set. On a handle that was already ended, the first query (index.js:98) rejects and nothing changes. |
| Runner.RunTwice | index.js:78-87 | A first `run` in which every pending module succeeds, followed by a second runner over the same handle and listing. The first resolves to `true`. The second resolves to `true` too, unless `config.close` made the first run end the handle; then it rejects at its first query. Either way the table and the log stay as the first run left them (idempotence). A handle ended before the first run makes both reject without changes. |
| Runner.InterfaceComplete | index.js:55-67 | Definition (no contract): the handle exists and defines `query`, and for sqlite also `prepare`. |
| Runner.Created | index.js:97-107 | Definition (no contract): the table after `CREATE TABLE IF NOT EXISTS` is unchanged when it existed and empty when it did not. |
| DigitRun.HasDigit | index.js:146 | Definition (no contract): some character of the name is an ASCII digit, as `/\d+/.test` asks. |
| DigitRun.FirstDigitFrom | index.js:146 | The result is the first digit position at or after `from`, or the length when there is none. |
| DigitRun.DigitRunEnd | index.js:147 | The result is the end of the maximal run of digits that starts at `from`. |
| DigitRun.MatchDigits | index.js:146-148 | There is no match exactly when the name holds no digit. A match is the leftmost, maximal run of digits. |
| DigitRun.LeftmostRunUnique | index.js:147 | The leftmost maximal run is unique, so the description of `MatchDigits` determines its result. |
| DigitRun.MatchOfLeftmostRun | index.js:147 | Any run fitting the description is what the match returns. |
| DigitRun.MatchIsDigits | index.js:146-147 | A name with a digit matches a non-empty string made only of digits. |
| Discovery.MigrationVersions | index.js:145-147 | Definition (no contract): the leftmost digit run of every listed name that holds a digit, in listing order. Its lemmas are the rows below. |
| Discovery.RecordFiles | index.js:148 | Every discovered version is a key of the resulting dictionary. |
| Discovery.VersionsAppend | index.js:145-149 | Walking two listings one after the other appends their versions: order and duplicates are kept. |
| Discovery.VersionsOfOne | index.js:146-147 | A single name contributes its match when it holds a digit, and nothing otherwise. |
| Discovery.FileGivesVersion | index.js:145-147 | Every listed name that holds a digit contributes its version. |
| Discovery.VersionHasFile | index.js:145-147 | Every discovered version comes from some listed name. |
| Discovery.VersionsMembership | index.js:145-149 | A version is discovered iff some listed name's match is that version. |
| Discovery.VersionsCount | index.js:145-149 | There are exactly as many discovered versions as listed names that hold a digit. |
| Discovery.RecordFilesKeys | index.js:148 | The dictionary's keys are the old keys plus the discovered versions, and nothing else. |
| Discovery.RecordFilesLastWins | index.js:148 | A version maps to the last listed name that carries it. |
| Discovery.RecordFilesElsewhere | index.js:148 | A version no listed name carries keeps its old entry, or stays absent. |
| Reconcile.DialectOf | index.js:18-22 | Definition (no contract): sqlite exactly for the string "sqlite", postgresql for every other value, absent included. |
| Reconcile.RowFor | index.js:195-201 | Definition (no contract): the inserted row holds the version for postgresql and NULL (`DEFAULT VALUES`) for sqlite. |
| Reconcile.RowsFor | index.js:194-201 | Saving k versions inserts exactly k rows, so sqlite's row count grows by one per success. |
| Reconcile.RowsForAt | index.js:194-201 | The k-th inserted row is the row for the k-th saved version. |
| Reconcile.RowsForSnoc | index.js:168 | Saving one more version appends its row after the rows already saved. |
| Reconcile.VersionsOf | index.js:121-123 | Loading yields one entry per row. |
| Reconcile.VersionsOfAt | index.js:121-123 | The k-th loaded entry is the `version` of the k-th row. |
| Reconcile.VersionsOfAppend | index.js:121-123 | Loading two tables one after the other gives both lists of versions in order. |
| Reconcile.Filenames | index.js:164 | The k-th file looked up is the dictionary entry of the k-th version. |
| Reconcile.IsPending | index.js:163-175 | Definition (no contract): postgresql tests whether the version was loaded; sqlite tests `i + 1 > \|schema_migrations\|`. |
| Reconcile.Walk | index.js:160-184 | Definition (no contract): the reference for the pending loop. It is characterised by `WalkFollowsPending`, and `RunPendingMigrations` is proved equal to it. |
| Reconcile.PendingFrom | index.js:162-163 | Every pending version is a discovered version. |
| Reconcile.WalkSkips | index.js:163 | A position that is not pending is passed over without effect. |
| Reconcile.WalkStops | index.js:165-167 | At a pending position whose module does not succeed, the walk ends: that file is the last one run, and nothing more is saved. |
| Reconcile.WalkAdvances | index.js:165-168 | At a pending position whose module succeeds, the file is run and then the version is saved, before the next position. |
| Reconcile.FollowsPendingCons | index.js:165-168 | A success in front of a walk over the rest gives a walk over the pending list with that version first. |
| Reconcile.FollowsPendingStop | index.js:167 | A failing first pending version gives a walk that ran only its file and saved nothing. |
| Reconcile.WalkFollowsPending | index.js:162-183 | Fail-fast and checkpointing. The saved versions are a prefix of the pending versions, in order, and each of their modules succeeded. If all succeeded, every pending file ran and the loop finished. Otherwise the files run are those up to and including the first pending version that did not succeed, that version is not saved, and the ending is its outcome. |
| Reconcile.PostgresPending | index.js:162-163 | Postgresql: a version is pending iff it was discovered and is not among the loaded versions. |
| Reconcile.SqlitePending | index.js:174-175 | Sqlite: the pending versions are exactly the discovered versions from position \|schema_migrations\| on. |
| Reconcile.PostgresSkipsApplied | index.js:162-170 | Postgresql: a loaded version is never pending and is never saved again. |
| Reconcile.RecordedPostgres | index.js:196 | Postgresql: reloading the rows inserted for some versions finds exactly those versions. |
| Reconcile.RerunAfterCompletionDoesNothing | index.js:160-201 | After a walk that finished, reloading the table leaves nothing pending, and a second walk runs and saves nothing under any migration outcomes. |
| Reconcile.RerunOverTable | index.js:117-201 | The same, stated over the table rows: after a finished walk, a walk over the reloaded rows is empty. |
| Reconcile.PostgresPendingCongruent | index.js:163 | Postgresql: the pending list from a position depends only on which of the remaining versions are loaded. |
| Reconcile.InAppliedPlus | index.js:163 | Postgresql: a version is in the loaded list followed by newly saved rows iff it was loaded or was saved. |
| Reconcile.RecordingOtherVersion | index.js:163 | Postgresql, distinct versions: saving the version at one position does not change whether later versions are loaded. |
| Reconcile.PostgresPendingDropHead | index.js:163 | The inductive step of `PostgresPendingDrop` at a pending position. |
| Reconcile.PostgresPendingDrop | index.js:163 | Postgresql, distinct versions: saving the first n pending versions removes exactly those from the pending list. |
| Reconcile.PendingAfterWalk | index.js:160-201 | Resuming after a failure: reloading the table after any walk leaves exactly the pending versions that were not saved, in the same order. Postgresql needs distinct versions for this. |
| Scenarios.MatchTakesLeftmostRun | index.js:147 | "v12_add_3_columns.js" has version "12". |
| Scenarios.TwoFileListing | index.js:145-148 | The listing "10_b.js", "2_a.js" gives the versions "10", "2", in that order, and the dictionary maps each to its file. |
| Scenarios.ListingOrderIsRunOrder | index.js:145-168 | Over that listing, on an empty postgresql table with every module succeeding, "10_b.js" runs before "2_a.js" and version 10 is saved before version 2: there is no numeric sort. |
| Scenarios.DigitlessNameIsIgnored | index.js:146 | "README.md" contributes no version. |
| Scenarios.SecondMigrationFails | index.js:162-168 | With versions 1, 2 and 3 pending and version 2 returning `false`, files 1 and 2 are run, only version 1 is saved, and the loop halts. |

## Left out

- The file system: `fs.existsSync` is a parameter, and the directory listing is an input sequence. `path.join` is not modelled: the model works on file names only. An error from `readdirSync` because `db/migrations` is missing is not modelled.
- SQL text and the driver: the `CREATE TABLE` transaction, `query` and `prepare(...).all()` are modelled by their effect on the abstract table. The two `SELECT` loops, one per dialect, are one loop over the table's rows. Errors raised by the driver or the storage are not modelled.
- The `$1::bigint` cast of `save_version_to_db` is not modelled: the saved version is the matched string. The real cast drops leading zeros, so "001" is stored as "1" and would not be found again. It also rejects versions whose value exceeds 9223372036854775807, whatever their length, while a long version with leading zeros, such as "0000000000000000000012", is accepted and stored as "12".
- The primary-key violation of a duplicated insert is not modelled. Postgresql runs a version listed twice at both positions, because the in-memory list is not updated during the loop; the model then records two rows where the database would throw on the second insert.
- Dynamic `require` and the migration bodies: a migration is a function from its file name to its outcome. It is pure, so a module cannot behave differently on a second call, and what it does to other tables is abstracted to its name in `Database.executed`.
- `async`/`await`: the phases are awaited one after another, so they are modelled as sequential calls.
- Runner.Create: takes a `Config` value, so it does not model `new SchemaMigrations(base, db, null)`. The default `config={}` applies only to `undefined`, so a `null` config throws a TypeError at index.js:18, before either check runs.
- Values of `config.type` that are not strings are folded into `None` (postgresql), which is what the strict comparison with "sqlite" does. `config.close` is reduced to its truthiness.
- `db.end()` is modelled as clearing `Database.open`, and the handle is assumed to define `end()`: the interface check (index.js:55-67) does not ask for it, so a handle without it makes index.js:84 throw a TypeError after every migration has run and been saved, and `run` rejects there. A query on an ended handle is modelled as rejecting `run` with `HandleEnded`; the driver's own error is not modelled.
- The closing brace at index.js:108, which ends the class body early, is treated as a typing slip and not modelled.
- `Runner.RunTwice` covers only a first run in which every pending module succeeds. After a failure, resuming is stated at the level of the pending list by `Reconcile.PendingAfterWalk`, which for postgresql assumes distinct versions.
