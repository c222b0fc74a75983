/**
 * The `SchemaMigrations` class and the database handle it works on.  The
 * file system, the loading of migration modules and the SQL driver are
 * parameters: the existence test for the base directory, the listing of
 * `<base>/db/migrations`, and a function from a migration's file name to
 * what calling that module produced.
 */
module Runner {
  import opened Wrappers
  import opened DigitRun
  import opened Discovery
  import opened Reconcile

  /** The errors the constructor throws. */
  datatype ConfigError = MissingDirectory(base: Option<string>) | IncompleteDbInterface(dialect: Dialect)

  /** Why `run` rejects: a migration module threw, or the handle had already been ended. */
  datatype RunError = MigrationError | HandleEnded

  /** The `config` argument: `config.type` and whether `config.close` is truthy. */
  datatype Config = Config(dbType: Option<string>, close: bool)

  /**
   * The host's database handle: which of `query` and `prepare` it defines,
   * the `schema_migrations` table, the migration modules that have been
   * run against it, and whether `end()` has been called.
   */
  class Database {
    const hasQuery: bool
    const hasPrepare: bool
    var tableExists: bool
    var rows: seq<Row>
    var executed: seq<string>
    var open: bool

    constructor (hasQuery: bool, hasPrepare: bool, tableExists: bool, rows: seq<Row>)
      ensures this.hasQuery == hasQuery && this.hasPrepare == hasPrepare
      ensures this.tableExists == tableExists && this.rows == rows
      ensures executed == [] && open
    {
      this.hasQuery, this.hasPrepare := hasQuery, hasPrepare;
      this.tableExists, this.rows := tableExists, rows;
      executed, open := [], true;
    }
  }

  /** The handle is there and defines what the dialect calls: `query`, and for sqlite also `prepare`. */
  predicate InterfaceComplete(d: Dialect, db: Database?) {
    db != null && db.hasQuery && (d == Sqlite ==> db.hasPrepare)
  }

  /** The table after `CREATE TABLE IF NOT EXISTS`: unchanged when it existed, empty when it did not. */
  function Created(tableExists: bool, rows: seq<Row>): seq<Row> {
    if tableExists then rows else []
  }

  class SchemaMigrations {
    const base: Option<string>
    const db: Database?
    const dialect: Dialect
    const close: bool
    var schemaMigrations: seq<Option<string>>
    var migrationFileVersions: seq<string>
    var migrationFiles: map<string, string>

    /** What a constructed object satisfies: the checks passed and every discovered version has a file. */
    ghost predicate Valid()
      reads this
    {
      base.Some? && InterfaceComplete(dialect, db) && AllNamed(migrationFileVersions, migrationFiles)
    }

    /** The field set-up of the constructor; the checks it then runs are in `Create`. */
    constructor (base: Option<string>, db: Database?, config: Config)
      ensures this.base == base && this.db == db && close == config.close
      ensures dialect == DialectOf(config.dbType)
      ensures schemaMigrations == [] && migrationFileVersions == [] && migrationFiles == map[]
    {
      this.base := base;
      this.db := db;
      if config.dbType == Some("sqlite") {
        dialect := Sqlite;
      } else {
        dialect := Postgresql;
      }
      close := config.close;
      schemaMigrations := [];
      migrationFileVersions := [];
      migrationFiles := map[];
    }

    /** The base directory must be given and must exist; `pathExists` is `fs.existsSync`. */
    method CheckBaseDirectory(pathExists: string -> bool) returns (err: Option<ConfigError>)
      ensures err.None? <==> base.Some? && pathExists(base.value)
      ensures err.Some? ==> err.value == MissingDirectory(base)
    {
      if base.None? || !pathExists(base.value) {
        return Some(MissingDirectory(base));
      }
      return None;
    }

    /** The handle must define `query`, and for sqlite also `prepare`. */
    method CheckDbInterface() returns (err: Option<ConfigError>)
      ensures err.None? <==> InterfaceComplete(dialect, db)
      ensures err.Some? ==> err.value == IncompleteDbInterface(dialect)
    {
      err := None;
      if dialect == Postgresql {
        if db == null || !db.hasQuery {
          return Some(IncompleteDbInterface(Postgresql));
        }
      }
      if dialect == Sqlite {
        if db == null || !db.hasQuery || !db.hasPrepare {
          return Some(IncompleteDbInterface(Sqlite));
        }
      }
    }

    /** `CREATE TABLE IF NOT EXISTS schema_migrations`, in its own transaction. */
    method CreateIfNotExistsSchemaMigrations()
      requires Valid()
      modifies db
      ensures db.tableExists && db.rows == Created(old(db.tableExists), old(db.rows))
      ensures db.executed == old(db.executed) && db.open == old(db.open)
    {
      if !db.tableExists {
        db.tableExists, db.rows := true, [];
      }
    }

    /** Pushes the `version` of every row of `schema_migrations` onto `schemaMigrations`. */
    method CollectAllSchemaMigrations()
      requires Valid()
      modifies this
      ensures Valid()
      ensures schemaMigrations == old(schemaMigrations) + VersionsOf(db.rows)
      ensures migrationFileVersions == old(migrationFileVersions) && migrationFiles == old(migrationFiles)
    {
      var result := db.rows;
      var i := 0;
      while i < |result|
        invariant 0 <= i <= |result|
        invariant schemaMigrations == old(schemaMigrations) + VersionsOf(result[..i])
        invariant migrationFileVersions == old(migrationFileVersions) && migrationFiles == old(migrationFiles)
      {
        assert result[..i + 1][..i] == result[..i];
        schemaMigrations := schemaMigrations + [result[i].version];
        i := i + 1;
      }
      assert result[..i] == result;
    }

    /**
     * Walks the listing of `<base>/db/migrations`; each name holding a digit
     * adds its leftmost digit run to `migrationFileVersions` and maps that
     * version to the name.
     */
    method CollectAllMigrationFiles(files: seq<string>)
      requires Valid()
      modifies this
      ensures Valid()
      ensures migrationFileVersions == old(migrationFileVersions) + MigrationVersions(files)
      ensures migrationFiles == RecordFiles(old(migrationFiles), files)
      ensures schemaMigrations == old(schemaMigrations)
    {
      var i := 0;
      while i < |files|
        invariant 0 <= i <= |files|
        invariant migrationFileVersions == old(migrationFileVersions) + MigrationVersions(files[..i])
        invariant migrationFiles == RecordFiles(old(migrationFiles), files[..i])
        invariant schemaMigrations == old(schemaMigrations)
        invariant AllNamed(migrationFileVersions, migrationFiles)
      {
        assert files[..i + 1][..i] == files[..i];
        var f := files[i];
        if HasDigit(f) {
          var v := MatchDigits(f).value;
          migrationFileVersions := migrationFileVersions + [v];
          migrationFiles := migrationFiles[v := f];
        }
        i := i + 1;
      }
      assert files[..i] == files;
    }

    /** Appends the bookkeeping row for `version`. */
    method SaveVersionToDb(version: string)
      requires Valid()
      modifies db
      ensures db.rows == old(db.rows) + [RowFor(dialect, version)]
      ensures db.tableExists == old(db.tableExists) && db.executed == old(db.executed) && db.open == old(db.open)
    {
      match dialect {
        case Postgresql => db.rows := db.rows + [Row(Some(version))];
        case Sqlite => db.rows := db.rows + [Row(None)];
      }
    }

    /**
     * Runs each pending migration in the order of `migrationFileVersions`;
     * `migrations` gives what calling the module in a file produces.  The
     * rows added and the modules run are those of `Walk`.
     */
    method RunPendingMigrations(migrations: string -> Outcome) returns (ending: Ending)
      requires Valid()
      modifies db
      ensures var t := Walk(dialect, schemaMigrations, migrationFileVersions, migrationFiles, migrations, 0);
              ending == t.ending
              && db.rows == old(db.rows) + RowsFor(dialect, t.saved)
              && db.executed == old(db.executed) + t.ran
      ensures db.tableExists == old(db.tableExists) && db.open == old(db.open)
    {
      var versions, applied, files := migrationFileVersions, schemaMigrations, migrationFiles;
      ghost var whole := Walk(dialect, applied, versions, files, migrations, 0);
      ghost var ran: seq<string> := [];
      ghost var saved: seq<string> := [];
      assert SplitAt(whole, ran, saved, whole);
      var i := 0;
      while i < |versions|
        invariant 0 <= i <= |versions|
        invariant SplitAt(whole, ran, saved, Walk(dialect, applied, versions, files, migrations, i))
        invariant db.rows == old(db.rows) + RowsFor(dialect, saved)
        invariant db.executed == old(db.executed) + ran
        invariant db.tableExists == old(db.tableExists) && db.open == old(db.open)
      {
        var v := versions[i];
        var pending := match dialect
          case Postgresql => Some(v) !in applied
          case Sqlite => i + 1 > |applied|;
        assert pending == IsPending(dialect, applied, versions, i);
        if pending {
          var filename := files[v];
          var result := migrations(filename);
          assert (old(db.executed) + ran) + [filename] == old(db.executed) + (ran + [filename]);
          db.executed := db.executed + [filename];
          if result == ReturnedFalse {
            WalkStops(dialect, applied, versions, files, migrations, i, whole, ran, saved);
            return Halted;
          }
          if result == Threw {
            WalkStops(dialect, applied, versions, files, migrations, i, whole, ran, saved);
            return Raised;
          }
          WalkAdvances(dialect, applied, versions, files, migrations, i, whole, ran, saved);
          ran := ran + [filename];
          RowsForSnoc(old(db.rows), dialect, saved, v);
          SaveVersionToDb(v);
          saved := saved + [v];
        } else {
          WalkSkips(dialect, applied, versions, files, migrations, i);
        }
        i := i + 1;
      }
      assert SplitAt(whole, ran, saved, Trace([], [], Finished));
      assert ran + [] == ran && saved + [] == saved;
      return Finished;
    }

    /**
     * The four phases in order; `run` resolves to `true` whatever the walk
     * ended with, rejects when a migration threw, and calls `end()` on the
     * handle only when `config.close` was set and no migration threw (the
     * handle is taken to define `end()`, which the interface check does not
     * ask for).  On a handle that has already been ended, the first query
     * rejects and nothing else happens.
     */
    method Run(files: seq<string>, migrations: string -> Outcome) returns (r: Result<bool, RunError>)
      requires Valid()
      modifies this, db
      ensures Valid()
      ensures !old(db.open) ==>
                r == Failure(HandleEnded) && !db.open
                && schemaMigrations == old(schemaMigrations) && migrationFileVersions == old(migrationFileVersions)
                && migrationFiles == old(migrationFiles)
                && db.tableExists == old(db.tableExists) && db.rows == old(db.rows) && db.executed == old(db.executed)
      ensures old(db.open) ==>
                schemaMigrations == old(schemaMigrations) + VersionsOf(Created(old(db.tableExists), old(db.rows)))
                && migrationFileVersions == old(migrationFileVersions) + MigrationVersions(files)
                && migrationFiles == RecordFiles(old(migrationFiles), files)
      ensures old(db.open) ==>
                var t := Walk(dialect, schemaMigrations, migrationFileVersions, migrationFiles, migrations, 0);
                db.tableExists
                && db.rows == Created(old(db.tableExists), old(db.rows)) + RowsFor(dialect, t.saved)
                && db.executed == old(db.executed) + t.ran
                && (t.ending == Raised ==> r == Failure(MigrationError) && db.open)
                && (t.ending != Raised ==> r == Success(true) && db.open == !close)
    {
      if !db.open {
        return Failure(HandleEnded);
      }
      CreateIfNotExistsSchemaMigrations();
      CollectAllSchemaMigrations();
      CollectAllMigrationFiles(files);
      var ending := RunPendingMigrations(migrations);
      if ending == Raised {
        return Failure(MigrationError);
      }
      if close {
        db.open := false;
      }
      return Success(true);
    }
  }

  /**
   * `new SchemaMigrations(base, db, config)`: sets the fields, then throws
   * when the base directory is missing or, failing that, when the handle
   * lacks what the dialect calls.
   */
  method Create(base: Option<string>, pathExists: string -> bool, db: Database?, config: Config)
    returns (r: Result<SchemaMigrations, ConfigError>)
    ensures r.Success? <==> base.Some? && pathExists(base.value) && InterfaceComplete(DialectOf(config.dbType), db)
    ensures r.Failure? ==> r.error == if base.Some? && pathExists(base.value)
                                     then IncompleteDbInterface(DialectOf(config.dbType))
                                     else MissingDirectory(base)
    ensures r.Success? ==> fresh(r.value) && r.value.Valid()
                           && r.value.base == base && r.value.db == db
                           && r.value.dialect == DialectOf(config.dbType) && r.value.close == config.close
                           && r.value.schemaMigrations == [] && r.value.migrationFileVersions == []
                           && r.value.migrationFiles == map[]
  {
    var m := new SchemaMigrations(base, db, config);
    var err := m.CheckBaseDirectory(pathExists);
    if err.Some? {
      return Failure(err.value);
    }
    err := m.CheckDbInterface();
    if err.Some? {
      return Failure(err.value);
    }
    return Success(m);
  }

  /**
   * Idempotence of `run`: a first runner whose pending migrations all
   * succeed, followed by a second runner over the same handle and the same
   * listing, leaves the table and the list of modules run as the first one
   * left them.  The first run resolves to `true`; the second does too,
   * unless `config.close` made the first one end the handle, in which case
   * the second rejects at its first query.  For postgresql this is
   * idempotence of the model, which saves the matched version as it is;
   * the database's `bigint` cast would store "001" as "1", and a real second
   * run would then run "001" again.
   */
  method RunTwice(base: Option<string>, pathExists: string -> bool, db: Database, config: Config,
                  files: seq<string>, first: string -> Outcome, second: string -> Outcome)
    returns (r1: Result<bool, RunError>, r2: Result<bool, RunError>)
    requires base.Some? && pathExists(base.value) && InterfaceComplete(DialectOf(config.dbType), db)
    modifies db
    ensures !old(db.open) ==>
              r1 == Failure(HandleEnded) && r2 == Failure(HandleEnded)
              && db.rows == old(db.rows) && db.executed == old(db.executed)
    ensures var d := DialectOf(config.dbType);
            var rows := Created(old(db.tableExists), old(db.rows));
            var t := Walk(d, VersionsOf(rows), MigrationVersions(files), RecordFiles(map[], files), first, 0);
            old(db.open) && t.ending == Finished ==>
              r1 == Success(true)
              && r2 == (if config.close then Failure(HandleEnded) else Success(true))
              && db.rows == rows + RowsFor(d, t.saved)
              && db.executed == old(db.executed) + t.ran
  {
    var d := DialectOf(config.dbType);
    ghost var rows := Created(db.tableExists, db.rows);
    ghost var versions, names := MigrationVersions(files), RecordFiles(map[], files);
    ghost var t := Walk(d, VersionsOf(rows), versions, names, first, 0);
    ghost var wasOpen := db.open;
    var c1 := Create(base, pathExists, db, config);
    var m1 := c1.value;
    r1 := m1.Run(files, first);
    if wasOpen {
      assert [] + VersionsOf(rows) == VersionsOf(rows);
      assert [] + versions == versions;
      assert m1.schemaMigrations == VersionsOf(rows) && m1.migrationFileVersions == versions;
      assert m1.migrationFiles == names && m1.dialect == d;
    }
    ghost var rows1, executed1, open1 := db.rows, db.executed, db.open;
    var c2 := Create(base, pathExists, db, config);
    var m2 := c2.value;
    r2 := m2.Run(files, second);
    if wasOpen && t.ending == Finished && open1 {
      assert m2.schemaMigrations == VersionsOf(rows1) && m2.migrationFileVersions == versions;
      assert m2.migrationFiles == names && m2.dialect == d;
      RerunOverTable(d, rows, versions, names, first, second);
      assert db.rows == rows1 + [] && db.executed == executed1 + [];
    }
  }
}
