/**
 * The decision at the heart of `run_pending_migrations`: which discovered
 * versions are pending, in which order they run, where the run stops and
 * which versions get a bookkeeping row.  `Walk` is the reference against
 * which the runner's loop is proved; the lemmas below state what the
 * walk guarantees.
 */
module Reconcile {
  import opened Wrappers

  /** The value of `this.type`. */
  datatype Dialect = Postgresql | Sqlite

  /** One row of the `schema_migrations` table; its only column is `version`, NULL when absent. */
  datatype Row = Row(version: Option<string>)

  /**
   * What calling a migration module's exported function produced: the strict
   * test `result === false` makes every other value (undefined, null, 0, true)
   * a success; an exception propagates out of the run.
   */
  datatype Outcome = Succeeded | ReturnedFalse | Threw

  /** How the loop of `run_pending_migrations` ends: fell off the end, `return false`, or an exception. */
  datatype Ending = Finished | Halted | Raised

  /** The files whose modules were called, the versions saved after them, and how the loop ended. */
  datatype Trace = Trace(ran: seq<string>, saved: seq<string>, ending: Ending)

  /** `config.type === "sqlite"` selects sqlite; every other value, absent included, selects postgresql. */
  function DialectOf(configType: Option<string>): Dialect {
    if configType == Some("sqlite") then Sqlite else Postgresql
  }

  /** The row `save_version_to_db` inserts: the version for postgresql, `DEFAULT VALUES` (NULL) for sqlite. */
  function RowFor(d: Dialect, version: string): Row {
    match d
    case Postgresql => Row(Some(version))
    case Sqlite => Row(None)
  }

  /** The rows inserted for `saved`, in order. */
  function RowsFor(d: Dialect, saved: seq<string>): (rows: seq<Row>)
    ensures |rows| == |saved|
    decreases |saved|
  {
    if saved == [] then [] else RowsFor(d, saved[..|saved| - 1]) + [RowFor(d, saved[|saved| - 1])]
  }

  lemma {:induction false} RowsForAt(d: Dialect, saved: seq<string>)
    ensures forall k :: 0 <= k < |saved| ==> RowsFor(d, saved)[k] == RowFor(d, saved[k])
    decreases |saved|
  {
    if saved != [] {
      RowsForAt(d, saved[..|saved| - 1]);
    }
  }

  /** The `version` column of `rows`, as the `SELECT version` loop pushes it. */
  function VersionsOf(rows: seq<Row>): (vs: seq<Option<string>>)
    ensures |vs| == |rows|
    decreases |rows|
  {
    if rows == [] then [] else VersionsOf(rows[..|rows| - 1]) + [rows[|rows| - 1].version]
  }

  lemma {:induction false} VersionsOfAt(rows: seq<Row>)
    ensures forall k :: 0 <= k < |rows| ==> VersionsOf(rows)[k] == rows[k].version
    decreases |rows|
  {
    if rows != [] {
      VersionsOfAt(rows[..|rows| - 1]);
    }
  }

  lemma VersionsOfAppend(a: seq<Row>, b: seq<Row>)
    ensures VersionsOf(a + b) == VersionsOf(a) + VersionsOf(b)
  {
    VersionsOfAt(a + b);
    VersionsOfAt(a);
    VersionsOfAt(b);
    assert forall k :: 0 <= k < |a + b| ==> VersionsOf(a + b)[k] == (VersionsOf(a) + VersionsOf(b))[k];
  }

  /** Saving one more version appends its row after the rows already saved. */
  lemma RowsForSnoc(base: seq<Row>, d: Dialect, saved: seq<string>, v: string)
    ensures (base + RowsFor(d, saved)) + [RowFor(d, v)] == base + RowsFor(d, saved + [v])
  {
    assert (saved + [v])[..|saved|] == saved;
  }

  /** What a later run loads back from the rows inserted for `saved`. */
  function Recorded(d: Dialect, saved: seq<string>): seq<Option<string>> {
    VersionsOf(RowsFor(d, saved))
  }

  /** Every discovered version has a file (what `collect_all_migration_files` guarantees). */
  predicate AllNamed(versions: seq<string>, files: map<string, string>) {
    forall v :: v in versions ==> v in files
  }

  /** The file names of `vs`, as `this.migration_files[v]` looks them up. */
  function Filenames(files: map<string, string>, vs: seq<string>): (names: seq<string>)
    requires forall v :: v in vs ==> v in files
    ensures |names| == |vs|
    ensures forall k :: 0 <= k < |vs| ==> names[k] == files[vs[k]]
    decreases |vs|
  {
    if vs == [] then [] else Filenames(files, vs[..|vs| - 1]) + [files[vs[|vs| - 1]]]
  }

  lemma FilenamesCons(files: map<string, string>, v: string, vs: seq<string>)
    requires v in files && forall w :: w in vs ==> w in files
    ensures Filenames(files, [v] + vs) == [files[v]] + Filenames(files, vs)
  {
    var a, b := Filenames(files, [v] + vs), [files[v]] + Filenames(files, vs);
    assert forall k :: 0 <= k < |a| ==> a[k] == b[k];
  }

  predicate NoDuplicates(versions: seq<string>) {
    forall i, j :: 0 <= i < j < |versions| ==> versions[i] != versions[j]
  }

  /**
   * Whether the version at position `i` of the discovered list is run:
   * postgresql tests membership in the loaded versions, sqlite compares the
   * position with the number of loaded rows.
   */
  predicate IsPending(d: Dialect, applied: seq<Option<string>>, versions: seq<string>, i: nat)
    requires i < |versions|
  {
    match d
    case Postgresql => Some(versions[i]) !in applied
    case Sqlite => i + 1 > |applied|
  }

  /** The pending versions at positions `i` and later, in listing order. */
  function PendingFrom(d: Dialect, applied: seq<Option<string>>, versions: seq<string>, i: nat): (ps: seq<string>)
    requires i <= |versions|
    ensures forall v :: v in ps ==> v in versions
    decreases |versions| - i
  {
    if i == |versions| then []
    else (if IsPending(d, applied, versions, i) then [versions[i]] else []) + PendingFrom(d, applied, versions, i + 1)
  }

  function EndingOf(o: Outcome): Ending {
    match o
    case Succeeded => Finished
    case ReturnedFalse => Halted
    case Threw => Raised
  }

  /**
   * The loop of `run_pending_migrations` from position `i` on: a pending
   * version's file is run; `false` or an exception stops everything, a
   * success saves the version before the next position is looked at.
   */
  function Walk(d: Dialect, applied: seq<Option<string>>, versions: seq<string>, files: map<string, string>,
                m: string -> Outcome, i: nat): Trace
    requires AllNamed(versions, files) && i <= |versions|
    decreases |versions| - i
  {
    if i == |versions| then Trace([], [], Finished)
    else if !IsPending(d, applied, versions, i) then Walk(d, applied, versions, files, m, i + 1)
    else
      var v := versions[i];
      var f := files[v];
      match m(f)
      case ReturnedFalse => Trace([f], [], Halted)
      case Threw => Trace([f], [], Raised)
      case Succeeded =>
        var t := Walk(d, applied, versions, files, m, i + 1);
        Trace([f] + t.ran, [v] + t.saved, t.ending)
  }

  /**
   * `whole` is the walk from the start split at a position: `ran` and
   * `saved` are what happened before it, `rest` is the walk from there on.
   */
  predicate SplitAt(whole: Trace, ran: seq<string>, saved: seq<string>, rest: Trace) {
    whole == Trace(ran + rest.ran, saved + rest.saved, rest.ending)
  }

  /** The runner's loop steps past a position that is not pending. */
  lemma WalkSkips(d: Dialect, applied: seq<Option<string>>, versions: seq<string>, files: map<string, string>,
                  m: string -> Outcome, i: nat)
    requires AllNamed(versions, files) && i < |versions| && !IsPending(d, applied, versions, i)
    ensures Walk(d, applied, versions, files, m, i) == Walk(d, applied, versions, files, m, i + 1)
  {
  }

  /** The runner's loop meets a pending version whose module does not succeed: the walk ends there. */
  lemma WalkStops(d: Dialect, applied: seq<Option<string>>, versions: seq<string>, files: map<string, string>,
                  m: string -> Outcome, i: nat, whole: Trace, ran: seq<string>, saved: seq<string>)
    requires AllNamed(versions, files) && i < |versions| && IsPending(d, applied, versions, i)
    requires m(files[versions[i]]) != Succeeded
    requires SplitAt(whole, ran, saved, Walk(d, applied, versions, files, m, i))
    ensures whole == Trace(ran + [files[versions[i]]], saved, EndingOf(m(files[versions[i]])))
  {
  }

  /** The runner's loop runs and saves a pending version whose module succeeds. */
  lemma WalkAdvances(d: Dialect, applied: seq<Option<string>>, versions: seq<string>, files: map<string, string>,
                     m: string -> Outcome, i: nat, whole: Trace, ran: seq<string>, saved: seq<string>)
    requires AllNamed(versions, files) && i < |versions| && IsPending(d, applied, versions, i)
    requires m(files[versions[i]]) == Succeeded
    requires SplitAt(whole, ran, saved, Walk(d, applied, versions, files, m, i))
    ensures SplitAt(whole, ran + [files[versions[i]]], saved + [versions[i]], Walk(d, applied, versions, files, m, i + 1))
  {
    var rest := Walk(d, applied, versions, files, m, i + 1);
    var f := files[versions[i]];
    assert ran + ([f] + rest.ran) == (ran + [f]) + rest.ran;
    assert saved + ([versions[i]] + rest.saved) == (saved + [versions[i]]) + rest.saved;
  }

  /**
   * `t` runs the pending versions `ps` in order up to and including the first
   * whose module does not succeed, saves exactly the ones before it, and ends
   * the way that module did; when all succeed, it runs and saves all of `ps`.
   */
  predicate FollowsPending(t: Trace, ps: seq<string>, files: map<string, string>, m: string -> Outcome)
    requires forall v :: v in ps ==> v in files
  {
    var n := |t.saved|;
    n <= |ps| && t.saved == ps[..n]
    && (forall j :: 0 <= j < n ==> m(files[ps[j]]) == Succeeded)
    && (n == |ps| ==> t.ran == Filenames(files, ps) && t.ending == Finished)
    && (n < |ps| ==> t.ran == Filenames(files, ps[..n + 1]) && m(files[ps[n]]) != Succeeded
                     && t.ending == EndingOf(m(files[ps[n]])))
  }

  /** A success in front of a trace that follows `ps` gives a trace that follows `[v] + ps`. */
  lemma FollowsPendingCons(v: string, t: Trace, ps: seq<string>, files: map<string, string>, m: string -> Outcome)
    requires v in files && forall w :: w in ps ==> w in files
    requires FollowsPending(t, ps, files, m) && m(files[v]) == Succeeded
    ensures FollowsPending(Trace([files[v]] + t.ran, [v] + t.saved, t.ending), [v] + ps, files, m)
  {
    ConsSavedPrefix(v, t, ps, files, m);
    if |t.saved| < |ps| {
      ConsStopped(v, t, ps, files, m);
    } else {
      ConsDone(v, t, ps, files, m);
    }
  }

  /** The saved versions of the extended trace are a prefix of `[v] + ps`, all succeeded. */
  lemma ConsSavedPrefix(v: string, t: Trace, ps: seq<string>, files: map<string, string>, m: string -> Outcome)
    requires v in files && forall w :: w in ps ==> w in files
    requires FollowsPending(t, ps, files, m) && m(files[v]) == Succeeded
    ensures var ps2, n := [v] + ps, |t.saved| + 1;
            ps2[..n] == [v] + t.saved && forall j :: 0 <= j < n ==> m(files[ps2[j]]) == Succeeded
  {
    var n := |t.saved|;
    var ps2 := [v] + ps;
    assert ps2[..n + 1] == [v] + ps[..n];
    forall j | 0 <= j < n + 1
      ensures m(files[ps2[j]]) == Succeeded
    {
      if j > 0 {
        assert ps2[j] == ps[j - 1];
      }
    }
  }

  /** A stopped trace keeps its stopping version after the extension. */
  lemma ConsStopped(v: string, t: Trace, ps: seq<string>, files: map<string, string>, m: string -> Outcome)
    requires v in files && forall w :: w in ps ==> w in files
    requires FollowsPending(t, ps, files, m) && |t.saved| < |ps|
    ensures var ps2, n := [v] + ps, |t.saved| + 1;
            [files[v]] + t.ran == Filenames(files, ps2[..n + 1]) && ps2[n] == ps[n - 1]
  {
    var n := |t.saved|;
    var ps2 := [v] + ps;
    assert ps2[..n + 2] == [v] + ps[..n + 1];
    FilenamesCons(files, v, ps[..n + 1]);
  }

  /** A finished trace has run every file of `[v] + ps`. */
  lemma ConsDone(v: string, t: Trace, ps: seq<string>, files: map<string, string>, m: string -> Outcome)
    requires v in files && forall w :: w in ps ==> w in files
    requires FollowsPending(t, ps, files, m) && |t.saved| == |ps|
    ensures [files[v]] + t.ran == Filenames(files, [v] + ps)
  {
    FilenamesCons(files, v, ps);
  }

  /** A pending version whose module does not succeed ends the walk: it is run, nothing is saved. */
  lemma FollowsPendingStop(v: string, ps: seq<string>, files: map<string, string>, m: string -> Outcome)
    requires v in files && forall w :: w in ps ==> w in files
    requires m(files[v]) != Succeeded
    ensures FollowsPending(Trace([files[v]], [], EndingOf(m(files[v]))), [v] + ps, files, m)
  {
    assert ([v] + ps)[..1] == [v];
    assert Filenames(files, [v]) == [files[v]] by {
      assert [v][..0] == [];
    }
  }

  /**
   * Fail-fast and checkpointing: the walk follows the pending list (see
   * FollowsPending), so a version is saved only after its module succeeded
   * and nothing after the first failure is run or saved.
   */
  lemma {:induction false} WalkFollowsPending(d: Dialect, applied: seq<Option<string>>, versions: seq<string>,
                                              files: map<string, string>, m: string -> Outcome, i: nat)
    requires AllNamed(versions, files) && i <= |versions|
    ensures FollowsPending(Walk(d, applied, versions, files, m, i), PendingFrom(d, applied, versions, i), files, m)
    decreases |versions| - i
  {
    if i < |versions| {
      var v := versions[i];
      var ps' := PendingFrom(d, applied, versions, i + 1);
      var rest := Walk(d, applied, versions, files, m, i + 1);
      WalkFollowsPending(d, applied, versions, files, m, i + 1);
      if !IsPending(d, applied, versions, i) {
        WalkSkips(d, applied, versions, files, m, i);
        assert PendingFrom(d, applied, versions, i) == ps';
      } else if m(files[v]) == Succeeded {
        assert PendingFrom(d, applied, versions, i) == [v] + ps';
        assert Walk(d, applied, versions, files, m, i) == Trace([files[v]] + rest.ran, [v] + rest.saved, rest.ending);
        FollowsPendingCons(v, rest, ps', files, m);
      } else {
        assert PendingFrom(d, applied, versions, i) == [v] + ps';
        assert Walk(d, applied, versions, files, m, i) == Trace([files[v]], [], EndingOf(m(files[v])));
        FollowsPendingStop(v, ps', files, m);
      }
    }
  }

  /** Postgresql: a version is pending exactly when it was discovered and is not among the loaded versions. */
  lemma {:induction false} PostgresPending(applied: seq<Option<string>>, versions: seq<string>, i: nat, v: string)
    requires i <= |versions|
    ensures v in PendingFrom(Postgresql, applied, versions, i) <==> v in versions[i..] && Some(v) !in applied
    decreases |versions| - i
  {
    if i < |versions| {
      PostgresPending(applied, versions, i + 1, v);
      assert versions[i..] == [versions[i]] + versions[i + 1..];
    }
  }

  /** Sqlite: exactly the positions at or beyond the number of loaded rows are pending. */
  lemma {:induction false} SqlitePending(applied: seq<Option<string>>, versions: seq<string>, i: nat)
    requires i <= |versions|
    ensures PendingFrom(Sqlite, applied, versions, i)
            == versions[if |applied| <= i then i else if |applied| <= |versions| then |applied| else |versions|..]
    decreases |versions| - i
  {
    if i < |versions| {
      SqlitePending(applied, versions, i + 1);
      if |applied| <= i {
        assert versions[i..] == [versions[i]] + versions[i + 1..];
      }
    }
  }

  /**
   * Postgresql: a version already loaded is not pending, so no file is run
   * for it and it is not saved again.
   */
  lemma PostgresSkipsApplied(applied: seq<Option<string>>, versions: seq<string>, files: map<string, string>,
                             m: string -> Outcome, v: string)
    requires AllNamed(versions, files) && Some(v) in applied
    ensures v !in PendingFrom(Postgresql, applied, versions, 0)
    ensures v !in Walk(Postgresql, applied, versions, files, m, 0).saved
  {
    var ps := PendingFrom(Postgresql, applied, versions, 0);
    WalkFollowsPending(Postgresql, applied, versions, files, m, 0);
    PostgresPending(applied, versions, 0, v);
    assert forall k :: 0 <= k <= |ps| ==> (v in ps[..k] ==> v in ps);
  }

  /** Reading back the rows saved for `saved`: postgresql finds the versions themselves. */
  lemma RecordedPostgres(saved: seq<string>, x: string)
    ensures Some(x) in Recorded(Postgresql, saved) <==> x in saved
  {
    var r := Recorded(Postgresql, saved);
    RowsForAt(Postgresql, saved);
    VersionsOfAt(RowsFor(Postgresql, saved));
    if x in saved {
      var k :| 0 <= k < |saved| && saved[k] == x;
      assert r[k] == Some(x);
    }
  }

  /**
   * Idempotence: after a walk that finished, reloading the table leaves
   * nothing pending, so a second walk (whatever the modules would now do)
   * runs and saves nothing.  For postgresql this holds for rows that store
   * the version as matched; the database's `bigint` cast changes versions
   * with leading zeros ("001" is stored as "1"), and those would be pending
   * again.
   */
  lemma RerunAfterCompletionDoesNothing(d: Dialect, applied: seq<Option<string>>, versions: seq<string>,
                                        files: map<string, string>, m: string -> Outcome, m2: string -> Outcome)
    requires AllNamed(versions, files)
    requires Walk(d, applied, versions, files, m, 0).ending == Finished
    ensures var applied2 := applied + Recorded(d, Walk(d, applied, versions, files, m, 0).saved);
            PendingFrom(d, applied2, versions, 0) == []
            && Walk(d, applied2, versions, files, m2, 0) == Trace([], [], Finished)
  {
    var t := Walk(d, applied, versions, files, m, 0);
    var ps := PendingFrom(d, applied, versions, 0);
    var applied2 := applied + Recorded(d, t.saved);
    WalkFollowsPending(d, applied, versions, files, m, 0);
    assert t.saved == ps;
    match d {
      case Postgresql =>
        var ps2 := PendingFrom(d, applied2, versions, 0);
        if ps2 != [] {
          var v := ps2[0];
          PostgresPending(applied2, versions, 0, v);
          PostgresPending(applied, versions, 0, v);
          RecordedPostgres(t.saved, v);
          assert false;
        }
      case Sqlite =>
        SqlitePending(applied, versions, 0);
        SqlitePending(applied2, versions, 0);
    }
    WalkFollowsPending(d, applied2, versions, files, m2, 0);
  }

  /** Idempotence in terms of the table: reloading the rows after a finished walk leaves nothing to run. */
  lemma RerunOverTable(d: Dialect, rows: seq<Row>, versions: seq<string>, files: map<string, string>,
                       m: string -> Outcome, m2: string -> Outcome)
    requires AllNamed(versions, files)
    requires Walk(d, VersionsOf(rows), versions, files, m, 0).ending == Finished
    ensures var t := Walk(d, VersionsOf(rows), versions, files, m, 0);
            Walk(d, VersionsOf(rows + RowsFor(d, t.saved)), versions, files, m2, 0) == Trace([], [], Finished)
  {
    var t := Walk(d, VersionsOf(rows), versions, files, m, 0);
    VersionsOfAppend(rows, RowsFor(d, t.saved));
    RerunAfterCompletionDoesNothing(d, VersionsOf(rows), versions, files, m, m2);
  }

  /** Postgresql: the pending list only depends on which of the remaining versions are loaded. */
  lemma {:induction false} PostgresPendingCongruent(a: seq<Option<string>>, b: seq<Option<string>>,
                                                    versions: seq<string>, i: nat)
    requires i <= |versions|
    requires forall k :: i <= k < |versions| ==> (Some(versions[k]) in a <==> Some(versions[k]) in b)
    ensures PendingFrom(Postgresql, a, versions, i) == PendingFrom(Postgresql, b, versions, i)
    decreases |versions| - i
  {
    if i < |versions| {
      PostgresPendingCongruent(a, b, versions, i + 1);
    }
  }

  /** Loading `applied` followed by the rows saved for `s` (postgresql). */
  lemma InAppliedPlus(applied: seq<Option<string>>, s: seq<string>, x: string)
    ensures Some(x) in applied + Recorded(Postgresql, s) <==> Some(x) in applied || x in s
  {
    RecordedPostgres(s, x);
  }

  /** With distinct versions, also recording `versions[i]` changes nothing for the versions after it. */
  lemma RecordingOtherVersion(applied: seq<Option<string>>, versions: seq<string>, i: nat, pre: seq<string>)
    requires NoDuplicates(versions) && i < |versions|
    ensures forall k :: i + 1 <= k < |versions| ==>
              (Some(versions[k]) in applied + Recorded(Postgresql, [versions[i]] + pre)
               <==> Some(versions[k]) in applied + Recorded(Postgresql, pre))
  {
    forall k | i + 1 <= k < |versions|
      ensures Some(versions[k]) in applied + Recorded(Postgresql, [versions[i]] + pre)
              <==> Some(versions[k]) in applied + Recorded(Postgresql, pre)
    {
      InAppliedPlus(applied, [versions[i]] + pre, versions[k]);
      InAppliedPlus(applied, pre, versions[k]);
    }
  }

  /**
   * The inductive step of PostgresPendingDrop when position `i` is pending:
   * its version is the first one recorded, so it is no longer pending, and
   * the positions after it see the same loaded versions as before.
   */
  lemma PostgresPendingDropHead(applied: seq<Option<string>>, versions: seq<string>, i: nat, n: nat)
    requires NoDuplicates(versions) && i < |versions| && Some(versions[i]) !in applied
    requires 1 <= n <= |PendingFrom(Postgresql, applied, versions, i)|
    requires var ps' := PendingFrom(Postgresql, applied, versions, i + 1);
             n - 1 <= |ps'|
             && PendingFrom(Postgresql, applied + Recorded(Postgresql, ps'[..n - 1]), versions, i + 1) == ps'[n - 1..]
    ensures var ps := PendingFrom(Postgresql, applied, versions, i);
            PendingFrom(Postgresql, applied + Recorded(Postgresql, ps[..n]), versions, i) == ps[n..]
  {
    var v := versions[i];
    var ps := PendingFrom(Postgresql, applied, versions, i);
    var ps' := PendingFrom(Postgresql, applied, versions, i + 1);
    var pre := ps'[..n - 1];
    assert ps == [v] + ps';
    assert ps[..n] == [v] + pre;
    var a2 := applied + Recorded(Postgresql, [v] + pre);
    var b := applied + Recorded(Postgresql, pre);
    InAppliedPlus(applied, [v] + pre, v);
    assert PendingFrom(Postgresql, a2, versions, i) == PendingFrom(Postgresql, a2, versions, i + 1);
    RecordingOtherVersion(applied, versions, i, pre);
    PostgresPendingCongruent(a2, b, versions, i + 1);
    assert ps[n..] == ps'[n - 1..];
  }

  /** Postgresql, distinct versions: recording the first `n` pending versions removes exactly those. */
  lemma {:induction false} PostgresPendingDrop(applied: seq<Option<string>>, versions: seq<string>, i: nat, n: nat)
    requires NoDuplicates(versions) && i <= |versions|
    requires n <= |PendingFrom(Postgresql, applied, versions, i)|
    ensures var ps := PendingFrom(Postgresql, applied, versions, i);
            PendingFrom(Postgresql, applied + Recorded(Postgresql, ps[..n]), versions, i) == ps[n..]
    decreases |versions| - i
  {
    var ps := PendingFrom(Postgresql, applied, versions, i);
    if n == 0 {
      assert applied + Recorded(Postgresql, ps[..n]) == applied;
    } else if i < |versions| {
      if Some(versions[i]) in applied {
        var a2 := applied + Recorded(Postgresql, ps[..n]);
        assert Some(versions[i]) in a2;
        assert ps == PendingFrom(Postgresql, applied, versions, i + 1);
        PostgresPendingDrop(applied, versions, i + 1, n);
      } else {
        PostgresPendingDrop(applied, versions, i + 1, n - 1);
        PostgresPendingDropHead(applied, versions, i, n);
      }
    }
  }

  /**
   * Resume after failure: reloading the table after a walk leaves pending
   * exactly the pending versions that were not saved, in the same order.
   * Postgresql needs distinct versions: a duplicated version would be
   * dropped from both of its positions.
   */
  lemma PendingAfterWalk(d: Dialect, applied: seq<Option<string>>, versions: seq<string>,
                         files: map<string, string>, m: string -> Outcome)
    requires AllNamed(versions, files)
    requires d == Postgresql ==> NoDuplicates(versions)
    ensures var t := Walk(d, applied, versions, files, m, 0);
            var ps := PendingFrom(d, applied, versions, 0);
            |t.saved| <= |ps|
            && PendingFrom(d, applied + Recorded(d, t.saved), versions, 0) == ps[|t.saved|..]
  {
    var t := Walk(d, applied, versions, files, m, 0);
    WalkFollowsPending(d, applied, versions, files, m, 0);
    match d {
      case Postgresql =>
        PostgresPendingDrop(applied, versions, 0, |t.saved|);
      case Sqlite =>
        SqlitePending(applied, versions, 0);
        SqlitePending(applied + Recorded(d, t.saved), versions, 0);
    }
  }
}
