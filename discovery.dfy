/**
 * What `collect_all_migration_files` extracts from a listing of
 * `<base>/db/migrations`: the versions in listing order (no sorting,
 * duplicates kept) and the dictionary from version to file name.
 */
module Discovery {
  import opened Wrappers
  import opened DigitRun

  /** The versions appended to `migration_file_versions` for `files`, in listing order. */
  function MigrationVersions(files: seq<string>): seq<string>
    decreases |files|
  {
    if files == [] then []
    else
      var last := files[|files| - 1];
      MigrationVersions(files[..|files| - 1])
        + (match MatchDigits(last) case Some(v) => [v] case None => [])
  }

  /** The dictionary `migration_files` after `files` has been walked, starting from `m`. */
  function RecordFiles(m: map<string, string>, files: seq<string>): (r: map<string, string>)
    ensures forall v :: v in MigrationVersions(files) ==> v in r
    decreases |files|
  {
    if files == [] then m
    else
      var last := files[|files| - 1];
      var m' := RecordFiles(m, files[..|files| - 1]);
      match MatchDigits(last)
      case Some(v) => m'[v := last]
      case None => m'
  }

  /** Walking a listing in two parts appends the versions of each part: order and duplicates are kept. */
  lemma {:induction false} VersionsAppend(a: seq<string>, b: seq<string>)
    ensures MigrationVersions(a + b) == MigrationVersions(a) + MigrationVersions(b)
    decreases |b|
  {
    if b == [] {
      assert a + b == a;
    } else {
      var b' := b[..|b| - 1];
      assert (a + b)[..|a + b| - 1] == a + b';
      assert b[..|b| - 1] == b';
      VersionsAppend(a, b');
    }
  }

  /** A single file contributes its leftmost digit run when it has a digit, and nothing otherwise. */
  lemma VersionsOfOne(f: string)
    ensures HasDigit(f) ==> MigrationVersions([f]) == [MatchDigits(f).value]
    ensures !HasDigit(f) ==> MigrationVersions([f]) == []
  {
    assert [f][..0] == [];
  }

  /** A listed file with a digit contributes its version. */
  lemma {:induction false} FileGivesVersion(files: seq<string>, i: nat, v: string)
    requires i < |files| && MatchDigits(files[i]) == Some(v)
    ensures v in MigrationVersions(files)
    decreases |files|
  {
    var n := |files| - 1;
    if i < n {
      var init := files[..n];
      assert init[i] == files[i];
      FileGivesVersion(init, i, v);
    }
  }

  /** Every discovered version comes from some listed file. */
  lemma {:induction false} VersionHasFile(files: seq<string>, v: string) returns (i: nat)
    requires v in MigrationVersions(files)
    ensures i < |files| && MatchDigits(files[i]) == Some(v)
    decreases |files|
  {
    var n := |files| - 1;
    var init := files[..n];
    if v in MigrationVersions(init) {
      i := VersionHasFile(init, v);
      assert init[i] == files[i];
    } else {
      i := n;
    }
  }

  /** `v` is discovered exactly when some listed file's leftmost digit run is `v`. */
  lemma VersionsMembership(files: seq<string>, v: string)
    ensures v in MigrationVersions(files) <==> exists i :: 0 <= i < |files| && MatchDigits(files[i]) == Some(v)
  {
    if v in MigrationVersions(files) {
      var i := VersionHasFile(files, v);
    }
    if exists i :: 0 <= i < |files| && MatchDigits(files[i]) == Some(v) {
      var i :| 0 <= i < |files| && MatchDigits(files[i]) == Some(v);
      FileGivesVersion(files, i, v);
    }
  }

  /** The number of versions is the number of listed files that hold a digit. */
  lemma {:induction false} VersionsCount(files: seq<string>)
    ensures |MigrationVersions(files)| == |set i | 0 <= i < |files| && HasDigit(files[i])|
    decreases |files|
  {
    if files != [] {
      var n := |files| - 1;
      var init := files[..n];
      VersionsCount(init);
      var before := set i | 0 <= i < n && HasDigit(init[i]);
      var after := set i | 0 <= i < |files| && HasDigit(files[i]);
      if HasDigit(files[n]) {
        assert after == before + {n};
      } else {
        assert after == before;
      }
    }
  }

  /** Every discovered version, and nothing else, is added as a key of the dictionary. */
  lemma {:induction false} RecordFilesKeys(m: map<string, string>, files: seq<string>)
    ensures RecordFiles(m, files).Keys == m.Keys + set v | v in MigrationVersions(files)
    decreases |files|
  {
    if files != [] {
      RecordFilesKeys(m, files[..|files| - 1]);
    }
  }

  /**
   * Later files overwrite earlier ones: a version maps to the LAST listed
   * file that carries it.
   */
  lemma {:induction false} RecordFilesLastWins(m: map<string, string>, files: seq<string>, i: nat, v: string)
    requires i < |files| && MatchDigits(files[i]) == Some(v)
    requires forall j :: i < j < |files| ==> MatchDigits(files[j]) != Some(v)
    ensures v in RecordFiles(m, files) && RecordFiles(m, files)[v] == files[i]
    decreases |files|
  {
    var n := |files| - 1;
    var init := files[..n];
    var before := RecordFiles(m, init);
    if i < n {
      assert init[i] == files[i];
      assert forall j :: i < j < |init| ==> init[j] == files[j];
      RecordFilesLastWins(m, init, i, v);
      assert MatchDigits(files[n]) != Some(v);
      match MatchDigits(files[n])
      case Some(w) => assert RecordFiles(m, files) == before[w := files[n]];
      case None => assert RecordFiles(m, files) == before;
    } else {
      assert RecordFiles(m, files) == before[v := files[n]];
    }
  }

  /** A version that no listed file carries keeps whatever the dictionary held before. */
  lemma {:induction false} RecordFilesElsewhere(m: map<string, string>, files: seq<string>, v: string)
    requires forall j :: 0 <= j < |files| ==> MatchDigits(files[j]) != Some(v)
    ensures v in RecordFiles(m, files) <==> v in m
    ensures v in m ==> RecordFiles(m, files)[v] == m[v]
    decreases |files|
  {
    if files != [] {
      var init := files[..|files| - 1];
      assert forall j :: 0 <= j < |init| ==> init[j] == files[j];
      RecordFilesElsewhere(m, init, v);
    }
  }
}
