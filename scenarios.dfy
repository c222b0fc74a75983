/**
 * Concrete runs: the listing order is the run order (there is no numeric
 * sort), names without digits are ignored, and a failing migration stops
 * the walk with the versions before it saved.
 */
module Scenarios {
  import opened Wrappers
  import opened DigitRun
  import opened Discovery
  import opened Reconcile

  lemma MatchTakesLeftmostRun()
    ensures MatchDigits("v12_add_3_columns.js") == Some("12")
  {
    var s := "v12_add_3_columns.js";
    assert s[1..3] == "12";
    assert IsLeftmostRun(s, 1, "12");
    MatchOfLeftmostRun(s, 1, "12");
  }

  /** The listing "10_b.js", "2_a.js" discovers version 10 and then version 2. */
  lemma TwoFileListing()
    ensures MigrationVersions(["10_b.js", "2_a.js"]) == ["10", "2"]
    ensures RecordFiles(map[], ["10_b.js", "2_a.js"]) == map["10" := "10_b.js", "2" := "2_a.js"]
  {
    var a, b := "10_b.js", "2_a.js";
    assert a[0..2] == "10";
    MatchOfLeftmostRun(a, 0, "10");
    assert b[0..1] == "2";
    MatchOfLeftmostRun(b, 0, "2");
    var listing := [a, b];
    assert listing[..1] == [a] && [a][..0] == [];
    var m1 := RecordFiles(map[], [a]);
    assert RecordFiles(map[], [a][..0]) == map[];
    assert m1 == RecordFiles(map[], [a][..0])["10" := a];
    assert RecordFiles(map[], listing) == m1["2" := b];
  }

  /**
   * The listing "10_b.js", "2_a.js" (byte-wise order, as a sorted directory
   * listing gives it) is run in that order: version 10 before version 2,
   * because nothing sorts the versions numerically.
   */
  lemma ListingOrderIsRunOrder()
    ensures var listing := ["10_b.js", "2_a.js"];
            var versions := MigrationVersions(listing);
            var files := RecordFiles(map[], listing);
            AllNamed(versions, files)
            && Walk(Postgresql, [], versions, files, _ => Succeeded, 0) == Trace(listing, ["10", "2"], Finished)
  {
    TwoFileListing();
    var files := map["10" := "10_b.js", "2" := "2_a.js"];
    var m := (_: string) => Succeeded;
    var w2 := Walk(Postgresql, [], ["10", "2"], files, m, 2);
    var w1 := Walk(Postgresql, [], ["10", "2"], files, m, 1);
    assert w2 == Trace([], [], Finished);
    assert w1 == Trace(["2_a.js"], ["2"], Finished);
  }

  lemma DigitlessNameIsIgnored()
    ensures MigrationVersions(["README.md"]) == []
  {
    var r := "README.md";
    assert forall i :: 0 <= i < |r| ==> !IsDigit(r[i]);
    VersionsOfOne(r);
  }

  /** Versions 1, 2, 3 pending on postgresql, version 2's module returns `false`. */
  lemma SecondMigrationFails()
    ensures var files := map["1" := "1_a.js", "2" := "2_b.js", "3" := "3_c.js"];
            var m := (f: string) => if f == "2_b.js" then ReturnedFalse else Succeeded;
            Walk(Postgresql, [], ["1", "2", "3"], files, m, 0) == Trace(["1_a.js", "2_b.js"], ["1"], Halted)
  {
  }
}
