/**
 * The regular expression `/\d+/` as the migration runner uses it: `test`
 * asks whether a file name holds a digit, and `match(...)[0]` takes the
 * leftmost run of digits, extended as far as it goes (`\d` is greedy).
 * In ECMAScript `\d` is exactly the ASCII digits '0'..'9'.
 */
module DigitRun {
  import opened Wrappers

  predicate IsDigit(c: char) {
    '0' <= c <= '9'
  }

  /** `/\d+/.test(s)` */
  predicate HasDigit(s: string) {
    exists i :: 0 <= i < |s| && IsDigit(s[i])
  }

  predicate AllDigits(s: string) {
    forall i :: 0 <= i < |s| ==> IsDigit(s[i])
  }

  /**
   * `v` sits at position `k` of `s`, is a non-empty run of digits, no digit
   * of `s` comes before it, and the character after it (if any) is not a
   * digit: the leftmost, longest match of `\d+`.
   */
  predicate IsLeftmostRun(s: string, k: nat, v: string) {
    k + |v| <= |s| && |v| > 0 && s[k..k + |v|] == v && AllDigits(v)
    && (forall j :: 0 <= j < k ==> !IsDigit(s[j]))
    && (k + |v| == |s| || !IsDigit(s[k + |v|]))
  }

  /** The index of the first digit at or after `from`, or |s| when there is none. */
  function FirstDigitFrom(s: string, from: nat): (k: nat)
    requires from <= |s|
    ensures from <= k <= |s|
    ensures forall j :: from <= j < k ==> !IsDigit(s[j])
    ensures k < |s| ==> IsDigit(s[k])
    decreases |s| - from
  {
    if from == |s| || IsDigit(s[from]) then from else FirstDigitFrom(s, from + 1)
  }

  /** The end of the run of digits that starts at `from`. */
  function DigitRunEnd(s: string, from: nat): (e: nat)
    requires from <= |s|
    ensures from <= e <= |s|
    ensures forall j :: from <= j < e ==> IsDigit(s[j])
    ensures e == |s| || !IsDigit(s[e])
    decreases |s| - from
  {
    if from == |s| || !IsDigit(s[from]) then from else DigitRunEnd(s, from + 1)
  }

  /**
   * `s.match(/\d+/)`: None when the name holds no digit (the match is `null`),
   * otherwise the matched text `[0]`.
   */
  function MatchDigits(s: string): (r: Option<string>)
    ensures r.None? <==> !HasDigit(s)
    ensures r.Some? ==> exists k: nat :: IsLeftmostRun(s, k, r.value)
  {
    var k := FirstDigitFrom(s, 0);
    if k == |s| then
      None
    else
      var e := DigitRunEnd(s, k);
      assert IsLeftmostRun(s, k, s[k..e]);
      Some(s[k..e])
  }

  /** The leftmost maximal run is unique, so the contract of MatchDigits pins down its result. */
  lemma LeftmostRunUnique(s: string, k1: nat, v1: string, k2: nat, v2: string)
    requires IsLeftmostRun(s, k1, v1) && IsLeftmostRun(s, k2, v2)
    ensures k1 == k2 && v1 == v2
  {
    assert s[k1] == v1[0] && IsDigit(s[k1]);
    assert s[k2] == v2[0] && IsDigit(s[k2]);
    assert k1 == k2;
  }

  /** Conversely, whatever run satisfies the description is what the match returns. */
  lemma MatchOfLeftmostRun(s: string, k: nat, v: string)
    requires IsLeftmostRun(s, k, v)
    ensures MatchDigits(s) == Some(v)
  {
    assert s[k] == v[0] && IsDigit(s[k]);
    var k2: nat :| IsLeftmostRun(s, k2, MatchDigits(s).value);
    LeftmostRunUnique(s, k, v, k2, MatchDigits(s).value);
  }

  /** Every character of a matched version is a digit and the version is never empty. */
  lemma MatchIsDigits(s: string)
    requires HasDigit(s)
    ensures MatchDigits(s).Some? && |MatchDigits(s).value| > 0 && AllDigits(MatchDigits(s).value)
  {
    var k: nat :| IsLeftmostRun(s, k, MatchDigits(s).value);
  }
}
