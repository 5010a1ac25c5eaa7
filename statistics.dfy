/** The `clean_ratio` both filters report. */
module Statistics {

  /** `(total - removed) / total`, and exactly 1.0 when there is nothing to count. */
  function CleanRatio(total: nat, removed: nat): (r: real)
    ensures removed <= total ==> 0.0 <= r <= 1.0
    ensures total == 0 ==> r == 1.0
    ensures total > 0 ==> (r == 1.0 <==> removed == 0)
  {
    if total > 0 then
      var q := (total - removed) as real / total as real;
      assert q * total as real == (total - removed) as real;
      q
    else 1.0
  }
}
