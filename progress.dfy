/** The progress estimator: how far the profile is towards the target number
    of facts, as a whole percentage. */
module ProgressEstimator {

  /** The number of facts that counts as a full profile. */
  const TargetFacts: nat := 18

  function Min(a: int, b: int): int {
    if a <= b then a else b
  }

  /** `min(100, int(key_count / 18 * 100))`, in integer arithmetic. */
  function Progress(keyCount: nat): (percent: nat)
    ensures percent <= 100
  {
    Min(100, keyCount * 100 / TargetFacts)
  }

  /** The integer formula agrees with the exact rational one: truncating
      `key_count / 18 * 100` gives `key_count * 100 / 18`. */
  lemma ProgressIsTruncatedRatio(keyCount: nat)
    ensures Progress(keyCount) == Min(100, ((keyCount as real / TargetFacts as real) * 100.0).Floor)
  {
    var n := keyCount * 100;
    var q, m := n / 18, n % 18;
    assert n == 18 * q + m && 0 <= m < 18;
    var x := (keyCount as real / 18.0) * 100.0;
    assert x == n as real / 18.0;
    assert x == q as real + m as real / 18.0;
    assert q as real <= x < q as real + 1.0;
  }

  /** More facts never lower the progress. */
  lemma ProgressMonotone(a: nat, b: nat)
    requires a <= b
    ensures Progress(a) <= Progress(b)
  {
  }

  /** An empty profile is at 0, three facts are at 16, and eighteen or more
      facts are at 100. */
  lemma ProgressLandmarks(keyCount: nat)
    ensures Progress(0) == 0
    ensures Progress(3) == 16
    ensures keyCount >= TargetFacts ==> Progress(keyCount) == 100
  {
    if keyCount >= TargetFacts {
      assert keyCount * 100 >= 1800;
      assert keyCount * 100 / 18 >= 100;
    }
  }
}
