/** The fact merger: folding the key/value pairs the extraction service
    proposes into a session's profile ("richer information wins"). */
module Facts {
  import opened Text

  /** Values meaning "no information", compared after strip() and lower(). */
  const Sentinels: seq<string> := ["null", "none", "", "n/a", "unknown"]

  predicate IsSentinel(v: string) {
    Lower(Trim(v)) in Sentinels
  }

  /** A value that is not a sentinel still has text once stripped. */
  lemma NonSentinelNotBlank(v: string)
    requires !IsSentinel(v)
    ensures |Trim(v)| > 0
  {
  }

  /** Whether candidate `v` for key `k` gets written into `profile`: it must
      not be a sentinel, and the key must be missing, hold an empty value, or
      hold a value strictly shorter than the stripped candidate. */
  predicate Admits(profile: map<string, string>, k: string, v: string) {
    && !IsSentinel(v)
    && (k !in profile || profile[k] == "" || |Trim(v)| > |profile[k]|)
  }

  /** One iteration of the merge loop. */
  function MergeOne(profile: map<string, string>, k: string, v: string): map<string, string> {
    if Admits(profile, k, v) then profile[k := Trim(v)] else profile
  }

  /** The profile after every candidate has been considered. Each key is
      decided on its own, so the order of the candidates does not matter. */
  function Merge(profile: map<string, string>, candidates: map<string, string>): map<string, string> {
    map k | k in profile.Keys + candidates.Keys && (k in profile || Admits(profile, k, candidates[k])) ::
      if k in candidates && Admits(profile, k, candidates[k]) then Trim(candidates[k]) else profile[k]
  }

  /** The merge policy, key by key. */
  lemma MergePolicy(profile: map<string, string>, candidates: map<string, string>)
    // no key is ever removed
    ensures forall k :: k in profile ==> k in Merge(profile, candidates)
    // keys the extraction did not mention are untouched
    ensures forall k :: k !in candidates ==>
              (k in Merge(profile, candidates) <==> k in profile) &&
              (k in profile ==> Merge(profile, candidates)[k] == profile[k])
    // a sentinel value never changes the profile
    ensures forall k :: k in candidates && IsSentinel(candidates[k]) ==>
              (k in Merge(profile, candidates) <==> k in profile) &&
              (k in profile ==> Merge(profile, candidates)[k] == profile[k])
    // a real value is stored, stripped, when the key is new or its value is shorter
    ensures forall k :: k in candidates && !IsSentinel(candidates[k]) &&
                        (k !in profile || |profile[k]| < |Trim(candidates[k])|) ==>
              k in Merge(profile, candidates) && Merge(profile, candidates)[k] == Trim(candidates[k])
    // an equally long or shorter value keeps the old one
    ensures forall k :: k in candidates && k in profile && |Trim(candidates[k])| <= |profile[k]| ==>
              Merge(profile, candidates)[k] == profile[k]
  {
    forall k | k in candidates && !IsSentinel(candidates[k]) ensures |Trim(candidates[k])| > 0 {
      NonSentinelNotBlank(candidates[k]);
    }
  }

  /** Considering one more candidate, for a key not seen yet, is one loop
      iteration on top of the merge of the others. */
  lemma MergeStep(profile: map<string, string>, done: map<string, string>, k: string, v: string)
    requires k !in done
    ensures MergeOne(Merge(profile, done), k, v) == Merge(profile, done[k := v])
  {
    var before := Merge(profile, done);
    var a := MergeOne(before, k, v);
    var b := Merge(profile, done[k := v]);
    forall x ensures (x in a <==> x in b) && (x in a ==> a[x] == b[x]) {
      if x == k {
        assert Admits(before, k, v) == Admits(profile, k, v);
      }
    }
    assert a == b;
  }

  /** The merge loop as the service runs it: candidates are visited in
      whatever order the dictionary yields them, and the profile is updated
      in place. Every order gives the same profile. */
  method MergeInto(profile: map<string, string>, candidates: map<string, string>) returns (merged: map<string, string>)
    ensures merged == Merge(profile, candidates)
  {
    merged := profile;
    var todo := candidates.Keys;
    ghost var done: map<string, string> := map[];
    while todo != {}
      invariant todo <= candidates.Keys
      invariant forall x :: x in done <==> x in candidates && x !in todo
      invariant forall x :: x in done ==> done[x] == candidates[x]
      invariant merged == Merge(profile, done)
      decreases todo
    {
      var k :| k in todo;
      var v := candidates[k];
      ghost var before := merged;
      if !IsSentinel(v) {
        var clean := Trim(v);
        var current := if k in merged then merged[k] else "";
        if current == "" || |clean| > |current| {
          merged := merged[k := clean];
        }
      }
      assert merged == MergeOne(before, k, v);
      MergeStep(profile, done, k, v);
      done := done[k := v];
      todo := todo - {k};
    }
    assert done == candidates;
  }

  lemma SubsetCardinality<T>(a: set<T>, b: set<T>)
    requires a <= b
    ensures |a| <= |b|
    decreases b
  {
    if a != {} {
      var x :| x in a;
      SubsetCardinality(a - {x}, b - {x});
    }
  }

  /** Merging never shrinks the profile: the key count and the length of
      every stored value are non-decreasing. */
  lemma MergeGrows(profile: map<string, string>, candidates: map<string, string>)
    ensures profile.Keys <= Merge(profile, candidates).Keys
    ensures |profile| <= |Merge(profile, candidates)|
    ensures forall k :: k in profile ==> |profile[k]| <= |Merge(profile, candidates)[k]|
  {
    var r := Merge(profile, candidates);
    SubsetCardinality(profile.Keys, r.Keys);
    assert |profile| == |profile.Keys| && |r| == |r.Keys|;
  }

  /** After a merge, no candidate is admitted a second time. */
  lemma NotAdmittedAgain(profile: map<string, string>, candidates: map<string, string>, k: string)
    requires k in candidates
    ensures !Admits(Merge(profile, candidates), k, candidates[k])
  {
    if Admits(profile, k, candidates[k]) {
      NonSentinelNotBlank(candidates[k]);
      assert Merge(profile, candidates)[k] == Trim(candidates[k]);
    }
  }

  /** Merging the same candidates a second time changes nothing. */
  lemma MergeIdempotent(profile: map<string, string>, candidates: map<string, string>)
    ensures Merge(Merge(profile, candidates), candidates) == Merge(profile, candidates)
  {
    var once := Merge(profile, candidates);
    var twice := Merge(once, candidates);
    forall k ensures (k in twice <==> k in once) && (k in twice ==> twice[k] == once[k]) {
      if k in candidates {
        NotAdmittedAgain(profile, candidates, k);
      }
    }
    assert twice == once;
  }

  /** A longer value replaces "LHR". */
  lemma LongerValueWins()
    ensures Merge(map["city" := "LHR"], map["city" := "Lahore"]) == map["city" := "Lahore"]
  {
    assert Trim("Lahore") == "Lahore";
    assert Lower("Lahore") == "lahore";
    var r := Merge(map["city" := "LHR"], map["city" := "Lahore"]);
    assert r.Keys == {"city"};
    assert r["city"] == "Lahore";
  }

  /** An equally long or shorter value keeps "LHR". */
  lemma ShorterValueLoses()
    ensures Merge(map["city" := "LHR"], map["city" := "ISB"]) == map["city" := "LHR"]
    ensures Merge(map["city" := "LHR"], map["city" := "X"]) == map["city" := "LHR"]
  {
  }

  /** "unknown", in any casing and with surrounding spaces, is ignored. */
  lemma UnknownIgnored()
    ensures Merge(map[], map["city" := "  UNKNOWN "]) == map[]
  {
    assert Trim("  UNKNOWN ") == "UNKNOWN" by {
      assert TrimLeft("  UNKNOWN ") == "UNKNOWN ";
      assert TrimRight("UNKNOWN ") == "UNKNOWN";
    }
    assert Lower("UNKNOWN") == "unknown";
  }

  /** Stripped real values merged into an empty profile are stored as they are. */
  lemma MergeIntoEmpty(candidates: map<string, string>)
    requires forall k :: k in candidates ==> !IsSentinel(candidates[k]) && IsTrimmed(candidates[k])
    ensures Merge(map[], candidates) == candidates
  {
    forall k | k in candidates ensures Trim(candidates[k]) == candidates[k] {
      TrimOfTrimmed(candidates[k]);
    }
  }
}
