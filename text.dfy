/** Character-level string helpers with Python's `str.strip`, `str.lower`,
    `str.startswith` and `in` semantics, restricted to ASCII. */
module Text {

  datatype Option<T> = None | Some(value: T)

  /** Python's `str.isspace` on ASCII: space, \t, \n, \x0b, \x0c, \r and the
      four separators \x1c..\x1f. */
  predicate IsSpace(c: char) {
    c == ' ' || ('\U{9}' <= c <= '\U{D}') || ('\U{1C}' <= c <= '\U{1F}')
  }

  predicate AllSpace(s: string) {
    forall i :: 0 <= i < |s| ==> IsSpace(s[i])
  }

  /** Neither end of `s` is white space. */
  predicate IsTrimmed(s: string) {
    s == [] || (!IsSpace(s[0]) && !IsSpace(s[|s| - 1]))
  }

  /** `s.lstrip()`: the longest suffix of `s` not starting with white space. */
  function TrimLeft(s: string): (r: string)
    ensures |r| <= |s|
    ensures r == [] || !IsSpace(r[0])
  {
    if |s| > 0 && IsSpace(s[0]) then TrimLeft(s[1..]) else s
  }

  lemma {:induction false} TrimLeftIsSuffix(s: string)
    ensures TrimLeft(s) == s[|s| - |TrimLeft(s)|..]
    ensures AllSpace(s[..|s| - |TrimLeft(s)|])
  {
    if |s| > 0 && IsSpace(s[0]) {
      TrimLeftIsSuffix(s[1..]);
      assert s[1..][..|s| - 1 - |TrimLeft(s)|] == s[1..|s| - |TrimLeft(s)|];
    }
  }

  /** `s.rstrip()`: the longest prefix of `s` not ending with white space. */
  function TrimRight(s: string): (r: string)
    ensures |r| <= |s|
    ensures r == [] || !IsSpace(r[|r| - 1])
  {
    if |s| > 0 && IsSpace(s[|s| - 1]) then TrimRight(s[..|s| - 1]) else s
  }

  lemma {:induction false} TrimRightIsPrefix(s: string)
    ensures TrimRight(s) == s[..|TrimRight(s)|]
    ensures AllSpace(s[|TrimRight(s)|..])
  {
    if |s| > 0 && IsSpace(s[|s| - 1]) {
      TrimRightIsPrefix(s[..|s| - 1]);
      assert s[..|s| - 1][|TrimRight(s)|..] == s[|TrimRight(s)|..|s| - 1];
    }
  }

  /** `s.strip()`: `s` with white space removed from both ends. */
  function Trim(s: string): (r: string)
    ensures IsTrimmed(r) && |r| <= |s|
  {
    var l := TrimLeft(s);
    TrimRightIsPrefix(l);
    TrimRight(l)
  }

  /** A stripped string is its own strip. */
  lemma TrimOfTrimmed(s: string)
    requires IsTrimmed(s)
    ensures Trim(s) == s
  {
  }

  /** The stripped text is a slice of the original with only white space on
      either side of it. */
  lemma TrimIsSlice(s: string) returns (i: nat)
    ensures i + |Trim(s)| <= |s| && Trim(s) == s[i..i + |Trim(s)|]
    ensures AllSpace(s[..i]) && AllSpace(s[i + |Trim(s)|..])
  {
    var l := TrimLeft(s);
    var r := TrimRight(l);
    TrimLeftIsSuffix(s);
    TrimRightIsPrefix(l);
    i := |s| - |l|;
    assert s[i..] == l;
    assert s[i + |r|..] == l[|r|..];
  }

  /** Stripping leaves a string that is already stripped alone. */
  lemma TrimIdempotent(s: string)
    ensures Trim(Trim(s)) == Trim(s)
  {
  }

  /** `s.strip()` is empty exactly when `s` is all white space. */
  lemma TrimEmptyIffBlank(s: string)
    ensures Trim(s) == [] <==> AllSpace(s)
  {
    if Trim(s) == [] {
      var i := TrimIsSlice(s);
      forall j | 0 <= j < |s| ensures IsSpace(s[j]) {
        if j < i { assert s[..i][j] == s[j]; } else { assert s[i..][j - i] == s[j]; }
      }
    } else {
      var i := TrimIsSlice(s);
      assert Trim(s)[0] == s[i];
    }
  }

  /** `c.lower()` on ASCII: upper-case letters map to lower case, everything
      else is kept. */
  function LowerChar(c: char): char {
    if 'A' <= c <= 'Z' then (c as int + 32) as char else c
  }

  /** `s.lower()`. */
  function Lower(s: string): (r: string)
    ensures |r| == |s|
  {
    if s == [] then [] else [LowerChar(s[0])] + Lower(s[1..])
  }

  /** `s.lower()` works character by character. */
  lemma {:induction false} LowerAt(s: string, i: nat)
    requires i < |s|
    ensures Lower(s)[i] == LowerChar(s[i])
  {
    if i > 0 {
      LowerAt(s[1..], i - 1);
    }
  }

  lemma {:induction false} LowerConcat(a: string, b: string)
    ensures Lower(a + b) == Lower(a) + Lower(b)
  {
    if a != [] {
      LowerConcat(a[1..], b);
      assert (a + b)[1..] == a[1..] + b;
    } else {
      assert a + b == b;
    }
  }

  /** A lower-case letter that the text lacks in both cases is missing from
      its lower-cased form too. */
  lemma LowerLacks(s: string, c: char)
    requires 'a' <= c <= 'z'
    requires c !in s && (c as int - 32) as char !in s
    ensures c !in Lower(s)
  {
    forall i | 0 <= i < |s| ensures Lower(s)[i] != c {
      LowerAt(s, i);
    }
  }

  predicate StartsWith(s: string, prefix: string) {
    |prefix| <= |s| && s[..|prefix|] == prefix
  }

  /** `pat` occurs in `s` starting at index `i`. */
  predicate OccursAt(s: string, pat: string, i: nat) {
    i + |pat| <= |s| && s[i..i + |pat|] == pat
  }

  /** Python's `pat in s`. */
  ghost predicate IsSubstring(pat: string, s: string) {
    exists i: nat :: OccursAt(s, pat, i)
  }

  /** A slice of a slice is a slice of the original. */
  lemma SliceOfSlice(s: string, i: nat, j: nat, k: nat, l: nat)
    requires i <= j <= |s| && k <= l <= j - i
    ensures s[i..j][k..l] == s[i + k..i + l]
  {
    var inner, outer := s[i..j][k..l], s[i + k..i + l];
    forall m | 0 <= m < l - k ensures inner[m] == outer[m] {
      assert inner[m] == s[i..j][k + m] == s[i + k + m];
    }
  }

  /** `s.find(pat)`: the first index at which `pat` occurs, if any. */
  function Find(s: string, pat: string): (r: Option<nat>)
    ensures r.Some? ==> OccursAt(s, pat, r.value)
    ensures r.Some? ==> forall j: nat :: j < r.value ==> !OccursAt(s, pat, j)
    ensures r.None? <==> !IsSubstring(pat, s)
  {
    if |s| < |pat| then
      assert forall j: nat :: !OccursAt(s, pat, j);
      None
    else if s[..|pat|] == pat then
      Some(0)
    else
      var rest := Find(s[1..], pat);
      assert forall j: nat :: OccursAt(s, pat, j + 1) <==> OccursAt(s[1..], pat, j) by {
        forall j: nat ensures OccursAt(s, pat, j + 1) <==> OccursAt(s[1..], pat, j) {
          if j + 1 + |pat| <= |s| {
            SliceOfSlice(s, 1, |s|, j, j + |pat|);
          }
        }
      }
      assert !OccursAt(s, pat, 0);
      match rest
      case None =>
        assert forall j: nat :: !OccursAt(s, pat, j) by {
          forall j: nat ensures !OccursAt(s, pat, j) {
            if j > 0 { assert !OccursAt(s[1..], pat, j - 1); }
          }
        }
        None
      case Some(k) =>
        assert forall j: nat :: j < k + 1 ==> !OccursAt(s, pat, j) by {
          forall j: nat | j < k + 1 ensures !OccursAt(s, pat, j) {
            if j > 0 { assert !OccursAt(s[1..], pat, j - 1); }
          }
        }
        Some(k + 1)
  }

  /** Python's `pat in s`, computed. */
  function Contains(s: string, pat: string): (b: bool)
    ensures b <==> IsSubstring(pat, s)
  {
    Find(s, pat).Some?
  }

  /** A pattern holding a character that the text lacks cannot occur in it. */
  lemma MissingCharRulesOut(s: string, pat: string, c: char)
    requires c in pat && c !in s
    ensures !Contains(s, pat)
  {
    var k :| 0 <= k < |pat| && pat[k] == c;
    forall i: nat | i + |pat| <= |s| ensures !OccursAt(s, pat, i) {
      assert s[i..i + |pat|][k] == s[i + k];
    }
  }

  /** Whatever does not contain `pat` has no slice containing it. */
  lemma SliceKeepsAbsence(s: string, pat: string, i: nat, j: nat)
    requires i <= j <= |s|
    requires !IsSubstring(pat, s)
    ensures !IsSubstring(pat, s[i..j])
  {
    forall k: nat | k + |pat| <= j - i ensures !OccursAt(s[i..j], pat, k) {
      SliceOfSlice(s, i, j, k, k + |pat|);
      assert !OccursAt(s, pat, i + k);
    }
  }

  /** Stripping cannot create an occurrence of a pattern. */
  lemma TrimKeepsAbsence(s: string, pat: string)
    requires !IsSubstring(pat, s)
    ensures !IsSubstring(pat, Trim(s))
  {
    var i := TrimIsSlice(s);
    SliceKeepsAbsence(s, pat, i, i + |Trim(s)|);
  }
}
