/** What the two built-in filters say of a name: which test cases are death tests, and which names are
    disabled. */
module TestNames {
  import opened Sequences
  import opened SimpleRegex
  import opened TestFilter

  const DEATH_TEST_CASE_FILTER: CString := "*DeathTest:*DeathTest/*"
  const DISABLE_TEST_FILTER: CString := "DISABLED_*:*/DISABLED_*"

  ghost predicate IsDeath(name: CString) { FilterAccepts(DEATH_TEST_CASE_FILTER, name) }

  ghost predicate IsDisabled(caseName: CString, testName: CString) {
    FilterAccepts(DISABLE_TEST_FILTER, caseName) || FilterAccepts(DISABLE_TEST_FILTER, testName)
  }

  ghost predicate Contains(name: string, w: string) { exists q: nat :: HasAt(name, q, w) }

  predicate IsLiteral(filter: string, a: nat, c: nat) {
    a <= c <= |filter| && forall k | a <= k < c :: filter[k] != '*' && filter[k] != '?'
  }

  lemma HasAtCons(s: string, q: nat, c: char, rest: string)
    ensures HasAt(s, q, [c] + rest) <==> q < |s| && s[q] == c && HasAt(s, q + 1, rest)
  {
    var w := [c] + rest;
    if HasAt(s, q, w) {
      assert s[q + 0] == w[0];
      forall k | 0 <= k < |rest| ensures s[q + 1 + k] == rest[k] {
        assert s[q + (k + 1)] == w[k + 1];
      }
    }
  }

  /** Plain characters stand for themselves. */
  lemma {:induction false} LiteralGlobs(filter: string, a: nat, c: nat, b: nat, s: string, q: nat)
    requires IsLiteral(filter, a, c) && c <= b <= |filter|
    ensures Globs(filter, a, b, s, q) <==> HasAt(s, q, filter[a..c]) && Globs(filter, c, b, s, q + (c - a))
    decreases c - a
  {
    if a == c {
      assert filter[a..c] == "";
      if Globs(filter, a, b, s, q) {
        GlobsInside(filter, a, b, s, q);
      }
    } else {
      GlobsStep(filter, a, b, s, q);
      LiteralGlobs(filter, a + 1, c, b, s, q + 1);
      assert filter[a..c] == [filter[a]] + filter[a + 1..c];
      HasAtCons(s, q, filter[a], filter[a + 1..c]);
      assert q < |s| && s[q] == filter[a] ==> PieceFits(filter[a], s, q, q + 1);
    }
  }

  lemma {:induction false} GlobsInside(filter: string, a: nat, b: nat, s: string, q: nat)
    requires a <= b <= |filter| && Globs(filter, a, b, s, q)
    ensures q <= |s|
    decreases b - a
  {
    if a == b {
      GlobsNothing(filter, a, s, q);
    } else {
      GlobsStep(filter, a, b, s, q);
    }
  }

  /** A '*' skips to any later position. */
  lemma StarGlobs(filter: string, a: nat, next: nat, b: nat, s: string, q: nat)
    requires a < b <= |filter| && next == a + 1 && filter[a] == '*' && q <= |s|
    ensures Globs(filter, a, b, s, q) <==> exists mid: nat :: q <= mid <= |s| && Globs(filter, next, b, s, mid)
  {
    GlobsStep(filter, a, b, s, q);
    if mid: nat :| q <= mid <= |s| && Globs(filter, next, b, s, mid) {
      assert PieceFits(filter[a], s, q, mid);
    }
  }

  /** "*w" asks for w at the end, "w*" for w at the beginning, and "*w*" for w anywhere. */
  lemma StarLiteral(filter: string, a: nat, next: nat, b: nat, s: string)
    requires a < b <= |filter| && next == a + 1 && filter[a] == '*' && IsLiteral(filter, next, b)
    ensures Globs(filter, a, b, s, 0) <==> var w := filter[next..b]; |w| <= |s| && HasAt(s, |s| - |w|, w)
  {
    var w := filter[next..b];
    StarGlobs(filter, a, next, b, s, 0);
    forall mid: nat ensures Globs(filter, next, b, s, mid) <==> HasAt(s, mid, w) && mid + |w| == |s| {
      LiteralGlobs(filter, next, b, b, s, mid);
      GlobsNothing(filter, b, s, mid + |w|);
    }
    if |w| <= |s| {
      var mid: nat := |s| - |w|;
      assert Globs(filter, next, b, s, mid) <==> HasAt(s, mid, w);
    }
  }

  lemma FinalStar(filter: string, a: nat, s: string, q: nat)
    requires a < |filter| && filter[a] == '*' && q <= |s|
    ensures Globs(filter, a, a + 1, s, q)
  {
    GlobsNothing(filter, a + 1, s, |s|);
    StarGlobs(filter, a, a + 1, a + 1, s, q);
  }

  lemma LiteralStar(filter: string, a: nat, c: nat, s: string, q: nat)
    requires IsLiteral(filter, a, c) && c < |filter| && filter[c] == '*'
    ensures Globs(filter, a, c + 1, s, q) <==> HasAt(s, q, filter[a..c])
  {
    LiteralGlobs(filter, a, c, c + 1, s, q);
    if HasAt(s, q, filter[a..c]) {
      FinalStar(filter, c, s, q + (c - a));
    }
  }

  lemma StarLiteralStar(filter: string, a: nat, next: nat, c: nat, s: string)
    requires a < c < |filter| && next == a + 1 && filter[a] == '*' && IsLiteral(filter, next, c) && filter[c] == '*'
    ensures Globs(filter, a, c + 1, s, 0) <==> Contains(s, filter[next..c])
  {
    var end := c + 1;
    StarGlobs(filter, a, next, end, s, 0);
    forall mid: nat ensures Globs(filter, next, end, s, mid) <==> HasAt(s, mid, filter[next..c]) {
      LiteralStar(filter, next, c, s, mid);
    }
  }

  /** A filter of two patterns accepts what either does. */
  lemma TwoPatterns(filter: string, colon: nat, name: string)
    requires colon < |filter| && filter[colon] == ':'
    requires forall k | 0 <= k < |filter| && k != colon :: filter[k] != ':'
    ensures FilterAccepts(filter, name)
       <==> Globs(filter, 0, colon, name, 0) || Globs(filter, colon + 1, |filter|, name, 0)
  {
    assert IsPattern(filter, 0, colon) && IsPattern(filter, colon + 1, |filter|);
    forall a: nat, b: nat | IsPattern(filter, a, b)
      ensures (a == 0 && b == colon) || (a == colon + 1 && b == |filter|)
    {
      if a == 0 {
        PatternStarts(filter, a, b, 0, colon);
      } else {
        PatternStarts(filter, a, b, colon + 1, |filter|);
      }
    }
  }

  /** A death test case is one whose name ends in "DeathTest" or has "DeathTest/" in it. */
  lemma DeathTestNames(name: CString)
    ensures IsDeath(name) <==> (9 <= |name| && HasAt(name, |name| - 9, "DeathTest")) || Contains(name, "DeathTest/")
  {
    var filter := DEATH_TEST_CASE_FILTER;
    TwoPatterns(filter, 10, name);
    assert filter == "*" + "DeathTest" + ":*" + "DeathTest/" + "*";
    assert filter[1..10] == "DeathTest" && filter[12..22] == "DeathTest/";
    StarLiteral(filter, 0, 1, 10, name);
    StarLiteralStar(filter, 11, 12, 22, name);
  }

  /** A name is disabled when it begins with "DISABLED_" or has "/DISABLED_" in it. */
  lemma DisabledNames(name: CString)
    ensures FilterAccepts(DISABLE_TEST_FILTER, name) <==> HasAt(name, 0, "DISABLED_") || Contains(name, "/DISABLED_")
  {
    var filter := DISABLE_TEST_FILTER;
    TwoPatterns(filter, 10, name);
    assert filter[0..9] == "DISABLED_" && filter[12..22] == "/DISABLED_";
    LiteralStar(filter, 0, 9, name, 0);
    StarLiteralStar(filter, 11, 12, 22, name);
  }
}
