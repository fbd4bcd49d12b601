/** Wildcard patterns and test filters: PatternMatchesString, MatchesFilter, FilterMatchesTest. */
module TestFilter {
  import opened Options
  import opened SimpleRegex

  // ---------------------------------------------------------------------------
  // What a pattern means
  // ---------------------------------------------------------------------------

  /** The pattern character c stands for s[from..to]. */
  predicate PieceFits(c: char, s: string, from: nat, to: nat) {
    && from <= to <= |s|
    && (c != '*' ==> to == from + 1)
    && (c != '*' && c != '?' ==> s[from] == c)
  }

  /** The cuts divide s[q..] into one piece for each of the pattern characters filter[a..b]. */
  ghost predicate Cuts(cuts: seq<nat>, filter: string, a: nat, b: nat, s: string, q: nat)
    requires a <= b <= |filter|
  {
    && |cuts| == b - a + 1 && cuts[0] == q && cuts[b - a] == |s|
    && forall k | 0 <= k < b - a :: PieceFits(filter[a + k], s, cuts[k], cuts[k + 1])
  }

  /** The pattern filter[a..b] matches all of s[q..]. */
  ghost predicate Globs(filter: string, a: nat, b: nat, s: string, q: nat)
    requires a <= b <= |filter|
  {
    exists cuts: seq<nat> :: Cuts(cuts, filter, a, b, s, q)
  }

  /** filter[a..b] is one of the ':'-separated patterns of the filter. */
  predicate IsPattern(filter: string, a: nat, b: nat) {
    && a <= b <= |filter|
    && (forall k | a <= k < b :: filter[k] != ':')
    && (a == 0 || filter[a - 1] == ':')
    && (b == |filter| || filter[b] == ':')
  }

  /** Some pattern of the filter matches the name. */
  ghost predicate FilterAccepts(filter: string, name: string) {
    exists a: nat, b: nat :: IsPattern(filter, a, b) && Globs(filter, a, b, name, 0)
  }

  // ---------------------------------------------------------------------------
  // The matcher
  // ---------------------------------------------------------------------------

  predicate PatternMatchesString(pattern: CString, p: nat, str: CString, q: nat)
    requires p <= |pattern| && q <= |str|
    decreases |pattern| - p, |str| - q
  {
    if CharAt(pattern, p) == '\0' || CharAt(pattern, p) == ':' then CharAt(str, q) == '\0'
    else if pattern[p] == '?' then CharAt(str, q) != '\0' && PatternMatchesString(pattern, p + 1, str, q + 1)
    else if pattern[p] == '*' then
      || (CharAt(str, q) != '\0' && PatternMatchesString(pattern, p, str, q + 1))
      || PatternMatchesString(pattern, p + 1, str, q)
    else pattern[p] == CharAt(str, q) && PatternMatchesString(pattern, p + 1, str, q + 1)
  }

  lemma CutsCons(cuts: seq<nat>, filter: string, a: nat, b: nat, s: string, q: nat)
    requires a < b <= |filter| && cuts != []
    requires PieceFits(filter[a], s, q, cuts[0]) && Cuts(cuts, filter, a + 1, b, s, cuts[0])
    ensures Cuts([q] + cuts, filter, a, b, s, q)
  {
    var all := [q] + cuts;
    forall k | 0 <= k < b - a ensures PieceFits(filter[a + k], s, all[k], all[k + 1]) {
      assert k > 0 ==> PieceFits(filter[a + 1 + (k - 1)], s, cuts[k - 1], cuts[k - 1 + 1]);
    }
  }

  lemma CutsTail(cuts: seq<nat>, filter: string, a: nat, b: nat, s: string, q: nat)
    requires a < b <= |filter| && Cuts(cuts, filter, a, b, s, q)
    ensures PieceFits(filter[a], s, q, cuts[1]) && Cuts(cuts[1..], filter, a + 1, b, s, cuts[1])
  {
    assert PieceFits(filter[a + 0], s, cuts[0], cuts[0 + 1]);
    forall k | 0 <= k < b - (a + 1) ensures PieceFits(filter[a + 1 + k], s, cuts[1..][k], cuts[1..][k + 1]) {
      assert PieceFits(filter[a + (k + 1)], s, cuts[k + 1], cuts[k + 1 + 1]);
    }
  }

  /** A pattern matches when its first character fits a piece and the others match what is left. */
  lemma GlobsStep(filter: string, a: nat, b: nat, s: string, q: nat)
    requires a < b <= |filter|
    ensures Globs(filter, a, b, s, q) <==>
            exists mid: nat :: PieceFits(filter[a], s, q, mid) && Globs(filter, a + 1, b, s, mid)
  {
    if cuts: seq<nat> :| Cuts(cuts, filter, a, b, s, q) {
      CutsTail(cuts, filter, a, b, s, q);
      assert Globs(filter, a + 1, b, s, cuts[1]);
    }
    if mid: nat :| PieceFits(filter[a], s, q, mid) && Globs(filter, a + 1, b, s, mid) {
      var cuts: seq<nat> :| Cuts(cuts, filter, a + 1, b, s, mid);
      CutsCons(cuts, filter, a, b, s, q);
    }
  }

  lemma GlobsNothing(filter: string, a: nat, s: string, q: nat)
    requires a <= |filter|
    ensures Globs(filter, a, a, s, q) <==> q == |s|
  {
    assert q == |s| ==> Cuts([q], filter, a, a, s, q);
  }

  /** A '*' stands for nothing, or takes one character and stays. */
  lemma GlobsStar(filter: string, a: nat, b: nat, s: string, q: nat)
    requires a < b <= |filter| && q <= |s| && filter[a] == '*'
    ensures Globs(filter, a, b, s, q) <==>
            Globs(filter, a + 1, b, s, q) || (q < |s| && Globs(filter, a, b, s, q + 1))
  {
    GlobsStep(filter, a, b, s, q);
    GlobsStep(filter, a, b, s, q + 1);
    assert PieceFits(filter[a], s, q, q);
    if mid: nat :| PieceFits(filter[a], s, q, mid) && Globs(filter, a + 1, b, s, mid) {
      assert mid > q ==> PieceFits(filter[a], s, q + 1, mid);
    }
    if q < |s| {
      var next := q + 1;
      if mid: nat :| PieceFits(filter[a], s, next, mid) && Globs(filter, a + 1, b, s, mid) {
        assert PieceFits(filter[a], s, q, mid);
      }
    }
  }

  /** The recursion decides whether the pattern from p up to the next ':' matches all of str from q on. */
  lemma {:induction false} MatcherIsRight(pattern: CString, p: nat, e: nat, str: CString, q: nat)
    requires p <= e <= |pattern| && q <= |str|
    requires (forall k | p <= k < e :: pattern[k] != ':') && (e == |pattern| || pattern[e] == ':')
    ensures PatternMatchesString(pattern, p, str, q) <==> Globs(pattern, p, e, str, q)
    decreases e - p, |str| - q
  {
    if p == e {
      GlobsNothing(pattern, p, str, q);
    } else if pattern[p] == '*' {
      GlobsStar(pattern, p, e, str, q);
      MatcherIsRight(pattern, p + 1, e, str, q);
      if q < |str| { MatcherIsRight(pattern, p, e, str, q + 1); }
    } else {
      GlobsStep(pattern, p, e, str, q);
      if q < |str| {
        MatcherIsRight(pattern, p + 1, e, str, q + 1);
        assert PieceFits(pattern[p], str, q, q + 1) <==> pattern[p] == '?' || pattern[p] == str[q];
      }
    }
  }

  /** The position of the first ch at or after p, like strchr. */
  method StrChr(s: CString, p: nat, ch: char) returns (at: Option<nat>)
    requires p <= |s| && ch != '\0'
    ensures at.Some? ==> p <= at.value < |s| && s[at.value] == ch && forall k | p <= k < at.value :: s[k] != ch
    ensures at == None ==> forall k | p <= k < |s| :: s[k] != ch
  {
    var i := p;
    while CharAt(s, i) != '\0'
      invariant p <= i <= |s| && forall k | p <= k < i :: s[k] != ch
      decreases |s| - i
    {
      if s[i] == ch {
        return Some(i);
      }
      i := i + 1;
    }
    return None;
  }

  /** Main result: true exactly when some ':'-separated pattern of the filter matches the name. */
  method MatchesFilter(name: CString, filter: CString) returns (matched: bool)
    ensures matched <==> FilterAccepts(filter, name)
  {
    var cur := 0;
    while true
      invariant cur <= |filter| && (cur == 0 || filter[cur - 1] == ':')
      invariant forall a: nat, b: nat | a < cur && IsPattern(filter, a, b) :: !Globs(filter, a, b, name, 0)
      decreases |filter| - cur
    {
      var colon := StrChr(filter, cur, ':');
      ghost var e := if colon.Some? then colon.value else |filter|;
      MatcherIsRight(filter, cur, e, name, 0);
      if PatternMatchesString(filter, cur, name, 0) {
        assert IsPattern(filter, cur, e);
        return true;
      }
      forall a: nat, b: nat | a <= e && IsPattern(filter, a, b) ensures !Globs(filter, a, b, name, 0) {
        if a >= cur { PatternStarts(filter, a, b, cur, e); }
      }
      if colon == None {
        return false;
      }
      cur := colon.value + 1;
    }
  }

  /** A pattern that starts no later than the one at cur ends is that one, or starts earlier. */
  lemma PatternStarts(filter: string, a: nat, b: nat, cur: nat, e: nat)
    requires IsPattern(filter, a, b) && IsPattern(filter, cur, e) && cur <= a <= e
    ensures a == cur && b == e
  {
  }

  // ---------------------------------------------------------------------------
  // Positive and negative filters
  // ---------------------------------------------------------------------------

  /** A '*' alone matches every name. */
  lemma StarAcceptsAll(name: string)
    ensures FilterAccepts("*", name)
  {
    assert Cuts([0, |name|], "*", 0, 1, name, 0);
    assert IsPattern("*", 0, 1);
  }

  /** The empty filter accepts the empty name only. */
  lemma EmptyFilterAccepts(name: string)
    ensures FilterAccepts("", name) <==> name == ""
  {
    GlobsNothing("", 0, name, 0);
    assert IsPattern("", 0, 0);
  }

  function FullName(testCaseName: CString, testName: CString): CString { testCaseName + "." + testName }

  /** The flag up to its first '-' picks tests, what follows it leaves tests out; with nothing before
      the '-', everything is picked. */
  ghost predicate FlagPicks(flag: string, name: string) {
    if dash: nat :| dash < |flag| && flag[dash] == '-' && '-' !in flag[..dash] then
      (dash == 0 || FilterAccepts(flag[..dash], name)) && !FilterAccepts(flag[dash + 1..], name)
    else
      FilterAccepts(flag, name)
  }

  /** Main result: FilterMatchesTest follows the documented reading of the filter flag. */
  method FilterMatchesTest(testCaseName: CString, testName: CString, flag: CString) returns (matched: bool)
    ensures matched <==> FlagPicks(flag, FullName(testCaseName, testName))
  {
    var fullName := FullName(testCaseName, testName);
    var dash := StrChr(flag, 0, '-');
    var positive: CString, negative: CString;
    if dash == None {
      positive := flag;
      negative := "";
      EmptyFilterAccepts(fullName);
    } else {
      positive := flag[..dash.value];
      negative := flag[dash.value + 1..];
      FirstDashIsUnique(flag, dash.value);
      if positive == "" {
        positive := "*";
        StarAcceptsAll(fullName);
      }
    }
    matched := MatchesFilter(fullName, positive);
    if matched {
      var excluded := MatchesFilter(fullName, negative);
      matched := !excluded;
    }
  }

  lemma FirstDashIsUnique(flag: string, dash: nat)
    requires dash < |flag| && flag[dash] == '-' && forall k | 0 <= k < dash :: flag[k] != '-'
    ensures '-' !in flag[..dash]
    ensures forall d: nat | d < |flag| && flag[d] == '-' && '-' !in flag[..d] :: d == dash
  {
    forall d: nat | dash < d < |flag| ensures '-' in flag[..d] {
      assert flag[..d][dash] == '-';
    }
  }

  /** Without a '-', the flag is one filter. */
  lemma PicksWithoutDash(flag: string, name: string)
    requires '-' !in flag
    ensures FlagPicks(flag, name) <==> FilterAccepts(flag, name)
  {
  }

  /** What is before the first '-' picks, everything if there is nothing, and what is behind it leaves out. */
  lemma PicksWithDash(positive: string, negative: string, name: string)
    requires '-' !in positive
    ensures FlagPicks(positive + "-" + negative, name) <==>
            (positive == "" || FilterAccepts(positive, name)) && !FilterAccepts(negative, name)
  {
    var flag, dash := positive + "-" + negative, |positive|;
    assert flag[..dash] == positive && flag[dash + 1..] == negative;
    assert forall k | 0 <= k < dash :: flag[k] == positive[k];
    FirstDashIsUnique(flag, dash);
  }

  /** n question marks accept the names of n characters. */
  lemma {:induction false} QuestionMarks(filter: string, a: nat, name: string, q: nat)
    requires a <= |filter| && q <= |name| && forall k | a <= k < |filter| :: filter[k] == '?'
    ensures Globs(filter, a, |filter|, name, q) <==> |name| - q == |filter| - a
    decreases |filter| - a
  {
    if a == |filter| {
      GlobsNothing(filter, a, name, q);
    } else {
      GlobsStep(filter, a, |filter|, name, q);
      if q < |name| {
        QuestionMarks(filter, a + 1, name, q + 1);
        assert PieceFits(filter[a], name, q, q + 1);
      }
    }
  }
}
