/** The order in which registered tests run: death test cases first, shuffled or not. */
module TestOrder {
  import opened SimpleRegex
  import opened TestFilter
  import opened TestNames
  import Shuffle

  function Identity(n: nat): (s: seq<nat>)
    ensures |s| == n && forall i | 0 <= i < n :: s[i] == i
  {
    seq(n, i => i)
  }

  /** Each of the indices below n, in some order. */
  ghost predicate IsOrder(indices: seq<nat>, n: nat) { |indices| == n && multiset(indices) == multiset(Identity(n)) }

  lemma {:induction false} IdentityCounts(n: nat, c: nat)
    ensures multiset(Identity(n))[c] == if c < n then 1 else 0
  {
    if n > 0 {
      IdentityCounts(n - 1, c);
      assert Identity(n) == Identity(n - 1) + [n - 1];
    }
  }

  lemma TwoPlacesCountTwice<T>(s: seq<T>, i: nat, j: nat)
    requires i < j < |s| && s[i] == s[j]
    ensures multiset(s)[s[i]] >= 2
  {
    assert s == s[..i] + [s[i]] + s[i + 1..];
    assert s[i + 1..][j - i - 1] == s[j];
    assert s[j] in multiset(s[i + 1..]);
  }

  /** In an order every index has exactly one place. */
  lemma EachIndexOnce(indices: seq<nat>, n: nat)
    requires IsOrder(indices, n)
    ensures forall i | 0 <= i < n :: indices[i] < n
    ensures forall c: nat | c < n :: c in indices
    ensures forall i, j | 0 <= i < j < n :: indices[i] != indices[j]
  {
    forall i | 0 <= i < n ensures indices[i] < n {
      IdentityCounts(n, indices[i]);
      assert indices[i] in multiset(indices);
    }
    forall c: nat | c < n ensures c in indices {
      IdentityCounts(n, c);
      assert c in multiset(indices);
    }
    forall i, j | 0 <= i < j < n ensures indices[i] != indices[j] {
      IdentityCounts(n, indices[i]);
      if indices[i] == indices[j] {
        TwoPlacesCountTwice(indices, i, j);
      }
    }
  }

  /** The order keeps the indices up to last in front. */
  ghost predicate KeepsFront(indices: seq<nat>, last: int) {
    forall i | 0 <= i < |indices| :: indices[i] <= last <==> i <= last
  }

  lemma ShufflingKeepsFront(s: seq<nat>, t: seq<nat>, begin: nat, end: nat, last: int)
    requires Shuffle.PermutesRange(s, t, begin, end) && KeepsFront(s, last) && (end <= last + 1 || last < begin)
    ensures KeepsFront(t, last)
  {
    forall i | begin <= i < end ensures t[i] <= last <==> i <= last {
      var k := Shuffle.Find(s, t, begin, end, i);
    }
  }

  class TestInfo {
    const name: CString
    var isDisabled: bool
    var matchesFilter: bool
    var shouldRun: bool

    constructor (name: CString)
      ensures this.name == name && !shouldRun
    {
      this.name := name;
      isDisabled, matchesFilter, shouldRun := false, false, false;
    }
  }

  class TestCase {
    const name: CString
    var tests: seq<TestInfo>
    var testIndices: seq<nat>
    var shouldRun: bool

    ghost predicate Valid()
      reads this
    {
      IsOrder(testIndices, |tests|) && |tests| < Shuffle.MAX_RANGE
    }

    constructor (name: CString)
      ensures this.name == name && tests == [] && testIndices == [] && Valid()
    {
      this.name := name;
      tests, testIndices, shouldRun := [], [], false;
      assert Identity(0) == [];
    }

    method AddTestInfo(test: TestInfo)
      requires Valid() && |tests| + 1 < Shuffle.MAX_RANGE
      modifies this
      ensures Valid() && tests == old(tests) + [test] && testIndices == old(testIndices) + [|old(tests)|]
    {
      assert Identity(|tests| + 1) == Identity(|tests|) + [|tests|];
      tests := tests + [test];
      testIndices := testIndices + [|testIndices|];
    }

    method ShuffleTests(random: Shuffle.Random)
      requires |testIndices| < Shuffle.MAX_RANGE
      modifies this`testIndices, random
      ensures testIndices == Shuffle.ShuffledBy(old(random.state), old(testIndices), 0, |old(testIndices)|)
      ensures random.state == Shuffle.StateAfter(old(random.state), |old(testIndices)|)
    {
      var shuffled := Shuffle.ShuffleRange(random, 0, |testIndices|, testIndices);
      testIndices := shuffled.value;
    }

    method UnshuffleTests()
      requires Valid()
      modifies this
      ensures Valid() && tests == old(tests) && shouldRun == old(shouldRun) && testIndices == Identity(|tests|)
    {
      for i := 0 to |testIndices|
        invariant |testIndices| == |tests| && tests == old(tests) && shouldRun == old(shouldRun)
        invariant testIndices[..i] == Identity(|tests|)[..i]
      {
        testIndices := testIndices[i := i];
      }
      assert testIndices == testIndices[..|tests|] && Identity(|tests|) == Identity(|tests|)[..|tests|];
    }
  }

  /** The names differ, and the death test cases are those up to last. */
  ghost predicate DeathFirst(cases: seq<TestCase>, last: int) {
    && -1 <= last < |cases|
    && (forall i | 0 <= i < |cases| :: IsDeath(cases[i].name) <==> i <= last)
    && (forall i, j | 0 <= i < j < |cases| :: cases[i].name != cases[j].name)
  }

  lemma NamesTellApart(cases: seq<TestCase>, last: int)
    requires DeathFirst(cases, last)
    ensures AllDiffer(cases)
  {
    forall i: nat, j: nat | i < |cases| && j < |cases| && i != j ensures Differ(cases, i, j) {
      assert cases[i].name != cases[j].name;
    }
  }

  function Inserted<T>(s: seq<T>, k: nat, x: T): seq<T>
    requires k <= |s|
  {
    s[..k] + [x] + s[k..]
  }

  lemma InsertedKeepsDeathFirst(cases: seq<TestCase>, last: int, c: TestCase)
    requires DeathFirst(cases, last) && forall i | 0 <= i < |cases| :: cases[i].name != c.name
    ensures IsDeath(c.name) ==> DeathFirst(Inserted(cases, last + 1, c), last + 1)
    ensures !IsDeath(c.name) ==> DeathFirst(Inserted(cases, |cases|, c), last)
  {
    var k := if IsDeath(c.name) then last + 1 else |cases|;
    var all := Inserted(cases, k, c);
    assert forall i | 0 <= i < |all| :: all[i] == if i < k then cases[i] else if i == k then c else cases[i - 1];
  }

  /** The order of the test cases after shuffling the first ones and the others, and the state of the
      random source after that. */
  function ShuffledCases(state: nat, indices: seq<nat>, deaths: nat): seq<nat>
    requires deaths <= |indices|
  {
    var front := Shuffle.ShuffledBy(state, indices, 0, deaths);
    Shuffle.ShuffledBy(Shuffle.StateAfter(state, deaths), front, deaths, |indices|)
  }

  function StateAfterCases(state: nat, n: nat, deaths: nat): nat
    requires deaths <= n
  {
    Shuffle.StateAfter(Shuffle.StateAfter(state, deaths), n - deaths)
  }

  lemma ShuffledCasesKeepOrder(state: nat, indices: seq<nat>, last: int)
    requires -1 <= last < |indices| && IsOrder(indices, |indices|) && KeepsFront(indices, last)
    ensures var shuffled := ShuffledCases(state, indices, last + 1);
      IsOrder(shuffled, |indices|) && KeepsFront(shuffled, last)
  {
    var front := Shuffle.ShuffledBy(state, indices, 0, last + 1);
    Shuffle.ShuffledByPermutes(state, indices, 0, last + 1);
    ShufflingKeepsFront(indices, front, 0, last + 1, last);
    var shuffled := ShuffledCases(state, indices, last + 1);
    Shuffle.ShuffledByPermutes(Shuffle.StateAfter(state, last + 1), front, last + 1, |indices|);
    ShufflingKeepsFront(front, shuffled, last + 1, |indices|, last);
  }

  /** Shuffling leaves the test cases as they are, whatever the seed, exactly when no two are of one kind. */
  lemma CasesStayIffAlone(n: nat, deaths: nat)
    requires deaths <= n
    ensures (forall seed: nat :: ShuffledCases(seed, Identity(n), deaths) == Identity(n)) <==>
            deaths < 2 && n < deaths + 2
  {
    if deaths >= 2 || n >= deaths + 2 {
      var seed := SomeSeedShuffles(n, deaths);
    }
  }

  /** The first draw for each kind of test case decides which one of that kind runs last. */
  lemma LastCasesAreDrawn(state: nat, indices: seq<nat>, deaths: nat)
    requires deaths <= |indices|
    ensures var n, shuffled := |indices|, ShuffledCases(state, indices, deaths);
      && |shuffled| == n
      && (deaths >= 2 ==> shuffled[deaths - 1] == indices[Shuffle.NextState(state) % deaths])
      && (n - deaths >= 2 ==>
            shuffled[n - 1] == indices[deaths + Shuffle.NextState(Shuffle.StateAfter(state, deaths)) % (n - deaths)])
  {
    var n := |indices|;
    var front, next := Shuffle.ShuffledBy(state, indices, 0, deaths), Shuffle.StateAfter(state, deaths);
    Shuffle.ShuffledByPermutes(state, indices, 0, deaths);
    Shuffle.ShuffledByPermutes(next, front, deaths, n);
    if deaths >= 2 {
      Shuffle.FirstDrawDecides(indices, 0, deaths, Shuffle.DrawsFrom(state, deaths));
    }
    if n - deaths >= 2 {
      Shuffle.FirstDrawDecides(front, deaths, n - deaths, Shuffle.DrawsFrom(next, n - deaths));
    }
  }

  /** If two test cases are of one kind, seed 1 or seed 2 changes their order. */
  lemma SomeSeedShuffles(n: nat, deaths: nat) returns (seed: nat)
    requires deaths <= n && (deaths >= 2 || n >= deaths + 2)
    ensures 1 <= seed <= 2 && ShuffledCases(seed, Identity(n), deaths) != Identity(n)
  {
    var all := Identity(n);
    if deaths >= 2 {
      seed := Shuffle.SomeSeedMovesLast(deaths);
      var front := Shuffle.ShuffledBy(seed, all, 0, deaths);
      Shuffle.FirstDrawDecides(all, 0, deaths, Shuffle.DrawsFrom(seed, deaths));
      Shuffle.ShuffledByPermutes(Shuffle.StateAfter(seed, deaths), front, deaths, n);
      assert ShuffledCases(seed, all, deaths)[deaths - 1] == front[deaths - 1] != deaths - 1;
    } else {
      seed := Shuffle.SomeSeedMovesLast(n - deaths);
      Shuffle.FirstDrawDecides(all, deaths, n - deaths, Shuffle.DrawsFrom(seed, n - deaths));
      assert ShuffledCases(seed, all, deaths)[n - 1] != n - 1;
    }
  }

  /** The state of the random source before it gets to the i-th test case, when before(j) is the order of
      the tests in the j-th. */
  ghost function StateBefore(state: nat, before: nat -> seq<nat>, i: nat): nat {
    if i == 0 then state else Shuffle.StateAfter(StateBefore(state, before, i - 1), |before(i - 1)|)
  }

  /** The order of the tests in the i-th test case after that. */
  ghost function ShuffledCase(state: nat, before: nat -> seq<nat>, i: nat): seq<nat> {
    Shuffle.ShuffledBy(StateBefore(state, before, i), before(i), 0, |before(i)|)
  }

  /** The tests of a case are permuted as a whole: the first draw decides which of all of them runs last. */
  lemma ShuffledCaseIsDrawn(state: nat, before: nat -> seq<nat>, i: nat)
    ensures var was, shuffled := before(i), ShuffledCase(state, before, i);
      && |shuffled| == |was| && multiset(shuffled) == multiset(was)
      && (|was| >= 2 ==> shuffled[|was| - 1] == was[Shuffle.NextState(StateBefore(state, before, i)) % |was|])
  {
    var was, start := before(i), StateBefore(state, before, i);
    Shuffle.ShuffledByPermutes(start, was, 0, |was|);
    if |was| >= 2 {
      Shuffle.FirstDrawDecides(was, 0, |was|, Shuffle.DrawsFrom(start, |was|));
    }
  }

  /** How many numbers are drawn for the first i cases. */
  ghost function DrawsBefore(before: nat -> seq<nat>, i: nat): nat {
    if i == 0 then 0 else DrawsBefore(before, i - 1) + Shuffle.Draws(|before(i - 1)|)
  }

  lemma {:induction false} IteratedSum(state: nat, m: nat, n: nat)
    ensures Shuffle.Iterated(Shuffle.Iterated(state, m), n) == Shuffle.Iterated(state, m + n)
  {
    if n > 0 {
      IteratedSum(state, m, n - 1);
    }
  }

  /** Each case is shuffled with what the source yields after the cases before it. */
  lemma {:induction false} CasesDrawInTurn(state: nat, before: nat -> seq<nat>, i: nat)
    ensures StateBefore(state, before, i) == Shuffle.Iterated(state, DrawsBefore(before, i))
  {
    if i > 0 {
      CasesDrawInTurn(state, before, i - 1);
      Shuffle.DrawsAreConsecutive(StateBefore(state, before, i - 1), |before(i - 1)|);
      IteratedSum(state, DrawsBefore(before, i - 1), Shuffle.Draws(|before(i - 1)|));
    }
  }

  /** Whatever is shuffled before, some seed changes the order of a first case with two tests or more. */
  lemma SomeSeedShufflesTests(before: nat -> seq<nat>) returns (seed: nat)
    requires |before(0)| >= 2 && before(0) == Identity(|before(0)|)
    ensures 1 <= seed <= 2 && ShuffledCase(seed, before, 0) != before(0)
  {
    seed := Shuffle.SomeSeedMovesLast(|before(0)|);
    ShuffledCaseIsDrawn(seed, before, 0);
  }

  ghost predicate Differ<T>(s: seq<T>, i: nat, j: nat)
    requires i < |s| && j < |s|
  {
    s[i] != s[j]
  }

  ghost predicate AllDiffer<T>(s: seq<T>) {
    forall i: nat, j: nat | i < |s| && j < |s| && i != j :: Differ(s, i, j)
  }

  ghost predicate AllValid(cases: seq<TestCase>)
    reads cases
  {
    forall i | 0 <= i < |cases| :: cases[i].Valid()
  }

  /** The tests of each case are in this order. */
  ghost predicate HaveOrders(cases: seq<TestCase>, before: nat -> seq<nat>)
    reads cases`testIndices
  {
    forall j {:trigger cases[j]} | 0 <= j < |cases| :: cases[j].testIndices == before(j)
  }

  /** The first i cases have been shuffled, and the others have the order they had before. */
  ghost predicate ShuffledUpTo(cases: seq<TestCase>, i: nat, state: nat, before: nat -> seq<nat>)
    reads cases`testIndices
  {
    forall j {:trigger cases[j]} | 0 <= j < |cases| ::
      cases[j].testIndices == if j < i then ShuffledCase(state, before, j) else before(j)
  }

  method ShuffleNext(cases: seq<TestCase>, i: nat, random: Shuffle.Random, ghost state: nat,
                     ghost before: nat -> seq<nat>)
    requires i < |cases| && AllDiffer(cases) && |before(i)| < Shuffle.MAX_RANGE
    requires ShuffledUpTo(cases, i, state, before) && random.state == StateBefore(state, before, i)
    modifies cases`testIndices, random
    ensures ShuffledUpTo(cases, i + 1, state, before) && random.state == StateBefore(state, before, i + 1)
  {
    forall j | 0 <= j < |cases| && j != i ensures cases[j] != cases[i] {
      assert Differ(cases, j, i);
    }
    cases[i].ShuffleTests(random);
  }

  method ShuffleEach(cases: seq<TestCase>, random: Shuffle.Random, ghost state: nat, ghost before: nat -> seq<nat>)
    requires AllDiffer(cases) && forall j | 0 <= j < |cases| :: |before(j)| < Shuffle.MAX_RANGE
    requires ShuffledUpTo(cases, 0, state, before) && random.state == state
    modifies cases`testIndices, random
    ensures ShuffledUpTo(cases, |cases|, state, before) && random.state == StateBefore(state, before, |cases|)
  {
    for i := 0 to |cases|
      invariant ShuffledUpTo(cases, i, state, before) && random.state == StateBefore(state, before, i)
    {
      ShuffleNext(cases, i, random, state, before);
    }
  }

  /** Each of these is an order of the tests of its case. */
  ghost predicate AreOrders(cases: seq<TestCase>, before: nat -> seq<nat>)
    reads cases`tests
  {
    forall i | 0 <= i < |cases| :: IsOrder(before(i), |cases[i].tests|) && |cases[i].tests| < Shuffle.MAX_RANGE
  }

  /** Shuffled orders are orders. */
  lemma ShuffledCasesAreValid(cases: seq<TestCase>, state: nat, before: nat -> seq<nat>)
    requires AreOrders(cases, before) && ShuffledUpTo(cases, |cases|, state, before)
    ensures AllValid(cases)
  {
    forall i | 0 <= i < |cases| ensures cases[i].Valid() {
      Shuffle.ShuffledByPermutes(StateBefore(state, before, i), before(i), 0, |before(i)|);
    }
  }

  method ShuffleOrders(cases: seq<TestCase>, random: Shuffle.Random, ghost before: nat -> seq<nat>)
    requires AllDiffer(cases) && AreOrders(cases, before) && ShuffledUpTo(cases, 0, random.state, before)
    modifies cases`testIndices, random
    ensures AllValid(cases) && ShuffledUpTo(cases, |cases|, old(random.state), before)
  {
    ShuffleEach(cases, random, random.state, before);
    ShuffledCasesAreValid(cases, old(random.state), before);
  }

  class UnitTestImpl {
    var testCases: seq<TestCase>
    var testCaseIndices: seq<nat>
    var lastDeathTestCase: int

    ghost predicate Valid()
      reads this, testCases
    {
      && DeathFirst(testCases, lastDeathTestCase)
      && |testCases| < Shuffle.MAX_RANGE
      && IsOrder(testCaseIndices, |testCases|)
      && KeepsFront(testCaseIndices, lastDeathTestCase)
      && AllValid(testCases)
    }

    constructor ()
      ensures Valid() && testCases == []
    {
      testCases, testCaseIndices, lastDeathTestCase := [], [], -1;
      assert Identity(0) == [];
    }

    method FindCase(name: CString) returns (k: nat)
      ensures k <= |testCases| && (k < |testCases| ==> testCases[k].name == name)
      ensures forall i | 0 <= i < k :: testCases[i].name != name
    {
      k := 0;
      while k < |testCases| && testCases[k].name != name
        invariant k <= |testCases| && forall i | 0 <= i < k :: testCases[i].name != name
      {
        k := k + 1;
      }
    }

    /** The test case of this name, new if there is none yet: a death test case goes behind the others of
        its kind, any other case to the end. */
    method GetTestCase(name: CString) returns (c: TestCase)
      requires Valid() && testCaseIndices == Identity(|testCases|) && |testCases| + 1 < Shuffle.MAX_RANGE
      modifies this
      ensures Valid() && testCaseIndices == Identity(|testCases|)
      ensures c.name == name && c in testCases
      ensures if exists i :: 0 <= i < |old(testCases)| && old(testCases)[i].name == name
        then testCases == old(testCases)
        else fresh(c) && c.tests == []
             && testCases == Inserted(old(testCases),
                                      if IsDeath(name) then old(lastDeathTestCase) + 1 else |old(testCases)|, c)
    {
      var k := FindCase(name);
      if k < |testCases| {
        return testCases[k];
      }
      c := AddTestCase(name);
    }

    method AddTestCase(name: CString) returns (c: TestCase)
      requires Valid() && testCaseIndices == Identity(|testCases|) && |testCases| + 1 < Shuffle.MAX_RANGE
      requires forall i | 0 <= i < |testCases| :: testCases[i].name != name
      modifies this
      ensures Valid() && testCaseIndices == Identity(|testCases|)
      ensures fresh(c) && c.name == name && c.tests == [] && c in testCases
      ensures testCases == Inserted(old(testCases),
                                    if IsDeath(name) then old(lastDeathTestCase) + 1 else |old(testCases)|, c)
    {
      c := new TestCase(name);
      InsertedKeepsDeathFirst(testCases, lastDeathTestCase, c);
      var isDeath := MatchesFilter(name, DEATH_TEST_CASE_FILTER);
      if isDeath {
        Insert(c, lastDeathTestCase + 1, lastDeathTestCase + 1);
      } else {
        Insert(c, |testCases|, lastDeathTestCase);
      }
    }

    method Insert(c: TestCase, k: nat, last: int)
      requires Valid() && testCaseIndices == Identity(|testCases|) && |testCases| + 1 < Shuffle.MAX_RANGE
      requires c.Valid() && k <= |testCases| && DeathFirst(Inserted(testCases, k, c), last)
      modifies this
      ensures Valid() && testCaseIndices == Identity(|testCases|) && lastDeathTestCase == last
      ensures testCases == Inserted(old(testCases), k, c) && c in testCases
    {
      assert Inserted(testCases, k, c)[k] == c;
      lastDeathTestCase := last;
      testCases := Inserted(testCases, k, c);
      testCaseIndices := testCaseIndices + [|testCaseIndices|];
      assert testCaseIndices == Identity(|testCases|);
    }

    /** Registers a test, behind the other tests of its case. */
    method AddTestInfo(caseName: CString, test: TestInfo) returns (ghost c: TestCase)
      requires Valid() && testCaseIndices == Identity(|testCases|) && |testCases| + 1 < Shuffle.MAX_RANGE
      requires forall i | 0 <= i < |testCases| :: |testCases[i].tests| + 1 < Shuffle.MAX_RANGE
      modifies this, testCases
      ensures Valid() && testCaseIndices == Identity(|testCases|)
      ensures c in testCases && c.name == caseName
      ensures c.tests == (if c in old(testCases) then old(c.tests) else []) + [test]
      ensures if exists i :: 0 <= i < |old(testCases)| && old(testCases)[i].name == caseName
        then testCases == old(testCases)
        else fresh(c)
             && testCases == Inserted(old(testCases),
                                      if IsDeath(caseName) then old(lastDeathTestCase) + 1 else |old(testCases)|, c)
      ensures forall d | d in old(testCases) && d != c :: d.tests == old(d.tests) && d.testIndices == old(d.testIndices)
    {
      var found := GetTestCase(caseName);
      c := found;
      ghost var i :| 0 <= i < |testCases| && testCases[i] == c;
      NamesTellApart(testCases, lastDeathTestCase);
      forall j | 0 <= j < |testCases| && j != i ensures testCases[j] != c {
        assert Differ(testCases, j, i);
      }
      found.AddTestInfo(test);
    }

    /** Shuffles for an iteration: the order depends on the seed and on nothing that was drawn before. */
    method ShuffleWithSeed(random: Shuffle.Random, seed: nat, ghost before: nat -> seq<nat>)
      requires Valid() && HaveOrders(testCases, before)
      modifies this`testCaseIndices, testCases`testIndices, random
      ensures Valid()
      ensures testCaseIndices == ShuffledCases(seed, old(testCaseIndices), lastDeathTestCase + 1)
      ensures ShuffledUpTo(testCases, |testCases|, StateAfterCases(seed, |testCases|, lastDeathTestCase + 1), before)
    {
      random.Reseed(seed);
      ShuffleTests(random, before);
    }

    /** Shuffles the test cases, death test cases among themselves, and the tests of each. */
    method ShuffleTests(random: Shuffle.Random, ghost before: nat -> seq<nat>)
      requires Valid() && HaveOrders(testCases, before)
      modifies this`testCaseIndices, testCases`testIndices, random
      ensures Valid()
      ensures testCaseIndices == ShuffledCases(old(random.state), old(testCaseIndices), lastDeathTestCase + 1)
      ensures ShuffledUpTo(testCases, |testCases|,
                           StateAfterCases(old(random.state), |testCases|, lastDeathTestCase + 1), before)
    {
      ShuffleCases(random);
      ShuffleTestsOfEach(random, before);
    }

    method ShuffleTestsOfEach(random: Shuffle.Random, ghost before: nat -> seq<nat>)
      requires Valid() && HaveOrders(testCases, before)
      modifies testCases`testIndices, random
      ensures Valid() && ShuffledUpTo(testCases, |testCases|, old(random.state), before)
    {
      NamesTellApart(testCases, lastDeathTestCase);
      ShuffleOrders(testCases, random, before);
    }

    method ShuffleCases(random: Shuffle.Random)
      requires Valid()
      modifies this`testCaseIndices, random
      ensures Valid()
      ensures testCaseIndices == ShuffledCases(old(random.state), old(testCaseIndices), lastDeathTestCase + 1)
      ensures random.state == StateAfterCases(old(random.state), |testCases|, lastDeathTestCase + 1)
    {
      var n, deaths := |testCases|, lastDeathTestCase + 1;
      ShuffledCasesKeepOrder(random.state, testCaseIndices, lastDeathTestCase);
      var front := Shuffle.ShuffleRange(random, 0, deaths, testCaseIndices);
      var all := Shuffle.ShuffleRange(random, deaths, n, front.value);
      testCaseIndices := all.value;
    }

    /** Restores the order of registration, of the test cases and of the tests of each. */
    method UnshuffleTests()
      requires Valid()
      modifies this, testCases
      ensures Valid() && testCases == old(testCases) && lastDeathTestCase == old(lastDeathTestCase)
      ensures testCaseIndices == Identity(|testCases|)
      ensures forall c | c in testCases :: c.tests == old(c.tests) && c.testIndices == Identity(|c.tests|)
    {
      ghost var indices := testCaseIndices;
      for i := 0 to |testCases|
        invariant testCases == old(testCases) && lastDeathTestCase == old(lastDeathTestCase)
        invariant |testCaseIndices| == |testCases| && testCaseIndices[..i] == Identity(|testCases|)[..i]
        invariant forall c | c in testCases :: c.Valid() && c.tests == old(c.tests)
        invariant forall j | 0 <= j < i :: testCases[j].testIndices == Identity(|testCases[j].tests|)
      {
        testCases[i].UnshuffleTests();
        testCaseIndices := testCaseIndices[i := i];
      }
      var n := |testCases|;
      assert testCaseIndices == testCaseIndices[..n] && Identity(n) == Identity(n)[..n];
    }

    /** The i-th test case to run. */
    function RunsAt(i: nat): TestCase
      requires Valid() && i < |testCases|
      reads this, testCases
    {
      EachIndexOnce(testCaseIndices, |testCases|);
      testCases[testCaseIndices[i]]
    }

    function GetMutableTestCase(i: int): TestCase?
      requires Valid()
      reads this, testCases
    {
      if 0 <= i < |testCaseIndices| then RunsAt(i) else null
    }

    /** The i-th test case for the others to look at, which is the i-th one registered. */
    function GetTestCaseAt(i: int): TestCase?
      requires Valid()
      reads this, testCases
    {
      if 0 <= i < |testCaseIndices| then testCases[i] else null
    }

    /** In any order that shuffling leaves, every test case runs once, and no death test case runs after
        another kind. */
    lemma DeathTestsRunFirst()
      requires Valid()
      ensures forall c | c in testCases :: exists i :: 0 <= i < |testCases| && RunsAt(i) == c
      ensures forall i, j | 0 <= i < j < |testCases| :: RunsAt(i) != RunsAt(j)
      ensures forall i, j | 0 <= i < j < |testCases| && IsDeath(RunsAt(j).name) :: IsDeath(RunsAt(i).name)
    {
      EachIndexOnce(testCaseIndices, |testCases|);
      forall c | c in testCases ensures exists i :: 0 <= i < |testCases| && RunsAt(i) == c {
        var k: nat :| k < |testCases| && testCases[k] == c;
        assert k in testCaseIndices;
        var i :| 0 <= i < |testCases| && testCaseIndices[i] == k;
        assert RunsAt(i) == c;
      }
    }

    /** The two ways to look up a test case agree exactly when the test cases are not shuffled. */
    lemma LookupsAgreeIffUnshuffled()
      requires Valid()
      ensures (forall i :: GetTestCaseAt(i) == GetMutableTestCase(i)) <==> testCaseIndices == Identity(|testCases|)
    {
      EachIndexOnce(testCaseIndices, |testCases|);
      if forall i :: GetTestCaseAt(i) == GetMutableTestCase(i) {
        forall i | 0 <= i < |testCases| ensures testCaseIndices[i] == i {
          assert GetTestCaseAt(i) == GetMutableTestCase(i);
        }
      }
    }
  }
}
