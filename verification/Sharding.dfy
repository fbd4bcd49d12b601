/** Which of the registered tests run in this process: filters, disabled tests, and shards. */
module Sharding {
  import opened SimpleRegex
  import opened TestFilter
  import opened TestNames
  import opened TestOrder
  import opened Sequences

  datatype Shard = All | Shard(total: int, index: int)

  datatype Answer = Fatal | Answer(shards: bool)

  /** Whether the environment asks for sharding. A variable that is not set reads as -1, like one that is
      set to -1. */
  function ShouldShard(totalShards: int, shardIndex: int, inSubprocessForDeathTest: bool): (answer: Answer)
    ensures inSubprocessForDeathTest ==> answer == Answer(false)
    ensures !inSubprocessForDeathTest ==>
      && (answer == Answer(true) <==> totalShards > 1 && 0 <= shardIndex < totalShards)
      && (answer == Answer(false) <==> (totalShards == shardIndex == -1) || (totalShards == 1 && shardIndex == 0))
  {
    if inSubprocessForDeathTest then Answer(false)
    else if totalShards == -1 && shardIndex == -1 then Answer(false)
    else if totalShards == -1 && shardIndex != -1 then Fatal
    else if totalShards != -1 && shardIndex == -1 then Fatal
    else if shardIndex < 0 || shardIndex >= totalShards then Fatal
    else Answer(totalShards > 1)
  }

  predicate IsShard(shard: Shard) { shard.All? || 0 <= shard.index < shard.total }

  predicate ShouldRunTestOnShard(shard: Shard, id: nat)
    requires IsShard(shard)
  {
    shard.All? || id % shard.total == shard.index
  }

  // Numbering the runnable tests, and how the numbers divide among the shards.

  /** The k-th test runs here, when the runnable tests before the first are numbered up to id. */
  predicate Selected(runnable: seq<bool>, shard: Shard, id: nat, k: nat)
    requires k < |runnable| && IsShard(shard)
  {
    runnable[k] && ShouldRunTestOnShard(shard, id + CountSet(runnable, k))
  }

  function CountSelected(runnable: seq<bool>, shard: Shard, id: nat, n: nat): nat
    requires n <= |runnable| && IsShard(shard)
  {
    if n == 0 then 0
    else CountSelected(runnable, shard, id, n - 1) + if Selected(runnable, shard, id, n - 1) then 1 else 0
  }

  /** Every runnable test runs on exactly one of the shards, and no other test on any. */
  lemma EachTestOnOneShard(runnable: seq<bool>, total: nat, id: nat, k: nat)
    requires k < |runnable| && total >= 1
    ensures runnable[k] <==> exists index: nat :: index < total && Selected(runnable, Shard(total, index), id, k)
    ensures forall i: nat, j: nat | i < total && j < total ::
      Selected(runnable, Shard(total, i), id, k) && Selected(runnable, Shard(total, j), id, k) ==> i == j
  {
    if runnable[k] {
      assert Selected(runnable, Shard(total, (id + CountSet(runnable, k)) % total), id, k);
    }
  }

  /** The numbers below r with remainder i: one for each full round, and one more if r gets that far. */
  function Share(r: nat, total: nat, i: nat): nat
    requires i < total
  {
    r / total + if r % total > i then 1 else 0
  }

  lemma ShareStep(r: nat, total: nat, i: nat)
    requires i < total
    ensures Share(r + 1, total, i) == Share(r, total, i) + if r % total == i then 1 else 0
  {
    var q, m := r / total, r % total;
    assert r == q * total + m;
    if m + 1 < total {
      DivMod(r + 1, total, q, m + 1);
    } else {
      assert (q + 1) * total == q * total + total;
      DivMod(r + 1, total, q + 1, 0);
    }
  }

  lemma DivMod(x: nat, d: nat, q: nat, m: nat)
    requires m < d && x == q * d + m
    ensures x / d == q && x % d == m
  {
    var q1, m1 := x / d, x % d;
    assert x == q1 * d + m1;
    assert (q1 - q) * d == m - m1;
    if q1 != q {
      MultipleIsFar(q1 - q, d);
    }
  }

  lemma MultipleIsFar(k: int, d: int)
    requires k != 0 && d >= 0
    ensures k * d >= d || k * d <= -d
  {
    if k > 0 {
      assert k * d == d + (k - 1) * d;
    } else {
      assert k * d == -d - (-k - 1) * d;
    }
  }

  /** How many tests a shard gets, exactly. */
  lemma {:induction false} ShardSize(runnable: seq<bool>, total: nat, index: nat, n: nat)
    requires index < total && n <= |runnable|
    ensures CountSelected(runnable, Shard(total, index), 0, n) == Share(CountSet(runnable, n), total, index)
  {
    if n > 0 {
      ShardSize(runnable, total, index, n - 1);
      ShareStep(CountSet(runnable, n - 1), total, index);
    }
  }

  /** The sizes of two shards differ by at most one. */
  lemma ShardsAreBalanced(runnable: seq<bool>, total: nat, i: nat, j: nat)
    requires i < total && j < total
    ensures -1 <= CountSelected(runnable, Shard(total, i), 0, |runnable|)
               - CountSelected(runnable, Shard(total, j), 0, |runnable|) <= 1
  {
    ShardSize(runnable, total, i, |runnable|);
    ShardSize(runnable, total, j, |runnable|);
  }

  lemma {:induction false} CountSetConcat(a: seq<bool>, b: seq<bool>, n: nat)
    requires n <= |b|
    ensures CountSet(a + b, |a| + n) == CountSet(a, |a|) + CountSet(b, n)
  {
    if n > 0 {
      CountSetConcat(a, b, n - 1);
    } else {
      CountSetPrefix(a, b, |a|);
    }
  }

  lemma {:induction false} CountSetPrefix(a: seq<bool>, b: seq<bool>, n: nat)
    requires n <= |a|
    ensures CountSet(a + b, n) == CountSet(a, n)
  {
    if n > 0 {
      CountSetPrefix(a, b, n - 1);
    }
  }

  lemma {:induction false} CountPrefix(a: seq<bool>, b: seq<bool>, shard: Shard, n: nat)
    requires n <= |a| && IsShard(shard)
    ensures CountSelected(a + b, shard, 0, n) == CountSelected(a, shard, 0, n)
  {
    if n > 0 {
      CountPrefix(a, b, shard, n - 1);
      CountSetPrefix(a, b, n - 1);
    }
  }

  lemma {:induction false} CountConcat(a: seq<bool>, b: seq<bool>, shard: Shard, n: nat)
    requires n <= |b| && IsShard(shard)
    ensures CountSelected(a + b, shard, 0, |a| + n)
         == CountSelected(a, shard, 0, |a|) + CountSelected(b, shard, CountSet(a, |a|), n)
  {
    if n > 0 {
      CountConcat(a, b, shard, n - 1);
      CountSetConcat(a, b, n - 1);
      assert (a + b)[|a| + n - 1] == b[n - 1];
    } else {
      CountPrefix(a, b, shard, |a|);
    }
  }

  lemma CountsConcat(a: seq<bool>, b: seq<bool>, shard: Shard)
    requires IsShard(shard)
    ensures CountSet(a + b, |a + b|) == CountSet(a, |a|) + CountSet(b, |b|)
    ensures CountSelected(a + b, shard, 0, |a + b|)
         == CountSelected(a, shard, 0, |a|) + CountSelected(b, shard, CountSet(a, |a|), |b|)
  {
    CountSetConcat(a, b, |b|);
    CountConcat(a, b, shard, |b|);
  }

  // Filtering the registered tests.

  ghost predicate IsRunnable(flag: CString, alsoDisabled: bool, caseName: CString, testName: CString) {
    (alsoDisabled || !IsDisabled(caseName, testName)) && FlagPicks(flag, FullName(caseName, testName))
  }

  /** A test is runnable when the flag picks "case.test" and neither name is marked as disabled, or that does
      not matter. */
  lemma RunnableIs(flag: CString, alsoDisabled: bool, caseName: CString, testName: CString)
    ensures IsRunnable(flag, alsoDisabled, caseName, testName) <==>
      && FlagPicks(flag, caseName + ['.'] + testName)
      && (alsoDisabled || (!IsMarkedDisabled(caseName) && !IsMarkedDisabled(testName)))
  {
    DisabledNames(caseName);
    DisabledNames(testName);
  }

  /** The name begins with "DISABLED_", or has it behind a slash. */
  ghost predicate IsMarkedDisabled(name: string) { HasAt(name, 0, "DISABLED_") || Contains(name, "/DISABLED_") }

  /** Which tests of a case, and of the first n cases, are runnable. */
  ghost function RunnableIn(flag: CString, alsoDisabled: bool, name: CString,
                            tests: seq<TestInfo>): (runnable: seq<bool>)
    ensures |runnable| == |tests|
    ensures forall j | 0 <= j < |tests| :: runnable[j] == IsRunnable(flag, alsoDisabled, name, tests[j].name)
  {
    seq(|tests|, j requires 0 <= j < |tests| => IsRunnable(flag, alsoDisabled, name, tests[j].name))
  }

  ghost function CaseRunnable(flag: CString, alsoDisabled: bool, c: TestCase): (runnable: seq<bool>)
    reads c`tests
    ensures |runnable| == |c.tests|
  {
    RunnableIn(flag, alsoDisabled, c.name, c.tests)
  }

  ghost function AllRunnable(flag: CString, alsoDisabled: bool, cases: seq<TestCase>, n: nat): seq<bool>
    requires n <= |cases|
    reads cases`tests
  {
    if n == 0 then []
    else AllRunnable(flag, alsoDisabled, cases, n - 1) + CaseRunnable(flag, alsoDisabled, cases[n - 1])
  }

  method FilterTest(t: TestInfo, caseName: CString, flag: CString, alsoDisabled: bool, shard: Shard, id: nat)
    returns (isRunnable: bool, isSelected: bool)
    requires IsShard(shard)
    modifies t
    ensures isRunnable == IsRunnable(flag, alsoDisabled, caseName, t.name)
    ensures isSelected == (isRunnable && ShouldRunTestOnShard(shard, id))
    ensures t.isDisabled == IsDisabled(caseName, t.name)
    ensures t.matchesFilter == FlagPicks(flag, FullName(caseName, t.name))
    ensures t.shouldRun == isSelected
  {
    var caseDisabled := MatchesFilter(caseName, DISABLE_TEST_FILTER);
    var testDisabled := MatchesFilter(t.name, DISABLE_TEST_FILTER);
    t.isDisabled := caseDisabled || testDisabled;
    t.matchesFilter := FilterMatchesTest(caseName, t.name, flag);
    isRunnable := (alsoDisabled || !t.isDisabled) && t.matchesFilter;
    isSelected := isRunnable && ShouldRunTestOnShard(shard, id);
    t.shouldRun := isSelected;
  }

  /** The first n tests of a case carry the flags they should, when these of its tests are runnable. */
  ghost predicate TestsFiltered(flag: CString, runnable: seq<bool>, shard: Shard, id: nat, name: CString,
                                tests: seq<TestInfo>, n: nat)
    requires n <= |tests| == |runnable| && IsShard(shard)
    reads tests
  {
    forall j | 0 <= j < n ::
      && tests[j].isDisabled == IsDisabled(name, tests[j].name)
      && tests[j].matchesFilter == FlagPicks(flag, FullName(name, tests[j].name))
      && tests[j].shouldRun == Selected(runnable, shard, id, j)
  }

  ghost predicate SomeShouldRun(tests: seq<TestInfo>, n: nat)
    requires n <= |tests|
    reads tests
  {
    exists j :: 0 <= j < n && tests[j].shouldRun
  }

  ghost predicate CaseFiltered(flag: CString, runnable: seq<bool>, shard: Shard, id: nat, c: TestCase)
    requires IsShard(shard) && |runnable| == |c.tests|
    reads c, c.tests
  {
    && TestsFiltered(flag, runnable, shard, id, c.name, c.tests, |c.tests|)
    && c.shouldRun == SomeShouldRun(c.tests, |c.tests|)
  }

  /** The flags of the j-th test and of its case change, and those of the tests before it do not. */
  method FilterTestAt(c: TestCase, tests: seq<TestInfo>, j: nat, flag: CString, alsoDisabled: bool, shard: Shard,
                      ghost runnable: seq<bool>, id: nat, runnableSoFar: nat, selectedSoFar: nat)
    returns (numRunnable: nat, numSelected: nat)
    requires IsShard(shard) && j < |tests| == |runnable| && forall k | 0 <= k < j :: tests[k] != tests[j]
    requires runnable[j] == IsRunnable(flag, alsoDisabled, c.name, tests[j].name)
    requires runnableSoFar == CountSet(runnable, j) && selectedSoFar == CountSelected(runnable, shard, id, j)
    requires TestsFiltered(flag, runnable, shard, id, c.name, tests, j) && c.shouldRun == SomeShouldRun(tests, j)
    modifies c`shouldRun, tests[j]
    ensures TestsFiltered(flag, runnable, shard, id, c.name, tests, j + 1) && c.shouldRun == SomeShouldRun(tests, j + 1)
    ensures numRunnable == CountSet(runnable, j + 1) && numSelected == CountSelected(runnable, shard, id, j + 1)
  {
    var isRunnable, isSelected := FilterTest(tests[j], c.name, flag, alsoDisabled, shard, id + runnableSoFar);
    numRunnable := runnableSoFar + if isRunnable then 1 else 0;
    numSelected := selectedSoFar + if isSelected then 1 else 0;
    c.shouldRun := c.shouldRun || isSelected;
  }

  lemma EarlierDiffer<T>(s: seq<T>, j: nat)
    requires AllDiffer(s) && j < |s|
    ensures forall k | 0 <= k < j :: s[k] != s[j]
  {
    forall k | 0 <= k < j ensures s[k] != s[j] {
      assert Differ(s, k, j);
    }
  }

  method FilterCase(c: TestCase, flag: CString, alsoDisabled: bool, shard: Shard, id: nat, ghost runnable: seq<bool>)
    returns (numRunnable: nat, numSelected: nat)
    requires IsShard(shard) && AllDiffer(c.tests)
    requires runnable == RunnableIn(flag, alsoDisabled, c.name, c.tests)
    modifies c`shouldRun, c.tests
    ensures CaseFiltered(flag, runnable, shard, id, c)
    ensures numRunnable == CountSet(runnable, |runnable|)
      && numSelected == CountSelected(runnable, shard, id, |runnable|)
  {
    var tests := c.tests;
    c.shouldRun := false;
    numRunnable, numSelected := 0, 0;
    for j := 0 to |tests|
      invariant TestsFiltered(flag, runnable, shard, id, c.name, tests, j) && c.shouldRun == SomeShouldRun(tests, j)
      invariant numRunnable == CountSet(runnable, j) && numSelected == CountSelected(runnable, shard, id, j)
    {
      EarlierDiffer(tests, j);
      numRunnable, numSelected :=
        FilterTestAt(c, tests, j, flag, alsoDisabled, shard, runnable, id, numRunnable, numSelected);
    }
  }

  /** How many tests of the first n cases are runnable, and how many of them run here. */
  ghost function RunnableBefore(flag: CString, alsoDisabled: bool, cases: seq<TestCase>, n: nat): nat
    requires n <= |cases|
    reads cases`tests
  {
    var all := AllRunnable(flag, alsoDisabled, cases, n);
    CountSet(all, |all|)
  }

  ghost function SelectedBefore(flag: CString, alsoDisabled: bool, shard: Shard, cases: seq<TestCase>, n: nat): nat
    requires n <= |cases| && IsShard(shard)
    reads cases`tests
  {
    var all := AllRunnable(flag, alsoDisabled, cases, n);
    CountSelected(all, shard, 0, |all|)
  }

  lemma CountsGoOn(flag: CString, alsoDisabled: bool, shard: Shard, cases: seq<TestCase>, i: nat)
    requires i < |cases| && IsShard(shard)
    ensures var here := CaseRunnable(flag, alsoDisabled, cases[i]);
      var before := RunnableBefore(flag, alsoDisabled, cases, i);
      && RunnableBefore(flag, alsoDisabled, cases, i + 1) == before + CountSet(here, |here|)
      && SelectedBefore(flag, alsoDisabled, shard, cases, i + 1)
         == SelectedBefore(flag, alsoDisabled, shard, cases, i) + CountSelected(here, shard, before, |here|)
  {
    CountsConcat(AllRunnable(flag, alsoDisabled, cases, i), CaseRunnable(flag, alsoDisabled, cases[i]), shard);
  }

  /** Every test belongs to one place in one case. */
  ghost predicate TestsApart(cases: seq<TestCase>, owner: map<TestInfo, nat>)
    reads cases`tests
  {
    && AllDiffer(cases)
    && forall i | 0 <= i < |cases| :: AllDiffer(cases[i].tests) && BelongTo(cases[i].tests, owner, i)
  }

  ghost predicate BelongTo(tests: seq<TestInfo>, owner: map<TestInfo, nat>, i: nat) {
    forall j | 0 <= j < |tests| :: tests[j] in owner && owner[tests[j]] == i
  }

  /** The i-th case has its flags, counting on from the runnable tests of the cases before it. */
  ghost predicate CaseFilteredAt(flag: CString, alsoDisabled: bool, shard: Shard, cases: seq<TestCase>, i: nat)
    requires IsShard(shard) && i < |cases|
    reads cases`tests, cases[i], cases[i].tests
  {
    var id := RunnableBefore(flag, alsoDisabled, cases, i);
    CaseFiltered(flag, CaseRunnable(flag, alsoDisabled, cases[i]), shard, id, cases[i])
  }

  ghost predicate IsApart(cases: seq<TestCase>, k: nat, i: nat)
    requires k < |cases| && i < |cases|
    reads cases`tests
  {
    cases[k] != cases[i] && forall t | t in cases[k].tests :: t !in cases[i].tests
  }

  lemma OthersApart(cases: seq<TestCase>, owner: map<TestInfo, nat>, k: nat, i: nat)
    requires TestsApart(cases, owner) && k < i < |cases|
    ensures IsApart(cases, k, i)
  {
    assert Differ(cases, k, i);
    assert BelongTo(cases[k].tests, owner, k) && BelongTo(cases[i].tests, owner, i);
  }

  /** The numbers that the counters have before each case and at the end. */
  ghost predicate AreTotals(flag: CString, alsoDisabled: bool, shard: Shard, cases: seq<TestCase>,
                            ids: seq<nat>, counts: seq<nat>)
    requires IsShard(shard)
    reads cases`tests
  {
    && |ids| == |counts| == |cases| + 1 && ids[0] == counts[0] == 0
    && forall k | 0 <= k < |cases| ::
      GoOn(flag, alsoDisabled, shard, cases[k], ids[k], counts[k], ids[k + 1], counts[k + 1])
  }

  ghost predicate GoOn(flag: CString, alsoDisabled: bool, shard: Shard, c: TestCase,
                       id: nat, count: nat, nextId: nat, nextCount: nat)
    requires IsShard(shard)
    reads c`tests
  {
    var here := CaseRunnable(flag, alsoDisabled, c);
    nextId == id + CountSet(here, |here|) && nextCount == count + CountSelected(here, shard, id, |here|)
  }

  lemma TotalsExist(flag: CString, alsoDisabled: bool, shard: Shard, cases: seq<TestCase>)
    returns (ids: seq<nat>, counts: seq<nat>)
    requires IsShard(shard)
    ensures AreTotals(flag, alsoDisabled, shard, cases, ids, counts)
  {
    ids, counts := [0], [0];
    for i := 0 to |cases|
      invariant |ids| == |counts| == i + 1 && ids[0] == counts[0] == 0
      invariant forall k | 0 <= k < i ::
        GoOn(flag, alsoDisabled, shard, cases[k], ids[k], counts[k], ids[k + 1], counts[k + 1])
    {
      var here := CaseRunnable(flag, alsoDisabled, cases[i]);
      var id, count := ids[i] + CountSet(here, |here|), counts[i] + CountSelected(here, shard, ids[i], |here|);
      assert GoOn(flag, alsoDisabled, shard, cases[i], ids[i], counts[i], id, count);
      ids, counts := ids + [id], counts + [count];
    }
  }

  lemma {:induction false} TotalsAre(flag: CString, alsoDisabled: bool, shard: Shard, cases: seq<TestCase>,
                                     ids: seq<nat>, counts: seq<nat>, n: nat)
    requires IsShard(shard) && AreTotals(flag, alsoDisabled, shard, cases, ids, counts) && n <= |cases|
    ensures ids[n] == RunnableBefore(flag, alsoDisabled, cases, n)
    ensures counts[n] == SelectedBefore(flag, alsoDisabled, shard, cases, n)
  {
    if n > 0 {
      TotalsAre(flag, alsoDisabled, shard, cases, ids, counts, n - 1);
      assert GoOn(flag, alsoDisabled, shard, cases[n - 1], ids[n - 1], counts[n - 1], ids[n], counts[n]);
      CountsGoOn(flag, alsoDisabled, shard, cases, n - 1);
    }
  }

  /** The case has its flags, counting on from this number. */
  ghost predicate CaseFilteredAs(flag: CString, alsoDisabled: bool, shard: Shard, c: TestCase, id: nat)
    requires IsShard(shard)
    reads c, c.tests
  {
    CaseFiltered(flag, CaseRunnable(flag, alsoDisabled, c), shard, id, c)
  }

  /** Filters the i-th case; the cases before it keep their flags. */
  method FilterNext(c: TestCase, cases: seq<TestCase>, i: nat, flag: CString, alsoDisabled: bool, shard: Shard,
                    ghost owner: map<TestInfo, nat>, ghost ids: seq<nat>, ghost counts: seq<nat>,
                    runnableSoFar: nat, selectedSoFar: nat)
    returns (numRunnable: nat, numSelected: nat)
    requires IsShard(shard) && i < |cases| && c == cases[i] && TestsApart(cases, owner)
    requires |ids| == |counts| == |cases| + 1 && runnableSoFar == ids[i] && selectedSoFar == counts[i]
    requires GoOn(flag, alsoDisabled, shard, c, ids[i], counts[i], ids[i + 1], counts[i + 1])
    requires forall k | 0 <= k < i :: CaseFilteredAs(flag, alsoDisabled, shard, cases[k], ids[k])
    modifies c`shouldRun, c.tests
    ensures forall k | 0 <= k <= i :: CaseFilteredAs(flag, alsoDisabled, shard, cases[k], ids[k])
    ensures numRunnable == ids[i + 1] && numSelected == counts[i + 1]
  {
    forall k | 0 <= k < i ensures IsApart(cases, k, i) {
      OthersApart(cases, owner, k, i);
    }
    var r, n := FilterCase(c, flag, alsoDisabled, shard, runnableSoFar, CaseRunnable(flag, alsoDisabled, c));
    forall k | 0 <= k < i ensures CaseFilteredAs(flag, alsoDisabled, shard, cases[k], ids[k]) {
      assert IsApart(cases, k, i);
    }
    numRunnable := runnableSoFar + r;
    numSelected := selectedSoFar + n;
  }

  /** Sets the flags of all tests and cases, and returns how many tests run here. */
  method FilterTests(cases: seq<TestCase>, flag: CString, alsoDisabled: bool, shard: Shard,
                     ghost owner: map<TestInfo, nat>)
    returns (numSelected: nat)
    requires IsShard(shard) && TestsApart(cases, owner)
    modifies cases`shouldRun, owner.Keys
    ensures forall k | 0 <= k < |cases| :: CaseFilteredAt(flag, alsoDisabled, shard, cases, k)
    ensures numSelected == SelectedBefore(flag, alsoDisabled, shard, cases, |cases|)
  {
    ghost var ids, counts := TotalsExist(flag, alsoDisabled, shard, cases);
    numSelected := FilterAll(cases, flag, alsoDisabled, shard, owner, ids, counts);
    TotalsAre(flag, alsoDisabled, shard, cases, ids, counts, |cases|);
    forall k | 0 <= k < |cases| ensures CaseFilteredAt(flag, alsoDisabled, shard, cases, k) {
      TotalsAre(flag, alsoDisabled, shard, cases, ids, counts, k);
      assert CaseFilteredAs(flag, alsoDisabled, shard, cases[k], ids[k]);
    }
  }

  method FilterAll(cases: seq<TestCase>, flag: CString, alsoDisabled: bool, shard: Shard,
                   ghost owner: map<TestInfo, nat>, ghost ids: seq<nat>, ghost counts: seq<nat>)
    returns (numSelected: nat)
    requires IsShard(shard) && TestsApart(cases, owner) && AreTotals(flag, alsoDisabled, shard, cases, ids, counts)
    modifies cases`shouldRun, owner.Keys
    ensures AreTotals(flag, alsoDisabled, shard, cases, ids, counts) && numSelected == counts[|cases|]
    ensures forall k | 0 <= k < |cases| :: CaseFilteredAs(flag, alsoDisabled, shard, cases[k], ids[k])
  {
    var numRunnable := 0;
    numSelected := 0;
    for i := 0 to |cases|
      invariant numRunnable == ids[i] && numSelected == counts[i]
      invariant forall k | 0 <= k < i :: CaseFilteredAs(flag, alsoDisabled, shard, cases[k], ids[k])
    {
      assert GoOn(flag, alsoDisabled, shard, cases[i], ids[i], counts[i], ids[i + 1], counts[i + 1]);
      assert BelongTo(cases[i].tests, owner, i);
      numRunnable, numSelected := FilterNext(cases[i], cases, i, flag, alsoDisabled, shard, owner, ids, counts,
                                             numRunnable, numSelected);
    }
  }

  /** How many of the first n tests, and how many tests of the first n cases, are flagged to run. */
  function FlaggedIn(tests: seq<TestInfo>, n: nat): nat
    requires n <= |tests|
    reads tests
  {
    if n == 0 then 0 else FlaggedIn(tests, n - 1) + if tests[n - 1].shouldRun then 1 else 0
  }

  ghost predicate AllIn(cases: seq<TestCase>, all: set<TestInfo>)
    reads cases`tests
  {
    forall i | 0 <= i < |cases| :: forall t | t in cases[i].tests :: t in all
  }

  ghost function Flagged(cases: seq<TestCase>, n: nat, all: set<TestInfo>): nat
    requires n <= |cases| && AllIn(cases, all)
    reads cases`tests, all
  {
    if n == 0 then 0 else Flagged(cases, n - 1, all) + FlaggedIn(cases[n - 1].tests, |cases[n - 1].tests|)
  }

  lemma {:induction false} FlaggedInCase(flag: CString, runnable: seq<bool>, shard: Shard, id: nat, name: CString,
                                         tests: seq<TestInfo>, n: nat)
    requires n <= |tests| == |runnable| && IsShard(shard) && TestsFiltered(flag, runnable, shard, id, name, tests, n)
    ensures FlaggedIn(tests, n) == CountSelected(runnable, shard, id, n)
  {
    if n > 0 {
      FlaggedInCase(flag, runnable, shard, id, name, tests, n - 1);
    }
  }

  /** As many tests of the i-th case are flagged as are selected. */
  lemma FlaggedHere(flag: CString, alsoDisabled: bool, shard: Shard, cases: seq<TestCase>, i: nat)
    requires i < |cases| && IsShard(shard) && CaseFilteredAt(flag, alsoDisabled, shard, cases, i)
    ensures FlaggedIn(cases[i].tests, |cases[i].tests|) + SelectedBefore(flag, alsoDisabled, shard, cases, i)
         == SelectedBefore(flag, alsoDisabled, shard, cases, i + 1)
  {
    var c, id := cases[i], RunnableBefore(flag, alsoDisabled, cases, i);
    FlaggedInCase(flag, CaseRunnable(flag, alsoDisabled, c), shard, id, c.name, c.tests, |c.tests|);
    CountsGoOn(flag, alsoDisabled, shard, cases, i);
  }

  /** The flagged tests add up, case by case, to these totals. */
  lemma {:induction false} FlagsAddUp(cases: seq<TestCase>, n: nat, all: set<TestInfo>, totals: seq<nat>)
    requires n <= |cases| && AllIn(cases, all) && |totals| == |cases| + 1 && totals[0] == 0
    requires forall k | 0 <= k < n :: FlaggedIn(cases[k].tests, |cases[k].tests|) + totals[k] == totals[k + 1]
    ensures Flagged(cases, n, all) == totals[n]
  {
    if n > 0 {
      FlagsAddUp(cases, n - 1, all, totals);
    }
  }

  /** How many tests of the first k cases run here, for all k. */
  ghost function Totals(flag: CString, alsoDisabled: bool, shard: Shard, cases: seq<TestCase>): (totals: seq<nat>)
    requires IsShard(shard)
    reads cases
    ensures |totals| == |cases| + 1
    ensures forall k | 0 <= k <= |cases| :: totals[k] == SelectedBefore(flag, alsoDisabled, shard, cases, k)
  {
    seq(|cases| + 1,
        k requires 0 <= k <= |cases| reads cases => SelectedBefore(flag, alsoDisabled, shard, cases, k))
  }

  /** What FilterTests returns is the number of tests that it has flagged to run. */
  lemma CountIsFlagged(flag: CString, alsoDisabled: bool, shard: Shard, cases: seq<TestCase>, all: set<TestInfo>)
    requires IsShard(shard) && AllIn(cases, all)
    requires forall k | 0 <= k < |cases| :: CaseFilteredAt(flag, alsoDisabled, shard, cases, k)
    ensures Flagged(cases, |cases|, all) == SelectedBefore(flag, alsoDisabled, shard, cases, |cases|)
  {
    var totals := Totals(flag, alsoDisabled, shard, cases);
    forall k | 0 <= k < |cases| ensures FlaggedIn(cases[k].tests, |cases[k].tests|) + totals[k] == totals[k + 1] {
      FlaggedHere(flag, alsoDisabled, shard, cases, k);
    }
    FlagsAddUp(cases, |cases|, all, totals);
  }
}
