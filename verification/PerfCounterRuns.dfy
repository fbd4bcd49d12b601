/** Any number of calls of Update on one counter, interleaved at their atomic operations. */
module PerfCounterRuns {
  import opened PerfCounter
  import opened Sequences

  /** The minimum and the maximum are kept in the same way, with the order turned round. */
  datatype Side = Min | Max

  predicate Better(side: Side, v: nat, w: nat) { if side.Min? then v < w else v > w }

  /** Where a call is. `fails` counts its failed swaps; `wins` is how many swaps of any call had
      succeeded when it last read the cell. Neither has an effect on the call. */
  datatype Pc =
    | Adding
    | Counting
    | Loading(side: Side, fails: nat)
    | Swapping(side: Side, seen: nat, wins: nat, fails: nat)
    | Bucketing
    | Done

  /** won tells which calls have swapped their value in. */
  datatype Cell = Cell(value: nat, won: seq<bool>)

  datatype State = State(val: nat, count: nat, min: Cell, max: Cell, bucket: seq<nat>, pc: seq<Pc>) {
    function At(side: Side): Cell { if side.Min? then min else max }

    function With(side: Side, c: Cell): State { if side.Min? then this.(min := c) else this.(max := c) }
  }

  function Unset(side: Side): nat { if side.Min? then MAX32 else 0 }

  function AfterSide(side: Side): Pc { if side.Min? then Loading(Max, 0) else Bucketing }

  /** The swap of call i. */
  function Swapped(c: Cell, i: nat, seen: nat, v: nat): Cell
    requires i < |c.won|
  {
    if c.value == seen then Cell(v, c.won[i := true]) else c
  }

  predicate Shaped(vals: seq<Word32>, s: State) {
    |s.pc| == |s.min.won| == |s.max.won| == |vals| && |s.bucket| == BUCKETS
  }

  /** The next atomic operation of call i, whose argument is vals[i]. */
  ghost function Next(vals: seq<Word32>, s: State, i: nat): State
    requires Shaped(vals, s) && i < |vals| && !s.pc[i].Done?
  {
    var v := vals[i];
    match s.pc[i]
    case Adding => s.(val := (s.val + v) % WIDTH64, pc := s.pc[i := Counting])
    case Counting => s.(count := (s.count + 1) % WIDTH64, pc := s.pc[i := Loading(Min, 0)])
    case Loading(side, fails) =>
      var c := s.At(side);
      if Better(side, v, c.value) then s.(pc := s.pc[i := Swapping(side, c.value, CountSet(c.won, |c.won|), fails)])
      else s.(pc := s.pc[i := AfterSide(side)])
    case Swapping(side, seen, _, fails) =>
      var c := s.At(side);
      var failed := if c.value == seen then 0 else 1;
      s.With(side, Swapped(c, i, seen, v)).(pc := s.pc[i := Loading(side, fails + failed)])
    case Bucketing =>
      BucketOfWord(v);
      var b := BucketOf(v);
      s.(bucket := s.bucket[b := (s.bucket[b] + 1) % WIDTH32], pc := s.pc[i := Done])
  }

  ghost predicate Initial(vals: seq<Word32>, s: State) {
    && Shaped(vals, s)
    && s.val == 0 && s.count == 0 && s.min.value == MAX32 && s.max.value == 0
    && (forall b | 0 <= b < BUCKETS :: s.bucket[b] == 0)
    && (forall i | 0 <= i < |vals| :: s.pc[i].Adding? && !s.min.won[i] && !s.max.won[i])
  }

  ghost predicate StepAt(vals: seq<Word32>, run: seq<State>, moves: seq<nat>, k: nat)
    requires k < |moves| && k + 1 < |run|
  {
    && Shaped(vals, run[k]) && moves[k] < |vals| && !run[k].pc[moves[k]].Done?
    && run[k + 1] == Next(vals, run[k], moves[k])
  }

  ghost predicate IsRun(vals: seq<Word32>, run: seq<State>, moves: seq<nat>) {
    && |run| == |moves| + 1 && Initial(vals, run[0])
    && forall k | 0 <= k < |moves| :: StepAt(vals, run, moves, k)
  }

  // The sums.

  function Stage(c: Pc): nat {
    match c
    case Adding => 0
    case Counting => 1
    case Loading(side, _) => if side.Min? then 2 else 3
    case Swapping(side, _, _, _) => if side.Min? then 2 else 3
    case Bucketing => 4
    case Done => 5
  }

  /** The sum of the weights of the first n calls, those that are past a stage. */
  function Tally(pc: seq<Pc>, weights: seq<nat>, stage: nat, n: nat): nat
    requires n <= |pc| == |weights|
  {
    if n == 0 then 0 else Tally(pc, weights, stage, n - 1) + if Stage(pc[n - 1]) > stage then weights[n - 1] else 0
  }

  /** The sum of all the weights, and of the weights of no calls. */
  function Sum(weights: seq<nat>, n: nat): nat
    requires n <= |weights|
  {
    if n == 0 then 0 else Sum(weights, n - 1) + weights[n - 1]
  }

  lemma {:induction false} TallyAtEnds(pc: seq<Pc>, weights: seq<nat>, stage: nat, n: nat)
    requires n <= |pc| == |weights|
    ensures (forall i | 0 <= i < n :: Stage(pc[i]) > stage) ==> Tally(pc, weights, stage, n) == Sum(weights, n)
    ensures (forall i | 0 <= i < n :: Stage(pc[i]) <= stage) ==> Tally(pc, weights, stage, n) == 0
  {
    if n > 0 {
      TallyAtEnds(pc, weights, stage, n - 1);
    }
  }

  lemma {:induction false} TallyStep(pc: seq<Pc>, weights: seq<nat>, stage: nat, n: nat, i: nat, c: Pc)
    requires n <= |pc| == |weights| && i < |pc| && Stage(pc[i]) <= Stage(c) <= Stage(pc[i]) + 1
    ensures Tally(pc[i := c], weights, stage, n) == Tally(pc, weights, stage, n)
      + if i < n && Stage(pc[i]) == stage < Stage(c) then weights[i] else 0
  {
    if n > 0 {
      TallyStep(pc, weights, stage, n - 1, i, c);
    }
  }

  function Ones(n: nat): (w: seq<nat>)
    ensures |w| == n && forall i | 0 <= i < n :: w[i] == 1
  {
    seq(n, _ => 1)
  }

  /** Which values belong in a bucket. */
  function InBuckets(vals: seq<Word32>, b: nat): (w: seq<nat>)
    ensures |w| == |vals| && forall i | 0 <= i < |vals| :: w[i] == if InBucket(vals[i], b) then 1 else 0
  {
    seq(|vals|, i requires 0 <= i < |vals| => if InBucket(vals[i], b) then 1 else 0)
  }

  ghost predicate SumsAreRight(vals: seq<Word32>, s: State) {
    && Shaped(vals, s)
    && s.val == Tally(s.pc, vals, 0, |vals|) % WIDTH64
    && s.count == Tally(s.pc, Ones(|vals|), 1, |vals|) % WIDTH64
    && forall b: nat | b < BUCKETS :: BucketIsRight(vals, s, b)
  }

  ghost predicate BucketIsRight(vals: seq<Word32>, s: State, b: nat)
    requires Shaped(vals, s) && b < BUCKETS
  {
    s.bucket[b] == Tally(s.pc, InBuckets(vals, b), 4, |vals|) % WIDTH32
  }

  /** One call moves on, by at most one stage. */
  lemma OneMoves(vals: seq<Word32>, s: State, i: nat)
    requires Shaped(vals, s) && i < |vals| && !s.pc[i].Done?
    ensures var z := Next(vals, s, i);
      Shaped(vals, z) && z.pc == s.pc[i := z.pc[i]] && Stage(s.pc[i]) <= Stage(z.pc[i]) <= Stage(s.pc[i]) + 1
      && (s.pc[i].Adding? ==> z.pc[i].Counting?) && (s.pc[i].Counting? ==> z.pc[i].Loading?)
  {
    match s.pc[i]
    case Bucketing => BucketOfWord(vals[i]);
    case _ =>
  }

  lemma SumStep(vals: seq<Word32>, s: State, i: nat)
    requires SumsAreRight(vals, s) && i < |vals| && !s.pc[i].Done?
    ensures var z := Next(vals, s, i); Shaped(vals, z) && z.val == Tally(z.pc, vals, 0, |vals|) % WIDTH64
  {
    OneMoves(vals, s, i);
    TallyStep(s.pc, vals, 0, |vals|, i, Next(vals, s, i).pc[i]);
  }

  lemma CountStep(vals: seq<Word32>, s: State, i: nat)
    requires SumsAreRight(vals, s) && i < |vals| && !s.pc[i].Done?
    ensures var z := Next(vals, s, i); Shaped(vals, z) && z.count == Tally(z.pc, Ones(|vals|), 1, |vals|) % WIDTH64
  {
    OneMoves(vals, s, i);
    TallyStep(s.pc, Ones(|vals|), 1, |vals|, i, Next(vals, s, i).pc[i]);
  }

  /** What the step of a call does to a bucket. */
  lemma BucketMoves(vals: seq<Word32>, s: State, i: nat, b: nat)
    requires Shaped(vals, s) && i < |vals| && !s.pc[i].Done? && b < BUCKETS
    ensures var z := Next(vals, s, i);
      && Shaped(vals, z)
      && z.bucket[b] == if s.pc[i].Bucketing? && InBucket(vals[i], b) then (s.bucket[b] + 1) % WIDTH32 else s.bucket[b]
  {
    OneMoves(vals, s, i);
    BucketOfIsRight(vals[i]);
    if InBucket(vals[i], b) {
      BucketIsUnique(vals[i], b, BucketOf(vals[i]));
    }
  }

  lemma BucketStep(vals: seq<Word32>, s: State, i: nat, b: nat)
    requires SumsAreRight(vals, s) && i < |vals| && !s.pc[i].Done? && b < BUCKETS
    ensures Shaped(vals, Next(vals, s, i)) && BucketIsRight(vals, Next(vals, s, i), b)
  {
    OneMoves(vals, s, i);
    assert BucketIsRight(vals, s, b);
    BucketMoves(vals, s, i, b);
    TallyStep(s.pc, InBuckets(vals, b), 4, |vals|, i, Next(vals, s, i).pc[i]);
  }

  lemma SumsStep(vals: seq<Word32>, s: State, i: nat)
    requires SumsAreRight(vals, s) && i < |vals| && !s.pc[i].Done?
    ensures SumsAreRight(vals, Next(vals, s, i))
  {
    SumStep(vals, s, i);
    CountStep(vals, s, i);
    forall b: nat | b < BUCKETS ensures BucketIsRight(vals, Next(vals, s, i), b) {
      BucketStep(vals, s, i, b);
    }
  }

  lemma SumsStart(vals: seq<Word32>, s: State)
    requires Initial(vals, s)
    ensures SumsAreRight(vals, s)
  {
    TallyAtEnds(s.pc, vals, 0, |vals|);
    TallyAtEnds(s.pc, Ones(|vals|), 1, |vals|);
    forall b: nat | b < BUCKETS ensures BucketIsRight(vals, s, b) {
      TallyAtEnds(s.pc, InBuckets(vals, b), 4, |vals|);
    }
  }

  lemma {:induction false} SumsStayRight(vals: seq<Word32>, run: seq<State>, moves: seq<nat>, k: nat)
    requires IsRun(vals, run, moves) && k < |run|
    ensures SumsAreRight(vals, run[k])
  {
    if k == 0 {
      SumsStart(vals, run[0]);
    } else {
      SumsStayRight(vals, run, moves, k - 1);
      assert StepAt(vals, run, moves, k - 1);
      SumsStep(vals, run[k - 1], moves[k - 1]);
    }
  }

  // The minimum and the maximum.

  lemma {:induction false} OneMoreWin(won: seq<bool>, i: nat, n: nat)
    requires n <= |won| && i < |won| && !won[i]
    ensures CountSet(won[i := true], n) == CountSet(won, n) + (if i < n then 1 else 0)
    ensures i < n ==> CountSet(won, n) < n
  {
    if n > 0 {
      OneMoreWin(won, i, n - 1);
    }
  }

  ghost predicate CallIsSound(side: Side, vals: seq<Word32>, s: State, i: nat)
    requires Shaped(vals, s) && i < |vals|
  {
    var c := s.At(side);
    var settled := !Better(side, vals[i], c.value);
    var at := if side.Min? then 2 else 3;
    && (c.won[i] ==> settled && Stage(s.pc[i]) >= at)
    && (Stage(s.pc[i]) > at ==> settled)
    && match s.pc[i]
       case Loading(here, fails) => here == side ==> fails < |vals| && fails <= CountSet(c.won, |vals|)
       case Swapping(here, seen, wins, fails) =>
         here == side ==>
           && Better(side, vals[i], seen) && !c.won[i] && !Better(side, seen, c.value)
           && fails <= wins <= CountSet(c.won, |vals|)
           && (wins == CountSet(c.won, |vals|) ==> c.value == seen)
       case _ => true
  }

  /** The cell holds its first value or that of a call that has won. */
  ghost predicate IsAttained(side: Side, vals: seq<Word32>, c: Cell)
    requires |c.won| == |vals|
  {
    c.value == Unset(side) || exists i :: 0 <= i < |vals| && c.won[i] && vals[i] == c.value
  }

  ghost predicate SideIsSound(side: Side, vals: seq<Word32>, s: State) {
    && Shaped(vals, s)
    && IsAttained(side, vals, s.At(side))
    && forall i | 0 <= i < |vals| :: CallIsSound(side, vals, s, i)
  }

  /** What one step does to the cell: nothing, or a better value from a call that had not won. */
  lemma CellStep(side: Side, vals: seq<Word32>, s: State, i: nat)
    requires SideIsSound(side, vals, s) && i < |vals| && !s.pc[i].Done?
    ensures
      var z := Next(vals, s, i);
      var c, d := s.At(side), z.At(side);
      && Shaped(vals, z)
      && (d == c || (s.pc[i].Swapping? && s.pc[i].side == side
                     && d == Cell(vals[i], c.won[i := true]) && !c.won[i] && Better(side, vals[i], c.value)))
  {
    OneMoves(vals, s, i);
    assert CallIsSound(side, vals, s, i);
  }

  lemma SideStep(side: Side, vals: seq<Word32>, s: State, i: nat)
    requires SideIsSound(side, vals, s) && i < |vals| && !s.pc[i].Done?
    ensures SideIsSound(side, vals, Next(vals, s, i))
  {
    var z := Next(vals, s, i);
    var c, d := s.At(side), z.At(side);
    CellStep(side, vals, s, i);
    OneMoves(vals, s, i);
    if d != c {
      assert d.won[i];
    }
    if !c.won[i] {
      OneMoreWin(c.won, i, |vals|);
    }
    forall j | 0 <= j < |vals| ensures CallIsSound(side, vals, z, j) {
      assert CallIsSound(side, vals, s, j);
    }
  }

  lemma {:induction false} SideStaysSound(side: Side, vals: seq<Word32>, run: seq<State>, moves: seq<nat>, k: nat)
    requires IsRun(vals, run, moves) && k < |run|
    ensures SideIsSound(side, vals, run[k])
  {
    if k > 0 {
      SideStaysSound(side, vals, run, moves, k - 1);
      assert StepAt(vals, run, moves, k - 1);
      SideStep(side, vals, run[k - 1], moves[k - 1]);
    }
  }

  /** The minimum never rises and the maximum never falls. */
  lemma {:induction false} CellsOnlyImprove(side: Side, vals: seq<Word32>, run: seq<State>, moves: seq<nat>, j: nat,
                                            k: nat)
    requires IsRun(vals, run, moves) && j <= k < |run|
    ensures !Better(side, run[j].At(side).value, run[k].At(side).value)
    decreases k
  {
    if j < k {
      CellsOnlyImprove(side, vals, run, moves, j, k - 1);
      SideStaysSound(side, vals, run, moves, k - 1);
      assert StepAt(vals, run, moves, k - 1);
      CellStep(side, vals, run[k - 1], moves[k - 1]);
    }
  }

  /** A swap that is about to fail has been overtaken by the swap of another call since the cell was
      read, and a call fails fewer times than there are calls. */
  lemma FailureIsProgressOfAnother(vals: seq<Word32>, run: seq<State>, moves: seq<nat>, k: nat, i: nat)
    requires IsRun(vals, run, moves) && k < |run| && i < |vals| && Shaped(vals, run[k]) && run[k].pc[i].Swapping?
    ensures var p := run[k].pc[i]; var c := run[k].At(p.side);
      && p.fails + 1 < |vals| + (if c.value == p.seen then 1 else 0)
      && (c.value != p.seen ==> p.wins < CountSet(c.won, |vals|) && !c.won[i])
  {
    SideStaysSound(run[k].pc[i].side, vals, run, moves, k);
    assert CallIsSound(run[k].pc[i].side, vals, run[k], i);
    OneMoreWin(run[k].At(run[k].pc[i].side).won, i, |vals|);
  }

  /** What is counted as a failure is a swap that leaves the cell as it is. */
  lemma FailuresAreCounted(vals: seq<Word32>, run: seq<State>, moves: seq<nat>, k: nat)
    requires IsRun(vals, run, moves) && k < |moves|
    ensures Shaped(vals, run[k]) && Shaped(vals, run[k + 1]) && moves[k] < |vals|
    ensures run[k].pc[moves[k]].Swapping? ==>
      var p := run[k].pc[moves[k]];
      run[k + 1].pc[moves[k]]
      == Loading(p.side, if run[k + 1].At(p.side).value == run[k].At(p.side).value then p.fails + 1 else p.fails)
  {
    assert StepAt(vals, run, moves, k);
    OneMoves(vals, run[k], moves[k]);
    if run[k].pc[moves[k]].Swapping? {
      SideStaysSound(run[k].pc[moves[k]].side, vals, run, moves, k);
      assert CallIsSound(run[k].pc[moves[k]].side, vals, run[k], moves[k]);
    }
  }

  ghost predicate AtRest(vals: seq<Word32>, s: State) {
    Shaped(vals, s) && forall i | 0 <= i < |vals| :: s.pc[i].Done?
  }

  /** No value is better, and the cell holds one of them if there are any. */
  ghost predicate IsBest(side: Side, vals: seq<Word32>, v: nat) {
    && (forall i | 0 <= i < |vals| :: !Better(side, vals[i], v))
    && if vals == [] then v == Unset(side) else v in vals
  }

  lemma TotalsAtRest(vals: seq<Word32>, s: State)
    requires SumsAreRight(vals, s) && AtRest(vals, s)
    ensures s.val == Sum(vals, |vals|) % WIDTH64 && s.count == |vals| % WIDTH64
  {
    TallyAtEnds(s.pc, vals, 0, |vals|);
    TallyAtEnds(s.pc, Ones(|vals|), 1, |vals|);
    SumOfOnes(|vals|, |vals|);
  }

  lemma BucketAtRest(vals: seq<Word32>, s: State, b: nat)
    requires SumsAreRight(vals, s) && AtRest(vals, s) && b < BUCKETS
    ensures s.bucket[b] == Sum(InBuckets(vals, b), |vals|) % WIDTH32
  {
    assert BucketIsRight(vals, s, b);
    TallyAtEnds(s.pc, InBuckets(vals, b), 4, |vals|);
  }

  /** Once all calls are done, the counter says what it should, however they were interleaved. */
  lemma CounterIsExactAtRest(vals: seq<Word32>, run: seq<State>, moves: seq<nat>, k: nat)
    requires IsRun(vals, run, moves) && k < |run| && AtRest(vals, run[k])
    ensures run[k].val == Sum(vals, |vals|) % WIDTH64 && run[k].count == |vals| % WIDTH64
    ensures IsBest(Min, vals, run[k].min.value) && IsBest(Max, vals, run[k].max.value)
    ensures forall b: nat | b < BUCKETS :: run[k].bucket[b] == Sum(InBuckets(vals, b), |vals|) % WIDTH32
  {
    SumsStayRight(vals, run, moves, k);
    TotalsAtRest(vals, run[k]);
    forall b: nat | b < BUCKETS ensures run[k].bucket[b] == Sum(InBuckets(vals, b), |vals|) % WIDTH32 {
      BucketAtRest(vals, run[k], b);
    }
    BestAtRest(Min, vals, run, moves, k);
    BestAtRest(Max, vals, run, moves, k);
  }

  lemma BestAtRest(side: Side, vals: seq<Word32>, run: seq<State>, moves: seq<nat>, k: nat)
    requires IsRun(vals, run, moves) && k < |run| && AtRest(vals, run[k])
    ensures IsBest(side, vals, run[k].At(side).value)
  {
    SideStaysSound(side, vals, run, moves, k);
    forall i | 0 <= i < |vals| ensures !Better(side, vals[i], run[k].At(side).value) {
      assert CallIsSound(side, vals, run[k], i);
    }
    if vals != [] && run[k].At(side).value == Unset(side) {
      assert vals[0] in vals && vals[0] == Unset(side);
    }
  }

  lemma {:induction false} SumOfOnes(size: nat, n: nat)
    requires n <= size
    ensures Sum(Ones(size), n) == n
  {
    if n > 0 {
      SumOfOnes(size, n - 1);
    }
  }

  function SumOfBuckets(vals: seq<Word32>, n: nat, b: nat): nat
    requires n <= |vals|
  {
    if b == 0 then 0 else SumOfBuckets(vals, n, b - 1) + Sum(InBuckets(vals, b - 1), n)
  }

  lemma {:induction false} OneBucketMore(vals: seq<Word32>, n: nat, b: nat)
    requires n < |vals|
    ensures SumOfBuckets(vals, n + 1, b) == SumOfBuckets(vals, n, b) + if BucketOf(vals[n]) < b then 1 else 0
  {
    if b > 0 {
      OneBucketMore(vals, n, b - 1);
      BucketOfIsRight(vals[n]);
      if InBucket(vals[n], b - 1) {
        BucketIsUnique(vals[n], b - 1, BucketOf(vals[n]));
      }
    }
  }

  /** The buckets together count every call once. */
  lemma {:induction false} BucketsCountCalls(vals: seq<Word32>, n: nat)
    requires n <= |vals|
    ensures SumOfBuckets(vals, n, BUCKETS) == n
  {
    if n > 0 {
      BucketsCountCalls(vals, n - 1);
      OneBucketMore(vals, n - 1, BUCKETS);
      BucketOfWord(vals[n - 1]);
    } else {
      NoCallsNoBuckets(vals, BUCKETS);
    }
  }

  lemma {:induction false} NoCallsNoBuckets(vals: seq<Word32>, b: nat)
    ensures SumOfBuckets(vals, 0, b) == 0
  {
    if b > 0 {
      NoCallsNoBuckets(vals, b - 1);
    }
  }

  // Calls end.

  /** A run goes on with this many operations of call i alone. */
  ghost predicate GoesOnAlone(run: seq<State>, moves: seq<nat>, longer: seq<State>, more: seq<nat>, i: nat, n: nat) {
    && |run| == |moves| + 1 && |longer| == |more| + 1 && |more| == |moves| + n
    && run <= longer && moves <= more && forall k | |moves| <= k < |more| :: more[k] == i
  }

  lemma Extend(vals: seq<Word32>, run: seq<State>, moves: seq<nat>, i: nat)
    returns (longer: seq<State>, more: seq<nat>)
    requires IsRun(vals, run, moves) && i < |vals|
    requires Shaped(vals, run[|moves|]) && !run[|moves|].pc[i].Done?
    ensures IsRun(vals, longer, more) && GoesOnAlone(run, moves, longer, more, i, 1)
    ensures longer[|more|] == Next(vals, run[|moves|], i) && Shaped(vals, longer[|more|])
  {
    OneMoves(vals, run[|moves|], i);
    longer, more := run + [Next(vals, run[|moves|], i)], moves + [i];
    forall k | 0 <= k < |more| ensures StepAt(vals, longer, more, k) {
      assert k < |moves| ==> StepAt(vals, run, moves, k);
    }
  }

  lemma {:induction false} StaysShaped(vals: seq<Word32>, run: seq<State>, moves: seq<nat>, k: nat)
    requires IsRun(vals, run, moves) && k < |run|
    ensures Shaped(vals, run[k])
  {
    if k > 0 {
      StaysShaped(vals, run, moves, k - 1);
      assert StepAt(vals, run, moves, k - 1);
      OneMoves(vals, run[k - 1], moves[k - 1]);
    }
  }

  /** How many operations a call still needs for one side, and in all, if it goes on alone. */
  function SideLeft(vals: seq<Word32>, s: State, i: nat): nat
    requires Shaped(vals, s) && i < |vals|
  {
    match s.pc[i]
    case Loading(side, _) => if Better(side, vals[i], s.At(side).value) then 3 else 1
    case Swapping(side, seen, _, _) =>
      if s.At(side).value == seen then 2 else if Better(side, vals[i], s.At(side).value) then 4 else 2
    case _ => 0
  }

  function CallLeft(vals: seq<Word32>, s: State, i: nat): nat
    requires Shaped(vals, s) && i < |vals|
  {
    match s.pc[i]
    case Adding => 9
    case Counting => 8
    case Loading(side, _) => SideLeft(vals, s, i) + if side.Min? then 4 else 1
    case Swapping(side, _, _, _) => SideLeft(vals, s, i) + if side.Min? then 4 else 1
    case Bucketing => 1
    case Done => 0
  }

  lemma OneLess(vals: seq<Word32>, s: State, i: nat)
    requires Shaped(vals, s) && i < |vals| && !s.pc[i].Done?
    ensures Shaped(vals, Next(vals, s, i)) && CallLeft(vals, Next(vals, s, i), i) < CallLeft(vals, s, i) <= 9
  {
    OneMoves(vals, s, i);
  }

  /** From wherever it is, a call that goes on alone is done after nine operations at most. */
  lemma CallAloneEnds(vals: seq<Word32>, run: seq<State>, moves: seq<nat>, i: nat)
    returns (longer: seq<State>, more: seq<nat>, n: nat)
    requires IsRun(vals, run, moves) && i < |vals|
    ensures Shaped(vals, run[|moves|])
    ensures IsRun(vals, longer, more) && GoesOnAlone(run, moves, longer, more, i, n)
    ensures n <= CallLeft(vals, run[|moves|], i) <= 9
    ensures Shaped(vals, longer[|more|]) && longer[|more|].pc[i].Done?
  {
    StaysShaped(vals, run, moves, |moves|);
    longer, more, n := run, moves, 0;
    while !longer[|more|].pc[i].Done?
      invariant IsRun(vals, longer, more) && GoesOnAlone(run, moves, longer, more, i, n)
      invariant Shaped(vals, longer[|more|])
      invariant n + CallLeft(vals, longer[|more|], i) <= CallLeft(vals, run[|moves|], i)
      decreases CallLeft(vals, longer[|more|], i)
    {
      OneLess(vals, longer[|more|], i);
      longer, more := Extend(vals, longer, more, i);
      n := n + 1;
    }
    CallLeftIsSmall(vals, run[|moves|], i);
  }

  lemma CallLeftIsSmall(vals: seq<Word32>, s: State, i: nat)
    requires Shaped(vals, s) && i < |vals|
    ensures CallLeft(vals, s, i) <= 9
  {
  }

  function BestOf(side: Side, v: nat, w: nat): nat { if Better(side, v, w) then v else w }

  /** What a whole call does that goes on alone: it is what Counter.Update does. */
  lemma SideAlone(vals: seq<Word32>, run: seq<State>, moves: seq<nat>, i: nat, side: Side)
    returns (longer: seq<State>, more: seq<nat>, n: nat)
    requires IsRun(vals, run, moves) && i < |vals|
    requires Shaped(vals, run[|moves|]) && run[|moves|].pc[i] == Loading(side, 0)
    ensures IsRun(vals, longer, more) && GoesOnAlone(run, moves, longer, more, i, n)
    ensures var s, z := run[|moves|], longer[|more|];
      && Shaped(vals, z) && z.pc == s.pc[i := AfterSide(side)]
      && z.At(side).value == BestOf(side, vals[i], s.At(side).value)
      && z == s.With(side, z.At(side)).(pc := z.pc)
  {
    longer, more := Extend(vals, run, moves, i);
    n := 1;
    if Better(side, vals[i], run[|moves|].At(side).value) {
      longer, more := Extend(vals, longer, more, i);
      longer, more := Extend(vals, longer, more, i);
      n := 3;
    }
  }

  lemma CallAloneUpdates(vals: seq<Word32>, run: seq<State>, moves: seq<nat>, i: nat)
    returns (longer: seq<State>, more: seq<nat>, n: nat)
    requires IsRun(vals, run, moves) && i < |vals|
    requires Shaped(vals, run[|moves|]) && run[|moves|].pc[i].Adding?
    ensures IsRun(vals, longer, more) && GoesOnAlone(run, moves, longer, more, i, n)
    ensures var s, z, v := run[|moves|], longer[|more|], vals[i];
      && Shaped(vals, z) && z.pc == s.pc[i := Done]
      && z.val == (s.val + v) % WIDTH64 && z.count == (s.count + 1) % WIDTH64
      && z.min.value == BestOf(Min, v, s.min.value) && z.max.value == BestOf(Max, v, s.max.value)
      && forall b: nat | b < BUCKETS ::
           z.bucket[b] == if InBucket(v, b) then (s.bucket[b] + 1) % WIDTH32 else s.bucket[b]
  {
    longer, more := Extend(vals, run, moves, i);
    longer, more := Extend(vals, longer, more, i);
    var k, m;
    longer, more, k := SideAlone(vals, longer, more, i, Min);
    longer, more, m := SideAlone(vals, longer, more, i, Max);
    var s := longer[|more|];
    longer, more := Extend(vals, longer, more, i);
    n := k + m + 3;
    BucketOfWord(vals[i]);
    BucketOfIsRight(vals[i]);
    forall b: nat | b < BUCKETS && InBucket(vals[i], b) ensures b == BucketOf(vals[i]) {
      BucketIsUnique(vals[i], b, BucketOf(vals[i]));
    }
  }
}
