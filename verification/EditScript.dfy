/** The edit-distance table of the diff engine, the script traced back from it,
    and what an edit script means, independently of how the table found it. */
module EditScript {
  import opened Sequences

  datatype EditType = Match | Add | Remove | Replace

  /** The cost 1.0 of an add or a remove and the cost 1.00001 of a replace, in units of 0.00001. */
  const UNIT: nat := 100000
  const REPLACE_COST: nat := 100001

  // ---------------------------------------------------------------------------
  // What a script means
  // ---------------------------------------------------------------------------

  function Weight(e: EditType): nat {
    match e
    case Match => 0
    case Add => UNIT
    case Remove => UNIT
    case Replace => REPLACE_COST
  }

  function TotalWeight(script: seq<EditType>): nat {
    if script == [] then 0 else TotalWeight(script[..|script| - 1]) + Weight(script[|script| - 1])
  }

  /** How many left elements the first k edits consume. */
  function LeftUsed(script: seq<EditType>, k: nat): (n: nat)
    requires k <= |script|
    ensures n <= k
  {
    if k == 0 then 0 else LeftUsed(script, k - 1) + if script[k - 1] == Add then 0 else 1
  }

  /** How many right elements the first k edits produce. */
  function RightUsed(script: seq<EditType>, k: nat): (n: nat)
    requires k <= |script|
    ensures n <= k
  {
    if k == 0 then 0 else RightUsed(script, k - 1) + if script[k - 1] == Remove then 0 else 1
  }

  lemma {:induction false} UsedGrows(script: seq<EditType>, k: nat, m: nat)
    requires k <= m <= |script|
    ensures LeftUsed(script, k) <= LeftUsed(script, m) && RightUsed(script, k) <= RightUsed(script, m)
  {
    if k < m {
      UsedGrows(script, k, m - 1);
    }
  }

  /** Edit k has the elements it needs; a match stands on equal and a replace on unequal ones. */
  predicate EditFits<T(==)>(script: seq<EditType>, left: seq<T>, right: seq<T>, k: nat)
    requires k < |script|
  {
    var e, i, j := script[k], LeftUsed(script, k), RightUsed(script, k);
    && (e != Add ==> i < |left|)
    && (e != Remove ==> j < |right|)
    && (e == Match ==> left[i] == right[j])
    && (e == Replace ==> left[i] != right[j])
  }

  /** The script turns the first i elements of left into the first j elements of right. */
  predicate Reaches<T(==)>(script: seq<EditType>, left: seq<T>, right: seq<T>, i: nat, j: nat) {
    && LeftUsed(script, |script|) == i
    && RightUsed(script, |script|) == j
    && forall k | 0 <= k < |script| :: EditFits(script, left, right, k)
  }

  /** The script turns left into right. */
  predicate Transforms<T(==)>(script: seq<EditType>, left: seq<T>, right: seq<T>) {
    Reaches(script, left, right, |left|, |right|)
  }

  /** How many of the first k edits carry an element of right with them. */
  function Carrying(script: seq<EditType>, k: nat): (n: nat)
    requires k <= |script|
  {
    if k == 0 then 0
    else Carrying(script, k - 1) + if script[k - 1] == Add || script[k - 1] == Replace then 1 else 0
  }

  /** The elements of right that the first k edits carry: those of the adds and replaces. */
  function Carried<T>(script: seq<EditType>, right: seq<T>, k: nat): seq<T>
    requires k <= |script|
  {
    if k == 0 then []
    else
      Carried(script, right, k - 1) +
      if script[k - 1] == Add || script[k - 1] == Replace then At(right, RightUsed(script, k - 1)) else []
  }

  /** Replays the first k edits on left: a match copies from left, an add or a replace takes the next
      carried element, a remove skips. Right itself is not consulted. */
  function Replay<T>(script: seq<EditType>, left: seq<T>, carried: seq<T>, k: nat): seq<T>
    requires k <= |script|
  {
    if k == 0 then []
    else
      Replay(script, left, carried, k - 1) +
      match script[k - 1]
      case Match => At(left, LeftUsed(script, k - 1))
      case Remove => []
      case _ => At(carried, Carrying(script, k - 1))
  }

  /** What is carried at each add and replace. */
  lemma {:induction false} CarriedAt<T>(script: seq<EditType>, left: seq<T>, right: seq<T>, k: nat)
    requires k <= |script|
    requires forall m | 0 <= m < |script| :: EditFits(script, left, right, m)
    ensures |Carried(script, right, k)| == Carrying(script, k)
    ensures forall m | 0 <= m < k && (script[m] == Add || script[m] == Replace) ::
              && Carrying(script, m) < Carrying(script, k)
              && [Carried(script, right, k)[Carrying(script, m)]] == At(right, RightUsed(script, m))
  {
    if k > 0 {
      CarriedAt(script, left, right, k - 1);
      assert EditFits(script, left, right, k - 1);
      assert Carried(script, right, k - 1) <= Carried(script, right, k);
    }
  }

  /** A script that fits, replayed on left, yields the right elements produced so far. */
  lemma {:induction false} ReplayFits<T>(script: seq<EditType>, left: seq<T>, right: seq<T>, k: nat)
    requires k <= |script|
    requires forall m | 0 <= m < |script| :: EditFits(script, left, right, m)
    ensures RightUsed(script, k) <= |right|
    ensures Replay(script, left, Carried(script, right, |script|), k) == right[..RightUsed(script, k)]
  {
    if k > 0 {
      ReplayFits(script, left, right, k - 1);
      assert EditFits(script, left, right, k - 1);
      CarriedAt(script, left, right, |script|);
    }
  }

  /** The prefix of a script has its own prefixes. */
  lemma {:induction false} UsedInPrefix(script: seq<EditType>, script': seq<EditType>, k: nat)
    requires k <= |script| <= |script'| && script == script'[..|script|]
    ensures LeftUsed(script, k) == LeftUsed(script', k) && RightUsed(script, k) == RightUsed(script', k)
  {
    if k > 0 {
      UsedInPrefix(script, script', k - 1);
    }
  }

  /** A script reaches a cell exactly when its last edit fits there and the rest reaches the cell before. */
  lemma ReachesStep<T>(script: seq<EditType>, e: EditType, left: seq<T>, right: seq<T>, i: nat, j: nat)
    requires i <= |left| && j <= |right|
    ensures TotalWeight(script + [e]) == TotalWeight(script) + Weight(e)
    ensures Reaches(script + [e], left, right, i, j) <==>
            && (e == Add || i > 0)
            && (e == Remove || j > 0)
            && (e == Match ==> left[i - 1] == right[j - 1])
            && (e == Replace ==> left[i - 1] != right[j - 1])
            && Reaches(script, left, right, if e == Add then i else i - 1, if e == Remove then j else j - 1)
  {
    var all := script + [e];
    assert all[..|script|] == script && all[..|all| - 1] == script;
    forall k | 0 <= k <= |script|
      ensures LeftUsed(script, k) == LeftUsed(all, k) && RightUsed(script, k) == RightUsed(all, k)
    {
      UsedInPrefix(script, all, k);
    }
    assert forall k | 0 <= k < |script| :: EditFits(script, left, right, k) <==> EditFits(all, left, right, k);
    assert (forall k | 0 <= k < |all| :: EditFits(all, left, right, k)) <==>
           EditFits(all, left, right, |script|) && forall k | 0 <= k < |script| :: EditFits(script, left, right, k);
  }

  // ---------------------------------------------------------------------------
  // The table
  // ---------------------------------------------------------------------------

  /** The table's choice at a mismatch: an add or a remove only when it is strictly cheapest. */
  function Choose(add: nat, remove: nat, replace: nat): EditType {
    if add < remove && add < replace then Add
    else if remove < add && remove < replace then Remove
    else Replace
  }

  /** costs[i][j], by the recurrence that the loops of CalculateOptimalEdits follow. */
  function Cost<T(==)>(left: seq<T>, right: seq<T>, i: nat, j: nat): nat
    requires i <= |left| && j <= |right|
    decreases i + j
  {
    if j == 0 then i * UNIT
    else if i == 0 then j * UNIT
    else if left[i - 1] == right[j - 1] then Cost(left, right, i - 1, j - 1)
    else
      var add := Cost(left, right, i, j - 1);
      var remove := Cost(left, right, i - 1, j);
      var replace := Cost(left, right, i - 1, j - 1);
      match Choose(add, remove, replace)
      case Add => add + UNIT
      case Remove => remove + UNIT
      case _ => replace + REPLACE_COST
  }

  /** best_move[i][j]. */
  function Move<T(==)>(left: seq<T>, right: seq<T>, i: nat, j: nat): EditType
    requires i <= |left| && j <= |right|
  {
    if j == 0 then Remove
    else if i == 0 then Add
    else if left[i - 1] == right[j - 1] then Match
    else Choose(Cost(left, right, i, j - 1), Cost(left, right, i - 1, j), Cost(left, right, i - 1, j - 1))
  }

  /** The path traced back from cell (i, j), in forward order. */
  function Trace<T(==)>(left: seq<T>, right: seq<T>, i: nat, j: nat): seq<EditType>
    requires i <= |left| && j <= |right|
    decreases i + j
  {
    if i == 0 && j == 0 then []
    else
      var move := Move(left, right, i, j);
      Trace(left, right, if move == Add then i else i - 1, if move == Remove then j else j - 1) + [move]
  }

  function Script<T(==)>(left: seq<T>, right: seq<T>): seq<EditType> {
    Trace(left, right, |left|, |right|)
  }

  function Distance<T(==)>(left: seq<T>, right: seq<T>): nat {
    Cost(left, right, |left|, |right|)
  }

  /** One step back along the path: where it leads and what it costs. */
  lemma MoveFits<T>(left: seq<T>, right: seq<T>, i: nat, j: nat)
    requires i <= |left| && j <= |right| && (i != 0 || j != 0)
    ensures var e := Move(left, right, i, j);
            && (e == Add || i > 0)
            && (e == Remove || j > 0)
            && (e == Match ==> left[i - 1] == right[j - 1])
            && (e == Replace ==> left[i - 1] != right[j - 1])
            && Cost(left, right, i, j) ==
               Cost(left, right, if e == Add then i else i - 1, if e == Remove then j else j - 1) + Weight(e)
  {
  }

  /** The traced path reaches its cell, and its weight is the cell's cost. */
  lemma {:induction false} TraceReaches<T>(left: seq<T>, right: seq<T>, i: nat, j: nat)
    requires i <= |left| && j <= |right|
    ensures Reaches(Trace(left, right, i, j), left, right, i, j)
    ensures TotalWeight(Trace(left, right, i, j)) == Cost(left, right, i, j)
    decreases i + j
  {
    if i != 0 || j != 0 {
      var e := Move(left, right, i, j);
      var i', j' := if e == Add then i else i - 1, if e == Remove then j else j - 1;
      TraceReaches(left, right, i', j');
      MoveFits(left, right, i, j);
      ReachesStep(Trace(left, right, i', j'), e, left, right, i, j);
    }
  }

  /** Main result: for all inputs the script, replayed on left, yields right, at the table's cost. */
  lemma ScriptIsCorrect<T>(left: seq<T>, right: seq<T>)
    ensures var script := Script(left, right);
            && Transforms(script, left, right)
            && TotalWeight(script) == Distance(left, right)
            && Replay(script, left, Carried(script, right, |script|), |script|) == right
  {
    TraceReaches(left, right, |left|, |right|);
    ReplayFits(Script(left, right), left, right, |Script(left, right)|);
  }

  /** Fills the table and traces the path back, as the source does. */
  method CalculateOptimalEdits(left: seq<nat>, right: seq<nat>) returns (bestPath: seq<EditType>)
    ensures bestPath == Script(left, right)
  {
    var costs, bestMove := FillTable(left, right);
    assert forall a, b | 0 <= a <= |left| && 0 <= b <= |right| ::
      IsCell(costs[a, b], bestMove[a, b], left, right, a, b);
    bestPath := [];
    var i, j := |left|, |right|;
    while i > 0 || j > 0
      invariant 0 <= i <= |left| && 0 <= j <= |right|
      invariant Script(left, right) == Trace(left, right, i, j) + Reversed(bestPath)
      invariant forall a, b | 0 <= a <= |left| && 0 <= b <= |right| :: bestMove[a, b] == Move(left, right, a, b)
      decreases i + j
    {
      var move := bestMove[i, j];
      ReversedSnoc(bestPath, move);
      bestPath := bestPath + [move];
      i := i - if move == Add then 0 else 1;
      j := j - if move == Remove then 0 else 1;
    }
    bestPath := Reverse(bestPath);
  }

  /** What the two tables must hold at (a, b). */
  ghost predicate IsCell(cost: nat, move: EditType, left: seq<nat>, right: seq<nat>, a: nat, b: nat)
    requires a <= |left| && b <= |right|
  {
    cost == Cost(left, right, a, b) && move == Move(left, right, a, b)
  }

  method FillTable(left: seq<nat>, right: seq<nat>) returns (costs: array2<nat>, bestMove: array2<EditType>)
    ensures costs.Length0 == bestMove.Length0 == |left| + 1 && costs.Length1 == bestMove.Length1 == |right| + 1
    ensures forall a, b | 0 <= a <= |left| && 0 <= b <= |right| ::
      IsCell(costs[a, b], bestMove[a, b], left, right, a, b)
  {
    costs := new nat[|left| + 1, |right| + 1];
    bestMove := new EditType[|left| + 1, |right| + 1];
    for i := 0 to |left| + 1
      invariant forall a | 0 <= a < i :: IsCell(costs[a, 0], bestMove[a, 0], left, right, a, 0)
    {
      costs[i, 0] := i * UNIT;
      bestMove[i, 0] := Remove;
    }
    for j := 1 to |right| + 1
      invariant forall a | 0 <= a <= |left| :: IsCell(costs[a, 0], bestMove[a, 0], left, right, a, 0)
      invariant forall b | 0 <= b < j :: IsCell(costs[0, b], bestMove[0, b], left, right, 0, b)
    {
      costs[0, j] := j * UNIT;
      bestMove[0, j] := Add;
    }
    for i := 0 to |left|
      invariant forall a | 0 <= a <= |left| :: IsCell(costs[a, 0], bestMove[a, 0], left, right, a, 0)
      invariant forall a, b | 0 <= a <= i && 0 <= b <= |right| :: IsCell(costs[a, b], bestMove[a, b], left, right, a, b)
    {
      for j := 0 to |right|
        invariant forall a | 0 <= a <= |left| :: IsCell(costs[a, 0], bestMove[a, 0], left, right, a, 0)
        invariant forall a, b | 0 <= a <= i && 0 <= b <= |right| ::
          IsCell(costs[a, b], bestMove[a, b], left, right, a, b)
        invariant forall a, b | a == i + 1 && 0 <= b <= j :: IsCell(costs[a, b], bestMove[a, b], left, right, a, b)
      {
        FillCell(costs, bestMove, left, right, i, j);
      }
    }
  }

  /** The body of the inner loop of the table. */
  method FillCell(costs: array2<nat>, bestMove: array2<EditType>, left: seq<nat>, right: seq<nat>, i: nat, j: nat)
    requires i < |left| && j < |right|
    requires costs.Length0 == bestMove.Length0 == |left| + 1 && costs.Length1 == bestMove.Length1 == |right| + 1
    requires IsCell(costs[i, j], bestMove[i, j], left, right, i, j)
    requires IsCell(costs[i + 1, j], bestMove[i + 1, j], left, right, i + 1, j)
    requires IsCell(costs[i, j + 1], bestMove[i, j + 1], left, right, i, j + 1)
    modifies costs, bestMove
    ensures IsCell(costs[i + 1, j + 1], bestMove[i + 1, j + 1], left, right, i + 1, j + 1)
    ensures forall a, b | 0 <= a <= |left| && 0 <= b <= |right| && (a, b) != (i + 1, j + 1) ::
        costs[a, b] == old(costs[a, b]) && bestMove[a, b] == old(bestMove[a, b])
  {
    if left[i] == right[j] {
      costs[i + 1, j + 1] := costs[i, j];
      bestMove[i + 1, j + 1] := Match;
      return;
    }
    var add, remove, replace := costs[i + 1, j], costs[i, j + 1], costs[i, j];
    if add < remove && add < replace {
      costs[i + 1, j + 1] := add + UNIT;
      bestMove[i + 1, j + 1] := Add;
    } else if remove < add && remove < replace {
      costs[i + 1, j + 1] := remove + UNIT;
      bestMove[i + 1, j + 1] := Remove;
    } else {
      costs[i + 1, j + 1] := replace + REPLACE_COST;
      bestMove[i + 1, j + 1] := Replace;
    }
  }

  method Reverse<T>(s: seq<T>) returns (r: seq<T>)
    ensures r == Reversed(s)
  {
    r := [];
    for k := 0 to |s|
      invariant r == Reversed(s[..k])
    {
      assert s[..k + 1] == s[..k] + [s[k]];
      ReversedSnoc(s[..k], s[k]);
      r := [s[k]] + r;
    }
    assert s[..|s|] == s;
  }
}
