/** When the script that the table yields is a lightest one: measured by the recurrence of Wagner and Fischer,
    which takes the least of the three ways into a cell. */
module EditOptimality {
  import opened EditScript
  import opened EditCost

  function Least(a: nat, b: nat, c: nat): nat { if a <= b && a <= c then a else if b <= c then b else c }

  /** The distance of the first i elements from the first j, by that recurrence. */
  function Best<T(==)>(left: seq<T>, right: seq<T>, i: nat, j: nat): nat
    requires i <= |left| && j <= |right|
    decreases i + j
  {
    if j == 0 then i * UNIT
    else if i == 0 then j * UNIT
    else
      Least(Best(left, right, i, j - 1) + UNIT,
            Best(left, right, i - 1, j) + UNIT,
            Best(left, right, i - 1, j - 1) + if left[i - 1] == right[j - 1] then 0 else REPLACE_COST)
  }

  /** No script is lighter than that, */
  lemma {:induction false} BestIsLeast<T>(left: seq<T>, right: seq<T>, i: nat, j: nat, script: seq<EditType>)
    requires i <= |left| && j <= |right| && Reaches(script, left, right, i, j)
    ensures Best(left, right, i, j) <= TotalWeight(script)
    decreases |script|
  {
    if script != [] {
      var rest, e := script[..|script| - 1], script[|script| - 1];
      assert script == rest + [e];
      ReachesStep(rest, e, left, right, i, j);
      BestIsLeast(left, right, if e == Add then i else i - 1, if e == Remove then j else j - 1, rest);
    }
  }

  /** and some script is that light. */
  lemma {:induction false} BestIsReached<T>(left: seq<T>, right: seq<T>, i: nat, j: nat) returns (script: seq<EditType>)
    requires i <= |left| && j <= |right|
    ensures Reaches(script, left, right, i, j) && TotalWeight(script) == Best(left, right, i, j)
    decreases i + j
  {
    if i == 0 && j == 0 {
      script := [];
    } else {
      var e := LastEdit(left, right, i, j);
      var i', j' := if e == Add then i else i - 1, if e == Remove then j else j - 1;
      script := BestIsReached(left, right, i', j');
      ReachesStep(script, e, left, right, i, j);
      script := script + [e];
    }
  }

  /** The last edit on a lightest way to the cell. */
  function LastEdit<T(==)>(left: seq<T>, right: seq<T>, i: nat, j: nat): (e: EditType)
    requires i <= |left| && j <= |right| && (i != 0 || j != 0)
    ensures (e == Add || i > 0) && (e == Remove || j > 0)
    ensures Best(left, right, i, j)
         == Best(left, right, if e == Add then i else i - 1, if e == Remove then j else j - 1) + Weight(e)
    ensures (e == Match ==> left[i - 1] == right[j - 1]) && (e == Replace ==> left[i - 1] != right[j - 1])
  {
    if j == 0 then Remove
    else if i == 0 then Add
    else if Best(left, right, i, j) == Best(left, right, i, j - 1) + UNIT then Add
    else if Best(left, right, i, j) == Best(left, right, i - 1, j) + UNIT then Remove
    else if left[i - 1] == right[j - 1] then Match
    else Replace
  }

  lemma CellIsMinimalIff<T(!new)>(left: seq<T>, right: seq<T>, i: nat, j: nat)
    requires i <= |left| && j <= |right|
    ensures CellIsMinimal(left, right, i, j) <==> Cost(left, right, i, j) == Best(left, right, i, j)
  {
    TraceReaches(left, right, i, j);
    BestIsLeast(left, right, i, j, Trace(left, right, i, j));
    var script := BestIsReached(left, right, i, j);
    forall other | Reaches(other, left, right, i, j) ensures Best(left, right, i, j) <= TotalWeight(other) {
      BestIsLeast(left, right, i, j, other);
    }
  }

  /** A cell on unequal elements costs the least that it can, coming from where it does, exactly without a
      tie. */
  lemma CellIsLeastIffNoTie<T>(left: seq<T>, right: seq<T>, i: nat, j: nat)
    requires 0 < i <= |left| && 0 < j <= |right| && left[i - 1] != right[j - 1]
    ensures Cost(left, right, i, j) == Least(Cost(left, right, i, j - 1) + UNIT, Cost(left, right, i - 1, j) + UNIT,
                                             Cost(left, right, i - 1, j - 1) + REPLACE_COST)
       <==> !TakesTie(left, right, i, j)
  {
  }

  /** No script that turns left into right is lighter than the one returned. */
  ghost predicate ScriptIsOptimal<T(!new)>(left: seq<T>, right: seq<T>) {
    forall script | Transforms(script, left, right) :: TotalWeight(Script(left, right)) <= TotalWeight(script)
  }

  lemma OptimalIsMinimal<T(!new)>(left: seq<T>, right: seq<T>)
    ensures ScriptIsOptimal(left, right) <==> CellIsMinimal(left, right, |left|, |right|)
  {
    ScriptIsCorrect(left, right);
  }

  /** The documented optimality of the returned edits: they are optimal exactly when the table ends with the
      distance of Wagner and Fischer. */
  lemma ScriptIsOptimalIff<T(!new)>(left: seq<T>, right: seq<T>)
    ensures ScriptIsOptimal(left, right) <==> Distance(left, right) == Best(left, right, |left|, |right|)
  {
    OptimalIsMinimal(left, right);
    CellIsMinimalIff(left, right, |left|, |right|);
  }

  // What ties have to do with it: a tie on the traced path spoils the script, one elsewhere may or may not.

  /** The path traced back from (i, j) passes the cell (a, b). */
  predicate OnTrace<T(==)>(left: seq<T>, right: seq<T>, i: nat, j: nat, a: nat, b: nat)
    requires i <= |left| && j <= |right|
    decreases i + j
  {
    || (a == i && b == j)
    || ((i != 0 || j != 0)
        && var e := Move(left, right, i, j);
           OnTrace(left, right, if e == Add then i else i - 1, if e == Remove then j else j - 1, a, b))
  }

  /** If a cell is minimal, so is the one before it on its path. */
  lemma MinimalBefore<T(!new)>(left: seq<T>, right: seq<T>, i: nat, j: nat)
    requires i <= |left| && j <= |right| && (i != 0 || j != 0) && CellIsMinimal(left, right, i, j)
    ensures var e := Move(left, right, i, j);
      CellIsMinimal(left, right, if e == Add then i else i - 1, if e == Remove then j else j - 1)
  {
    var e := Move(left, right, i, j);
    var i', j' := if e == Add then i else i - 1, if e == Remove then j else j - 1;
    MoveFits(left, right, i, j);
    forall script | Reaches(script, left, right, i', j') ensures Cost(left, right, i', j') <= TotalWeight(script) {
      ReachesStep(script, e, left, right, i, j);
    }
  }

  lemma {:induction false} MinimalTraceHasNoTie<T(!new)>(left: seq<T>, right: seq<T>, i: nat, j: nat, a: nat, b: nat)
    requires i <= |left| && j <= |right| && CellIsMinimal(left, right, i, j) && OnTrace(left, right, i, j, a, b)
    ensures a <= |left| && b <= |right| && !TakesTie(left, right, a, b)
    decreases i + j
  {
    if a == i && b == j {
      if TakesTie(left, right, i, j) {
        TieIsNotMinimal(left, right, i, j);
      }
    } else {
      MinimalBefore(left, right, i, j);
      var e := Move(left, right, i, j);
      MinimalTraceHasNoTie(left, right, if e == Add then i else i - 1, if e == Remove then j else j - 1, a, b);
    }
  }

  /** A table without ties gives an optimal script. */
  lemma NoTiesGiveOptimal<T(!new)>(left: seq<T>, right: seq<T>)
    requires NoTies(left, right)
    ensures ScriptIsOptimal(left, right)
  {
    MinimalIffNoTies(left, right);
    OptimalIsMinimal(left, right);
  }

  /** An optimal script comes from a path without ties. */
  lemma OptimalHasNoTieOnTrace<T(!new)>(left: seq<T>, right: seq<T>, a: nat, b: nat)
    requires ScriptIsOptimal(left, right) && OnTrace(left, right, |left|, |right|, a, b)
    ensures a <= |left| && b <= |right| && !TakesTie(left, right, a, b)
  {
    OptimalIsMinimal(left, right);
    MinimalTraceHasNoTie(left, right, |left|, |right|, a, b);
  }

  /** Here a tie off the path does no harm. */
  lemma HarmlessTie()
    ensures TakesTie([1, 2], [2, 1, 2], 2, 2) && ScriptIsOptimal([1, 2], [2, 1, 2])
  {
    var left, right := [1, 2], [2, 1, 2];
    assert Cost(left, right, 1, 1) == REPLACE_COST;
    assert Cost(left, right, 1, 2) == UNIT && Cost(left, right, 2, 1) == UNIT;
    assert Distance(left, right) == UNIT;
    assert Best(left, right, 1, 2) == UNIT;
    assert Best(left, right, 2, 3) == UNIT;
    ScriptIsOptimalIff(left, right);
  }

  /** And here the script is not optimal although its path has no tie: the tie at (2, 2) makes the cells
      behind it look dearer than they are. */
  lemma HarmfulTieOffTrace()
    ensures var left, right := [0, 1, 0], [1, 0, 0, 2];
      && !ScriptIsOptimal(left, right)
      && TakesTie(left, right, 2, 2)
      && forall a: nat, b: nat | OnTrace(left, right, 3, 4, a, b) :: a <= 3 && b <= 4 && !TakesTie(left, right, a, b)
  {
    var left, right := [0, 1, 0], [1, 0, 0, 2];
    HarmfulTable(left, right);
    assert Best(left, right, 2, 1) <= UNIT;
    assert Best(left, right, 3, 2) <= UNIT;
    assert Best(left, right, 3, 3) <= 2 * UNIT;
    assert Best(left, right, 3, 4) <= 3 * UNIT;
    ScriptIsOptimalIff(left, right);
    forall a: nat, b: nat | OnTrace(left, right, 3, 4, a, b)
      ensures a <= 3 && b <= 4 && !TakesTie(left, right, a, b)
    {
      HarmfulTrace(left, right, a, b);
    }
  }

  /** The table of that example, row by row. */
  lemma HarmfulTable(left: seq<int>, right: seq<int>)
    requires left == [0, 1, 0] && right == [1, 0, 0, 2]
    ensures Cost(left, right, 2, 1) == UNIT && Cost(left, right, 1, 2) == UNIT
      && Cost(left, right, 1, 1) == REPLACE_COST
    ensures Cost(left, right, 1, 3) == 2 * UNIT && Cost(left, right, 2, 2) == 2 * REPLACE_COST
    ensures Cost(left, right, 2, 3) == UNIT + REPLACE_COST && Cost(left, right, 2, 4) == 2 * UNIT + REPLACE_COST
    ensures Cost(left, right, 3, 3) == 2 * REPLACE_COST && Cost(left, right, 3, 4) == UNIT + 2 * REPLACE_COST
  {
    assert Cost(left, right, 1, 1) == REPLACE_COST;
    assert Cost(left, right, 1, 2) == UNIT;
    assert Cost(left, right, 1, 3) == 2 * UNIT;
    assert Cost(left, right, 1, 4) == 3 * UNIT;
    assert Cost(left, right, 2, 1) == UNIT;
    assert Cost(left, right, 2, 2) == 2 * REPLACE_COST;
    assert Cost(left, right, 2, 3) == UNIT + REPLACE_COST;
    assert Cost(left, right, 2, 4) == 2 * UNIT + REPLACE_COST;
    assert Cost(left, right, 3, 1) == 2 * UNIT;
    assert Cost(left, right, 3, 2) == UNIT;
    assert Cost(left, right, 3, 3) == 2 * REPLACE_COST;
    assert Cost(left, right, 3, 4) == UNIT + 2 * REPLACE_COST;
  }

  /** And its path. */
  lemma HarmfulTrace(left: seq<int>, right: seq<int>, a: nat, b: nat)
    requires left == [0, 1, 0] && right == [1, 0, 0, 2] && OnTrace(left, right, 3, 4, a, b)
    ensures a <= 3 && b <= 4 && !TakesTie(left, right, a, b)
  {
    HarmfulTable(left, right);
    assert Move(left, right, 3, 4) == Replace && Move(left, right, 2, 3) == Replace;
    assert Move(left, right, 1, 2) == Match && Move(left, right, 0, 1) == Add;
    assert (a == 3 && b == 4) || OnTrace(left, right, 2, 3, a, b);
    assert OnTrace(left, right, 2, 3, a, b) ==> (a == 2 && b == 3) || OnTrace(left, right, 1, 2, a, b);
    assert OnTrace(left, right, 1, 2, a, b) ==> (a == 1 && b == 2) || OnTrace(left, right, 0, 1, a, b);
    assert OnTrace(left, right, 0, 1, a, b) ==> a == 0;
  }
}
