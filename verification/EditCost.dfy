/** How good the scripts are: bounds, the inputs with provably minimal scripts, the exact condition
    under which the whole table is minimal, and how far from minimal a script can be. */
module EditCost {
  import opened EditScript
  import opened Sequences

  function Max(a: nat, b: nat): nat { if a < b then b else a }

  /** Between the difference of the lengths in single edits and a replace for every element. */
  lemma {:induction false} CostAtLeast<T>(left: seq<T>, right: seq<T>, i: nat, j: nat)
    requires i <= |left| && j <= |right|
    ensures (i - j) * UNIT <= Cost(left, right, i, j)
    ensures (j - i) * UNIT <= Cost(left, right, i, j)
    decreases i + j
  {
    if i != 0 && j != 0 {
      CostAtLeast(left, right, i - 1, j - 1);
      CostAtLeast(left, right, i, j - 1);
      CostAtLeast(left, right, i - 1, j);
    }
  }

  lemma {:induction false} CostAtMost<T>(left: seq<T>, right: seq<T>, i: nat, j: nat)
    requires i <= |left| && j <= |right|
    ensures Cost(left, right, i, j) <= REPLACE_COST * Max(i, j)
    decreases i + j
  {
    if i != 0 && j != 0 {
      CostAtMost(left, right, i - 1, j - 1);
      CostAtMost(left, right, i, j - 1);
      CostAtMost(left, right, i - 1, j);
    }
  }

  /** A zero cost means equal prefixes, and equal prefixes cost nothing. */
  lemma {:induction false} CostZero<T>(left: seq<T>, right: seq<T>, i: nat, j: nat)
    requires i <= |left| && j <= |right|
    ensures Cost(left, right, i, j) == 0 <==> left[..i] == right[..j]
    decreases i + j
  {
    if i != 0 && j != 0 && left[i - 1] == right[j - 1] {
      CostZero(left, right, i - 1, j - 1);
      assert left[..i] == left[..i - 1] + [left[i - 1]];
      assert right[..j] == right[..j - 1] + [right[j - 1]];
    } else if i != 0 && j != 0 {
      assert left[..i][i - 1] != right[..j][j - 1];
    }
  }

  lemma DistanceBounds<T>(left: seq<T>, right: seq<T>)
    ensures Distance(left, right) <= REPLACE_COST * Max(|left|, |right|)
    ensures Distance(left, right) >= UNIT * (|left| - |right|)
    ensures Distance(left, right) >= UNIT * (|right| - |left|)
    ensures Distance(left, right) == 0 <==> left == right
  {
    CostAtLeast(left, right, |left|, |right|);
    CostAtMost(left, right, |left|, |right|);
    CostZero(left, right, |left|, |right|);
    assert left[..|left|] == left && right[..|right|] == right;
  }

  // ---------------------------------------------------------------------------
  // Mirror: swapping the inputs swaps adds and removes
  // ---------------------------------------------------------------------------

  /** How many of the edits are of one kind. */
  function CountEdits(script: seq<EditType>, e: EditType): nat {
    if script == [] then 0
    else CountEdits(script[..|script| - 1], e) + if script[|script| - 1] == e then 1 else 0
  }

  function Changes(script: seq<EditType>): nat {
    CountEdits(script, Add) + CountEdits(script, Remove) + CountEdits(script, Replace)
  }

  /** A script weighs what its changes weigh, and a little more for every replace. */
  lemma {:induction false} WeightCounts(script: seq<EditType>)
    ensures TotalWeight(script) == Changes(script) * UNIT + CountEdits(script, Replace)
  {
    if script != [] {
      WeightCounts(script[..|script| - 1]);
    }
  }

  /** So the lighter of two scripts is the one with fewer changes, or with as many and fewer replaces, as
      long as these are fewer than 100000. */
  lemma LighterIsShorter(a: seq<EditType>, b: seq<EditType>)
    requires CountEdits(a, Replace) < 100000 && CountEdits(b, Replace) < 100000
    ensures TotalWeight(a) < TotalWeight(b) <==>
            Changes(a) < Changes(b)
            || (Changes(a) == Changes(b) && CountEdits(a, Replace) < CountEdits(b, Replace))
  {
    WeightCounts(a);
    WeightCounts(b);
  }

  function Mirror(e: EditType): EditType {
    match e
    case Add => Remove
    case Remove => Add
    case _ => e
  }

  lemma {:induction false} SameCost<T>(left: seq<T>, right: seq<T>, i: nat, j: nat)
    requires i <= |left| && j <= |right|
    ensures Cost(right, left, j, i) == Cost(left, right, i, j)
    decreases i + j
  {
    if i != 0 && j != 0 {
      SameCost(left, right, i - 1, j - 1);
      SameCost(left, right, i, j - 1);
      SameCost(left, right, i - 1, j);
      CellMirror(left, right, i, j);
    }
  }

  lemma {:induction false} CostsMirror<T>(left: seq<T>, right: seq<T>, i: nat, j: nat)
    returns (add: nat, remove: nat, replace: nat)
    requires 0 < i <= |left| && 0 < j <= |right|
    ensures add == Cost(left, right, i, j - 1) == Cost(right, left, j - 1, i)
    ensures remove == Cost(left, right, i - 1, j) == Cost(right, left, j, i - 1)
    ensures replace == Cost(left, right, i - 1, j - 1) == Cost(right, left, j - 1, i - 1)
  {
    SameCost(left, right, i - 1, j - 1);
    SameCost(left, right, i, j - 1);
    SameCost(left, right, i - 1, j);
    add, remove := Cost(left, right, i, j - 1), Cost(left, right, i - 1, j);
    replace := Cost(left, right, i - 1, j - 1);
  }

  lemma {:induction false} CostMirror<T>(left: seq<T>, right: seq<T>, i: nat, j: nat)
    requires i <= |left| && j <= |right|
    ensures Cost(right, left, j, i) == Cost(left, right, i, j)
    ensures i + j > 0 ==> Move(right, left, j, i) == Mirror(Move(left, right, i, j))
  {
    if i != 0 && j != 0 {
      var add, remove, replace := CostsMirror(left, right, i, j);
      CellMirror(left, right, i, j);
    }
  }

  lemma {:induction false} CellMirror<T>(left: seq<T>, right: seq<T>, i: nat, j: nat)
    requires 0 < i <= |left| && 0 < j <= |right|
    requires Cost(right, left, j - 1, i) == Cost(left, right, i, j - 1)
    requires Cost(right, left, j, i - 1) == Cost(left, right, i - 1, j)
    requires Cost(right, left, j - 1, i - 1) == Cost(left, right, i - 1, j - 1)
    ensures Cost(right, left, j, i) == Cost(left, right, i, j)
    ensures Move(right, left, j, i) == Mirror(Move(left, right, i, j))
  {
  }

  lemma {:induction false} TraceMirror<T>(left: seq<T>, right: seq<T>, i: nat, j: nat)
    requires i <= |left| && j <= |right|
    ensures var there, back := Trace(left, right, i, j), Trace(right, left, j, i);
            |back| == |there| && forall k | 0 <= k < |there| :: back[k] == Mirror(there[k])
    decreases i + j
  {
    if i != 0 || j != 0 {
      CostMirror(left, right, i, j);
      var e := Move(left, right, i, j);
      TraceMirror(left, right, if e == Add then i else i - 1, if e == Remove then j else j - 1);
    }
  }

  // ---------------------------------------------------------------------------
  // Subsequences
  // ---------------------------------------------------------------------------

  predicate Only(script: seq<EditType>, e: EditType) {
    forall k | 0 <= k < |script| :: script[k] == Match || script[k] == e
  }

  lemma {:induction false} SubsequenceTrace<T>(left: seq<T>, right: seq<T>, i: nat, j: nat, at: seq<nat>)
    requires i <= |left| && j <= |right|
    requires PicksOut(at, right, j, left, i)
    ensures j <= i && Cost(left, right, i, j) == (i - j) * UNIT
    ensures Only(Trace(left, right, i, j), Remove)
    decreases i + j
  {
    PicksOutLength(at, right, j, left, i, j);
    if j == 0 {
      OnlyRemovesAtEdge(left, right, i);
    } else if left[i - 1] == right[j - 1] {
      SubsequenceTrace(left, right, i - 1, j - 1, at);
    } else {
      SubsequenceTrace(left, right, i - 1, j, at);
      SubsequenceTrace(left, right, i - 1, j - 1, at);
      SubsequenceTrace(left, right, i, j - 1, at);
    }
  }

  lemma {:induction false} OnlyRemovesAtEdge<T>(left: seq<T>, right: seq<T>, i: nat)
    requires i <= |left|
    ensures Only(Trace(left, right, i, 0), Remove)
  {
    if i != 0 {
      OnlyRemovesAtEdge(left, right, i - 1);
    }
  }

  /** A script of matches and removes picks out positions of left. */
  lemma {:induction false} OnlyRemovesPicks<T>(script: seq<EditType>, left: seq<T>, right: seq<T>, k: nat)
    returns (at: seq<nat>)
    requires Transforms(script, left, right) && Only(script, Remove) && k <= |script|
    ensures LeftUsed(script, k) <= |left| && |at| == RightUsed(script, k) <= |right|
    ensures PicksOut(at, right, RightUsed(script, k), left, LeftUsed(script, k))
  {
    if k == 0 {
      at := [];
    } else {
      at := OnlyRemovesPicks(script, left, right, k - 1);
      assert EditFits(script, left, right, k - 1);
      if script[k - 1] == Match {
        at := at + [LeftUsed(script, k - 1)];
      }
    }
  }

  /** The script only matches and removes exactly when right is a subsequence of left. */
  lemma RemovesOnlyIffSubsequence<T>(left: seq<T>, right: seq<T>)
    ensures Only(Script(left, right), Remove) <==> IsSubsequence(right, left)
    ensures IsSubsequence(right, left) ==> |right| <= |left| && Distance(left, right) == (|left| - |right|) * UNIT
  {
    if IsSubsequence(right, left) {
      var at :| PicksOut(at, right, |right|, left, |left|);
      SubsequenceTrace(left, right, |left|, |right|, at);
    }
    var script := Script(left, right);
    if Only(script, Remove) {
      ScriptIsCorrect(left, right);
      var at := OnlyRemovesPicks(script, left, right, |script|);
    }
  }

  /** And, by the mirror, it only matches and adds exactly when left is a subsequence of right. */
  lemma AddsOnlyIffSubsequence<T>(left: seq<T>, right: seq<T>)
    ensures Only(Script(left, right), Add) <==> IsSubsequence(left, right)
    ensures IsSubsequence(left, right) ==> |left| <= |right| && Distance(left, right) == (|right| - |left|) * UNIT
  {
    TraceMirror(left, right, |left|, |right|);
    CostMirror(left, right, |left|, |right|);
    var there, back := Script(left, right), Script(right, left);
    assert Only(back, Remove) <==> Only(there, Add) by {
      forall k | 0 <= k < |there|
        ensures (back[k] == Match || back[k] == Remove) <==> (there[k] == Match || there[k] == Add)
      {
        assert back[k] == Mirror(there[k]);
      }
    }
    RemovesOnlyIffSubsequence(right, left);
  }

  // ---------------------------------------------------------------------------
  // Minimality
  // ---------------------------------------------------------------------------

  /** No script that turns the first i elements into the first j weighs less than the cell says. */
  ghost predicate CellIsMinimal<T(!new)>(left: seq<T>, right: seq<T>, i: nat, j: nat)
    requires i <= |left| && j <= |right|
  {
    forall script | Reaches(script, left, right, i, j) :: Cost(left, right, i, j) <= TotalWeight(script)
  }

  /** The elements differ, and none of the three ways into the cell starts from a strictly cheapest one. */
  predicate TakesTie<T(==)>(left: seq<T>, right: seq<T>, i: nat, j: nat)
    requires i <= |left| && j <= |right|
  {
    && i > 0 && j > 0 && left[i - 1] != right[j - 1]
    && var add, remove, replace :=
         Cost(left, right, i, j - 1), Cost(left, right, i - 1, j), Cost(left, right, i - 1, j - 1);
       NoneIsCheapest(add, remove, replace)
  }

  predicate NoneIsCheapest(a: nat, b: nat, c: nat) { !(a < b && a < c) && !(b < a && b < c) && !(c < a && c < b) }

  /** On a tie the table replaces; otherwise it comes from where it is strictly cheapest. */
  lemma {:induction false} TieIsReplaced<T>(left: seq<T>, right: seq<T>, i: nat, j: nat)
    requires 0 < i <= |left| && 0 < j <= |right| && left[i - 1] != right[j - 1]
    ensures TakesTie(left, right, i, j) ==> Move(left, right, i, j) == Replace
    ensures !TakesTie(left, right, i, j) ==>
      var e := Move(left, right, i, j);
      var from := Cost(left, right, if e == Add then i else i - 1, if e == Remove then j else j - 1);
      && (e != Add ==> from < Cost(left, right, i, j - 1))
      && (e != Remove ==> from < Cost(left, right, i - 1, j))
      && (e != Replace ==> from < Cost(left, right, i - 1, j - 1))
  {
  }

  ghost predicate NoTies<T>(left: seq<T>, right: seq<T>) {
    forall i, j | 0 <= i <= |left| && 0 <= j <= |right| :: !TakesTie(left, right, i, j)
  }

  lemma {:induction false} TieMirror<T>(left: seq<T>, right: seq<T>, i: nat, j: nat)
    requires 0 < i <= |left| && 0 < j <= |right| && TakesTie(right, left, j, i)
    ensures TakesTie(left, right, i, j)
  {
    var add, remove, replace := CostsMirror(left, right, i, j);
    assert NoneIsCheapest(add, remove, replace) == NoneIsCheapest(remove, add, replace);
  }

  lemma NoTiesMirror<T>(left: seq<T>, right: seq<T>)
    requires NoTies(left, right)
    ensures NoTies(right, left)
  {
    forall j, i | 0 <= j <= |right| && 0 <= i <= |left|
      ensures !TakesTie(right, left, j, i)
    {
      if i > 0 && j > 0 && TakesTie(right, left, j, i) {
        TieMirror(left, right, i, j);
      }
    }
  }

  /** Without ties, one more right element costs at most an add. */
  lemma {:induction false} AddIsEnough<T>(left: seq<T>, right: seq<T>, i: nat, j: nat)
    requires NoTies(left, right) && i <= |left| && 0 < j <= |right|
    ensures Cost(left, right, i, j) <= Cost(left, right, i, j - 1) + UNIT
    decreases i + j, 0
  {
    assert !TakesTie(left, right, i, j);
    if i > 0 && left[i - 1] == right[j - 1] {
      OneLessLeft(left, right, i - 1, j - 1);
    }
  }

  /** Without ties, one left element less costs at most an add. */
  lemma {:induction false} OneLessLeft<T>(left: seq<T>, right: seq<T>, i: nat, j: nat)
    requires NoTies(left, right) && i < |left| && j <= |right|
    ensures Cost(left, right, i, j) <= Cost(left, right, i + 1, j) + UNIT
    decreases i + j, 1
  {
    if j > 0 {
      AddIsEnough(left, right, i, j);
      OneLessLeft(left, right, i, j - 1);
    }
  }

  lemma {:induction false} NoTiesIsMinimal<T>(left: seq<T>, right: seq<T>, i: nat, j: nat, script: seq<EditType>)
    requires NoTies(left, right) && i <= |left| && j <= |right|
    requires Reaches(script, left, right, i, j)
    ensures Cost(left, right, i, j) <= TotalWeight(script)
    decreases |script|
  {
    if script != [] {
      var rest, e := script[..|script| - 1], script[|script| - 1];
      assert script == rest + [e];
      ReachesStep(rest, e, left, right, i, j);
      NoTiesIsMinimal(left, right, if e == Add then i else i - 1, if e == Remove then j else j - 1, rest);
      match e
      case Add => AddIsEnough(left, right, i, j);
      case Remove =>
        NoTiesMirror(left, right);
        AddIsEnough(right, left, j, i);
        CostMirror(left, right, i, j);
        CostMirror(left, right, i - 1, j);
      case _ => assert !TakesTie(left, right, i, j);
    }
  }

  /** A tie overcharges: a lighter script for the same cell exists. */
  lemma TieIsNotMinimal<T(!new)>(left: seq<T>, right: seq<T>, i: nat, j: nat)
    requires i <= |left| && j <= |right| && TakesTie(left, right, i, j)
    ensures !CellIsMinimal(left, right, i, j)
  {
    var e := if Cost(left, right, i, j - 1) <= Cost(left, right, i - 1, j) then Add else Remove;
    var i', j' := if e == Add then i else i - 1, if e == Remove then j else j - 1;
    TraceReaches(left, right, i', j');
    ReachesStep(Trace(left, right, i', j'), e, left, right, i, j);
  }

  /** The documented optimality, cell by cell: it holds of the whole table exactly when no cell
      takes the replace branch on a tie. */
  lemma MinimalIffNoTies<T(!new)>(left: seq<T>, right: seq<T>)
    ensures NoTies(left, right) <==>
            forall i, j | 0 <= i <= |left| && 0 <= j <= |right| :: CellIsMinimal(left, right, i, j)
  {
    if NoTies(left, right) {
      forall i, j, script | 0 <= i <= |left| && 0 <= j <= |right| && Reaches(script, left, right, i, j)
        ensures Cost(left, right, i, j) <= TotalWeight(script)
      {
        NoTiesIsMinimal(left, right, i, j, script);
      }
    } else {
      var i, j :| 0 <= i <= |left| && 0 <= j <= |right| && TakesTie(left, right, i, j);
      TieIsNotMinimal(left, right, i, j);
    }
  }

  // ---------------------------------------------------------------------------
  // How far from minimal: the alternating sequences
  // ---------------------------------------------------------------------------

  function Alternating(first: nat, n: nat): (s: seq<nat>)
    ensures |s| == n
  {
    seq(n, k => (first + k) % 2)
  }

  lemma {:induction false} AlternatingCost(n: nat, i: nat)
    requires i <= n
    ensures Cost(Alternating(0, n), Alternating(1, n), i, i) == i * REPLACE_COST
    ensures i > 0 ==> Cost(Alternating(0, n), Alternating(1, n), i, i - 1) == UNIT
    ensures i > 0 ==> Cost(Alternating(0, n), Alternating(1, n), i - 1, i) == UNIT
  {
    if i > 0 {
      AlternatingCost(n, i - 1);
      var left, right := Alternating(0, n), Alternating(1, n);
      assert left[i - 1] != right[i - 1];
      assert i > 1 ==> left[i - 1] == right[i - 2] && left[i - 2] == right[i - 1];
    }
  }

  /** remove, match, ..., match */
  lemma {:induction false} ShiftedScript(n: nat, k: nat) returns (script: seq<EditType>)
    requires 0 < k <= n
    ensures Reaches(script, Alternating(0, n), Alternating(1, n), k, k - 1)
    ensures TotalWeight(script) == UNIT
  {
    var left, right := Alternating(0, n), Alternating(1, n);
    if k == 1 {
      ReachesStep([], Remove, left, right, 1, 0);
      script := [] + [Remove];
    } else {
      script := ShiftedScript(n, k - 1);
      ReachesStep(script, Match, left, right, k, k - 1);
      script := script + [Match];
    }
  }

  /** The script the table finds for alternating sequences replaces all n elements,
      where two edits suffice. */
  lemma AlternatingIsFarFromMinimal(n: nat) returns (script: seq<EditType>)
    requires n > 0
    ensures Transforms(script, Alternating(0, n), Alternating(1, n))
    ensures TotalWeight(script) == 2 * UNIT
    ensures Distance(Alternating(0, n), Alternating(1, n)) == n * REPLACE_COST
  {
    var left, right := Alternating(0, n), Alternating(1, n);
    AlternatingCost(n, n);
    script := ShiftedScript(n, n);
    ReachesStep(script, Add, left, right, n, n);
    script := script + [Add];
  }

  /** No constant bounds how much heavier than a lightest script the result can be. */
  lemma NoConstantFactor(factor: nat)
    ensures exists left: seq<nat>, right: seq<nat>, script ::
              Transforms(script, left, right) && Distance(left, right) > factor * TotalWeight(script)
  {
    var n := 2 * factor + 1;
    var script := AlternatingIsFarFromMinimal(n);
    assert Distance(Alternating(0, n), Alternating(1, n)) > factor * TotalWeight(script);
  }
}
