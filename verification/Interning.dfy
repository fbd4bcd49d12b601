/** The string overload of CalculateOptimalEdits: lines become ids, and ids keep equality. */
module Interning {
  import opened EditScript

  /** Two pairs of inputs with the same pattern of equal elements. */
  ghost predicate SamePattern<A, B>(left: seq<A>, right: seq<A>, left': seq<B>, right': seq<B>) {
    && |left| == |left'| && |right| == |right'|
    && forall i, j | 0 <= i < |left| && 0 <= j < |right| :: left[i] == right[j] <==> left'[i] == right'[j]
  }

  lemma {:induction false} CostSeesOnlyPattern<A, B>(left: seq<A>, right: seq<A>, left': seq<B>, right': seq<B>,
                                                     i: nat, j: nat)
    requires SamePattern(left, right, left', right') && i <= |left| && j <= |right|
    ensures Cost(left, right, i, j) == Cost(left', right', i, j)
    ensures Move(left, right, i, j) == Move(left', right', i, j)
    decreases i + j
  {
    if i != 0 && j != 0 {
      CostSeesOnlyPattern(left, right, left', right', i - 1, j - 1);
      CostSeesOnlyPattern(left, right, left', right', i, j - 1);
      CostSeesOnlyPattern(left, right, left', right', i - 1, j);
    }
  }

  /** The script depends only on which elements are equal. */
  lemma {:induction false} TraceSeesOnlyPattern<A, B>(left: seq<A>, right: seq<A>, left': seq<B>, right': seq<B>,
                                                      i: nat, j: nat)
    requires SamePattern(left, right, left', right') && i <= |left| && j <= |right|
    ensures Trace(left, right, i, j) == Trace(left', right', i, j)
    decreases i + j
  {
    if i != 0 || j != 0 {
      CostSeesOnlyPattern(left, right, left', right', i, j);
      var e := Move(left, right, i, j);
      TraceSeesOnlyPattern(left, right, left', right', if e == Add then i else i - 1, if e == Remove then j else j - 1);
    }
  }

  class InternalStrings {
    var ids: map<string, nat>

    /** Ids are below the size of the table, and no two strings share one. */
    ghost predicate Valid()
      reads this
    {
      && (forall s | s in ids :: ids[s] < |ids|)
      && (forall s, t | s in ids && t in ids && ids[s] == ids[t] :: s == t)
    }

    constructor ()
      ensures Valid() && ids == map[]
    {
      ids := map[];
    }

    method GetId(str: string) returns (id: nat)
      requires Valid()
      modifies this
      ensures Valid()
      ensures ids == old(ids)[str := id]
      ensures str in old(ids) ==> id == old(ids)[str]
    {
      if str in ids {
        id := ids[str];
        assert ids[str := id] == ids;
        return;
      }
      id := |ids|;
      ids := ids[str := id];
    }
  }

  /** Ids of some lines, given by the table as it stands. */
  ghost predicate IdsOf(ids: seq<nat>, lines: seq<string>, table: map<string, nat>) {
    |ids| == |lines| && forall k | 0 <= k < |lines| :: lines[k] in table && ids[k] == table[lines[k]]
  }

  /** The larger table still gives the old ids. */
  ghost predicate Extends(table: map<string, nat>, table': map<string, nat>) {
    forall s | s in table :: s in table' && table'[s] == table[s]
  }

  method InternAll(table: InternalStrings, lines: seq<string>) returns (ids: seq<nat>)
    requires table.Valid()
    modifies table
    ensures table.Valid() && IdsOf(ids, lines, table.ids)
    ensures Extends(old(table.ids), table.ids)
  {
    ids := [];
    for i := 0 to |lines|
      invariant table.Valid() && |ids| == i
      invariant forall k | 0 <= k < i :: lines[k] in table.ids && ids[k] == table.ids[lines[k]]
      invariant Extends(old(table.ids), table.ids)
    {
      ghost var before := table.ids;
      var id := table.GetId(lines[i]);
      assert Extends(before, table.ids);
      ids := ids + [id];
    }
  }

  /** The overload on strings finds the script of the strings themselves. */
  method CalculateOptimalEditsOfLines(left: seq<string>, right: seq<string>) returns (edits: seq<EditType>)
    ensures edits == Script(left, right)
  {
    var table := new InternalStrings();
    var leftIds := InternAll(table, left);
    var rightIds := InternAll(table, right);
    edits := CalculateOptimalEdits(leftIds, rightIds);
    assert forall i | 0 <= i < |left| :: left[i] in table.ids && leftIds[i] == table.ids[left[i]];
    TraceSeesOnlyPattern(left, right, leftIds, rightIds, |left|, |right|);
  }
}
