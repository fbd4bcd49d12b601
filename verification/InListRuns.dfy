/** Whole runs of the list: order over any sequence of operations, and their refinement by real lists. */
module InListRuns {
  import opened Sequences
  import opened InList

  datatype Op<T> = Push(x: T) | Pop | Unlink(x: T)

  function IndexOf<T(==)>(s: seq<T>, x: T, from: nat := 0): (k: nat)
    requires from <= |s| && x in s[from..]
    ensures from <= k < |s| && s[k] == x
    decreases |s| - from
  {
    if s[from] == x then from else IndexOf(s, x, from + 1)
  }

  /** The operation keeps its contract on this list. */
  predicate Allowed<T(==)>(op: Op<T>, list: seq<T>) {
    match op
    case Push(x) => x !in list
    case Pop => list != []
    case Unlink(x) => x in list
  }

  /** The list after one operation, head first. */
  function Applied<T(==)>(op: Op<T>, list: seq<T>): seq<T> {
    match op
    case Push(x) => Pushed(list, x)
    case Pop => if list == [] then [] else Popped(list)
    case Unlink(x) => if x in list then Without(list, IndexOf(list, x)) else list
  }

  /** The list after n operations. */
  function ListAfter<T(==)>(ops: seq<Op<T>>, n: nat): seq<T>
    requires n <= |ops|
  {
    if n == 0 then [] else Applied(ops[n - 1], ListAfter(ops, n - 1))
  }

  /** What the pops among the first n operations return. */
  function PoppedBy<T(==)>(ops: seq<Op<T>>, n: nat): seq<T>
    requires n <= |ops|
  {
    if n == 0 then []
    else
      var list := ListAfter(ops, n - 1);
      PoppedBy(ops, n - 1) + if ops[n - 1].Pop? && list != [] then [Oldest(list)] else []
  }

  predicate AllowedAt<T(==)>(ops: seq<Op<T>>, i: nat)
    requires i < |ops|
  {
    Allowed(ops[i], ListAfter(ops, i))
  }

  ghost predicate AllAllowed<T>(ops: seq<Op<T>>, n: nat)
    requires n <= |ops|
  {
    forall i | 0 <= i < n :: AllowedAt(ops, i)
  }

  /** What the first n operations pushed, oldest first. */
  function Pushes<T>(ops: seq<Op<T>>, n: nat): seq<T>
    requires n <= |ops|
  {
    if n == 0 then [] else Pushes(ops, n - 1) + if ops[n - 1].Push? then [ops[n - 1].x] else []
  }

  /** The elements gone and the elements left, oldest first. */
  function InOrder<T>(list: seq<T>, popped: seq<T>): seq<T> { popped + Reversed(list) }

  lemma ReversedPopped<T>(s: seq<T>)
    requires s != []
    ensures Reversed(s) == [Oldest(s)] + Reversed(Popped(s))
  {
    assert s == Popped(s) + [Oldest(s)];
    ReversedSnoc(Popped(s), Oldest(s));
  }

  /** Without unlinks, every element that was pushed is popped in order or still there in order. */
  lemma {:induction false} FirstInFirstOut<T>(ops: seq<Op<T>>, n: nat)
    requires n <= |ops| && AllAllowed(ops, n) && forall i | 0 <= i < n :: !ops[i].Unlink?
    ensures InOrder(ListAfter(ops, n), PoppedBy(ops, n)) == Pushes(ops, n)
  {
    if n > 0 {
      FirstInFirstOut(ops, n - 1);
      var list := ListAfter(ops, n - 1);
      assert AllowedAt(ops, n - 1);
      if ops[n - 1].Push? {
        assert Pushed(list, ops[n - 1].x)[1..] == list;
      } else {
        ReversedPopped(list);
      }
    }
  }

  /** Taking out an element of the list leaves the others in order. */
  lemma UnlinkKeepsOrder<T>(at: seq<nat>, list: seq<T>, popped: seq<T>, pushes: seq<T>, k: nat) returns (left: seq<nat>)
    requires k < |list| && |at| == |InOrder(list, popped)|
    requires PicksOut(at, InOrder(list, popped), |at|, pushes, |pushes|)
    ensures |left| == |InOrder(Without(list, k), popped)|
    ensures PicksOut(left, InOrder(Without(list, k), popped), |left|, pushes, |pushes|)
  {
    var before, hole := InOrder(list, popped), |popped| + (|list| - 1 - k);
    ReversedWithout(list, k);
    assert InOrder(Without(list, k), popped) == Without(before, hole);
    PicksOutWithout(at, before, pushes, hole);
    left := Without(at, hole);
  }

  /** With unlinks, what is popped or still there is what was pushed, in order, with some left out. */
  lemma {:induction false} OrderIsKept<T>(ops: seq<Op<T>>, n: nat) returns (at: seq<nat>)
    requires n <= |ops| && AllAllowed(ops, n)
    ensures |at| == |InOrder(ListAfter(ops, n), PoppedBy(ops, n))|
    ensures PicksOut(at, InOrder(ListAfter(ops, n), PoppedBy(ops, n)), |at|, Pushes(ops, n), |Pushes(ops, n)|)
  {
    if n == 0 {
      at := [];
    } else {
      at := OrderIsKept(ops, n - 1);
      var list, popped := ListAfter(ops, n - 1), PoppedBy(ops, n - 1);
      var before, pushes := InOrder(list, popped), Pushes(ops, n - 1);
      assert AllowedAt(ops, n - 1);
      match ops[n - 1]
      case Push(x) =>
        assert Pushed(list, x)[1..] == list;
        assert InOrder(Pushed(list, x), popped) == before + [x];
        PicksOutSnoc(at, before, pushes, x);
        at := at + [|pushes|];
      case Pop =>
        ReversedPopped(list);
        assert InOrder(Popped(list), popped + [Oldest(list)]) == before;
      case Unlink(x) =>
        at := UnlinkKeepsOrder(at, list, popped, pushes, IndexOf(list, x));
    }
  }

  /** Every linked element is in the universe, and the others in it have no links. */
  ghost predicate OthersFree(list: List, universe: set<Node>)
    reads list, universe
  {
    && (forall t | t in list.elements :: t in universe)
    && (forall t | t in universe && t !in list.elements :: t.next == null && t.prev == null)
  }

  method PushFree(list: List, x: Node, ghost universe: set<Node>)
    requires list.Valid() && OthersFree(list, universe) && x in universe && x !in list.elements
    modifies list, universe
    ensures list.Valid() && OthersFree(list, universe) && list.elements == Pushed(old(list.elements), x)
  {
    list.Push(x);
  }

  method PopFree(list: List, ghost universe: set<Node>) returns (t: Node)
    requires list.Valid() && OthersFree(list, universe) && list.elements != []
    modifies list, universe
    ensures list.Valid() && OthersFree(list, universe) && list.elements == Popped(old(list.elements))
    ensures t == Oldest(old(list.elements))
  {
    t := list.Pop();
  }

  method UnlinkFree(list: List, x: Node, ghost k: nat, ghost universe: set<Node>)
    requires list.Valid() && OthersFree(list, universe) && k < |list.elements| && list.elements[k] == x
    modifies list, universe
    ensures list.Valid() && OthersFree(list, universe) && list.elements == Without(old(list.elements), k)
  {
    list.Unlink(x, k);
  }

  /** One operation on a real list refines the operation on sequences. */
  method ExecuteOne(list: List, op: Op<Node>, ghost universe: set<Node>) returns (popped: seq<Node>)
    requires list.Valid() && OthersFree(list, universe)
    requires Allowed(op, list.elements) && (op.Push? ==> op.x in universe)
    modifies list, universe
    ensures list.Valid() && OthersFree(list, universe)
    ensures list.elements == Applied(op, old(list.elements))
    ensures popped == if op.Pop? then [Oldest(old(list.elements))] else []
  {
    popped := [];
    match op
    case Push(x) =>
      PushFree(list, x, universe);
    case Pop =>
      var t := PopFree(list, universe);
      popped := [t];
    case Unlink(x) =>
      UnlinkFree(list, x, IndexOf(list.elements, x), universe);
  }

  /** Any run on a real list refines the run on sequences, as long as the elements start without links. */
  method Execute(list: List, ops: seq<Op<Node>>, ghost universe: set<Node>) returns (popped: seq<Node>)
    requires list.Valid() && list.elements == [] && OthersFree(list, universe)
    requires forall i | 0 <= i < |ops| && ops[i].Push? :: ops[i].x in universe
    requires AllAllowed(ops, |ops|)
    modifies list, universe
    ensures list.Valid() && OthersFree(list, universe)
    ensures list.elements == ListAfter(ops, |ops|) && popped == PoppedBy(ops, |ops|)
  {
    popped := [];
    for n := 0 to |ops|
      invariant list.Valid() && OthersFree(list, universe)
      invariant list.elements == ListAfter(ops, n) && popped == PoppedBy(ops, n)
    {
      assert AllowedAt(ops, n);
      var more := ExecuteOne(list, ops[n], universe);
      popped := popped + more;
    }
  }
}
