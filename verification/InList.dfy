/** The intrusive doubly linked list: push at the head, pop at the tail, unlink anywhere. */
module InList {
  import opened Sequences

  /** An element that can be linked in. */
  class Node {
    var next: Node?
    var prev: Node?

    constructor ()
      ensures next == null && prev == null
    {
      next, prev := null, null;
    }
  }

  // The effect of the operations on the elements, from head to tail. InQueue steps over these too.

  function Pushed<T>(s: seq<T>, x: T): seq<T> { [x] + s }

  function Popped<T>(s: seq<T>): seq<T>
    requires s != []
  {
    s[..|s| - 1]
  }

  function Oldest<T>(s: seq<T>): T
    requires s != []
  {
    s[|s| - 1]
  }

  /** The element after position i, and the one before it. */
  ghost function After(s: seq<Node>, i: nat): Node?
    requires i < |s|
  {
    if i + 1 < |s| then s[i + 1] else null
  }

  ghost function Before(s: seq<Node>, i: nat): Node?
    requires i < |s|
  {
    if i > 0 then s[i - 1] else null
  }

  /** The links of the elements chain them in this order, in both directions. */
  ghost predicate Chained(s: seq<Node>)
    reads s
  {
    forall i | 0 <= i < |s| :: s[i].next == After(s, i) && s[i].prev == Before(s, i)
  }

  /** The elements determine the chain and the chain determines the elements: two chains that start
      with the same element are the same. */
  lemma {:induction false} ChainIsUnique(s: seq<Node>, t: seq<Node>, n: nat)
    requires Chained(s) && Chained(t) && s != [] && t != [] && s[0] == t[0] && n <= |s|
    ensures n <= |t| && s[..n] == t[..n]
    ensures n == |s| ==> s == t
  {
    if n > 1 {
      ChainIsUnique(s, t, n - 1);
      assert s[..n - 1][n - 2] == t[..n - 1][n - 2];
      assert s[n - 2].next == After(s, n - 2) && t[n - 2].next == After(t, n - 2);
    }
    if n == |s| && n > 0 {
      assert s[..n][n - 1] == t[..n][n - 1];
      assert s[n - 1].next == After(s, n - 1) && t[n - 1].next == After(t, n - 1);
    }
  }

  /** The links while element k is taken out: once its neighbour before it is linked past it, and once
      its neighbour after it is. */
  ghost predicate LinkedPast(s: seq<Node>, k: nat, nextDone: bool, prevDone: bool)
    requires k < |s|
    reads s
  {
    && (forall i | 0 <= i < |s| :: i != k ==> s[i].next == if nextDone && i + 1 == k then After(s, k) else After(s, i))
    && (forall i | 0 <= i < |s| ::
      i != k ==> s[i].prev == if prevDone && i == k + 1 then Before(s, k) else Before(s, i))
  }

  /** Once the neighbours of element k are linked to each other, the others form a chain. */
  lemma WithoutChained(s: seq<Node>, k: nat)
    requires k < |s| && Distinct(s) && LinkedPast(s, k, true, true)
    ensures Chained(Without(s, k)) && Distinct(Without(s, k)) && s[k] !in Without(s, k)
  {
    var rest := Without(s, k);
    forall i | 0 <= i < |rest| ensures rest[i].next == After(rest, i) && rest[i].prev == Before(rest, i) {
      assert rest[i] == s[if i < k then i else i + 1];
    }
  }

  ghost function First(s: seq<Node>): Node? { if s == [] then null else s[0] }

  ghost function Last(s: seq<Node>): Node? { if s == [] then null else s[|s| - 1] }

  /** The ends of a list after element k is taken out. */
  lemma WithoutEnds(s: seq<Node>, k: nat)
    requires k < |s| && Distinct(s)
    ensures First(Without(s, k)) == if First(s) == s[k] then After(s, k) else First(s)
    ensures Last(Without(s, k)) == if Last(s) == s[k] then Before(s, k) else Last(s)
  {
  }

  /** Links the neighbours of t to each other. */
  method LinkNeighbours(t: Node, ghost s: seq<Node>, ghost k: nat)
    requires Distinct(s) && Chained(s) && k < |s| && s[k] == t
    modifies s
    ensures LinkedPast(s, k, true, true)
    ensures t.next == After(s, k) && t.prev == Before(s, k)
  {
    assert t.next == After(s, k) && t.prev == Before(s, k);
    if t.prev != null {
      t.prev.next := t.next;
    }
    assert LinkedPast(s, k, true, false);
    if t.next != null {
      t.next.prev := t.prev;
    }
  }

  /** Ends the list at p, the neighbour of its last element. */
  method CutAfter(p: Node?, ghost s: seq<Node>, ghost k: nat)
    requires Distinct(s) && Chained(s) && k == |s| - 1 && p == Before(s, k)
    modifies s
    ensures LinkedPast(s, k, true, true)
    ensures s[k].next == null && s[k].prev == p
  {
    assert s[k].next == After(s, k) && s[k].prev == Before(s, k);
    if p == null {
      return;
    }
    assert p == s[k - 1] && s[k - 1] != s[k];
    p.next := null;
    forall i | 0 <= i < |s| && i != k - 1 ensures s[i].next == old(s[i].next) {
      assert s[i] != s[k - 1];
    }
  }

  /** With a new element linked in front, the elements still form a chain. */
  lemma PushedChained(s: seq<Node>, t: Node)
    requires Distinct(s) && t !in s && t.next == First(s) && t.prev == null
    requires forall i | 0 <= i < |s| :: s[i].next == After(s, i) && s[i].prev == if i == 0 then t else Before(s, i)
    ensures Chained(Pushed(s, t)) && Distinct(Pushed(s, t))
  {
    var all := Pushed(s, t);
    forall i | 0 <= i < |all| ensures all[i].next == After(all, i) && all[i].prev == Before(all, i) {
      assert i > 0 ==> all[i] == s[i - 1];
    }
  }

  lemma LinklessIsAlone(s: seq<Node>, t: Node)
    requires Chained(s) && t in s && t.next == null && t.prev == null
    ensures s == [t]
  {
    var k :| 0 <= k < |s| && s[k] == t;
    assert s[k].next == After(s, k) && s[k].prev == Before(s, k);
  }

  /** Clears the links of t, once its neighbours are linked past it. */
  method ClearLinks(t: Node, ghost s: seq<Node>, ghost k: nat)
    requires Distinct(s) && k < |s| && s[k] == t && LinkedPast(s, k, true, true)
    modifies t
    ensures t.next == null && t.prev == null
    ensures Chained(Without(s, k)) && Distinct(Without(s, k)) && t !in Without(s, k)
  {
    t.next, t.prev := null, null;
    assert forall i | 0 <= i < |s| :: i != k ==> s[i] != t;
    WithoutChained(s, k);
  }

  class List {
    var head: Node?
    var tail: Node?
    /** The elements, from head to tail. */
    ghost var elements: seq<Node>

    ghost predicate Valid()
      reads this, elements
    {
      && Distinct(elements)
      && Chained(elements)
      && head == First(elements) && tail == Last(elements)
    }

    constructor ()
      ensures Valid() && elements == []
    {
      head, tail := null, null;
      elements := [];
    }

    predicate IsEmpty()
      reads this
    {
      head == null && tail == null
    }

    /** Pushes at the head. The assertions admit one element too many: that of a list of one, which
        also has no links, and which a second push links to itself. */
    method Push(t: Node)
      requires Valid() && t.next == null && t.prev == null
      modifies this, t, elements
      ensures t !in old(elements) ==> Valid() && elements == Pushed(old(elements), t)
      ensures t in old(elements) ==> old(elements) == [t] && t.next == t && t.prev == t
    {
      ghost var was := elements;
      if t in was {
        LinklessIsAlone(was, t);
      }
      t.next := head;
      if head != null {
        head.prev := t;
      }
      head := t;
      if tail == null {
        tail := head;
      }
      elements := Pushed(was, t);
      if t !in was {
        PushedChained(was, t);
      }
    }

    /** Removes exactly t, and leaves it without links. */
    method Unlink(t: Node, ghost k: nat)
      requires Valid() && k < |elements| && elements[k] == t
      modifies this, elements
      ensures Valid() && elements == Without(old(elements), k)
      ensures t.next == null && t.prev == null && t !in elements
    {
      ghost var was := elements;
      LinkNeighbours(t, was, k);
      MoveEnds(t, was, k);
      elements := Without(was, k);
      ClearLinks(t, was, k);
    }

    /** Moves the ends of the list away from t. */
    method MoveEnds(t: Node, ghost s: seq<Node>, ghost k: nat)
      requires Distinct(s) && k < |s| && s[k] == t && t.next == After(s, k) && t.prev == Before(s, k)
      requires head == First(s) && tail == Last(s)
      modifies this`head, this`tail
      ensures head == First(Without(s, k)) && tail == Last(Without(s, k))
    {
      WithoutEnds(s, k);
      if tail == t {
        tail := t.prev;
      }
      if head == t {
        head := t.next;
      }
    }

    /** Removes and returns the element at the tail, the one pushed first of those still there. */
    method Pop() returns (t: Node)
      requires Valid() && !IsEmpty()
      modifies this, elements
      ensures old(elements) != [] && t == Oldest(old(elements))
      ensures Valid() && elements == Popped(old(elements))
      ensures t.next == null && t.prev == null && t !in elements
    {
      ghost var was, k := elements, |elements| - 1;
      WithoutEnds(was, k);
      t := tail;
      assert t.next == After(was, k) && t.prev == Before(was, k);
      tail := tail.prev;
      CutAfter(tail, was, k);
      if t == head {
        assert tail == null;
        head := null;
      }
      assert Without(was, k) == Popped(was);
      ClearLinks(t, was, k);
      elements := Popped(was);
    }
  }
}
