/** What the blocking queue does to its elements: each one pushed is returned once, in order. */
module InQueueOrder {
  import opened Options
  import opened Sequences
  import opened InList
  import opened InListRuns
  import opened InQueue

  predicate Pushing<T>(c: Pc<T>) { c.PushLocking? || c.PushLocked? }

  /** The operations on the list keep its contract, and the queue is what they make of it. */
  ghost predicate ListIsSound<T>(s: State<T>) {
    && |s.who| == |s.ops|
    && AllAllowed(s.ops, |s.ops|)
    && (forall i | 0 <= i < |s.ops| :: !s.ops[i].Unlink?)
    && s.queue == ListAfter(s.ops, |s.ops|)
  }

  ghost predicate PushingIsFree<T>(s: State<T>) {
    && (forall t | t in s.pc && Pushing(s.pc[t]) :: s.pc[t].x !in s.queue)
    && (forall t, u | t in s.pc && u in s.pc && t != u && Pushing(s.pc[t]) && Pushing(s.pc[u]) ::
      s.pc[t].x != s.pc[u].x)
  }

  lemma {:induction false} SamePrefix<T>(ops: seq<Op<T>>, op: Op<T>, n: nat)
    requires n <= |ops|
    ensures ListAfter(ops + [op], n) == ListAfter(ops, n)
  {
    if n > 0 {
      SamePrefix(ops, op, n - 1);
      var longer := ops + [op];
      assert longer[n - 1] == ops[n - 1];
    }
  }

  lemma OneMore<T>(ops: seq<Op<T>>, op: Op<T>)
    requires AllAllowed(ops, |ops|) && Allowed(op, ListAfter(ops, |ops|))
    ensures AllAllowed(ops + [op], |ops| + 1)
    ensures ListAfter(ops + [op], |ops| + 1) == Applied(op, ListAfter(ops, |ops|))
  {
    var all := ops + [op];
    forall i | 0 <= i < |all| ensures AllowedAt(all, i) {
      SamePrefix(ops, op, i);
      assert i < |ops| ==> AllowedAt(ops, i);
    }
    SamePrefix(ops, op, |ops|);
  }

  lemma ListStep<T>(spins: nat, s: State<T>, m: Move<T>)
    requires Enabled(s, m) && ListIsSound(s) && PushingIsFree(s)
    ensures ListIsSound(Next(spins, s, m))
  {
    if s.pc[m.t].PushLocked? {
      OneMore(s.ops, Op.Push(s.pc[m.t].x));
    } else if (s.pc[m.t].SpinLocked? || s.pc[m.t].Locked?) && s.queue != [] {
      OneMore(s.ops, Op.Pop);
    }
  }

  lemma PushingStep<T>(spins: nat, s: State<T>, m: Move<T>)
    requires Enabled(s, m) && PushingIsFree(s)
    ensures PushingIsFree(Next(spins, s, m))
  {
  }

  lemma {:induction false} ListStaysSound<T>(spins: nat, run: seq<State<T>>, moves: seq<Move<T>>, n: nat)
    requires IsRun(spins, run, moves) && n < |run|
    ensures ListIsSound(run[n]) && PushingIsFree(run[n])
  {
    if n > 0 {
      ListStaysSound(spins, run, moves, n - 1);
      assert StepAt(spins, run, moves, n - 1);
      ListStep(spins, run[n - 1], moves[n - 1]);
      PushingStep(spins, run[n - 1], moves[n - 1]);
    }
  }

  /** In every run, what was taken from the queue in the order of the critical sections, followed by
      what is still in it, is what was pushed in the order of the critical sections. */
  lemma QueueIsFirstInFirstOut<T>(spins: nat, run: seq<State<T>>, moves: seq<Move<T>>, n: nat)
    requires IsRun(spins, run, moves) && n < |run|
    ensures var s := run[n]; PoppedBy(s.ops, |s.ops|) + Reversed(s.queue) == Pushes(s.ops, |s.ops|)
  {
    ListStaysSound(spins, run, moves, n);
    FirstInFirstOut(run[n].ops, |run[n].ops|);
  }

  // Every element taken is returned by the call that took it.

  /** What thread t took in the first n operations. */
  function Taken<T(==)>(ops: seq<Op<T>>, who: seq<Tid>, t: Tid, n: nat): seq<T>
    requires n <= |ops| == |who|
  {
    if n == 0 then []
    else
      var list := ListAfter(ops, n - 1);
      Taken(ops, who, t, n - 1) + if who[n - 1] == t && ops[n - 1].Pop? && list != [] then [Oldest(list)] else []
  }

  /** What the first n results returned to thread t, leaving out null. */
  function Got<T>(results: seq<Return<T>>, t: Tid, n: nat): seq<T>
    requires n <= |results|
  {
    if n == 0 then []
    else
      var r := results[n - 1];
      Got(results, t, n - 1) + if r.t == t && r.value.Some? then [r.value.value] else []
  }

  function InHand<T>(c: Pc<T>): seq<T> { if c.Took? then [c.x] else [] }

  ghost predicate TakenIsReturned<T>(s: State<T>, t: Tid)
    requires |s.ops| == |s.who| && t in s.pc
  {
    Taken(s.ops, s.who, t, |s.ops|) == Got(s.results, t, |s.results|) + InHand(s.pc[t])
  }

  lemma {:induction false} TakenPrefix<T>(ops: seq<Op<T>>, who: seq<Tid>, op: Op<T>, by0: Tid, t: Tid, n: nat)
    requires n <= |ops| == |who|
    ensures Taken(ops + [op], who + [by0], t, n) == Taken(ops, who, t, n)
  {
    if n > 0 {
      TakenPrefix(ops, who, op, by0, t, n - 1);
      SamePrefix(ops, op, n - 1);
    }
  }

  lemma {:induction false} GotPrefix<T>(results: seq<Return<T>>, r: Return<T>, t: Tid, n: nat)
    requires n <= |results|
    ensures Got(results + [r], t, n) == Got(results, t, n)
  {
    if n > 0 {
      GotPrefix(results, r, t, n - 1);
    }
  }

  lemma TakenMore<T>(ops: seq<Op<T>>, who: seq<Tid>, op: Op<T>, u: Tid, t: Tid)
    requires |ops| == |who|
    ensures var list := ListAfter(ops, |ops|);
      Taken(ops + [op], who + [u], t, |ops| + 1)
      == Taken(ops, who, t, |ops|) + if u == t && op.Pop? && list != [] then [Oldest(list)] else []
  {
    TakenPrefix(ops, who, op, u, t, |ops|);
    SamePrefix(ops, op, |ops|);
  }

  lemma GotMore<T>(results: seq<Return<T>>, r: Return<T>, t: Tid)
    ensures Got(results + [r], t, |results| + 1)
      == Got(results, t, |results|) + if r.t == t && r.value.Some? then [r.value.value] else []
  {
    GotPrefix(results, r, t, |results|);
  }

  /** What thread t takes with this step, and what it returns. */
  function TakesNow<T>(s: State<T>, m: Move<T>, t: Tid): seq<T> {
    if m.t == t && t in s.pc && (s.pc[t].SpinLocked? || s.pc[t].Locked?) && s.queue != [] then [Oldest(s.queue)] else []
  }

  function ReturnsNow<T>(s: State<T>, m: Move<T>, t: Tid): seq<T> {
    if m.t == t && t in s.pc then InHand(s.pc[t]) else []
  }

  lemma TakenAfter<T>(spins: nat, s: State<T>, m: Move<T>, t: Tid)
    requires Enabled(s, m) && ListIsSound(s)
    ensures var z := Next(spins, s, m);
      && |z.ops| == |z.who|
      && Taken(z.ops, z.who, t, |z.ops|) == Taken(s.ops, s.who, t, |s.ops|) + TakesNow(s, m, t)
  {
    if s.pc[m.t].PushLocked? {
      TakenMore(s.ops, s.who, Op.Push(s.pc[m.t].x), m.t, t);
    } else if (s.pc[m.t].SpinLocked? || s.pc[m.t].Locked?) && s.queue != [] {
      TakenMore(s.ops, s.who, Op.Pop, m.t, t);
    }
  }

  lemma GotAfter<T>(spins: nat, s: State<T>, m: Move<T>, t: Tid)
    requires Enabled(s, m)
    ensures var z := Next(spins, s, m);
      Got(z.results, t, |z.results|) == Got(s.results, t, |s.results|) + ReturnsNow(s, m, t)
  {
    if s.pc[m.t].Took? {
      GotMore(s.results, Return(m.t, Some(s.pc[m.t].x)), t);
    } else if s.pc[m.t].Locking? || s.pc[m.t].GivingUp? {
      GotMore(s.results, Return(m.t, None), t);
    }
  }

  lemma OthersHandAfter<T>(spins: nat, s: State<T>, m: Move<T>, t: Tid)
    requires Enabled(s, m) && t in s.pc && t != m.t
    ensures TakesNow(s, m, t) == [] && ReturnsNow(s, m, t) == [] && InHand(Next(spins, s, m).pc[t]) == InHand(s.pc[t])
  {
  }

  lemma OwnHandAfter<T>(spins: nat, s: State<T>, m: Move<T>)
    requires Enabled(s, m)
    ensures InHand(s.pc[m.t]) + TakesNow(s, m, m.t)
         == ReturnsNow(s, m, m.t) + InHand(Next(spins, s, m).pc[m.t])
  {
  }

  lemma HandAfter<T>(spins: nat, s: State<T>, m: Move<T>, t: Tid)
    requires Enabled(s, m) && t in s.pc
    ensures InHand(s.pc[t]) + TakesNow(s, m, t) == ReturnsNow(s, m, t) + InHand(Next(spins, s, m).pc[t])
  {
    if t == m.t {
      OwnHandAfter(spins, s, m);
    } else {
      OthersHandAfter(spins, s, m, t);
    }
  }

  lemma TakenStep<T>(spins: nat, s: State<T>, m: Move<T>, t: Tid)
    requires Enabled(s, m) && ListIsSound(s) && ListIsSound(Next(spins, s, m)) && t in s.pc && TakenIsReturned(s, t)
    ensures TakenIsReturned(Next(spins, s, m), t)
  {
    TakenAfter(spins, s, m, t);
    GotAfter(spins, s, m, t);
    HandAfter(spins, s, m, t);
    var got := Got(s.results, t, |s.results|);
    assert got + InHand(s.pc[t]) + TakesNow(s, m, t) == got + (InHand(s.pc[t]) + TakesNow(s, m, t));
  }

  /** In every run, what a thread took from the queue is what its calls returned, in order, and the
      element a call is about to return. */
  lemma {:induction false} TakenOnceReturnedOnce<T>(spins: nat, run: seq<State<T>>, moves: seq<Move<T>>, n: nat, t: Tid)
    requires IsRun(spins, run, moves) && n < |run| && t in run[0].pc
    ensures ListIsSound(run[n]) && t in run[n].pc && TakenIsReturned(run[n], t)
  {
    ListStaysSound(spins, run, moves, n);
    if n > 0 {
      TakenOnceReturnedOnce(spins, run, moves, n - 1, t);
      assert StepAt(spins, run, moves, n - 1);
      TakenStep(spins, run[n - 1], moves[n - 1], t);
    }
  }

  /** A call that returns null has taken nothing: all its thread ever took was returned before. */
  lemma NullTakesNothing<T>(spins: nat, run: seq<State<T>>, moves: seq<Move<T>>, n: nat, t: Tid)
    requires IsRun(spins, run, moves) && n < |moves| && t in run[0].pc
    requires run[n + 1].results == run[n].results + [Return(t, None)]
    ensures run[n + 1].queue == run[n].queue && |run[n + 1].ops| == |run[n + 1].who|
    ensures Taken(run[n + 1].ops, run[n + 1].who, t, |run[n + 1].ops|) == Got(run[n].results, t, |run[n].results|)
  {
    TakenOnceReturnedOnce(spins, run, moves, n + 1, t);
    assert StepAt(spins, run, moves, n);
    GotMore(run[n].results, Return(t, None), t);
  }

  /** The critical sections of any run, done on a real list, never break its contract; they leave the
      elements of the queue in it and take from it what the threads took. */
  method ReplayOnList(spins: nat, ghost run: seq<State<Node>>, ghost moves: seq<Move<Node>>, ops: seq<Op<Node>>,
                      list: List, ghost universe: set<Node>)
    returns (popped: seq<Node>)
    requires IsRun(spins, run, moves) && ops == run[|moves|].ops
    requires list.Valid() && list.elements == [] && OthersFree(list, universe)
    requires forall i | 0 <= i < |ops| && ops[i].Push? :: ops[i].x in universe
    modifies list, universe
    ensures list.Valid() && list.elements == run[|moves|].queue
    ensures popped + Reversed(list.elements) == Pushes(ops, |ops|)
  {
    ListStaysSound(spins, run, moves, |moves|);
    popped := Execute(list, ops, universe);
    QueueIsFirstInFirstOut(spins, run, moves, |moves|);
  }
}
