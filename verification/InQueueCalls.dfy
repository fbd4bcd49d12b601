/** What the calls on the blocking queue promise their callers: what Push was given is pushed, and Pop returns
    an element unless it was given a time limit and that has passed. */
module InQueueCalls {
  import opened Options
  import opened InList
  import opened InListRuns
  import opened InQueue

  // The calls and the results of a thread.

  /** How often thread t has called Pop in the first n moves, with or without a limit. */
  function PopCalls<T>(moves: seq<Move<T>>, t: Tid, n: nat): nat
    requires n <= |moves|
  {
    if n == 0 then 0 else PopCalls(moves, t, n - 1) + if moves[n - 1].t == t && moves[n - 1].e.CallPop? then 1 else 0
  }

  /** How often a time limit has passed for it. */
  function Timeouts<T>(moves: seq<Move<T>>, t: Tid, n: nat): nat
    requires n <= |moves|
  {
    if n == 0 then 0 else Timeouts(moves, t, n - 1) + if moves[n - 1].t == t && moves[n - 1].e.Timeout? then 1 else 0
  }

  /** What it has called Push with. */
  function PushCalls<T>(moves: seq<Move<T>>, t: Tid, n: nat): seq<T>
    requires n <= |moves|
  {
    if n == 0 then []
    else
      var m := moves[n - 1];
      PushCalls(moves, t, n - 1) + if m.t == t && m.e.CallPush? then [m.e.x] else []
  }

  /** How often it has signalled. */
  function Signals<T>(moves: seq<Move<T>>, t: Tid, n: nat): nat
    requires n <= |moves|
  {
    if n == 0 then 0 else Signals(moves, t, n - 1) + if moves[n - 1].t == t && moves[n - 1].e.Signal? then 1 else 0
  }

  /** What it has put into the list. */
  function PutBy<T>(ops: seq<Op<T>>, who: seq<Tid>, t: Tid, n: nat): seq<T>
    requires n <= |ops| == |who|
  {
    if n == 0 then []
    else PutBy(ops, who, t, n - 1) + if who[n - 1] == t && ops[n - 1].Push? then [ops[n - 1].x] else []
  }

  /** How many results it has got, and how many of these are null. */
  function Returns<T>(results: seq<Return<T>>, t: Tid, n: nat): nat
    requires n <= |results|
  {
    if n == 0 then 0 else Returns(results, t, n - 1) + if results[n - 1].t == t then 1 else 0
  }

  function Nulls<T>(results: seq<Return<T>>, t: Tid, n: nat): nat
    requires n <= |results|
  {
    if n == 0 then 0
    else Nulls(results, t, n - 1) + if results[n - 1].t == t && results[n - 1].value.None? then 1 else 0
  }

  lemma {:induction false} SameReturns<T>(results: seq<Return<T>>, more: seq<Return<T>>, t: Tid, n: nat)
    requires n <= |results| && results <= more
    ensures Returns(more, t, n) == Returns(results, t, n) && Nulls(more, t, n) == Nulls(results, t, n)
  {
    if n > 0 {
      SameReturns(results, more, t, n - 1);
    }
  }

  lemma {:induction false} SamePuts<T>(ops: seq<Op<T>>, moreOps: seq<Op<T>>, who: seq<Tid>, moreWho: seq<Tid>,
                                       t: Tid, n: nat)
    requires n <= |ops| == |who| && ops <= moreOps && who <= moreWho && |moreOps| == |moreWho|
    ensures PutBy(moreOps, moreWho, t, n) == PutBy(ops, who, t, n)
  {
    if n > 0 {
      SamePuts(ops, moreOps, who, moreWho, t, n - 1);
    }
  }

  // What every step keeps.

  predicate InPush<T>(c: Pc<T>) { c.PushLocking? || c.PushLocked? || c.PushDone? || c.PushUnlocked? }

  predicate InPop<T>(c: Pc<T>) { !c.Idle? && !InPush(c) }

  function ToPush<T>(c: Pc<T>): seq<T> { if c.PushLocking? || c.PushLocked? then [c.x] else [] }

  function One(b: bool): nat { if b then 1 else 0 }

  /** The results, the list and the signals follow from the calls, but for the call that is under way. */
  ghost predicate CallsAreKept<T>(s: State<T>, moves: seq<Move<T>>, n: nat, t: Tid)
    requires n <= |moves| && t in s.pc
  {
    && |s.ops| == |s.who|
    && PopCalls(moves, t, n) == Returns(s.results, t, |s.results|) + One(InPop(s.pc[t]))
    && Timeouts(moves, t, n) == Nulls(s.results, t, |s.results|) + One(s.pc[t].TimedOut? || s.pc[t].GivingUp?)
    && PushCalls(moves, t, n) == PutBy(s.ops, s.who, t, |s.ops|) + ToPush(s.pc[t])
    && |PushCalls(moves, t, n)| == Signals(moves, t, n) + One(InPush(s.pc[t]))
  }

  lemma OwnResultsAfter<T>(spins: nat, s: State<T>, m: Move<T>)
    requires Enabled(s, m)
    ensures var t, z := m.t, Next(spins, s, m);
      && Returns(z.results, t, |z.results|) + One(InPop(z.pc[t]))
         == Returns(s.results, t, |s.results|) + One(InPop(s.pc[t])) + One(m.e.CallPop?)
      && Nulls(z.results, t, |z.results|) + One(z.pc[t].TimedOut? || z.pc[t].GivingUp?)
         == Nulls(s.results, t, |s.results|) + One(s.pc[t].TimedOut? || s.pc[t].GivingUp?) + One(m.e.Timeout?)
  {
    SameReturns(s.results, Next(spins, s, m).results, m.t, |s.results|);
  }

  /** Another thread's step leaves the results of t alone, and moves it at most from waiting to woken. */
  lemma OthersStay<T>(spins: nat, s: State<T>, m: Move<T>, t: Tid)
    requires Enabled(s, m) && t in s.pc && t != m.t
    ensures var z := Next(spins, s, m);
      && t in z.pc && (z.pc[t] == s.pc[t] || (s.pc[t].Waiting? && z.pc[t] == Woken(s.pc[t].timed)))
      && Returns(z.results, t, |z.results|) == Returns(s.results, t, |s.results|)
      && Nulls(z.results, t, |z.results|) == Nulls(s.results, t, |s.results|)
  {
    SameReturns(s.results, Next(spins, s, m).results, t, |s.results|);
  }

  lemma OwnPutsAfter<T>(spins: nat, s: State<T>, m: Move<T>)
    requires Enabled(s, m) && |s.ops| == |s.who|
    ensures var t, z := m.t, Next(spins, s, m);
      && |z.ops| == |z.who|
      && PutBy(z.ops, z.who, t, |z.ops|) + ToPush(z.pc[t])
         == PutBy(s.ops, s.who, t, |s.ops|) + ToPush(s.pc[t]) + (if m.e.CallPush? then [m.e.x] else [])
      && One(InPush(z.pc[t])) + One(m.e.Signal?) == One(InPush(s.pc[t])) + One(m.e.CallPush?)
  {
    var z := Next(spins, s, m);
    SamePuts(s.ops, z.ops, s.who, z.who, m.t, |s.ops|);
  }

  lemma OthersPutsStay<T>(spins: nat, s: State<T>, m: Move<T>, t: Tid)
    requires Enabled(s, m) && |s.ops| == |s.who| && t != m.t
    ensures var z := Next(spins, s, m);
      |z.ops| == |z.who| && PutBy(z.ops, z.who, t, |z.ops|) == PutBy(s.ops, s.who, t, |s.ops|)
  {
    var z := Next(spins, s, m);
    SamePuts(s.ops, z.ops, s.who, z.who, t, |s.ops|);
  }

  lemma CallsStep<T>(spins: nat, run: seq<State<T>>, moves: seq<Move<T>>, n: nat, t: Tid)
    requires n < |moves| && n + 1 < |run| && StepAt(spins, run, moves, n) && t in run[n].pc
    requires CallsAreKept(run[n], moves, n, t)
    ensures t in run[n + 1].pc && CallsAreKept(run[n + 1], moves, n + 1, t)
  {
    if t == moves[n].t {
      OwnResultsAfter(spins, run[n], moves[n]);
      OwnPutsAfter(spins, run[n], moves[n]);
    } else {
      OthersStay(spins, run[n], moves[n], t);
      OthersPutsStay(spins, run[n], moves[n], t);
    }
  }

  /** In every run, every call of Pop by a thread has returned one result, but for the one under way; as many
      of these are null as time limits have passed; and what the thread has put into the list, signalling
      each time, is what it called Push with. */
  lemma {:induction false} EveryCallIsAnswered<T>(spins: nat, run: seq<State<T>>, moves: seq<Move<T>>, n: nat, t: Tid)
    requires IsRun(spins, run, moves) && n < |run| && t in run[0].pc
    ensures t in run[n].pc && CallsAreKept(run[n], moves, n, t)
  {
    if n > 0 {
      EveryCallIsAnswered(spins, run, moves, n - 1, t);
      assert StepAt(spins, run, moves, n - 1);
      CallsStep(spins, run, moves, n - 1, t);
    }
  }

  // A null needs a time limit that has passed.

  /** The last call of Pop by t among the first n moves. */
  function LastCall<T>(moves: seq<Move<T>>, t: Tid, n: nat): (i: Option<nat>)
    requires n <= |moves|
    ensures i.Some? ==> i.value < n && moves[i.value].t == t && moves[i.value].e.CallPop?
    ensures forall k | (if i.Some? then i.value + 1 else 0) <= k < n :: !(moves[k].t == t && moves[k].e.CallPop?)
  {
    if n == 0 then None
    else if moves[n - 1].t == t && moves[n - 1].e.CallPop? then Some(n - 1)
    else LastCall(moves, t, n - 1)
  }

  /** Is the time limit of this call said to be there by where the thread is? */
  predicate SaysTimed<T>(c: Pc<T>, timed: bool) {
    match c
    case Spinning(b, _) => b == timed
    case SpinLocked(b, _) => b == timed
    case SpinEmpty(b, _) => b == timed
    case Locking(b) => b == timed
    case Locked(b, _) => b == timed
    case Waiting(b) => b == timed
    case Woken(b) => b == timed
    case _ => true
  }

  /** Where a thread is in a call of Pop agrees with the call, and with a limit that has passed since. */
  ghost predicate CallIsKnown<T>(s: State<T>, moves: seq<Move<T>>, n: nat, t: Tid)
    requires n <= |moves| && t in s.pc
  {
    InPop(s.pc[t]) ==>
      var i := LastCall(moves, t, n);
      && i.Some? && SaysTimed(s.pc[t], moves[i.value].e.timed)
      && (s.pc[t].TimedOut? || s.pc[t].GivingUp? ==> moves[i.value].e.timed && TimesOut(moves, t, i.value, n))
  }

  /** A time limit of t passes between the moves i and n. */
  ghost predicate TimesOut<T>(moves: seq<Move<T>>, t: Tid, i: nat, n: nat)
    requires n <= |moves|
  {
    exists k: nat :: i < k < n && moves[k] == Move(t, Timeout)
  }

  lemma CallStaysKnown<T>(spins: nat, run: seq<State<T>>, moves: seq<Move<T>>, n: nat, t: Tid)
    requires n < |moves| && n + 1 < |run| && StepAt(spins, run, moves, n) && t in run[n].pc
    requires CallIsKnown(run[n], moves, n, t)
    ensures t in run[n + 1].pc && CallIsKnown(run[n + 1], moves, n + 1, t)
  {
    var m := moves[n];
    if m.t == t && m.e.Timeout? && run[n + 1].pc[t].TimedOut? {
      assert moves[n] == Move(t, Timeout) && LastCall(moves, t, n + 1).value < n;
    } else if InPop(run[n].pc[t]) && (run[n].pc[t].TimedOut? || run[n].pc[t].GivingUp?) {
      var k: nat :| LastCall(moves, t, n).value < k < n && moves[k] == Move(t, Timeout);
      assert k < n + 1;
    }
  }

  lemma {:induction false} CallsAreKnown<T>(spins: nat, run: seq<State<T>>, moves: seq<Move<T>>, n: nat, t: Tid)
    requires IsRun(spins, run, moves) && n < |run| && t in run[0].pc
    ensures t in run[n].pc && CallIsKnown(run[n], moves, n, t)
  {
    if n > 0 {
      CallsAreKnown(spins, run, moves, n - 1, t);
      assert StepAt(spins, run, moves, n - 1);
      CallStaysKnown(spins, run, moves, n - 1, t);
    }
  }

  /** A call that returns null was given a time limit, and that has passed during the call. */
  lemma NullNeedsTimeout<T>(spins: nat, run: seq<State<T>>, moves: seq<Move<T>>, n: nat, t: Tid)
    requires IsRun(spins, run, moves) && n < |moves| && t in run[0].pc
    requires run[n + 1].results == run[n].results + [Return(t, None)]
    ensures var i := LastCall(moves, t, n); i.Some? && moves[i.value].e.timed && TimesOut(moves, t, i.value, n + 1)
  {
    CallsAreKnown(spins, run, moves, n, t);
    assert StepAt(spins, run, moves, n);
    assert run[n + 1].results[|run[n].results|] == Return(t, None);
    if run[n].pc[t].Locking? {
      assert moves[n] == Move(t, Timeout) && n < n + 1;
    } else {
      var k: nat :| LastCall(moves, t, n).value < k < n && moves[k] == Move(t, Timeout);
      assert k < n + 1;
    }
  }

  lemma {:induction false} NullNeedsLimit<T>(spins: nat, roles: Roles, run: seq<State<T>>, moves: seq<Move<T>>,
                                             n: nat, r: Return<T>)
    requires Plays(spins, roles, run, moves) && n < |run| && r in run[n].results && r.value.None?
    ensures n > 0 && r.t in roles.popMs
  {
    assert StepAt(spins, run, moves, n - 1);
    if r in run[n - 1].results {
      NullNeedsLimit(spins, roles, run, moves, n - 1, r);
    } else {
      ThreadsStay(spins, run, moves, n - 1);
      assert run[n].results == run[n - 1].results + [Return(r.t, None)];
      NullNeedsTimeout(spins, run, moves, n - 1, r.t);
      assert CallsKeep(roles, moves[LastCall(moves, r.t, n - 1).value]);
    }
  }

  /** So Pop() returns an element: a thread that gives no time limits never gets null. */
  lemma PopReturnsElement<T>(spins: nat, roles: Roles, run: seq<State<T>>, moves: seq<Move<T>>, n: nat, t: Tid)
    requires Plays(spins, roles, run, moves) && n < |run| && t !in roles.popMs
    ensures forall r | r in run[n].results && r.t == t :: r.value.Some?
  {
    forall r | r in run[n].results && r.t == t && r.value.None? ensures r.t in roles.popMs {
      NullNeedsLimit(spins, roles, run, moves, n, r);
    }
  }

  /** And with limits, a thread gets null no more often than one has passed. */
  lemma NullsAreTimeouts<T>(spins: nat, run: seq<State<T>>, moves: seq<Move<T>>, n: nat, t: Tid)
    requires IsRun(spins, run, moves) && n < |run| && t in run[0].pc
    ensures Nulls(run[n].results, t, |run[n].results|) <= Timeouts(moves, t, n)
    ensures t in run[n].pc
    ensures run[n].pc[t].Idle? ==> Nulls(run[n].results, t, |run[n].results|) == Timeouts(moves, t, n)
  {
    EveryCallIsAnswered(spins, run, moves, n, t);
  }

  lemma {:induction false} ThreadsStay<T>(spins: nat, run: seq<State<T>>, moves: seq<Move<T>>, n: nat)
    requires IsRun(spins, run, moves) && n < |run|
    ensures run[n].pc.Keys == run[0].pc.Keys
  {
    if n > 0 {
      ThreadsStay(spins, run, moves, n - 1);
      assert StepAt(spins, run, moves, n - 1);
    }
  }

  // Spinning comes before sleeping.

  /** How often t has got the lock in moves i to n. */
  function Looks<T>(run: seq<State<T>>, moves: seq<Move<T>>, t: Tid, i: nat, n: nat): nat
    requires i <= n <= |moves| && n < |run|
  {
    if n == i then 0
    else Looks(run, moves, t, i, n - 1) + One(run[n - 1].owner.None? && run[n].owner == Some(t))
  }

  /** How often a thread in Pop has looked at the queue. */
  predicate HasLooked<T>(spins: nat, c: Pc<T>, looks: nat) {
    match c
    case Spinning(_, i) => i == looks < spins
    case SpinLocked(_, i) => i + 1 == looks <= spins
    case SpinEmpty(_, i) => i + 1 == looks <= spins
    case Locking(_) => spins == looks
    case Locked(_, _) => spins < looks
    case Waiting(_) => spins < looks
    case Woken(_) => spins < looks
    case TimedOut => spins < looks
    case GivingUp => spins < looks
    case _ => true
  }

  ghost predicate LooksAreRight<T>(spins: nat, run: seq<State<T>>, moves: seq<Move<T>>, n: nat, t: Tid)
    requires n <= |moves| && n < |run| && t in run[n].pc
  {
    InPop(run[n].pc[t]) ==>
      var i := LastCall(moves, t, n);
      i.Some? && HasLooked(spins, run[n].pc[t], Looks(run, moves, t, i.value, n))
  }

  lemma LooksStep<T>(spins: nat, run: seq<State<T>>, moves: seq<Move<T>>, n: nat, t: Tid)
    requires n < |moves| && n + 1 < |run| && StepAt(spins, run, moves, n) && t in run[n].pc
    requires Exclusive(run[n]) && LooksAreRight(spins, run, moves, n, t)
    ensures t in run[n + 1].pc && LooksAreRight(spins, run, moves, n + 1, t)
  {
    if t != moves[n].t {
      OthersStay(spins, run[n], moves[n], t);
      assert run[n + 1].owner == Some(t) ==> run[n].owner == Some(t);
    }
  }

  lemma {:induction false} LooksStayRight<T>(spins: nat, run: seq<State<T>>, moves: seq<Move<T>>, n: nat, t: Tid)
    requires IsRun(spins, run, moves) && n < |run| && t in run[0].pc
    ensures t in run[n].pc && LooksAreRight(spins, run, moves, n, t)
  {
    if n > 0 {
      LooksStayRight(spins, run, moves, n - 1, t);
      MutualExclusion(spins, run, moves, n - 1);
      assert StepAt(spins, run, moves, n - 1);
      LooksStep(spins, run, moves, n - 1, t);
    }
  }

  /** A call of Pop sleeps only after it has looked at the queue in each turn of spinning and once more. */
  lemma SpinsBeforeSleeping<T>(spins: nat, run: seq<State<T>>, moves: seq<Move<T>>, n: nat, t: Tid)
    requires IsRun(spins, run, moves) && n < |run| && t in run[0].pc
    ensures t in run[n].pc
    ensures run[n].pc[t].Waiting? ==>
      var i := LastCall(moves, t, n); i.Some? && Looks(run, moves, t, i.value, n) > spins
  {
    LooksStayRight(spins, run, moves, n, t);
  }

  // Calls end.

  /** As long as some call is neither over nor asleep, some thread can go on. */
  lemma NeverStuck<T>(spins: nat, run: seq<State<T>>, moves: seq<Move<T>>, n: nat, t: Tid)
    returns (u: Tid, e: Event<T>)
    requires IsRun(spins, run, moves) && n < |run| && t in run[n].pc && !run[n].pc[t].Idle? && !run[n].pc[t].Waiting?
    ensures Enabled(run[n], Move(u, e)) && (e.Advance? || e.Signal?)
  {
    MutualExclusion(spins, run, moves, n);
    var s := run[n];
    if s.owner.Some? && s.owner.value in s.pc {
      u, e := s.owner.value, Advance;
    } else {
      OwnerIsThread(spins, run, moves, n);
      u, e := t, Advance;
      if s.pc[t].PushUnlocked? {
        var to := if w :| w in s.pc && s.pc[w].Waiting? then Some(w) else None;
        e := Signal(to);
      }
    }
  }

  lemma {:induction false} OwnerIsThread<T>(spins: nat, run: seq<State<T>>, moves: seq<Move<T>>, n: nat)
    requires IsRun(spins, run, moves) && n < |run|
    ensures run[n].owner.Some? ==> run[n].owner.value in run[n].pc
  {
    if n > 0 {
      OwnerIsThread(spins, run, moves, n - 1);
      assert StepAt(spins, run, moves, n - 1);
    }
  }

  /** On its own, with the lock free and an element there, a call of Pop returns the oldest one. */
  lemma PopAloneTakes<T>(spins: nat, roles: Roles, run: seq<State<T>>, moves: seq<Move<T>>, t: Tid, timed: bool)
    returns (longer: seq<State<T>>, more: seq<Move<T>>)
    requires Plays(spins, roles, run, moves) && t in Poppers(roles, timed)
    requires var s := run[|moves|]; s.owner.None? && s.queue != [] && t in s.pc && s.pc[t].Idle?
    ensures Plays(spins, roles, longer, more) && |more| == |moves| + 4
    ensures var s, z := run[|moves|], longer[|more|];
      && z.queue == Popped(s.queue) && z.results == s.results + [Return(t, Some(Oldest(s.queue)))]
      && z.pc == s.pc && z.owner.None?
  {
    longer, more := Extend(spins, roles, run, moves, Move(t, CallPop(timed)));
    longer, more := Extend(spins, roles, longer, more, Move(t, Advance));
    longer, more := Extend(spins, roles, longer, more, Move(t, Advance));
    longer, more := Extend(spins, roles, longer, more, Move(t, Advance));
    assert run[|moves|].pc[t := Idle] == run[|moves|].pc;
  }

  /** A woken thread, on its own, takes and returns the oldest element, or sleeps again if there is none. */
  lemma WokenAloneTakes<T>(spins: nat, roles: Roles, run: seq<State<T>>, moves: seq<Move<T>>, t: Tid, timed: bool)
    returns (longer: seq<State<T>>, more: seq<Move<T>>)
    requires Plays(spins, roles, run, moves)
    requires var s := run[|moves|]; s.owner.None? && t in s.pc && s.pc[t] == Woken(timed)
    ensures Plays(spins, roles, longer, more)
    ensures var s, z := run[|moves|], longer[|more|];
      z.owner.None?
      && if s.queue == [] then z == s.Goto(t, Waiting(timed))
         else z.queue == Popped(s.queue) && z.results == s.results + [Return(t, Some(Oldest(s.queue)))]
              && z.pc == s.pc[t := Idle]
  {
    longer, more := Extend(spins, roles, run, moves, Move(t, Advance));
    longer, more := Extend(spins, roles, longer, more, Move(t, Advance));
    if run[|moves|].queue == [] {
      assert longer[|more|] == run[|moves|].Goto(t, Waiting(timed));
    } else {
      longer, more := Extend(spins, roles, longer, more, Move(t, Advance));
    }
  }

  /** With a limit, a call that is about to lock may return null without having looked again. */
  lemma LimitPassesBeforeLock<T>(spins: nat, roles: Roles, run: seq<State<T>>, moves: seq<Move<T>>, t: Tid)
    returns (longer: seq<State<T>>, more: seq<Move<T>>)
    requires Plays(spins, roles, run, moves) && t in run[|moves|].pc && run[|moves|].pc[t] == Locking(true)
    ensures Plays(spins, roles, longer, more) && |more| == |moves| + 1
    ensures longer[|more|] == run[|moves|].Goto(t, Idle).Returning(t, None)
  {
    longer, more := Extend(spins, roles, run, moves, Move(t, Timeout));
  }
}
