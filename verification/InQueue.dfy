/** The blocking queue over the list, as steps of any number of pushing and popping threads. A step runs
    up to the next lock, unlock, wait or signal, or does one operation on the list; steps of different
    threads interleave freely. */
module InQueue {
  import opened Options
  import opened InList
  import opened InListRuns

  type Tid = nat

  /** Where a thread is. `timed` tells Pop(ms) from Pop(). */
  datatype Pc<T> =
    | Idle
    | PushLocking(x: T)              // about to lock
    | PushLocked(x: T)
    | PushDone                       // the element is in the list, the lock still held
    | PushUnlocked                   // about to signal
    | Spinning(timed: bool, i: nat)  // about to lock for the i-th time
    | SpinLocked(timed: bool, i: nat)
    | SpinEmpty(timed: bool, i: nat)
    | Locking(timed: bool)           // done spinning
    | Locked(timed: bool, woken: bool)
    | Waiting(timed: bool)
    | Woken(timed: bool)             // signalled or woken spuriously, about to lock again
    | TimedOut                       // about to lock again
    | GivingUp                       // timed out, the lock held
    | Took(x: T)                     // has removed x, the lock still held

  datatype Event<T> =
    | CallPush(x: T)
    | CallPop(timed: bool)
    | Advance
    | Timeout
    | Spurious                       // a wait that ends without a signal
    | Signal(to: Option<Tid>)

  datatype Move<T> = Move(t: Tid, e: Event<T>)

  datatype Return<T> = Return(t: Tid, value: Option<T>)

  datatype State<T> = State(
    queue: seq<T>,
    owner: Option<Tid>,
    pc: map<Tid, Pc<T>>,
    ops: seq<Op<T>>,           // the operations on the list so far, in the order of the critical sections
    who: seq<Tid>,              // and who did them
    results: seq<Return<T>>    // what the calls of Pop have returned
  ) {
    function Goto(t: Tid, c: Pc<T>): State<T> { this.(pc := pc[t := c]) }

    function Acquire(t: Tid, c: Pc<T>): State<T> { this.(pc := pc[t := c], owner := Some(t)) }

    function Release(t: Tid, c: Pc<T>): State<T> { this.(pc := pc[t := c], owner := None) }

    function Took(t: Tid): State<T>
      requires queue != []
    {
      this.(pc := pc[t := Pc.Took(Oldest(queue))], queue := Popped(queue), ops := ops + [Op.Pop], who := who + [t])
    }

    function Returning(t: Tid, value: Option<T>): State<T> { this.(results := results + [Return(t, value)]) }
  }

  /** No other thread is about to push x, and the list does not hold it. */
  ghost predicate IsFree<T>(s: State<T>, x: T) {
    x !in s.queue && forall u | u in s.pc && (s.pc[u].PushLocking? || s.pc[u].PushLocked?) :: s.pc[u].x != x
  }

  /** A signal wakes a waiting thread if there is one. It may instead be consumed by a timed wait that
      has timed out and not returned yet, which POSIX allows. */
  ghost predicate CanSignal<T>(s: State<T>, to: Option<Tid>) {
    match to
    case None => forall u | u in s.pc :: !s.pc[u].Waiting?
    case Some(w) => w in s.pc && (s.pc[w].Waiting? || s.pc[w].TimedOut?)
  }

  ghost predicate Enabled<T>(s: State<T>, m: Move<T>) {
    && m.t in s.pc
    && match s.pc[m.t]
       case Idle => (m.e.CallPush? && IsFree(s, m.e.x)) || m.e.CallPop?
       case PushLocking(_) => m.e.Advance? && s.owner.None?
       case Spinning(_, _) => m.e.Advance? && s.owner.None?
       case Woken(_) => m.e.Advance? && s.owner.None?
       case TimedOut => m.e.Advance? && s.owner.None?
       case Locking(timed) => if m.e.Timeout? then timed else m.e.Advance? && s.owner.None?
       case Waiting(timed) => if m.e.Timeout? then timed else m.e.Spurious?
       case PushUnlocked => m.e.Signal? && CanSignal(s, m.e.to)
       case _ => m.e.Advance?
  }

  /** The i-th turn of the spinning loop, or what comes after it. */
  function Spin<T>(spins: nat, timed: bool, i: nat): Pc<T> {
    if i < spins then Spinning(timed, i) else Locking(timed)
  }

  function Signalled<T>(s: State<T>, to: Option<Tid>): State<T> {
    if to.None? || to.value !in s.pc then s
    else if s.pc[to.value].Waiting? then s.Goto(to.value, Woken(s.pc[to.value].timed))
    else s
  }

  ghost function Next<T>(spins: nat, s: State<T>, m: Move<T>): State<T>
    requires Enabled(s, m)
  {
    var t := m.t;
    match s.pc[t]
    case Idle => s.Goto(t, if m.e.CallPush? then PushLocking(m.e.x) else Spin(spins, m.e.timed, 0))
    case PushLocking(x) => s.Acquire(t, PushLocked(x))
    case PushLocked(x) =>
      s.(pc := s.pc[t := PushDone], queue := Pushed(s.queue, x), ops := s.ops + [Op.Push(x)], who := s.who + [t])
    case PushDone => s.Release(t, PushUnlocked)
    case PushUnlocked => Signalled(s.Goto(t, Idle), m.e.to)
    case Spinning(timed, i) => s.Acquire(t, SpinLocked(timed, i))
    case SpinLocked(timed, i) => if s.queue == [] then s.Goto(t, SpinEmpty(timed, i)) else s.Took(t)
    case SpinEmpty(timed, i) => s.Release(t, Spin(spins, timed, i + 1))
    case Locking(timed) =>
      if m.e.Timeout? then s.Goto(t, Idle).Returning(t, None) else s.Acquire(t, Locked(timed, false))
    case Locked(timed, _) => if s.queue == [] then s.Release(t, Waiting(timed)) else s.Took(t)
    case Waiting(timed) => s.Goto(t, if m.e.Timeout? then TimedOut else Woken(timed))
    case Woken(timed) => s.Acquire(t, Locked(timed, true))
    case TimedOut => s.Acquire(t, GivingUp)
    case GivingUp => s.Release(t, Idle).Returning(t, None)
    case Took(x) => s.Release(t, Idle).Returning(t, Some(x))
  }

  ghost predicate Initial<T>(s: State<T>) {
    && s == State([], None, s.pc, [], [], [])
    && forall t | t in s.pc :: s.pc[t].Idle?
  }

  ghost predicate StepAt<T>(spins: nat, run: seq<State<T>>, moves: seq<Move<T>>, i: nat)
    requires i < |moves| && i + 1 < |run|
  {
    Enabled(run[i], moves[i]) && run[i + 1] == Next(spins, run[i], moves[i])
  }

  ghost predicate IsRun<T>(spins: nat, run: seq<State<T>>, moves: seq<Move<T>>) {
    && |run| == |moves| + 1 && Initial(run[0])
    && forall i | 0 <= i < |moves| :: StepAt(spins, run, moves, i)
  }

  // Mutual exclusion.

  predicate Holds<T>(c: Pc<T>) {
    c.PushLocked? || c.PushDone? || c.SpinLocked? || c.SpinEmpty? || c.Locked? || c.GivingUp? || c.Took?
  }

  ghost predicate Exclusive<T>(s: State<T>) {
    forall t | t in s.pc :: Holds(s.pc[t]) <==> s.owner == Some(t)
  }

  lemma ExclusiveStep<T>(spins: nat, s: State<T>, m: Move<T>)
    requires Enabled(s, m) && Exclusive(s)
    ensures Exclusive(Next(spins, s, m))
  {
  }

  /** At most one thread is in a critical section, and only it changes the queue. */
  lemma {:induction false} MutualExclusion<T>(spins: nat, run: seq<State<T>>, moves: seq<Move<T>>, n: nat)
    requires IsRun(spins, run, moves) && n < |run|
    ensures Exclusive(run[n])
    ensures n < |moves| && run[n + 1].queue != run[n].queue ==> run[n].owner == Some(moves[n].t)
  {
    if n > 0 {
      MutualExclusion(spins, run, moves, n - 1);
      assert StepAt(spins, run, moves, n - 1);
      ExclusiveStep(spins, run[n - 1], moves[n - 1]);
    }
    if n < |moves| {
      assert StepAt(spins, run, moves, n);
    }
  }

  // No lost wakeup.

  /** The thread will still signal, or look at the queue after having been woken. */
  predicate Pending<T>(c: Pc<T>) {
    c.PushDone? || c.PushUnlocked? || c.Woken? || (c.Locked? && c.woken)
  }

  function PendingIn<T>(pc: map<Tid, Pc<T>>): set<Tid> { set t | t in pc && Pending(pc[t]) }

  ghost predicate SomeoneWaits<T>(s: State<T>) {
    exists w :: w in s.pc && s.pc[w].Waiting?
  }

  /** The step is a signal that goes to a wait that has already timed out. */
  ghost predicate Swallows<T>(s: State<T>, m: Move<T>) {
    m.e.Signal? && m.e.to.Some? && m.e.to.value in s.pc && s.pc[m.e.to.value].TimedOut?
  }

  /** How many signals have been swallowed since the queue was last empty or nobody waited. */
  ghost function SwallowedSince<T>(run: seq<State<T>>, moves: seq<Move<T>>, n: nat): nat
    requires n < |run| && n <= |moves|
  {
    if n == 0 || run[n].queue == [] || !SomeoneWaits(run[n]) then 0
    else SwallowedSince(run, moves, n - 1) + if Swallows(run[n - 1], moves[n - 1]) then 1 else 0
  }

  lemma PendingAfter<T>(pc: map<Tid, Pc<T>>, t: Tid, c: Pc<T>)
    requires t in pc
    ensures |PendingIn(pc[t := c])| == |PendingIn(pc)| - (if Pending(pc[t]) then 1 else 0) + if Pending(c) then 1 else 0
  {
    var others := PendingIn(pc) - {t};
    assert PendingIn(pc) == if Pending(pc[t]) then others + {t} else others;
    assert PendingIn(pc[t := c]) == if Pending(c) then others + {t} else others;
  }

  /** A step that leaves someone waiting beside an element: it keeps the balance of elements and wakeups
      on the way, but for a swallowed signal. */
  lemma WakeupsStep<T>(spins: nat, s: State<T>, m: Move<T>)
    requires Enabled(s, m) && SomeoneWaits(Next(spins, s, m)) && Next(spins, s, m).queue != []
    ensures SomeoneWaits(s)
    ensures var z := Next(spins, s, m);
      |z.queue| - |PendingIn(z.pc)| <= |s.queue| - |PendingIn(s.pc)| + if Swallows(s, m) then 1 else 0
  {
    var z := Next(spins, s, m);
    PendingAfter(s.pc, m.t, z.pc[m.t]);
    if s.pc[m.t].PushUnlocked? && m.e.to.Some? {
      var idle := s.pc[m.t := Idle];
      PendingAfter(idle, m.e.to.value, z.pc[m.e.to.value]);
    }
    var w :| w in z.pc && z.pc[w].Waiting?;
    assert s.pc[w].Waiting?;
  }

  /** As long as someone waits, every element in the queue is covered by a signal still to be sent, by a
      woken thread that has not looked yet, or by a signal that a timed-out wait has swallowed meanwhile. */
  lemma {:induction false} NoLostWakeup<T>(spins: nat, run: seq<State<T>>, moves: seq<Move<T>>, n: nat)
    requires IsRun(spins, run, moves) && n < |run|
    ensures SomeoneWaits(run[n]) ==> |run[n].queue| <= |PendingIn(run[n].pc)| + SwallowedSince(run, moves, n)
  {
    if n > 0 && SomeoneWaits(run[n]) && run[n].queue != [] {
      NoLostWakeup(spins, run, moves, n - 1);
      assert StepAt(spins, run, moves, n - 1);
      WakeupsStep(spins, run[n - 1], moves[n - 1]);
    }
  }

  ghost predicate LostWakeup<T>(s: State<T>) {
    SomeoneWaits(s) && s.queue != [] && PendingIn(s.pc) == {}
  }

  /** No wakeup is lost as long as no timed-out wait has swallowed a signal since the queue was last empty
      or nobody waited. */
  lemma LostOnlyIfSwallowed<T>(spins: nat, run: seq<State<T>>, moves: seq<Move<T>>, n: nat)
    requires IsRun(spins, run, moves) && n < |run| && LostWakeup(run[n])
    ensures SwallowedSince(run, moves, n) > 0
  {
    NoLostWakeup(spins, run, moves, n);
  }

  // Which programs never lose a wakeup.

  /** Which threads of a program call Push, Pop() and Pop(ms). */
  datatype Roles = Roles(push: set<Tid>, pop: set<Tid>, popMs: set<Tid>)

  ghost predicate CallsKeep<T>(roles: Roles, m: Move<T>) {
    && (m.e.CallPush? ==> m.t in roles.push)
    && (m.e.CallPop? ==> m.t in if m.e.timed then roles.popMs else roles.pop)
  }

  ghost predicate KeepsRoles<T>(roles: Roles, moves: seq<Move<T>>) {
    forall i | 0 <= i < |moves| :: CallsKeep(roles, moves[i])
  }

  ghost predicate Plays<T>(spins: nat, roles: Roles, run: seq<State<T>>, moves: seq<Move<T>>) {
    IsRun(spins, run, moves) && KeepsRoles(roles, moves)
  }

  /** A thread is somewhere in a call it makes. */
  ghost predicate InRole<T>(roles: Roles, t: Tid, c: Pc<T>) {
    match c
    case Idle => true
    case PushLocking(_) => t in roles.push
    case PushLocked(_) => t in roles.push
    case PushDone => t in roles.push
    case PushUnlocked => t in roles.push
    case Spinning(timed, _) => t in Poppers(roles, timed)
    case SpinLocked(timed, _) => t in Poppers(roles, timed)
    case SpinEmpty(timed, _) => t in Poppers(roles, timed)
    case Locking(timed) => t in Poppers(roles, timed)
    case Locked(timed, _) => t in Poppers(roles, timed)
    case Waiting(timed) => t in Poppers(roles, timed)
    case Woken(timed) => t in Poppers(roles, timed)
    case TimedOut => t in roles.popMs
    case GivingUp => t in roles.popMs
    case Took(_) => true
  }

  ghost function Poppers(roles: Roles, timed: bool): set<Tid> { if timed then roles.popMs else roles.pop }

  ghost predicate AllInRole<T>(roles: Roles, s: State<T>) {
    forall t | t in s.pc :: InRole(roles, t, s.pc[t])
  }

  lemma RolesStep<T>(spins: nat, roles: Roles, s: State<T>, m: Move<T>)
    requires Enabled(s, m) && AllInRole(roles, s) && CallsKeep(roles, m)
    ensures AllInRole(roles, Next(spins, s, m))
  {
    var z := Next(spins, s, m);
    assert InRole(roles, m.t, s.pc[m.t]);
    forall t | t in z.pc ensures InRole(roles, t, z.pc[t]) {
      assert InRole(roles, t, s.pc[t]);
    }
  }

  /** While one thread waits, a second can time out in Pop(ms) and a third can push. */
  ghost predicate ThreeMeet(roles: Roles) {
    exists w, t, p :: Meet(roles, w, t, p)
  }

  ghost predicate Meet(roles: Roles, w: Tid, t: Tid, p: Tid) {
    w in roles.pop + roles.popMs && t in roles.popMs && p in roles.push && w != t && t != p && p != w
  }

  /** A signal is swallowed while someone waits only where three threads meet. */
  lemma SwallowMeets<T>(spins: nat, roles: Roles, s: State<T>, m: Move<T>)
    requires Enabled(s, m) && AllInRole(roles, s) && Swallows(s, m) && SomeoneWaits(Next(spins, s, m))
    ensures ThreeMeet(roles)
  {
    var w :| w in s.pc && Next(spins, s, m).pc[w].Waiting?;
    assert InRole(roles, w, s.pc[w]) && InRole(roles, m.t, s.pc[m.t]);
    assert InRole(roles, m.e.to.value, s.pc[m.e.to.value]);
    assert Meet(roles, w, m.e.to.value, m.t);
  }

  lemma {:induction false} NothingSwallowed<T>(spins: nat, roles: Roles, run: seq<State<T>>, moves: seq<Move<T>>,
                                               n: nat)
    requires Plays(spins, roles, run, moves) && n < |run| && !ThreeMeet(roles)
    ensures AllInRole(roles, run[n]) && SwallowedSince(run, moves, n) == 0
  {
    if n > 0 {
      NothingSwallowed(spins, roles, run, moves, n - 1);
      assert StepAt(spins, run, moves, n - 1);
      var s, m := run[n - 1], moves[n - 1];
      RolesStep(spins, roles, s, m);
      if SomeoneWaits(run[n]) && Swallows(s, m) {
        SwallowMeets(spins, roles, s, m);
      }
    }
  }

  // With Pop(ms) a wakeup can be lost: a thread that has timed out returns without looking at the queue.

  lemma Extend<T>(spins: nat, roles: Roles, run: seq<State<T>>, moves: seq<Move<T>>, m: Move<T>)
    returns (longer: seq<State<T>>, more: seq<Move<T>>)
    requires Plays(spins, roles, run, moves) && Enabled(run[|moves|], m) && CallsKeep(roles, m)
    ensures Plays(spins, roles, longer, more) && |more| == |moves| + 1
    ensures longer[|more|] == Next(spins, run[|moves|], m)
  {
    longer, more := run + [Next(spins, run[|moves|], m)], moves + [m];
    forall i | 0 <= i < |more| ensures StepAt(spins, longer, more, i) {
      assert i < |moves| ==> StepAt(spins, run, moves, i);
    }
  }

  /** With an empty queue and a free lock, a thread spins until it gives up spinning. */
  lemma {:induction false} SpinOut<T>(spins: nat, roles: Roles, run: seq<State<T>>, moves: seq<Move<T>>,
                                      t: Tid, timed: bool, i: nat)
    returns (longer: seq<State<T>>, more: seq<Move<T>>)
    requires Plays(spins, roles, run, moves) && i <= spins
    requires var s := run[|moves|]; s.owner.None? && s.queue == [] && t in s.pc && s.pc[t] == Spin(spins, timed, i)
    ensures Plays(spins, roles, longer, more)
    ensures longer[|more|] == run[|moves|].Goto(t, Locking(timed))
    decreases spins - i
  {
    var s := run[|moves|];
    longer, more := run, moves;
    if i == spins {
      assert s == s.Goto(t, Locking(timed));
    } else {
      longer, more := Extend(spins, roles, longer, more, Move(t, Advance));
      longer, more := Extend(spins, roles, longer, more, Move(t, Advance));
      longer, more := Extend(spins, roles, longer, more, Move(t, Advance));
      assert longer[|more|] == s.Goto(t, Spin(spins, timed, i + 1));
      longer, more := SpinOut(spins, roles, longer, more, t, timed, i + 1);
      assert longer[|more|] == s.Goto(t, Locking(timed));
    }
  }

  /** An idle thread finds the queue empty and waits. */
  lemma GoWait<T>(spins: nat, roles: Roles, run: seq<State<T>>, moves: seq<Move<T>>, t: Tid, timed: bool)
    returns (longer: seq<State<T>>, more: seq<Move<T>>)
    requires Plays(spins, roles, run, moves) && t in Poppers(roles, timed)
    requires var s := run[|moves|]; s.owner.None? && s.queue == [] && t in s.pc && s.pc[t].Idle?
    ensures Plays(spins, roles, longer, more)
    ensures longer[|more|] == run[|moves|].Goto(t, Waiting(timed))
  {
    var s := run[|moves|];
    longer, more := Extend(spins, roles, run, moves, Move(t, CallPop(timed)));
    assert longer[|more|] == s.Goto(t, Spin(spins, timed, 0));
    longer, more := SpinOut(spins, roles, longer, more, t, timed, 0);
    assert longer[|more|] == s.Goto(t, Locking(timed));
    longer, more := Extend(spins, roles, longer, more, Move(t, Advance));
    longer, more := Extend(spins, roles, longer, more, Move(t, Advance));
    assert longer[|more|] == s.Goto(t, Waiting(timed));
  }

  /** An idle thread pushes x, with its signal going to another one. */
  lemma PushThrough<T>(spins: nat, roles: Roles, run: seq<State<T>>, moves: seq<Move<T>>,
                       t: Tid, x: T, to: Option<Tid>)
    returns (longer: seq<State<T>>, more: seq<Move<T>>)
    requires Plays(spins, roles, run, moves) && t in roles.push
    requires var s := run[|moves|]; s.owner.None? && t in s.pc && s.pc[t].Idle? && IsFree(s, x) && CanSignal(s, to)
    ensures Plays(spins, roles, longer, more)
    ensures var s := run[|moves|];
      longer[|more|] == Signalled(s.(queue := Pushed(s.queue, x), ops := s.ops + [Op.Push(x)], who := s.who + [t]), to)
  {
    var s := run[|moves|];
    var pushed := s.(queue := Pushed(s.queue, x), ops := s.ops + [Op.Push(x)], who := s.who + [t]);
    longer, more := Extend(spins, roles, run, moves, Move(t, CallPush(x)));
    longer, more := Extend(spins, roles, longer, more, Move(t, Advance));
    longer, more := Extend(spins, roles, longer, more, Move(t, Advance));
    longer, more := Extend(spins, roles, longer, more, Move(t, Advance));
    assert longer[|more|] == pushed.Goto(t, PushUnlocked);
    longer, more := Extend(spins, roles, longer, more, Move(t, Signal(to)));
    assert pushed.Goto(t, PushUnlocked).Goto(t, Idle) == pushed;
  }

  /** Thread w waits, and thread t has timed out in Pop(ms) but not returned yet. */
  lemma OneWaitsOneTimesOut<T>(spins: nat, roles: Roles, w: Tid, timed: bool, t: Tid, p: Tid)
    returns (run: seq<State<T>>, moves: seq<Move<T>>)
    requires w in Poppers(roles, timed) && Meet(roles, w, t, p)
    ensures Plays(spins, roles, run, moves)
    ensures run[|moves|] == State([], None, map[w := Waiting(timed), t := TimedOut, p := Idle], [], [], [])
  {
    var s := State([], None, map[w := Idle, t := Idle, p := Idle], [], [], []);
    run, moves := [s], [];
    run, moves := GoWait(spins, roles, run, moves, w, timed);
    run, moves := GoWait(spins, roles, run, moves, t, true);
    run, moves := Extend(spins, roles, run, moves, Move(t, Timeout));
    assert s.pc[w := Waiting(timed)][t := Waiting(true)][t := TimedOut]
      == map[w := Waiting(timed), t := TimedOut, p := Idle];
  }

  /** Then thread p pushes x and its signal goes to thread t, which returns null: x stays in the queue and
      thread w asleep. */
  lemma TimedPopLosesWakeup<T>(spins: nat, roles: Roles, w: Tid, timed: bool, t: Tid, p: Tid, x: T)
    returns (run: seq<State<T>>, moves: seq<Move<T>>)
    requires w in Poppers(roles, timed) && Meet(roles, w, t, p)
    ensures Plays(spins, roles, run, moves) && LostWakeup(run[|moves|])
    ensures run[|moves|].queue == [x] && run[|moves|].owner.None?
    ensures run[|moves|].pc == map[w := Waiting(timed), t := Idle, p := Idle]
    ensures run[|moves|].results == [Return(t, None)]
  {
    run, moves := OneWaitsOneTimesOut(spins, roles, w, timed, t, p);
    run, moves := PushThrough(spins, roles, run, moves, p, x, Some(t));
    run, moves := Extend(spins, roles, run, moves, Move(t, Advance));
    run, moves := Extend(spins, roles, run, moves, Move(t, Advance));
    var s := run[|moves|];
    assert s.pc == map[w := Waiting(timed), t := Idle, p := Idle];
    assert s.pc[w].Waiting? && PendingIn(s.pc) == {};
  }

  /** A program with these roles never loses a wakeup. */
  ghost predicate NeverLosesWakeup<T(!new)>(spins: nat, roles: Roles) {
    forall run: seq<State<T>>, moves: seq<Move<T>> | Plays(spins, roles, run, moves) ::
      !LostWakeup(run[|moves|])
  }

  /** No wakeup is ever lost exactly when no three different threads can meet, of which one pops, one pops
      with a timeout and one pushes. */
  lemma NoLostWakeupIffThreeNeverMeet<T(!new)>(spins: nat, roles: Roles, x: T)
    ensures NeverLosesWakeup<T>(spins, roles) <==> !ThreeMeet(roles)
  {
    if ThreeMeet(roles) {
      var w, t, p :| Meet(roles, w, t, p);
      var run, moves := TimedPopLosesWakeup(spins, roles, w, w !in roles.pop, t, p, x);
      assert !NeverLosesWakeup<T>(spins, roles);
    } else {
      forall run: seq<State<T>>, moves: seq<Move<T>> | Plays(spins, roles, run, moves)
        ensures !LostWakeup(run[|moves|])
      {
        NoLostWakeup(spins, run, moves, |moves|);
        NothingSwallowed(spins, roles, run, moves, |moves|);
      }
    }
  }

  /** So none is lost without Pop(ms), with one popping thread, or with two threads in all. */
  lemma SafePrograms(roles: Roles)
    requires roles.popMs == {} || |roles.pop + roles.popMs| <= 1 || |roles.push + roles.pop + roles.popMs| <= 2
    ensures !ThreeMeet(roles)
  {
    if ThreeMeet(roles) {
      var w, t, p :| Meet(roles, w, t, p);
      MeetingNeedsThree(roles, w, t, p);
    }
  }

  lemma MeetingNeedsThree(roles: Roles, w: Tid, t: Tid, p: Tid)
    requires Meet(roles, w, t, p)
    ensures roles.popMs != {} && |roles.pop + roles.popMs| >= 2 && |roles.push + roles.pop + roles.popMs| >= 3
  {
    HasAtLeast(roles.pop + roles.popMs, {w, t});
    HasAtLeast(roles.push + roles.pop + roles.popMs, {w, t, p});
  }

  lemma {:induction false} HasAtLeast<T>(all: set<T>, some: set<T>)
    requires some <= all
    ensures |some| <= |all|
  {
    if some != {} {
      var x :| x in some;
      HasAtLeast(all - {x}, some - {x});
    }
  }
}
