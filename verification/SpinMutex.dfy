/** The spin lock, as atomic steps of any number of threads that only unlock what they have locked. */
module SpinMutex {
  import opened Options

  type Tid = nat

  const OPEN := 0x01
  const CLOSED := 0x11
  const NO_OWNER: Tid := 0

  /** What a call that fails goes back to, or what comes next once the check is done. */
  datatype Pc =
    | Outside
    | LockCheckOpen                 // Lock(): the invariant that this thread is not the owner,
    | LockCheckClosed               //   which reads the word twice
    | LockCheckOwner                //   and then the owner
    | Trying(again: bool)           // compare and swap, over and over in Lock(), once in TryLock()
    | Acquired                      // asserts that the word is CLOSED
    | WritingOwner
    | Inside
    | UnlockCheckClosed             // Unlock(): asserts that this thread is the owner
    | UnlockCheckOwner
    | ClearingOwner
    | Opening                       // compare and swap, asserted to succeed
    | AskClosed(inside: bool)       // IsOwner(), called from inside or outside
    | AskOwner(inside: bool)
    | Failed                        // an assertion or invariant did not hold
    | Misled                        // IsOwner() told a thread outside that it is the owner

  datatype Event = CallLock | CallTryLock | CallUnlock | CallIsOwner | Advance

  datatype Move = Move(t: Tid, e: Event)

  datatype State = State(
    word: nat,
    owner: Tid,
    pc: map<Tid, Pc>,
    holder: Option<Tid>            // whose compare and swap closed the word
  ) {
    function Goto(t: Tid, c: Pc): State { this.(pc := pc[t := c]) }
  }

  predicate Enabled(s: State, m: Move) {
    && m.t in s.pc
    && match s.pc[m.t]
       case Outside => m.e.CallLock? || m.e.CallTryLock? || m.e.CallIsOwner?
       case Inside => m.e.CallUnlock? || m.e.CallIsOwner?
       case Failed => false
       case Misled => false
       case _ => m.e.Advance?
  }

  ghost function Next(s: State, m: Move): State
    requires Enabled(s, m)
  {
    var t := m.t;
    match s.pc[t]
    case Outside =>
      s.Goto(t, if m.e.CallLock? then LockCheckOpen else if m.e.CallTryLock? then Trying(false) else AskClosed(false))
    case LockCheckOpen => s.Goto(t, if s.word == OPEN then Trying(true) else LockCheckClosed)
    case LockCheckClosed => s.Goto(t, if s.word == CLOSED then LockCheckOwner else Trying(true))
    case LockCheckOwner => s.Goto(t, if s.owner == t then Failed else Trying(true))
    case Trying(again) =>
      if s.word == OPEN then State(CLOSED, s.owner, s.pc[t := Acquired], Some(t))
      else s.Goto(t, if again then Trying(true) else Outside)
    case Acquired => s.Goto(t, if s.word == CLOSED then WritingOwner else Failed)
    case WritingOwner => s.Goto(t, Inside).(owner := t)
    case Inside => s.Goto(t, if m.e.CallUnlock? then UnlockCheckClosed else AskClosed(true))
    case UnlockCheckClosed => s.Goto(t, if s.word == CLOSED then UnlockCheckOwner else Failed)
    case UnlockCheckOwner => s.Goto(t, if s.owner == t then ClearingOwner else Failed)
    case ClearingOwner => s.Goto(t, Opening).(owner := NO_OWNER)
    case Opening => if s.word == CLOSED then State(OPEN, s.owner, s.pc[t := Outside], None) else s.Goto(t, Failed)
    case AskClosed(inside) =>
      s.Goto(t, if s.word == CLOSED then AskOwner(inside) else if inside then Failed else Outside)
    case AskOwner(inside) =>
      var answer := s.owner == t;
      s.Goto(t, if inside then if answer then Inside else Failed else if answer then Misled else Outside)
  }

  /** The constructor opens the word and leaves the owner as it is. */
  ghost predicate Initial(s: State) {
    && s.word == OPEN && s.holder.None?
    && NO_OWNER !in s.pc
    && forall t | t in s.pc :: s.pc[t].Outside?
  }

  ghost predicate StepAt(run: seq<State>, moves: seq<Move>, i: nat)
    requires i < |moves| && i + 1 < |run|
  {
    Enabled(run[i], moves[i]) && run[i + 1] == Next(run[i], moves[i])
  }

  ghost predicate IsRun(run: seq<State>, moves: seq<Move>) {
    && |run| == |moves| + 1 && Initial(run[0])
    && forall i | 0 <= i < |moves| :: StepAt(run, moves, i)
  }

  /** The thread is between the compare and swap that closes the word and the one that opens it. */
  predicate Holds(c: Pc) {
    match c
    case AskClosed(inside) => inside
    case AskOwner(inside) => inside
    case _ => c.Acquired? || c.WritingOwner? || HasWritten(c) || c.Opening?
  }

  /** And it has written itself into the owner field. */
  predicate HasWritten(c: Pc) {
    match c
    case AskClosed(inside) => inside
    case AskOwner(inside) => inside
    case _ => c.Inside? || c.UnlockCheckClosed? || c.UnlockCheckOwner? || c.ClearingOwner?
  }

  /** The thread has seen that the word is not open and is about to compare the owner. */
  predicate SawClosed(c: Pc) { c.LockCheckClosed? || c.LockCheckOwner? || (c.AskOwner? && !c.inside) }

  ghost predicate Alone(s: State) {
    forall t, u | t in s.pc && u in s.pc :: t == u
  }

  /** The owner field as the constructor finds it names none of several threads. */
  ghost predicate StartsUnowned(s: State) { s.owner !in s.pc || Alone(s) }

  /** The word says whether someone holds the lock, and only one thread can. */
  ghost predicate Guarded(s: State) {
    && s.word == (if s.holder.None? then OPEN else CLOSED)
    && forall t | t in s.pc :: Holds(s.pc[t]) ==> s.holder == Some(t)
  }

  ghost predicate Sound(s: State) {
    && NO_OWNER !in s.pc
    && Guarded(s)
    && (s.holder.Some? ==> s.holder.value in s.pc)
    && forall t | t in s.pc :: SoundThread(s, t)
  }

  ghost predicate SoundThread(s: State, t: Tid)
    requires t in s.pc
  {
    && (Holds(s.pc[t]) <==> s.holder == Some(t))
    && (HasWritten(s.pc[t]) ==> s.owner == t)
    && (s.owner == t ==> HasWritten(s.pc[t]) || (Alone(s) && !SawClosed(s.pc[t])))
    && !s.pc[t].Failed? && !s.pc[t].Misled?
  }

  lemma OthersStaySound(s: State, m: Move, u: Tid)
    requires Enabled(s, m) && Sound(s) && u in s.pc && u != m.t
    ensures u in Next(s, m).pc && SoundThread(Next(s, m), u)
  {
    assert SoundThread(s, u) && SoundThread(s, m.t);
  }

  predicate IsLocking(c: Pc) {
    c.LockCheckOpen? || c.LockCheckClosed? || c.LockCheckOwner? || c.Trying? || c.Acquired? || c.WritingOwner?
  }

  lemma LockingStaysSound(s: State, m: Move)
    requires Enabled(s, m) && Sound(s) && IsLocking(s.pc[m.t])
    ensures m.t in Next(s, m).pc && SoundThread(Next(s, m), m.t)
  {
    assert SoundThread(s, m.t);
  }

  predicate IsUnlocking(c: Pc) { c.UnlockCheckClosed? || c.UnlockCheckOwner? || c.ClearingOwner? || c.Opening? }

  lemma UnlockingStaysSound(s: State, m: Move)
    requires Enabled(s, m) && Sound(s) && IsUnlocking(s.pc[m.t])
    ensures m.t in Next(s, m).pc && SoundThread(Next(s, m), m.t)
  {
    assert SoundThread(s, m.t);
  }

  lemma OtherwiseStaysSound(s: State, m: Move)
    requires Enabled(s, m) && Sound(s) && !IsLocking(s.pc[m.t]) && !IsUnlocking(s.pc[m.t])
    ensures m.t in Next(s, m).pc && SoundThread(Next(s, m), m.t)
  {
    assert SoundThread(s, m.t);
  }

  lemma SoundStep(s: State, m: Move)
    requires Enabled(s, m) && Sound(s)
    ensures Sound(Next(s, m))
  {
    GuardedStep(s, m);
    if IsLocking(s.pc[m.t]) {
      LockingStaysSound(s, m);
    } else if IsUnlocking(s.pc[m.t]) {
      UnlockingStaysSound(s, m);
    } else {
      OtherwiseStaysSound(s, m);
    }
    forall u | u in Next(s, m).pc && u != m.t ensures SoundThread(Next(s, m), u) {
      OthersStaySound(s, m, u);
    }
  }

  lemma {:induction false} StaysSound(run: seq<State>, moves: seq<Move>, n: nat)
    requires IsRun(run, moves) && n < |run| && StartsUnowned(run[0])
    ensures Sound(run[n])
  {
    if n > 0 {
      StaysSound(run, moves, n - 1);
      assert StepAt(run, moves, n - 1);
      SoundStep(run[n - 1], moves[n - 1]);
    }
  }

  /** Whatever the owner field starts as, one thread at a time holds the lock, and the word is OPEN or
      CLOSED and says whether one does. */
  lemma {:induction false} MutualExclusion(run: seq<State>, moves: seq<Move>, n: nat)
    requires IsRun(run, moves) && n < |run|
    ensures Guarded(run[n])
    ensures run[n].word == OPEN || run[n].word == CLOSED
    ensures forall t | t in run[n].pc && Holds(run[n].pc[t]) :: run[n].word == CLOSED
    ensures forall t, u | t in run[n].pc && u in run[n].pc && Holds(run[n].pc[t]) && Holds(run[n].pc[u]) :: t == u
  {
    if n > 0 {
      MutualExclusion(run, moves, n - 1);
      assert StepAt(run, moves, n - 1);
      GuardedStep(run[n - 1], moves[n - 1]);
    }
  }

  lemma GuardedStep(s: State, m: Move)
    requires Enabled(s, m) && Guarded(s)
    ensures Guarded(Next(s, m))
  {
  }

  /** When the owner field starts as none of several threads, a thread inside is the owner, no assertion of
      Lock() or Unlock() fails, and no thread outside is told that it is the owner. */
  lemma OwnerIsRight(run: seq<State>, moves: seq<Move>, n: nat, t: Tid)
    requires IsRun(run, moves) && n < |run| && StartsUnowned(run[0]) && t in run[n].pc
    ensures run[n].pc[t].Inside? ==> run[n].owner == t
    ensures !run[n].pc[t].Failed? && !run[n].pc[t].Misled?
  {
    StaysSound(run, moves, n);
    assert SoundThread(run[n], t);
  }

  lemma Extend(run: seq<State>, moves: seq<Move>, m: Move) returns (longer: seq<State>, more: seq<Move>)
    requires IsRun(run, moves) && Enabled(run[|moves|], m)
    ensures IsRun(longer, more) && |more| == |moves| + 1 && longer[0] == run[0]
    ensures longer[|more|] == Next(run[|moves|], m)
  {
    longer, more := run + [Next(run[|moves|], m)], moves + [m];
    forall i | 0 <= i < |more| ensures StepAt(longer, more, i) {
      assert i < |moves| ==> StepAt(run, moves, i);
    }
  }

  /** When the owner field happens to start as thread t and there is another thread u, the invariant of
      Lock() can fail: u closes the word, and t looks before u has written the owner. */
  lemma UnownedStartIsNeeded(s: State, t: Tid, u: Tid) returns (run: seq<State>, moves: seq<Move>)
    requires Initial(s) && t in s.pc && u in s.pc && t != u && s.owner == t
    ensures IsRun(run, moves) && run[0] == s && t in run[|moves|].pc && run[|moves|].pc[t].Failed?
  {
    run, moves := [s], [];
    run, moves := Extend(run, moves, Move(u, CallLock));
    run, moves := Extend(run, moves, Move(u, Advance));
    run, moves := Extend(run, moves, Move(u, Advance));
    run, moves := Extend(run, moves, Move(t, CallLock));
    run, moves := Extend(run, moves, Move(t, Advance));
    run, moves := Extend(run, moves, Move(t, Advance));
    run, moves := Extend(run, moves, Move(t, Advance));
  }

  /** No assertion can fail, and no thread be misled, exactly when the owner field starts as none of
      several threads. */
  ghost predicate NeverFails(s: State) {
    forall run: seq<State>, moves: seq<Move> | IsRun(run, moves) && run[0] == s ::
      forall t | t in run[|moves|].pc :: !run[|moves|].pc[t].Failed? && !run[|moves|].pc[t].Misled?
  }

  lemma NeverFailsIffStartsUnowned(s: State)
    requires Initial(s)
    ensures NeverFails(s) <==> StartsUnowned(s)
  {
    if StartsUnowned(s) {
      forall run: seq<State>, moves: seq<Move>, t | IsRun(run, moves) && run[0] == s && t in run[|moves|].pc
        ensures !run[|moves|].pc[t].Failed? && !run[|moves|].pc[t].Misled?
      {
        OwnerIsRight(run, moves, |moves|, t);
      }
    } else {
      var u :| u in s.pc && u != s.owner;
      var run, moves := UnownedStartIsNeeded(s, s.owner, u);
      assert !NeverFails(s);
    }
  }

  /** Every assertion and invariant is checked: a step fails exactly where one does not hold, and misleads
      exactly where the owner field names a thread outside. */
  lemma ChecksFailIff(s: State, m: Move)
    requires Enabled(s, m)
    ensures m.t in Next(s, m).pc
    ensures var c := s.pc[m.t];
      Next(s, m).pc[m.t].Failed? <==>
        || (c.LockCheckOwner? && s.owner == m.t)
        || ((c.Acquired? || c.UnlockCheckClosed? || c.Opening? || (c.AskClosed? && c.inside)) && s.word != CLOSED)
        || ((c.UnlockCheckOwner? || (c.AskOwner? && c.inside)) && s.owner != m.t)
    ensures Next(s, m).pc[m.t].Misled? <==> s.pc[m.t] == AskOwner(false) && s.owner == m.t
    ensures s.pc[m.t].LockCheckClosed? ==> (Next(s, m).pc[m.t].LockCheckOwner? <==> s.word == CLOSED)
  {
  }

  // What the calls promise.

  /** Thread t has the lock in some state after i, up to n. */
  ghost predicate HasHeld(run: seq<State>, t: Tid, i: nat, n: nat)
    requires n < |run|
  {
    exists k: nat :: i < k <= n && run[k].holder == Some(t)
  }

  predicate IsTryingLock(c: Pc) {
    c.LockCheckOpen? || c.LockCheckClosed? || c.LockCheckOwner? || (c.Trying? && c.again)
  }

  lemma {:induction false} LockGoesOn(run: seq<State>, moves: seq<Move>, i: nat, n: nat, t: Tid)
    requires IsRun(run, moves) && i < n < |run| && moves[i] == Move(t, CallLock)
    ensures t in run[n].pc
    ensures HasHeld(run, t, i, n) || IsTryingLock(run[n].pc[t]) || run[n].pc[t].Failed?
  {
    assert StepAt(run, moves, n - 1);
    if i + 1 < n {
      LockGoesOn(run, moves, i, n - 1, t);
      if k: nat :| i < k <= n - 1 && run[k].holder == Some(t) {
        assert k <= n;
      } else {
        assert run[n].pc[t].Acquired? ==> run[n].holder == Some(t);
      }
    }
  }

  /** Lock() returns with the lock: whenever the caller is outside again, it has held it since the call. */
  lemma LockReturnsWithLock(run: seq<State>, moves: seq<Move>, i: nat, n: nat, t: Tid)
    requires IsRun(run, moves) && i < n < |run| && moves[i] == Move(t, CallLock)
    requires t in run[n].pc && (run[n].pc[t].Outside? || run[n].pc[t].Inside?)
    ensures HasHeld(run, t, i, n)
  {
    LockGoesOn(run, moves, i, n, t);
  }

  /** The next move of thread t after move i is move k. */
  predicate IsNextMove(moves: seq<Move>, t: Tid, i: nat, k: nat) {
    i < k < |moves| && moves[k].t == t && forall j | i < j < k :: moves[j].t != t
  }

  lemma {:induction false} PcStays(run: seq<State>, moves: seq<Move>, t: Tid, i: nat, k: nat)
    requires IsRun(run, moves) && i < k < |run| && forall j | i < j < k :: moves[j].t != t
    requires t in run[i + 1].pc
    ensures t in run[k].pc && run[k].pc[t] == run[i + 1].pc[t]
  {
    if i + 1 < k {
      PcStays(run, moves, t, i, k - 1);
      assert StepAt(run, moves, k - 1);
    }
  }

  /** TryLock() looks once: it takes the lock exactly when it is open then, and returns without it otherwise. */
  lemma TryLockTakesIffOpen(run: seq<State>, moves: seq<Move>, i: nat, k: nat, t: Tid)
    requires IsRun(run, moves) && i < |moves| && moves[i] == Move(t, CallTryLock) && IsNextMove(moves, t, i, k)
    ensures run[k + 1].holder == Some(t) <==> run[k].holder.None?
    ensures run[k].holder.None? <==> run[k].word == OPEN
    ensures run[k].holder.Some? ==>
      t in run[k + 1].pc && run[k + 1].pc[t].Outside? && run[k + 1].holder == run[k].holder
  {
    assert StepAt(run, moves, i) && StepAt(run, moves, k);
    PcStays(run, moves, t, i, k);
    MutualExclusion(run, moves, k);
    OnlyHoldersHold(run, moves, k);
  }

  /** Whoever has the lock is somewhere between taking and opening it. */
  lemma {:induction false} OnlyHoldersHold(run: seq<State>, moves: seq<Move>, n: nat)
    requires IsRun(run, moves) && n < |run|
    ensures run[n].holder.Some? ==>
      var t := run[n].holder.value; t in run[n].pc && (Holds(run[n].pc[t]) || run[n].pc[t].Failed?)
  {
    if n > 0 {
      OnlyHoldersHold(run, moves, n - 1);
      MutualExclusion(run, moves, n - 1);
      assert StepAt(run, moves, n - 1);
    }
  }

  /** After Unlock() the lock is free: the caller has opened it before it is outside. */
  lemma UnlockReturnsWithout(run: seq<State>, moves: seq<Move>, n: nat, t: Tid)
    requires IsRun(run, moves) && n < |run| && t in run[n].pc && run[n].pc[t].Outside?
    ensures run[n].holder != Some(t)
  {
    OnlyHoldersHold(run, moves, n);
  }

  /** The lock, the word and the owner are the same after move k. */
  predicate KeepsLock(run: seq<State>, k: nat)
    requires k + 1 < |run|
  {
    run[k + 1].holder == run[k].holder && run[k + 1].word == run[k].word && run[k + 1].owner == run[k].owner
  }

  /** IsOwner(), called inside, looks twice, changes nothing and leaves the caller inside, as one that is told
      that it is the owner. */
  lemma IsOwnerInside(run: seq<State>, moves: seq<Move>, i: nat, j: nat, k: nat, t: Tid)
    requires IsRun(run, moves) && StartsUnowned(run[0]) && i < |moves| && moves[i] == Move(t, CallIsOwner)
    requires t in run[i].pc && run[i].pc[t].Inside? && IsNextMove(moves, t, i, j) && IsNextMove(moves, t, j, k)
    ensures KeepsLock(run, i) && KeepsLock(run, j) && KeepsLock(run, k)
    ensures run[k].owner == t && run[k].word == CLOSED
    ensures t in run[k + 1].pc && run[k + 1].pc[t].Inside?
  {
    assert StepAt(run, moves, i) && StepAt(run, moves, j) && StepAt(run, moves, k);
    PcStays(run, moves, t, i, j);
    StaysSound(run, moves, j);
    assert SoundThread(run[j], t);
    PcStays(run, moves, t, j, k);
    StaysSound(run, moves, k);
    assert SoundThread(run[k], t);
  }

  /** Called outside, it looks once or twice, changes nothing and leaves the caller outside, as one that is
      told that it is not the owner. */
  lemma IsOwnerOutside(run: seq<State>, moves: seq<Move>, i: nat, j: nat, t: Tid)
    requires IsRun(run, moves) && StartsUnowned(run[0]) && i < |moves| && moves[i] == Move(t, CallIsOwner)
    requires t in run[i].pc && run[i].pc[t].Outside? && IsNextMove(moves, t, i, j)
    ensures KeepsLock(run, i) && KeepsLock(run, j) && t in run[j + 1].pc
    ensures run[j].word != CLOSED ==> run[j + 1].pc[t].Outside?
    ensures run[j].word == CLOSED ==> !run[j + 1].pc[t].Outside? && !run[j + 1].pc[t].Inside?
    ensures forall k: nat | run[j].word == CLOSED && IsNextMove(moves, t, j, k) ::
      t in run[k + 1].pc && run[k + 1].pc[t].Outside? && KeepsLock(run, k) && run[k].owner != t
  {
    assert StepAt(run, moves, i) && StepAt(run, moves, j);
    PcStays(run, moves, t, i, j);
    forall k: nat | run[j].word == CLOSED && IsNextMove(moves, t, j, k)
      ensures t in run[k + 1].pc && run[k + 1].pc[t].Outside? && KeepsLock(run, k) && run[k].owner != t
    {
      assert StepAt(run, moves, k);
      PcStays(run, moves, t, j, k);
      StaysSound(run, moves, k + 1);
      assert SoundThread(run[k + 1], t);
    }
  }

  /** On its own, a thread that finds the lock open is inside after one call of Lock(), and outside with the
      lock open again after one of Unlock(). */
  lemma LockAlone(run: seq<State>, moves: seq<Move>, t: Tid) returns (longer: seq<State>, more: seq<Move>)
    requires IsRun(run, moves) && t in run[|moves|].pc && run[|moves|].pc[t].Outside? && run[|moves|].word == OPEN
    ensures IsRun(longer, more) && |more| == |moves| + 5 && longer[0] == run[0]
    ensures var z := longer[|more|];
      && z.pc == run[|moves|].pc[t := Inside] && z.holder == Some(t) && z.word == CLOSED && z.owner == t
  {
    longer, more := Extend(run, moves, Move(t, CallLock));
    longer, more := Extend(longer, more, Move(t, Advance));
    longer, more := Extend(longer, more, Move(t, Advance));
    longer, more := Extend(longer, more, Move(t, Advance));
    longer, more := Extend(longer, more, Move(t, Advance));
  }

  lemma UnlockAlone(run: seq<State>, moves: seq<Move>, t: Tid) returns (longer: seq<State>, more: seq<Move>)
    requires IsRun(run, moves) && t in run[|moves|].pc && run[|moves|].pc[t].Inside? && run[|moves|].owner == t
    ensures IsRun(longer, more) && |more| == |moves| + 5 && longer[0] == run[0]
    ensures var z := longer[|more|];
      && z.pc == run[|moves|].pc[t := Outside] && z.holder.None? && z.word == OPEN && z.owner == NO_OWNER
  {
    MutualExclusion(run, moves, |moves|);
    longer, more := Extend(run, moves, Move(t, CallUnlock));
    longer, more := Extend(longer, more, Move(t, Advance));
    longer, more := Extend(longer, more, Move(t, Advance));
    longer, more := Extend(longer, more, Move(t, Advance));
    longer, more := Extend(longer, more, Move(t, Advance));
  }
}
