/** The life of any number of threads with their pools: started, cancelled at any point where
    cancellation is enabled, cleaned up by themselves or destroyed by others. A step frees at most one
    buffer, so that the clean-ups of different threads interleave. */
module ThreadLifecycle {
  import opened Options
  import opened Sequences

  type Tid = nat
  type Address = nat
  type PoolId = nat

  /** Where the function of a thread is. */
  datatype Pc =
    | NotStarted
    | Starting         // cancellation is still enabled
    | Initializing     // cancellation is disabled
    | Initialized
    | Running          // ThreadMain, cancellation enabled
    | Collecting
    | Leaving          // cancellation is disabled again
    | Cleaning         // the thread no longer points to the pool
    | Cleaned
    | Ending           // cancellation enabled
    | Ended            // by itself or by cancellation

  /** A call of Destroy that has found a pool and has freed the first k of its buffers. */
  datatype Call = Call(p: PoolId, k: nat)

  /** pool and inst are the thread-local variables, ctx the pool that the thread object points to, and calls
      the calls of Destroy under way. */
  datatype Thread = Thread(pc: Pc, pool: Option<PoolId>, inst: bool, ctx: Option<PoolId>, calls: seq<Call>)

  /** The buffers in a pool, of which the first `gone` have been freed by a clean-up or collection under
      way. `user` is the thread that still refers to the pool; it has no effect. */
  datatype Pool = Pool(items: seq<Address>, gone: nat, user: Option<Tid>)

  /** Where a buffer that is not freed is: with the program, or in a pool. */
  datatype Place = Held | Pooled(p: PoolId)

  datatype State = State(
    threads: map<Tid, Thread>,
    pools: map<PoolId, Pool>,          // those allocated and not deleted
    buffers: map<Address, Place>,      // those allocated and not freed
    fault: bool                        // something was freed twice, or an invariant failed
  ) {
    function SetThread(t: Tid, th: Thread): State { this.(threads := threads[t := th]) }

    function SetPool(p: PoolId, pool: Pool): State { this.(pools := pools[p := pool]) }

    function Fault(): State { this.(fault := true) }

    /** Freeing a buffer of this pool that is freed already, or not in the pool any more, is a fault. */
    function Free(a: Address, p: PoolId): State {
      if a in buffers && buffers[a] == Pooled(p) then this.(buffers := buffers - {a}) else Fault()
    }

    /** And so is deleting a pool that is deleted already, or is another thread's. */
    function Delete(p: PoolId, t: Tid): State {
      if p in pools && pools[p].user == Some(t) then this.(pools := pools - {p}) else Fault()
    }
  }

  datatype Event =
    | Start
    | Advance(next: PoolId)           // the next step of the thread; next is the pool allocated if one is
    | Collect
    | Allocate(a: Address)
    | Put(a: Address, k: nat)          // a buffer is returned to the pool, at place k
    | Take(k: nat)                     // and taken out of it again
    | Cancel
    | Destroy                          // called by another thread
    | DestroyStep(j: nat)              // the next step of the j-th call of it

  datatype Move = Move(t: Tid, e: Event)

  predicate IsOver(pc: Pc) { pc.NotStarted? || pc.Ended? }

  /** Cancellation acts only where it is enabled, and a collection does not pass a cancellation point. A
      thread is not started while it is being destroyed, nor destroyed while it is being started with a pool
      left over. */
  predicate Enabled(s: State, m: Move) {
    && m.t in s.threads
    && var th := s.threads[m.t];
       match m.e
       case Start => IsOver(th.pc) && th.calls == []
       case Advance(next) => !IsOver(th.pc) && next !in s.pools
       case Collect => th.pc.Running?
       case Allocate(a) => th.pc.Running? && a !in s.buffers
       case Put(a, k) =>
         th.pc.Running? && a in s.buffers && s.buffers[a].Held?
         && th.pool.Some? && th.pool.value in s.pools && k <= |s.pools[th.pool.value].items|
       case Take(k) =>
         th.pc.Running? && th.pool.Some? && th.pool.value in s.pools && k < |s.pools[th.pool.value].items|
       case Cancel => th.pc.Starting? || th.pc.Running? || th.pc.Ending?
       case Destroy => th.ctx.None? || !(th.pc.Starting? || th.pc.Initializing?)
       case DestroyStep(j) => j < |th.calls|
  }

  /** The pool that init finds the thread pointing to is no longer pointed to. */
  function Abandoned(s: State, ctx: Option<PoolId>): State {
    if ctx.Some? && ctx.value in s.pools then s.SetPool(ctx.value, s.pools[ctx.value].(user := None)) else s
  }

  /** Frees the next buffer of a pool. */
  function FreeNext(s: State, p: PoolId): State
    requires p in s.pools && s.pools[p].gone < |s.pools[p].items|
  {
    var pool := s.pools[p];
    s.Free(pool.items[pool.gone], p).SetPool(p, pool.(gone := pool.gone + 1))
  }

  predicate HasMore(s: State, p: PoolId) {
    p in s.pools && s.pools[p].gone < |s.pools[p].items|
  }

  function Advanced(s: State, t: Tid, next: PoolId): State
    requires t in s.threads
  {
    var th := s.threads[t];
    match th.pc
    case Starting => s.SetThread(t, th.(pc := Initializing))
    case Initializing =>
      if th.pool.Some? || th.inst then s.Fault()
      else
        Abandoned(s, th.ctx).SetPool(next, Pool([], 0, Some(t)))
          .SetThread(t, th.(pc := Initialized, pool := Some(next), inst := true, ctx := Some(next)))
    case Initialized => s.SetThread(t, th.(pc := Running))
    case Running => s.SetThread(t, th.(pc := Leaving))
    case Collecting =>
      if th.pool.None? || !th.inst then s.Fault()
      else if HasMore(s, th.pool.value) then FreeNext(s, th.pool.value)
      else if th.pool.value !in s.pools then s.Fault()
      else s.SetPool(th.pool.value, s.pools[th.pool.value].(items := [], gone := 0)).SetThread(t, th.(pc := Running))
    case Leaving => s.SetThread(t, th.(pc := Cleaning, inst := false, ctx := None))
    case Cleaning =>
      if th.pool.None? then s.Fault()
      else if HasMore(s, th.pool.value) then FreeNext(s, th.pool.value)
      else s.Delete(th.pool.value, t).SetThread(t, th.(pc := Cleaned))
    case Cleaned => s.SetThread(t, th.(pc := Ending, pool := None))
    case Ending => s.SetThread(t, th.(pc := Ended))
    case _ => s
  }

  /** The next step of a call of Destroy: to free a buffer, or at the end the pool. To find the pool gone, or
      a buffer freed that this call has not freed, is a fault. */
  function Destroyed(s: State, t: Tid, j: nat): State
    requires t in s.threads && j < |s.threads[t].calls|
  {
    var th := s.threads[t];
    var c := th.calls[j];
    if c.p !in s.pools || s.pools[c.p].user != Some(t) then s.Fault()
    else if c.k >= |s.pools[c.p].items| then
      s.Delete(c.p, t).SetThread(t, th.(ctx := None, calls := th.calls[..j] + th.calls[j + 1..]))
    else if c.k != s.pools[c.p].gone || !HasMore(s, c.p) then s.Fault()
    else FreeNext(s, c.p).SetThread(t, th.(calls := th.calls[j := Call(c.p, c.k + 1)]))
  }

  function PutAt(pool: Pool, a: Address, k: nat): Pool
    requires k <= |pool.items|
  {
    pool.(items := pool.items[..k] + [a] + pool.items[k..])
  }

  function TakeAt(pool: Pool, k: nat): Pool
    requires k < |pool.items|
  {
    pool.(items := pool.items[..k] + pool.items[k + 1..])
  }

  function Next(s: State, m: Move): State
    requires Enabled(s, m)
  {
    var t := m.t;
    var th := s.threads[t];
    match m.e
    case Start => s.SetThread(t, Thread(Starting, None, false, th.ctx, th.calls))
    case Advance(next) => Advanced(s, t, next)
    case Collect => s.SetThread(t, th.(pc := Collecting))
    case Allocate(a) => s.(buffers := s.buffers[a := Held])
    case Put(a, k) =>
      s.SetPool(th.pool.value, PutAt(s.pools[th.pool.value], a, k)).(buffers := s.buffers[a := Pooled(th.pool.value)])
    case Take(k) =>
      var pool := s.pools[th.pool.value];
      s.SetPool(th.pool.value, TakeAt(pool, k)).(buffers := s.buffers[pool.items[k] := Held])
    case Cancel => s.SetThread(t, Thread(Ended, None, false, th.ctx, th.calls))
    case Destroy => if th.ctx.None? then s else s.SetThread(t, th.(calls := th.calls + [Call(th.ctx.value, 0)]))
    case DestroyStep(j) => Destroyed(s, t, j)
  }

  ghost predicate Initial(s: State) {
    && s.pools == map[] && s.buffers == map[] && !s.fault
    && forall t | t in s.threads :: s.threads[t] == Thread(NotStarted, None, false, None, [])
  }

  ghost predicate StepAt(run: seq<State>, moves: seq<Move>, n: nat)
    requires n < |moves| && n + 1 < |run|
  {
    Enabled(run[n], moves[n]) && run[n + 1] == Next(run[n], moves[n])
  }

  ghost predicate IsRun(run: seq<State>, moves: seq<Move>) {
    && |run| == |moves| + 1 && Initial(run[0])
    && forall n | 0 <= n < |moves| :: StepAt(run, moves, n)
  }

  // What holds in every state of every run.

  /** The pool that a thread is still going to release, or that Destroy would. */
  function Owns(th: Thread): Option<PoolId> { if th.pc.Cleaning? then th.pool else th.ctx }

  ghost predicate ThreadIsSound(th: Thread) {
    && (th.calls != [] ==> |th.calls| == 1 && IsOver(th.pc) && th.ctx == Some(th.calls[0].p))
    && match th.pc
       case Initialized => th.pool.Some? && th.ctx == th.pool && th.inst
       case Running => th.pool.Some? && th.ctx == th.pool && th.inst
       case Collecting => th.pool.Some? && th.ctx == th.pool && th.inst
       case Leaving => th.pool.Some? && th.ctx == th.pool && th.inst
       case Cleaning => th.pool.Some? && th.ctx.None? && !th.inst
       case Cleaned => th.ctx.None? && !th.inst
       case Ending => th.pool.None? && th.ctx.None? && !th.inst
       case _ => th.pool.None? && !th.inst
  }

  /** Every thread's pool exists, and belongs to it alone. */
  ghost predicate OwnsItsPool(s: State, t: Tid)
    requires t in s.threads
  {
    var p := Owns(s.threads[t]);
    p.Some? ==>
      && p.value in s.pools && s.pools[p.value].user == Some(t)
      && (s.threads[t].calls != [] ==> s.threads[t].calls[0].k == s.pools[p.value].gone)
  }

  ghost predicate HasItsOwner(s: State, p: PoolId)
    requires p in s.pools
  {
    var pool := s.pools[p];
    && (pool.user.Some? ==> pool.user.value in s.threads && Owns(s.threads[pool.user.value]) == Some(p))
    && (pool.gone > 0 ==>
          && pool.user.Some? && pool.user.value in s.threads
          && var th := s.threads[pool.user.value]; th.pc.Collecting? || th.pc.Cleaning? || th.calls != [])
  }

  /** The buffers of a pool that are not freed yet. */
  function Rest(pool: Pool): seq<Address> { if pool.gone <= |pool.items| then pool.items[pool.gone..] else [] }

  /** They are exactly those placed in it, each there once. */
  ghost predicate HoldsItsBuffers(s: State, p: PoolId)
    requires p in s.pools
  {
    && s.pools[p].gone <= |s.pools[p].items|
    && Distinct(Rest(s.pools[p]))
    && forall a | a in Rest(s.pools[p]) :: a in s.buffers && s.buffers[a] == Pooled(p)
  }

  ghost predicate IsInItsPool(s: State, a: Address)
    requires a in s.buffers
  {
    match s.buffers[a]
    case Held => true
    case Pooled(p) => p in s.pools && a in Rest(s.pools[p])
  }

  ghost predicate PoolsAreOwned(s: State) {
    && !s.fault
    && (forall t | t in s.threads :: ThreadIsSound(s.threads[t]) && OwnsItsPool(s, t))
    && (forall p | p in s.pools :: HasItsOwner(s, p))
  }

  ghost predicate BuffersArePlaced(s: State) {
    && (forall p | p in s.pools :: HoldsItsBuffers(s, p))
    && (forall a | a in s.buffers :: IsInItsPool(s, a))
  }

  /** A call of Destroy that finds a pool while another call on the same thread is under way, or while the
      thread still runs. */
  predicate Overlaps(s: State, m: Move) {
    && m.e.Destroy? && m.t in s.threads
    && var th := s.threads[m.t]; th.ctx.Some? && (th.calls != [] || !IsOver(th.pc))
  }

  /** Another state has the same threads, but for this one. */
  ghost predicate OnlyMoves(s: State, z: State, t: Tid) {
    z.threads.Keys == s.threads.Keys && forall u | u in s.threads && u != t :: z.threads[u] == s.threads[u]
  }

  lemma FreeingMovesOne(s: State, t: Tid, next: PoolId)
    requires t in s.threads && (s.threads[t].pc.Collecting? || s.threads[t].pc.Cleaning?)
    ensures OnlyMoves(s, Advanced(s, t, next), t)
  {
    var th := s.threads[t];
    if th.pool.Some? && HasMore(s, th.pool.value) {
      assert FreeNext(s, th.pool.value).threads == s.threads;
    }
  }

  lemma AdvanceMovesOne(s: State, t: Tid, next: PoolId)
    requires t in s.threads
    ensures OnlyMoves(s, Advanced(s, t, next), t)
  {
    if s.threads[t].pc.Collecting? || s.threads[t].pc.Cleaning? {
      FreeingMovesOne(s, t, next);
    }
  }

  /** A step moves one thread. */
  lemma OneThreadMoves(s: State, m: Move)
    requires Enabled(s, m)
    ensures OnlyMoves(s, Next(s, m), m.t)
  {
    match m.e
    case Advance(next) => AdvanceMovesOne(s, m.t, next);
    case _ =>
  }

  lemma AdvancedIsSound(s: State, t: Tid, next: PoolId)
    requires t in s.threads && ThreadIsSound(s.threads[t]) && !IsOver(s.threads[t].pc)
    ensures t in Advanced(s, t, next).threads && ThreadIsSound(Advanced(s, t, next).threads[t])
  {
  }

  lemma MovedThreadIsSound(s: State, m: Move)
    requires Enabled(s, m) && !Overlaps(s, m) && ThreadIsSound(s.threads[m.t])
    ensures m.t in Next(s, m).threads && ThreadIsSound(Next(s, m).threads[m.t])
  {
    match m.e
    case Advance(next) => AdvancedIsSound(s, m.t, next);
    case _ =>
  }

  lemma ThreadsStaySound(s: State, m: Move)
    requires Enabled(s, m) && !Overlaps(s, m) && PoolsAreOwned(s)
    ensures forall t | t in Next(s, m).threads :: t in s.threads && ThreadIsSound(Next(s, m).threads[t])
  {
    OneThreadMoves(s, m);
    MovedThreadIsSound(s, m);
  }

  lemma FreeingIsNoFault(s: State, p: PoolId)
    requires HasMore(s, p) && HoldsItsBuffers(s, p) && !s.fault
    ensures !FreeNext(s, p).fault
  {
    assert s.pools[p].items[s.pools[p].gone] == Rest(s.pools[p])[0];
  }

  lemma AdvanceIsNoFault(s: State, t: Tid, next: PoolId)
    requires t in s.threads && ThreadIsSound(s.threads[t]) && OwnsItsPool(s, t) && !s.fault
    requires forall p | p in s.pools :: HoldsItsBuffers(s, p)
    ensures !Advanced(s, t, next).fault
  {
    var th := s.threads[t];
    if (th.pc.Collecting? || th.pc.Cleaning?) && HasMore(s, th.pool.value) {
      FreeingIsNoFault(s, th.pool.value);
    }
  }

  lemma NoFaultStep(s: State, m: Move)
    requires Enabled(s, m) && PoolsAreOwned(s) && BuffersArePlaced(s)
    ensures !Next(s, m).fault
  {
    var th := s.threads[m.t];
    assert ThreadIsSound(th) && OwnsItsPool(s, m.t);
    match m.e
    case Advance(next) => AdvanceIsNoFault(s, m.t, next);
    case DestroyStep(_) =>
      if HasMore(s, th.ctx.value) {
        FreeingIsNoFault(s, th.ctx.value);
      }
    case _ =>
  }

  lemma OthersOwnTheirs(s: State, m: Move, t: Tid)
    requires Enabled(s, m) && t in s.threads && t != m.t && OwnsItsPool(s, t) && OwnsItsPool(s, m.t)
    requires !Overlaps(s, m) && ThreadIsSound(s.threads[m.t])
    ensures t in Next(s, m).threads && OwnsItsPool(Next(s, m), t)
  {
    OneThreadMoves(s, m);
    match m.e
    case Advance(next) => AdvanceLeavesOthers(s, m.t, next, t);
    case _ =>
  }

  lemma AdvanceLeavesOthers(s: State, u: Tid, next: PoolId, t: Tid)
    requires u in s.threads && t in s.threads && t != u && OwnsItsPool(s, t) && OwnsItsPool(s, u) && next !in s.pools
    requires ThreadIsSound(s.threads[u]) && !IsOver(s.threads[u].pc)
    ensures t in Advanced(s, u, next).threads && OwnsItsPool(Advanced(s, u, next), t)
  {
    AdvanceMovesOne(s, u, next);
  }

  lemma AdvancedOwns(s: State, t: Tid, next: PoolId)
    requires t in s.threads && OwnsItsPool(s, t) && ThreadIsSound(s.threads[t]) && !IsOver(s.threads[t].pc)
    ensures t in Advanced(s, t, next).threads && OwnsItsPool(Advanced(s, t, next), t)
  {
  }

  lemma OwnsStep(s: State, m: Move, t: Tid)
    requires Enabled(s, m) && !Overlaps(s, m) && t in s.threads && OwnsItsPool(s, t) && OwnsItsPool(s, m.t)
    requires ThreadIsSound(s.threads[m.t])
    requires forall p | p in s.pools :: HasItsOwner(s, p)
    ensures t in Next(s, m).threads && OwnsItsPool(Next(s, m), t)
  {
    if t != m.t {
      OthersOwnTheirs(s, m, t);
    } else {
      match m.e
      case Advance(next) => AdvancedOwns(s, t, next);
      case _ =>
    }
  }

  lemma InitKeepsOwner(s: State, t: Tid, next: PoolId, p: PoolId)
    requires t in s.threads && OwnsItsPool(s, t) && ThreadIsSound(s.threads[t]) && s.threads[t].pc.Initializing?
    requires p in Advanced(s, t, next).pools && next !in s.pools && (p in s.pools ==> HasItsOwner(s, p))
    ensures HasItsOwner(Advanced(s, t, next), p)
  {
    AdvanceMovesOne(s, t, next);
  }

  lemma FreeingKeepsOwner(s: State, t: Tid, next: PoolId, p: PoolId)
    requires t in s.threads && OwnsItsPool(s, t) && ThreadIsSound(s.threads[t])
    requires s.threads[t].pc.Collecting? || s.threads[t].pc.Cleaning?
    requires p in s.pools && p in Advanced(s, t, next).pools && HasItsOwner(s, p)
    ensures HasItsOwner(Advanced(s, t, next), p)
  {
    AdvanceMovesOne(s, t, next);
  }

  lemma AdvanceKeepsOwner(s: State, t: Tid, next: PoolId, p: PoolId)
    requires t in s.threads && OwnsItsPool(s, t) && ThreadIsSound(s.threads[t]) && !IsOver(s.threads[t].pc)
    requires p in Advanced(s, t, next).pools && next !in s.pools && (p in s.pools ==> HasItsOwner(s, p))
    ensures HasItsOwner(Advanced(s, t, next), p)
  {
    var pc := s.threads[t].pc;
    if pc.Initializing? {
      InitKeepsOwner(s, t, next, p);
    } else if pc.Collecting? || pc.Cleaning? {
      FreeingKeepsOwner(s, t, next, p);
    } else {
      AdvanceMovesOne(s, t, next);
    }
  }

  lemma OwnedStep(s: State, m: Move, p: PoolId)
    requires Enabled(s, m) && !Overlaps(s, m) && p in Next(s, m).pools && OwnsItsPool(s, m.t)
      && ThreadIsSound(s.threads[m.t])
    requires p in s.pools ==> HasItsOwner(s, p)
    ensures HasItsOwner(Next(s, m), p)
  {
    match m.e
    case Advance(next) => AdvanceKeepsOwner(s, m.t, next, p);
    case DestroyStep(j) => DestroyKeepsOwner(s, m.t, j, p);
    case _ => OtherwiseKeepsOwner(s, m, p);
  }

  lemma OtherwiseKeepsOwner(s: State, m: Move, p: PoolId)
    requires Enabled(s, m) && !Overlaps(s, m) && !m.e.Advance? && !m.e.DestroyStep?
    requires p in s.pools && HasItsOwner(s, p) && OwnsItsPool(s, m.t) && ThreadIsSound(s.threads[m.t])
    ensures p in Next(s, m).pools && HasItsOwner(Next(s, m), p)
  {
    OneThreadMoves(s, m);
  }

  lemma DestroyKeepsOwner(s: State, t: Tid, j: nat, p: PoolId)
    requires t in s.threads && j < |s.threads[t].calls| && OwnsItsPool(s, t) && ThreadIsSound(s.threads[t])
    requires p in Destroyed(s, t, j).pools && (p in s.pools ==> HasItsOwner(s, p))
    ensures HasItsOwner(Destroyed(s, t, j), p)
  {
  }

  lemma OwnersStep(s: State, m: Move)
    requires Enabled(s, m) && !Overlaps(s, m) && PoolsAreOwned(s) && BuffersArePlaced(s)
    ensures PoolsAreOwned(Next(s, m))
  {
    ThreadsStaySound(s, m);
    NoFaultStep(s, m);
    forall t | t in Next(s, m).threads ensures OwnsItsPool(Next(s, m), t) {
      OwnsStep(s, m, t);
    }
    forall p | p in Next(s, m).pools ensures HasItsOwner(Next(s, m), p) {
      OwnedStep(s, m, p);
    }
  }

  lemma RestAfterFree(pool: Pool)
    requires pool.gone < |pool.items| && Distinct(Rest(pool))
    ensures var next := Rest(pool.(gone := pool.gone + 1));
      Distinct(next) && forall b :: b in next <==> b in Rest(pool) && b != pool.items[pool.gone]
    ensures pool.items[pool.gone] in Rest(pool)
  {
    var next := Rest(pool.(gone := pool.gone + 1));
    assert Rest(pool) == [pool.items[pool.gone]] + next;
    assert forall i | 0 <= i < |next| :: Rest(pool)[i + 1] == next[i];
  }

  lemma RestAfterPut(pool: Pool, a: Address, k: nat)
    requires pool.gone == 0 && k <= |pool.items| && Distinct(Rest(pool)) && a !in Rest(pool)
    ensures var next := Rest(PutAt(pool, a, k));
      Distinct(next) && forall b :: b in next <==> b in Rest(pool) || b == a
  {
    assert Rest(pool) == pool.items;
    InsertedDistinct(pool.items, a, k);
  }

  lemma InsertedDistinct<T>(s: seq<T>, x: T, k: nat)
    requires k <= |s| && Distinct(s) && x !in s
    ensures var next := s[..k] + [x] + s[k..]; Distinct(next) && forall y :: y in next <==> y in s || y == x
  {
    var next := s[..k] + [x] + s[k..];
    assert s == s[..k] + s[k..];
    assert forall i | 0 <= i < |next| :: i != k ==> next[i] == s[if i < k then i else i - 1];
  }

  lemma RestAfterTake(pool: Pool, k: nat)
    requires pool.gone == 0 && k < |pool.items| && Distinct(Rest(pool))
    ensures var next := Rest(TakeAt(pool, k));
      Distinct(next) && forall b :: b in next <==> b in Rest(pool) && b != pool.items[k]
    ensures pool.items[k] in Rest(pool)
  {
    var next := Rest(TakeAt(pool, k));
    assert Rest(pool) == pool.items && next == pool.items[..k] + pool.items[k + 1..];
    assert pool.items == pool.items[..k] + [pool.items[k]] + pool.items[k + 1..];
    assert forall i | 0 <= i < |next| :: next[i] == pool.items[if i < k then i else i + 1];
  }

  /** One pool gains a buffer, or loses one to the program or for good, and nothing else changes. */
  lemma OneBufferPlaced(s: State, z: State, p: PoolId, a: Address)
    requires BuffersArePlaced(s) && p in s.pools && z.pools.Keys == s.pools.Keys
    requires forall q | q in s.pools && q != p :: z.pools[q] == s.pools[q]
    requires z.pools[p].gone <= |z.pools[p].items| && Distinct(Rest(z.pools[p]))
    requires forall b :: b in Rest(z.pools[p]) && b != a <==> b in Rest(s.pools[p]) && b != a
    requires forall b | b != a ::
      (b in z.buffers <==> b in s.buffers) && (b in s.buffers ==> z.buffers[b] == s.buffers[b])
    requires a in s.buffers && (s.buffers[a].Held? || s.buffers[a] == Pooled(p))
    requires if a in Rest(z.pools[p]) then a in z.buffers && z.buffers[a] == Pooled(p)
             else a in z.buffers ==> z.buffers[a].Held?
    ensures BuffersArePlaced(z)
  {
    forall q | q in z.pools ensures HoldsItsBuffers(z, q) {
      assert HoldsItsBuffers(s, q);
    }
    forall b | b in z.buffers ensures IsInItsPool(z, b) {
      assert b in s.buffers && IsInItsPool(s, b);
    }
  }

  lemma FreePlaced(s: State, p: PoolId)
    requires BuffersArePlaced(s) && HasMore(s, p)
    ensures BuffersArePlaced(FreeNext(s, p))
  {
    assert HoldsItsBuffers(s, p);
    RestAfterFree(s.pools[p]);
    OneBufferPlaced(s, FreeNext(s, p), p, s.pools[p].items[s.pools[p].gone]);
  }

  lemma PutPlaced(s: State, p: PoolId, a: Address, k: nat)
    requires BuffersArePlaced(s) && p in s.pools && s.pools[p].gone == 0
    requires k <= |s.pools[p].items| && a in s.buffers && s.buffers[a].Held?
    ensures BuffersArePlaced(s.SetPool(p, PutAt(s.pools[p], a, k)).(buffers := s.buffers[a := Pooled(p)]))
  {
    var z := s.SetPool(p, PutAt(s.pools[p], a, k)).(buffers := s.buffers[a := Pooled(p)]);
    assert HoldsItsBuffers(s, p);
    RestAfterPut(s.pools[p], a, k);
    OneBufferPlaced(s, z, p, a);
  }

  lemma TakePlaced(s: State, p: PoolId, k: nat)
    requires BuffersArePlaced(s) && p in s.pools && s.pools[p].gone == 0 && k < |s.pools[p].items|
    ensures BuffersArePlaced(s.SetPool(p, TakeAt(s.pools[p], k)).(buffers := s.buffers[s.pools[p].items[k] := Held]))
  {
    var z := s.SetPool(p, TakeAt(s.pools[p], k)).(buffers := s.buffers[s.pools[p].items[k] := Held]);
    assert HoldsItsBuffers(s, p);
    RestAfterTake(s.pools[p], k);
    OneBufferPlaced(s, z, p, s.pools[p].items[k]);
  }

  /** A step that leaves the buffers alone, and at most adds an empty pool, empties or removes one that
      has been freed up, or gives one up. */
  lemma SameBuffersPlaced(s: State, z: State)
    requires BuffersArePlaced(s) && z.buffers == s.buffers
    requires forall p | p in z.pools ::
      var items, gone := z.pools[p].items, z.pools[p].gone;
      if p in s.pools && gone == s.pools[p].gone then items == s.pools[p].items else gone == 0 && items == []
    requires forall p | p in s.pools ::
      s.pools[p].gone < |s.pools[p].items| ==> p in z.pools && z.pools[p].gone == s.pools[p].gone
    ensures BuffersArePlaced(z)
  {
    forall q | q in z.pools ensures HoldsItsBuffers(z, q) {
      assert q in s.pools ==> HoldsItsBuffers(s, q);
    }
    forall b | b in z.buffers ensures IsInItsPool(z, b) {
      assert IsInItsPool(s, b);
    }
  }

  lemma AllocatePlaced(s: State, a: Address)
    requires BuffersArePlaced(s) && a !in s.buffers
    ensures BuffersArePlaced(s.(buffers := s.buffers[a := Held]))
  {
    var z := s.(buffers := s.buffers[a := Held]);
    forall q | q in z.pools ensures HoldsItsBuffers(z, q) {
      assert HoldsItsBuffers(s, q);
    }
    forall b | b in z.buffers ensures IsInItsPool(z, b) {
      assert b != a ==> IsInItsPool(s, b);
    }
  }

  lemma DestroyStepPlaced(s: State, t: Tid, j: nat)
    requires PoolsAreOwned(s) && BuffersArePlaced(s) && t in s.threads && j < |s.threads[t].calls|
    ensures BuffersArePlaced(Destroyed(s, t, j))
  {
    assert ThreadIsSound(s.threads[t]) && OwnsItsPool(s, t);
    var p := s.threads[t].ctx.value;
    if HasMore(s, p) {
      FreePlaced(s, p);
      SameBuffersPlaced(FreeNext(s, p), Destroyed(s, t, j));
    } else {
      SameBuffersPlaced(s, Destroyed(s, t, j));
    }
  }

  lemma AdvancePlaced(s: State, t: Tid, next: PoolId)
    requires PoolsAreOwned(s) && BuffersArePlaced(s) && t in s.threads && !IsOver(s.threads[t].pc) && next !in s.pools
    ensures BuffersArePlaced(Advanced(s, t, next))
  {
    var th := s.threads[t];
    assert ThreadIsSound(th) && OwnsItsPool(s, t);
    if (th.pc.Collecting? || th.pc.Cleaning?) && HasMore(s, th.pool.value) {
      FreePlaced(s, th.pool.value);
    } else {
      SameBuffersPlaced(s, Advanced(s, t, next));
    }
  }

  lemma BuffersStep(s: State, m: Move)
    requires Enabled(s, m) && PoolsAreOwned(s) && BuffersArePlaced(s)
    ensures BuffersArePlaced(Next(s, m))
  {
    var th := s.threads[m.t];
    assert ThreadIsSound(th) && OwnsItsPool(s, m.t);
    match m.e
    case Allocate(a) => AllocatePlaced(s, a);
    case Put(a, k) => PutPlaced(s, th.pool.value, a, k);
    case Take(k) => TakePlaced(s, th.pool.value, k);
    case DestroyStep(j) => DestroyStepPlaced(s, m.t, j);
    case Advance(next) => AdvancePlaced(s, m.t, next);
    case _ =>
  }

  /** No call of Destroy among the first n steps overlaps another one or a thread that runs. */
  ghost predicate CallsAreApart(run: seq<State>, moves: seq<Move>, n: nat) {
    forall i | 0 <= i < n && i < |run| && i < |moves| :: !Overlaps(run[i], moves[i])
  }

  /** As long as no call of Destroy overlaps another one on the same thread or a thread that runs, no buffer and
      no pool is freed twice, and the invariants of the context hold. */
  lemma {:induction false} NothingIsFreedTwice(run: seq<State>, moves: seq<Move>, n: nat)
    requires IsRun(run, moves) && n < |run| && CallsAreApart(run, moves, n)
    ensures PoolsAreOwned(run[n]) && BuffersArePlaced(run[n]) && !run[n].fault
  {
    if n > 0 {
      NothingIsFreedTwice(run, moves, n - 1);
      assert StepAt(run, moves, n - 1);
      OwnersStep(run[n - 1], moves[n - 1]);
      BuffersStep(run[n - 1], moves[n - 1]);
    }
  }

  /** The buffer that a step hands to free(), and the pool it takes it from. */
  function Frees(s: State, m: Move): Option<(Address, PoolId)>
    requires m.t in s.threads
  {
    var th := s.threads[m.t];
    match m.e
    case Advance(_) =>
      if (th.pc.Collecting? || th.pc.Cleaning?) && th.pool.Some? && HasMore(s, th.pool.value) then
        var pool := s.pools[th.pool.value];
        Some((pool.items[pool.gone], th.pool.value))
      else None
    case DestroyStep(j) =>
      if j < |th.calls| && th.calls[j].p in s.pools && th.calls[j].k < |s.pools[th.calls[j].p].items| then
        Some((s.pools[th.calls[j].p].items[th.calls[j].k], th.calls[j].p))
      else None
    case _ => None
  }

  /** Then every step that frees a buffer frees one that is allocated and in the pool, this one and no other. */
  lemma FreesOnlyLive(run: seq<State>, moves: seq<Move>, n: nat)
    requires IsRun(run, moves) && n < |moves| && CallsAreApart(run, moves, n)
    ensures moves[n].t in run[n].threads
    ensures Frees(run[n], moves[n]).Some? ==>
      var (a, p) := Frees(run[n], moves[n]).value;
      a in run[n].buffers && run[n].buffers[a] == Pooled(p) && run[n + 1].buffers == run[n].buffers - {a}
  {
    var s, m := run[n], moves[n];
    NothingIsFreedTwice(run, moves, n);
    assert StepAt(run, moves, n);
    assert ThreadIsSound(s.threads[m.t]) && OwnsItsPool(s, m.t);
    if Frees(s, m).Some? {
      var (a, p) := Frees(s, m).value;
      assert HoldsItsBuffers(s, p) && s.pools[p].items[s.pools[p].gone] == a;
      assert a in Rest(s.pools[p]);
    }
  }

  /** The pool p is the only one that is gone, and it is a thread's own and empty. */
  ghost predicate DeletesOwn(s: State, z: State, t: Tid, p: PoolId)
    requires p in s.pools
  {
    && s.pools[p].user == Some(t) && s.pools[p].gone >= |s.pools[p].items|
    && forall q | q in s.pools && q != p :: q in z.pools
  }

  lemma AdvanceDeletes(s: State, t: Tid, next: PoolId, p: PoolId)
    requires t in s.threads && ThreadIsSound(s.threads[t]) && OwnsItsPool(s, t)
    requires p in s.pools && p !in Advanced(s, t, next).pools
    ensures DeletesOwn(s, Advanced(s, t, next), t, p)
  {
    assert s.threads[t].pc.Cleaning?;
  }

  lemma DestroyDeletes(s: State, t: Tid, j: nat, p: PoolId)
    requires t in s.threads && j < |s.threads[t].calls| && ThreadIsSound(s.threads[t]) && OwnsItsPool(s, t)
    requires p in s.pools && p !in Destroyed(s, t, j).pools
    ensures DeletesOwn(s, Destroyed(s, t, j), t, p)
  {
  }

  /** And a pool that a step deletes is there, is its thread's, and has been emptied. */
  lemma DeletesOnlyOwn(run: seq<State>, moves: seq<Move>, n: nat, p: PoolId)
    requires IsRun(run, moves) && n < |moves| && CallsAreApart(run, moves, n)
    requires p in run[n].pools && p !in run[n + 1].pools
    ensures DeletesOwn(run[n], run[n + 1], moves[n].t, p)
  {
    var s, m := run[n], moves[n];
    NothingIsFreedTwice(run, moves, n);
    assert StepAt(run, moves, n);
    assert ThreadIsSound(s.threads[m.t]) && OwnsItsPool(s, m.t);
    match m.e
    case Advance(next) => AdvanceDeletes(s, m.t, next, p);
    case DestroyStep(j) => DestroyDeletes(s, m.t, j, p);
    case _ =>
  }

  /** Every thread has ended, and has been destroyed since if it left a pool. */
  ghost predicate AtRest(s: State) {
    forall t | t in s.threads :: IsOver(s.threads[t].pc) && s.threads[t].ctx.None?
  }

  /** The n-th step starts a thread that still points to the pool of its last run. */
  ghost predicate LosesPool(run: seq<State>, moves: seq<Move>, n: nat)
    requires n < |moves| && n < |run|
  {
    && moves[n].e.Advance? && moves[n].t in run[n].threads
    && var th := run[n].threads[moves[n].t]; th.pc.Initializing? && th.ctx.Some?
  }

  /** A step gives up a pool only where it loses one. */
  lemma UserStays(s: State, m: Move, p: PoolId)
    requires Enabled(s, m) && !Overlaps(s, m) && p in Next(s, m).pools
    requires p in s.pools ==> s.pools[p].user.Some?
    requires !(m.e.Advance? && s.threads[m.t].pc.Initializing? && s.threads[m.t].ctx.Some?)
    ensures Next(s, m).pools[p].user.Some?
  {
    match m.e
    case Advance(next) => AdvanceKeepsUser(s, m.t, next, p);
    case _ =>
  }

  lemma AdvanceKeepsUser(s: State, t: Tid, next: PoolId, p: PoolId)
    requires t in s.threads && p in Advanced(s, t, next).pools && (p in s.pools ==> s.pools[p].user.Some?)
    requires !(s.threads[t].pc.Initializing? && s.threads[t].ctx.Some?)
    ensures Advanced(s, t, next).pools[p].user.Some?
  {
  }

  lemma {:induction false} AllPoolsHaveUsers(run: seq<State>, moves: seq<Move>, n: nat)
    requires IsRun(run, moves) && n < |run| && CallsAreApart(run, moves, n)
    requires forall i: nat | i < n :: !LosesPool(run, moves, i)
    ensures forall p | p in run[n].pools :: run[n].pools[p].user.Some?
  {
    if n > 0 {
      AllPoolsHaveUsers(run, moves, n - 1);
      assert StepAt(run, moves, n - 1) && !LosesPool(run, moves, n - 1);
      forall p | p in run[n].pools ensures run[n].pools[p].user.Some? {
        UserStays(run[n - 1], moves[n - 1], p);
      }
    }
  }

  /** No thread touches a pool that has been given up. */
  lemma GivenUpStays(s: State, m: Move, p: PoolId)
    requires Enabled(s, m) && !Overlaps(s, m) && p in s.pools && s.pools[p].user.None?
    requires ThreadIsSound(s.threads[m.t]) && OwnsItsPool(s, m.t)
    ensures p in Next(s, m).pools && Next(s, m).pools[p].user.None?
  {
    match m.e
    case Advance(next) => AdvanceLeavesGivenUp(s, m.t, next, p);
    case _ =>
  }

  lemma AdvanceLeavesGivenUp(s: State, t: Tid, next: PoolId, p: PoolId)
    requires t in s.threads && p in s.pools && s.pools[p].user.None? && next !in s.pools
    requires ThreadIsSound(s.threads[t]) && OwnsItsPool(s, t)
    ensures p in Advanced(s, t, next).pools && Advanced(s, t, next).pools[p].user.None?
  {
  }

  lemma {:induction false} LostPoolStays(run: seq<State>, moves: seq<Move>, i: nat, n: nat)
    requires IsRun(run, moves) && i < n < |run| && LosesPool(run, moves, i) && CallsAreApart(run, moves, n)
    ensures var p := run[i].threads[moves[i].t].ctx.value; p in run[n].pools && run[n].pools[p].user.None?
  {
    var s, m := run[n - 1], moves[n - 1];
    NothingIsFreedTwice(run, moves, n - 1);
    assert StepAt(run, moves, n - 1);
    assert OwnsItsPool(s, m.t) && ThreadIsSound(s.threads[m.t]);
    if i + 1 < n {
      LostPoolStays(run, moves, i, n - 1);
      GivenUpStays(s, m, run[i].threads[moves[i].t].ctx.value);
    }
  }

  /** Nothing leaks: once all threads are over and destroyed, no pool is left and every buffer that is
      not freed is with the program. This holds exactly when no thread is started again before it has
      been destroyed. */
  lemma NothingLeaksIffDestroyedFirst(run: seq<State>, moves: seq<Move>, n: nat)
    requires IsRun(run, moves) && n < |run| && AtRest(run[n]) && CallsAreApart(run, moves, n)
    ensures run[n].pools == map[] <==> forall i: nat | i < n :: !LosesPool(run, moves, i)
    ensures run[n].pools == map[] ==> forall a | a in run[n].buffers :: run[n].buffers[a].Held?
  {
    NothingIsFreedTwice(run, moves, n);
    forall p | p in run[n].pools ensures run[n].pools[p].user.None? {
      assert HasItsOwner(run[n], p);
    }
    if forall i: nat | i < n :: !LosesPool(run, moves, i) {
      AllPoolsHaveUsers(run, moves, n);
    } else {
      var i: nat :| i < n && LosesPool(run, moves, i);
      LostPoolStays(run, moves, i, n);
    }
    forall a | a in run[n].buffers && run[n].pools == map[] ensures run[n].buffers[a].Held? {
      assert IsInItsPool(run[n], a);
    }
  }

  // Calls of Destroy that overlap.

  /** A run goes on from another one, without further calls of Destroy. */
  ghost predicate GoesOn(run: seq<State>, moves: seq<Move>, longer: seq<State>, more: seq<Move>) {
    && IsRun(longer, more) && |run| == |moves| + 1 && |moves| <= |more|
    && longer[..|run|] == run && more[..|moves|] == moves
    && forall i | |moves| <= i < |more| :: !more[i].e.Destroy?
  }

  ghost predicate CanFault(run: seq<State>, moves: seq<Move>) {
    exists longer: seq<State>, more: seq<Move> :: GoesOn(run, moves, longer, more) && longer[|more|].fault
  }

  lemma Extend(run: seq<State>, moves: seq<Move>, m: Move) returns (longer: seq<State>, more: seq<Move>)
    requires IsRun(run, moves) && Enabled(run[|moves|], m)
    ensures IsRun(longer, more) && more == moves + [m] && longer == run + [Next(run[|moves|], m)]
  {
    longer, more := run + [Next(run[|moves|], m)], moves + [m];
    forall i | 0 <= i < |more| ensures StepAt(longer, more, i) {
      assert i < |moves| ==> StepAt(run, moves, i);
    }
  }

  /** After two calls of Destroy have found the same pool, the steps of one make the other one fault. */
  lemma OverlapFaults(run: seq<State>, moves: seq<Move>, t: Tid)
    requires IsRun(run, moves) && t in run[|moves|].threads
    requires var s := run[|moves|]; var th := s.threads[t];
      && th.ctx.Some? && th.ctx.value in s.pools && s.pools[th.ctx.value].user == Some(t)
      && th.calls == [Call(th.ctx.value, s.pools[th.ctx.value].gone), Call(th.ctx.value, 0)]
    ensures CanFault(run, moves)
  {
    var first, second := Move(t, DestroyStep(0)), Move(t, DestroyStep(1));
    var s := run[|moves|];
    var p := s.threads[t].ctx.value;
    if HasMore(s, p) && s.pools[p].gone > 0 {
      var longer, more := Extend(run, moves, second);
      assert GoesOn(run, moves, longer, more);
    } else {
      var longer, more := Extend(run, moves, first);
      var last := if HasMore(s, p) then second else first;
      SecondFaults(s, t, p);
      longer, more := Extend(longer, more, last);
      assert GoesOn(run, moves, longer, more);
    }
  }

  /** One step of the first call is enough where the second has not been overtaken yet. */
  lemma SecondFaults(s: State, t: Tid, p: PoolId)
    requires t in s.threads && p in s.pools && s.pools[p].user == Some(t)
    requires s.threads[t].calls == [Call(p, s.pools[p].gone), Call(p, 0)] && (HasMore(s, p) ==> s.pools[p].gone == 0)
    ensures var z := Destroyed(s, t, 0); var j := if HasMore(s, p) then 1 else 0;
      t in z.threads && j < |z.threads[t].calls| && Destroyed(z, t, j).fault
  {
  }

  lemma ApartWhenGoingOn(run: seq<State>, moves: seq<Move>, longer: seq<State>, more: seq<Move>)
    requires GoesOn(run, moves, longer, more) && CallsAreApart(run, moves, |moves|)
    ensures CallsAreApart(longer, more, |more|)
  {
    forall i | 0 <= i < |more| ensures !Overlaps(longer[i], more[i]) {
      assert i < |moves| ==> longer[i] == longer[..|run|][i] && more[i] == more[..|moves|][i];
    }
  }

  lemma GoesOnFurther(run: seq<State>, moves: seq<Move>, longer: seq<State>, more: seq<Move>)
    requires IsRun(run, moves) && GoesOn(run, moves, longer, more) && CanFault(longer, more)
    ensures CanFault(run, moves)
  {
    var last: seq<State>, all: seq<Move> :| GoesOn(longer, more, last, all) && last[|all|].fault;
    assert last[..|run|] == last[..|longer|][..|run|] && all[..|moves|] == all[..|more|][..|moves|];
    forall i | |moves| <= i < |all| ensures !all[i].e.Destroy? {
      assert i < |more| ==> all[i] == all[..|more|][i] && !more[i].e.Destroy?;
    }
    assert GoesOn(run, moves, last, all);
  }

  lemma {:induction false} UnusedId(ids: set<nat>) returns (id: nat)
    ensures id !in ids && forall other | other in ids :: other < id
  {
    id := 0;
    if ids != {} {
      var one :| one in ids;
      id := UnusedId(ids - {one});
      assert forall other | other in ids :: other == one || other in ids - {one};
      id := if id <= one then one + 1 else id;
    }
  }

  lemma AdvanceOnce(run: seq<State>, moves: seq<Move>, t: Tid)
    returns (longer: seq<State>, more: seq<Move>, next: PoolId)
    requires IsRun(run, moves) && t in run[|moves|].threads && !IsOver(run[|moves|].threads[t].pc)
    ensures GoesOn(run, moves, longer, more) && |more| == |moves| + 1
    ensures longer[|more|] == Advanced(run[|moves|], t, next)
  {
    next := UnusedId(run[|moves|].pools.Keys);
    longer, more := Extend(run, moves, Move(t, Advance(next)));
  }

  /** A call of Destroy has found the pool that a running thread uses, and has not freed anything yet. */
  ghost predicate IsUsed(s: State, t: Tid, p: PoolId) {
    && t in s.threads && p in s.pools
    && var th, pool := s.threads[t], s.pools[p];
      && th.calls == [Call(p, 0)] && th.pool == Some(p) && pool.user == Some(t) && pool.gone <= |pool.items|
      && match th.pc
         case Initialized => th.inst && pool.gone == 0
         case Running => th.inst && pool.gone == 0
         case Collecting => th.inst
         case Leaving => th.inst && pool.gone == 0
         case Cleaning => pool.gone == 0
         case _ => false
  }

  /** The call frees what the thread has freed, or the thread what the call has. */
  predicate CallFaults(s: State, t: Tid) {
    t in s.threads && |s.threads[t].calls| == 1 && Destroyed(s, t, 0).fault
  }

  function StepsBefore(pc: Pc): nat {
    match pc
    case Collecting => 3
    case Initialized => 3
    case Running => 2
    case Leaving => 1
    case _ => 0
  }

  /** The thread gets one step nearer to its clean-up, or the call faults now or after the step. */
  lemma UsedStep(s: State, t: Tid, p: PoolId, next: PoolId)
    requires IsUsed(s, t, p) && !CallFaults(s, t) && !CallFaults(Advanced(s, t, next), t)
    ensures IsUsed(Advanced(s, t, next), t, p)
    ensures StepsBefore(Advanced(s, t, next).threads[t].pc) < StepsBefore(s.threads[t].pc)
  {
  }

  lemma {:induction false} UseFaults(run: seq<State>, moves: seq<Move>, t: Tid, p: PoolId)
    requires IsRun(run, moves) && IsUsed(run[|moves|], t, p)
    ensures CanFault(run, moves)
    decreases StepsBefore(run[|moves|].threads[t].pc)
  {
    if CallFaults(run[|moves|], t) {
      CallFaultsNext(run, moves, t);
    } else {
      var longer, more, next := AdvanceOnce(run, moves, t);
      if CallFaults(longer[|more|], t) {
        CallFaultsNext(longer, more, t);
      } else {
        UsedStep(run[|moves|], t, p, next);
        UseFaults(longer, more, t, p);
      }
      GoesOnFurther(run, moves, longer, more);
    }
  }

  lemma CallFaultsNext(run: seq<State>, moves: seq<Move>, t: Tid)
    requires IsRun(run, moves) && CallFaults(run[|moves|], t)
    ensures CanFault(run, moves)
  {
    var longer, more := Extend(run, moves, Move(t, DestroyStep(0)));
    assert GoesOn(run, moves, longer, more);
  }

  /** Up to its last step, the calls of Destroy in a run are apart. Then something can be freed twice, without
      further calls, exactly when the last step is a call that overlaps another one or a thread that runs. */
  lemma FaultIffOverlap(run: seq<State>, moves: seq<Move>)
    requires IsRun(run, moves) && moves != [] && CallsAreApart(run, moves, |moves| - 1)
    ensures CanFault(run, moves) <==> Overlaps(run[|moves| - 1], moves[|moves| - 1])
  {
    var s, m := run[|moves| - 1], moves[|moves| - 1];
    assert StepAt(run, moves, |moves| - 1);
    if Overlaps(s, m) {
      NothingIsFreedTwice(run, moves, |moves| - 1);
      var th := s.threads[m.t];
      assert ThreadIsSound(th) && OwnsItsPool(s, m.t) && HasItsOwner(s, th.ctx.value);
      if IsOver(th.pc) {
        OverlapFaults(run, moves, m.t);
      } else {
        assert HoldsItsBuffers(s, th.ctx.value);
        UseFaults(run, moves, m.t, th.ctx.value);
      }
    } else {
      forall longer: seq<State>, more: seq<Move> | GoesOn(run, moves, longer, more) ensures !longer[|more|].fault {
        ApartWhenGoingOn(run, moves, longer, more);
        NothingIsFreedTwice(longer, more, |more|);
      }
    }
  }

  // Runs that show that all of this happens.

  ghost predicate WithoutDestroy(moves: seq<Move>) { forall i | 0 <= i < |moves| :: !moves[i].e.Destroy? }

  lemma ApartWithoutDestroy(run: seq<State>, moves: seq<Move>)
    requires WithoutDestroy(moves)
    ensures CallsAreApart(run, moves, |moves|)
  {
  }

  /** One thread is over or runs, with this pool and no other one, and nothing else has happened. */
  ghost predicate OnlyOnePool(s: State, z: State, t: Tid, pc: Pc, p: PoolId) {
    && z.threads == s.threads[t := Thread(pc, if pc.Running? then Some(p) else None, pc.Running?, Some(p), [])]
    && p in z.pools && z.pools[p] == Pool([], 0, Some(t))
  }

  lemma StartedThread(s: State, run: seq<State>, moves: seq<Move>, t: Tid, p: PoolId)
    returns (longer: seq<State>, more: seq<Move>)
    requires IsRun(run, moves) && WithoutDestroy(moves) && t in s.threads && p !in run[|moves|].pools
    requires var z := run[|moves|];
      t in z.threads && IsOver(z.threads[t].pc) && z.threads[t].calls == [] && z.threads == s.threads[t := z.threads[t]]
    ensures IsRun(longer, more) && WithoutDestroy(more) && |moves| + 4 == |more|
    ensures longer[0] == run[0] && OnlyOnePool(s, longer[|more|], t, Running, p)
    ensures longer[|more|].pools.Keys == run[|moves|].pools.Keys + {p}
    ensures run[|moves|].threads[t].ctx.Some? ==> LosesPool(longer, more, |moves| + 2)
  {
    longer, more := Extend(run, moves, Move(t, Start));
    longer, more := Extend(longer, more, Move(t, Advance(p)));
    longer, more := Extend(longer, more, Move(t, Advance(p)));
    var unused := UnusedId(longer[|more|].pools.Keys);
    longer, more := Extend(longer, more, Move(t, Advance(unused)));
  }

  lemma RunningThread(s: State, t: Tid) returns (run: seq<State>, moves: seq<Move>)
    requires Initial(s) && t in s.threads
    ensures IsRun(run, moves) && run[0] == s && WithoutDestroy(moves)
    ensures OnlyOnePool(s, run[|moves|], t, Running, 0) && run[|moves|].pools.Keys == {0}
  {
    assert s.threads == s.threads[t := s.threads[t]];
    run, moves := StartedThread(s, [s], [], t, 0);
  }

  lemma CancelledThread(s: State, t: Tid) returns (run: seq<State>, moves: seq<Move>)
    requires Initial(s) && t in s.threads
    ensures IsRun(run, moves) && run[0] == s && WithoutDestroy(moves)
    ensures OnlyOnePool(s, run[|moves|], t, Ended, 0) && run[|moves|].pools.Keys == {0}
  {
    run, moves := RunningThread(s, t);
    run, moves := Extend(run, moves, Move(t, Cancel));
  }

  /** Two calls of Destroy on a cancelled thread overlap, and free something twice. */
  lemma DestroyedTwice(s: State, t: Tid) returns (run: seq<State>, moves: seq<Move>)
    requires Initial(s) && t in s.threads
    ensures IsRun(run, moves) && run[0] == s && moves != [] && CallsAreApart(run, moves, |moves| - 1)
    ensures Overlaps(run[|moves| - 1], moves[|moves| - 1])
    ensures t in run[|moves| - 1].threads && IsOver(run[|moves| - 1].threads[t].pc)
    ensures CanFault(run, moves)
  {
    run, moves := CancelledThread(s, t);
    ApartWithoutDestroy(run, moves);
    run, moves := Extend(run, moves, Move(t, Destroy));
    run, moves := Extend(run, moves, Move(t, Destroy));
    FaultIffOverlap(run, moves);
  }

  /** So does a call of Destroy on a running thread. */
  lemma DestroyedWhileRunning(s: State, t: Tid) returns (run: seq<State>, moves: seq<Move>)
    requires Initial(s) && t in s.threads
    ensures IsRun(run, moves) && run[0] == s && moves != [] && CallsAreApart(run, moves, |moves| - 1)
    ensures Overlaps(run[|moves| - 1], moves[|moves| - 1])
    ensures t in run[|moves| - 1].threads && run[|moves| - 1].threads[t].pc.Running?
    ensures CanFault(run, moves)
  {
    run, moves := RunningThread(s, t);
    ApartWithoutDestroy(run, moves);
    run, moves := Extend(run, moves, Move(t, Destroy));
    FaultIffOverlap(run, moves);
  }

  lemma CleaningThread(s: State, run: seq<State>, moves: seq<Move>, t: Tid, p: PoolId)
    returns (longer: seq<State>, more: seq<Move>)
    requires IsRun(run, moves) && WithoutDestroy(moves) && t in s.threads && OnlyOnePool(s, run[|moves|], t, Running, p)
    ensures IsRun(longer, more) && WithoutDestroy(more) && run <= longer && moves <= more
    ensures longer[|more|].threads == s.threads[t := Thread(Cleaning, Some(p), false, None, [])]
    ensures p in longer[|more|].pools && longer[|more|].pools[p] == Pool([], 0, Some(t))
  {
    var unused := UnusedId(run[|moves|].pools.Keys);
    longer, more := Extend(run, moves, Move(t, Advance(unused)));
    longer, more := Extend(longer, more, Move(t, Advance(unused)));
  }

  /** A running thread with an empty pool ends by itself. */
  lemma EndedThread(s: State, run: seq<State>, moves: seq<Move>, t: Tid, p: PoolId)
    returns (longer: seq<State>, more: seq<Move>)
    requires IsRun(run, moves) && WithoutDestroy(moves) && t in s.threads && OnlyOnePool(s, run[|moves|], t, Running, p)
    ensures IsRun(longer, more) && WithoutDestroy(more) && run <= longer && moves <= more
    ensures longer[|more|].threads == s.threads[t := Thread(Ended, None, false, None, [])]
  {
    longer, more := CleaningThread(s, run, moves, t, p);
    var unused := UnusedId(longer[|more|].pools.Keys);
    longer, more := Extend(longer, more, Move(t, Advance(unused)));
    longer, more := Extend(longer, more, Move(t, Advance(unused)));
    longer, more := Extend(longer, more, Move(t, Advance(unused)));
  }

  /** A thread that is cancelled, and started again without being destroyed, leaves a pool behind for good. */
  lemma PoolIsLost(s: State, t: Tid) returns (run: seq<State>, moves: seq<Move>)
    requires Initial(s) && t in s.threads
    ensures IsRun(run, moves) && run[0] == s && CallsAreApart(run, moves, |moves|)
    ensures AtRest(run[|moves|]) && run[|moves|].pools != map[]
  {
    run, moves := CancelledThread(s, t);
    var n := |moves| + 2;
    run, moves := StartedThread(s, run, moves, t, 1);
    assert LosesPool(run, moves, n);
    var longer, more := EndedThread(s, run, moves, t, 1);
    assert LosesPool(longer, more, n);
    run, moves := longer, more;
    ApartWithoutDestroy(run, moves);
    NothingLeaksIffDestroyedFirst(run, moves, |moves|);
  }

  // What a thread does with its pool.

  /** Buffers that are not in this pool. */
  function Elsewhere(s: State, p: PoolId): map<Address, Place> {
    map a | a in s.buffers && s.buffers[a] != Pooled(p) :: s.buffers[a]
  }

  /** One more buffer is freed, or the pool is emptied and the thread goes on. */
  lemma CollectStep(s: State, t: Tid, next: PoolId)
    requires PoolsAreOwned(s) && BuffersArePlaced(s) && t in s.threads && s.threads[t].pc.Collecting?
    ensures s.threads[t].pool.Some? && s.threads[t].pool.value in s.pools
    ensures var p, z := s.threads[t].pool.value, Advanced(s, t, next);
      if HasMore(s, p)
      then z.threads == s.threads && p in z.pools && z.pools[p] == s.pools[p].(gone := s.pools[p].gone + 1)
           && Elsewhere(z, p) == Elsewhere(s, p) && z.pools - {p} == s.pools - {p}
      else z.threads == s.threads[t := s.threads[t].(pc := Running)] && p in z.pools && z.pools[p].items == []
           && z.buffers == Elsewhere(s, p) && z.pools - {p} == s.pools - {p}
  {
    var p := s.threads[t].ctx.value;
    assert ThreadIsSound(s.threads[t]) && OwnsItsPool(s, t) && HoldsItsBuffers(s, p);
    if HasMore(s, p) {
      assert s.pools[p].items[s.pools[p].gone] in Rest(s.pools[p]);
    } else {
      forall a | a in s.buffers ensures s.buffers[a] != Pooled(p) {
        assert IsInItsPool(s, a);
      }
    }
  }

  /** A collection frees every buffer in the pool, keeps all others and the pool itself, and lets the thread go
      on. */
  lemma {:induction false} CollectFreesAll(run: seq<State>, moves: seq<Move>, t: Tid)
    returns (longer: seq<State>, more: seq<Move>)
    requires IsRun(run, moves) && CallsAreApart(run, moves, |moves|)
    requires t in run[|moves|].threads && run[|moves|].threads[t].pc.Collecting?
    ensures GoesOn(run, moves, longer, more) && CallsAreApart(longer, more, |more|)
    ensures run[|moves|].threads[t].pool.Some?
    ensures var s, z := run[|moves|], longer[|more|]; var p := s.threads[t].pool.value;
      && z.threads == s.threads[t := s.threads[t].(pc := Running)]
      && p in z.pools && z.pools[p].items == [] && z.pools - {p} == s.pools - {p}
      && z.buffers == Elsewhere(s, p)
    decreases var s := run[|moves|]; var th := s.threads[t];
      if th.pool.Some? && HasMore(s, th.pool.value)
      then |s.pools[th.pool.value].items| - s.pools[th.pool.value].gone else 0
  {
    NothingIsFreedTwice(run, moves, |moves|);
    var s := run[|moves|];
    var next;
    longer, more, next := AdvanceOnce(run, moves, t);
    CollectStep(s, t, next);
    ApartWhenGoingOn(run, moves, longer, more);
    if HasMore(s, s.threads[t].pool.value) {
      var last, all := CollectFreesAll(longer, more, t);
      GoesOnTransitive(run, moves, longer, more, last, all);
      longer, more := last, all;
    }
  }

  lemma GoesOnTransitive(run: seq<State>, moves: seq<Move>, longer: seq<State>, more: seq<Move>,
                         last: seq<State>, all: seq<Move>)
    requires GoesOn(run, moves, longer, more) && GoesOn(longer, more, last, all)
    ensures GoesOn(run, moves, last, all)
  {
    assert last[..|run|] == last[..|longer|][..|run|] && all[..|moves|] == all[..|more|][..|moves|];
    forall i | |moves| <= i < |all| ensures !all[i].e.Destroy? {
      assert i < |more| ==> all[i] == all[..|more|][i];
    }
  }

  /** A running thread allocates a buffer, puts it into its pool at some place, and can take it out again. */
  lemma BufferIsPooled(run: seq<State>, moves: seq<Move>, t: Tid, a: Address, k: nat)
    returns (longer: seq<State>, more: seq<Move>)
    requires IsRun(run, moves) && CallsAreApart(run, moves, |moves|)
    requires var s := run[|moves|];
      && t in s.threads && s.threads[t].pc.Running? && a !in s.buffers
      && s.threads[t].pool.Some? && s.threads[t].pool.value in s.pools
      && k <= |s.pools[s.threads[t].pool.value].items|
    ensures IsRun(longer, more) && |more| == |moves| + 3
    ensures var s := run[|moves|]; var p := s.threads[t].pool.value;
      && longer[|moves| + 1] == s.(buffers := s.buffers[a := Held])
      && a in longer[|moves| + 2].buffers && longer[|moves| + 2].buffers[a] == Pooled(p)
      && p in longer[|moves| + 2].pools && k < |longer[|moves| + 2].pools[p].items|
      && longer[|moves| + 2].pools[p].items[k] == a
      && longer[|more|] == s.(buffers := s.buffers[a := Held])
  {
    var s := run[|moves|];
    var p := s.threads[t].pool.value;
    longer, more := Extend(run, moves, Move(t, Allocate(a)));
    longer, more := Extend(longer, more, Move(t, Put(a, k)));
    assert longer[|more|].pools[p].items == s.pools[p].items[..k] + [a] + s.pools[p].items[k..];
    longer, more := Extend(longer, more, Move(t, Take(k)));
    assert longer[|more|].pools[p].items == s.pools[p].items;
    assert longer[|more|].pools == s.pools && longer[|more|].buffers == s.buffers[a := Held];
  }

  /** A running thread can start a collection at any time. */
  lemma CollectionStarts(run: seq<State>, moves: seq<Move>, t: Tid) returns (longer: seq<State>, more: seq<Move>)
    requires IsRun(run, moves) && t in run[|moves|].threads && run[|moves|].threads[t].pc.Running?
    ensures IsRun(longer, more) && more == moves + [Move(t, Collect)]
    ensures longer[|more|] == run[|moves|].SetThread(t, run[|moves|].threads[t].(pc := Collecting))
  {
    longer, more := Extend(run, moves, Move(t, Collect));
  }
}
