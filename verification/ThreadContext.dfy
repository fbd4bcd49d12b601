/** A thread's context: its pool of free buffers, and how the pool is set up, collected and cleaned up.
    ThreadLifecycle interleaves these with cancellation and other threads. */
module ThreadContext {
  import opened Sequences

  type Address = nat

  const SLAB_DEPTH := 4
  const GC_TIMEOUT_MS := 1000

  function Elements<T>(s: seq<T>): set<T> { set x | x in s }

  /** The buffers in the first n lists. */
  ghost function Joined<T>(lists: seq<seq<T>>, n: nat): seq<T>
    requires n <= |lists|
  {
    if n == 0 then [] else Joined(lists, n - 1) + lists[n - 1]
  }

  lemma {:induction false} JoinedIsPrefix<T>(lists: seq<seq<T>>, m: nat, n: nat)
    requires m <= n <= |lists|
    ensures |Joined(lists, m)| <= |Joined(lists, n)| && Joined(lists, n)[..|Joined(lists, m)|] == Joined(lists, m)
  {
    if m < n {
      JoinedIsPrefix(lists, m, n - 1);
    }
  }

  lemma {:induction false} JoinedOfEmpty<T>(lists: seq<seq<T>>, n: nat)
    requires n <= |lists| && forall i | 0 <= i < n :: lists[i] == []
    ensures Joined(lists, n) == []
  {
    if n > 0 {
      JoinedOfEmpty(lists, n - 1);
    }
  }

  /** The buffers that were allocated and not freed. Freeing any other is undefined. */
  class Memory {
    ghost var live: set<Address>

    method Free(p: Address)
      requires p in live
      modifies this
      ensures live == old(live) - {p}
    {
      live := live - {p};
    }
  }

  class Pool {
    var lists: seq<seq<Address>>
    ghost var deleted: bool

    constructor ()
      ensures lists == [[], [], [], []] && !deleted
    {
      lists := [[], [], [], []];
      deleted := false;
    }

    ghost function Buffers(): seq<Address>
      reads this
    {
      Joined(lists, |lists|)
    }

    /** The pool is the only one to hold each of its buffers, and none of them is freed. */
    ghost predicate Sound(memory: Memory)
      reads this, memory
    {
      !deleted && |lists| == SLAB_DEPTH && Distinct(Buffers()) && Elements(Buffers()) <= memory.live
    }

    method Delete()
      requires !deleted
      modifies this
      ensures deleted && lists == []
    {
      lists := [];
      deleted := true;
    }
  }

  class Thread {
    var ctxPool: Pool?

    constructor ()
      ensures ctxPool == null
    {
      ctxPool := null;
    }

    /** What a cancelled thread has left is released, once: a second call finds nothing. */
    method Destroy(memory: Memory)
      requires ctxPool != null ==> ctxPool.Sound(memory)
      modifies this, memory, ctxPool
      ensures ctxPool == null
      ensures old(ctxPool) == null ==> memory.live == old(memory.live)
      ensures old(ctxPool) != null ==>
        old(ctxPool).deleted && memory.live == old(memory.live) - Elements(old(ctxPool.Buffers()))
    {
      if ctxPool != null {
        CleanupPool(ctxPool, memory);
        ctxPool := null;
      }
    }
  }

  /** Frees the elements of one list, the next in the pool. */
  method FreeList(list: seq<Address>, memory: Memory, ghost before: seq<Address>, ghost was: set<Address>)
    requires Distinct(before + list) && Elements(before + list) <= was
    requires memory.live == was - Elements(before)
    modifies memory
    ensures memory.live == was - Elements(before + list)
  {
    assert before + list[..0] == before;
    for j := 0 to |list|
      invariant memory.live == was - Elements(before + list[..j])
    {
      assert (before + list)[|before| + j] == list[j];
      assert list[j] !in Elements(before + list[..j]) by {
        assert before + list[..j] == (before + list)[..|before| + j];
      }
      memory.Free(list[j]);
      assert before + list[..j + 1] == before + list[..j] + [list[j]];
    }
    assert list[..|list|] == list;
  }

  /** Frees every buffer in the pool and the pool itself, each once. */
  method CleanupPool(pool: Pool, memory: Memory)
    requires pool.Sound(memory)
    modifies pool, memory
    ensures pool.deleted && memory.live == old(memory.live) - Elements(old(pool.Buffers()))
  {
    ghost var lists, was := pool.lists, memory.live;
    for i := 0 to SLAB_DEPTH
      invariant pool.lists == lists && !pool.deleted
      invariant memory.live == was - Elements(Joined(lists, i))
    {
      JoinedIsPrefix(lists, i + 1, SLAB_DEPTH);
      assert Joined(lists, i + 1) == Joined(lists, i) + lists[i];
      assert Elements(Joined(lists, i + 1)) <= Elements(Joined(lists, SLAB_DEPTH));
      FreeList(pool.lists[i], memory, Joined(lists, i), was);
    }
    pool.Delete();
  }

  /** The thread-local variables of one thread. */
  class Context {
    var pool: Pool?
    var tinst: Thread?
    var lastInMilliSec: nat

    constructor (now: nat)
      ensures pool == null && tinst == null && lastInMilliSec == now
    {
      pool, tinst, lastInMilliSec := null, null, now;
    }

    /** The variables and the thread, if there is one, agree on the pool. */
    ghost predicate Valid(memory: Memory)
      reads this, tinst, pool, memory
    {
      pool != null && pool.Sound(memory) && (tinst != null ==> tinst.ctxPool == pool)
    }

    method Init(th: Thread?, memory: Memory)
      requires pool == null && tinst == null
      modifies this, th
      ensures Valid(memory) && tinst == th && fresh(pool) && pool.Buffers() == []
    {
      tinst := th;
      pool := new Pool();
      if tinst != null {
        tinst.ctxPool := pool;
      }
      JoinedOfEmpty(pool.lists, SLAB_DEPTH);
    }

    method Cleanup(memory: Memory)
      requires Valid(memory)
      modifies this, tinst, pool, memory
      ensures pool == null && tinst == null && (old(tinst) != null ==> old(tinst).ctxPool == null)
      ensures old(pool).deleted && memory.live == old(memory.live) - Elements(old(pool.Buffers()))
    {
      if tinst != null {
        tinst.ctxPool := null;
        tinst := null;
      }
      CleanupPool(pool, memory);
      pool := null;
    }

    /** Frees all that is in the pool when the last collection is long enough ago, and empties it, so
        that nothing in it is freed again. */
    method GarbageCollect(now: nat, memory: Memory) returns (bytes: nat)
      requires Valid(memory) && tinst != null && lastInMilliSec <= now
      modifies this, pool, memory
      ensures Valid(memory) && pool == old(pool) && tinst == old(tinst)
      ensures if now - old(lastInMilliSec) > GC_TIMEOUT_MS
        then memory.live == old(memory.live) - Elements(old(pool.Buffers()))
             && pool.Buffers() == [] && lastInMilliSec == now
             && bytes == 512 * (|old(pool.lists)[0]| + 2 * |old(pool.lists)[1]| + 3 * |old(pool.lists)[2]|
                                + 4 * |old(pool.lists)[3]|)
        else memory.live == old(memory.live) && pool.lists == old(pool.lists)
             && lastInMilliSec == old(lastInMilliSec) && bytes == 0
    {
      bytes := 0;
      if now - lastInMilliSec > GC_TIMEOUT_MS {
        ghost var lists, was := pool.lists, memory.live;
        for i := 0 to SLAB_DEPTH
          invariant pool == old(pool) && tinst == old(tinst) && tinst.ctxPool == pool && !pool.deleted
          invariant memory.live == was - Elements(Joined(lists, i))
          invariant |pool.lists| == SLAB_DEPTH && pool.lists[i..] == lists[i..]
          invariant Joined(pool.lists, i) == [] && bytes == Size(lists, i)
        {
          JoinedIsPrefix(lists, i + 1, SLAB_DEPTH);
          assert Joined(lists, i + 1) == Joined(lists, i) + lists[i];
          assert pool.lists[i] == lists[i];
          FreeList(pool.lists[i], memory, Joined(lists, i), was);
          bytes := bytes + |pool.lists[i]| * (i + 1) * 512;
          ghost var before := pool.lists;
          pool.lists := pool.lists[i := []];
          SameLists(before, pool.lists, i);
        }
        lastInMilliSec := now;
        SizeOfFour(lists);
      }
    }
  }

  /** The bytes in the first n lists: a buffer in list i is counted as 512 times i + 1. */
  function Size(lists: seq<seq<Address>>, n: nat): nat
    requires n <= |lists|
  {
    if n == 0 then 0 else Size(lists, n - 1) + |lists[n - 1]| * n * 512
  }

  lemma SizeOfFour(lists: seq<seq<Address>>)
    requires |lists| == 4
    ensures Size(lists, 4) == 512 * (|lists[0]| + 2 * |lists[1]| + 3 * |lists[2]| + 4 * |lists[3]|)
  {
    assert Size(lists, 0) == 0 && Size(lists, 1) == |lists[0]| * 512;
    assert Size(lists, 2) == Size(lists, 1) + |lists[1]| * 2 * 512;
    assert Size(lists, 3) == Size(lists, 2) + |lists[2]| * 3 * 512;
  }

  lemma {:induction false} SameLists<T>(a: seq<seq<T>>, b: seq<seq<T>>, n: nat)
    requires n <= |a| && n <= |b| && a[..n] == b[..n]
    ensures Joined(a, n) == Joined(b, n)
  {
    if n > 0 {
      assert a[..n][n - 1] == b[..n][n - 1];
      assert a[..n - 1] == a[..n][..n - 1] && b[..n - 1] == b[..n][..n - 1];
      SameLists(a, b, n - 1);
    }
  }
}
