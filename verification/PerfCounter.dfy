/** The performance counter: a single call of Update on the counter's fields, with its shift loop and its
    compare and swap loops. PerfCounterRuns interleaves many such calls. */
module PerfCounter {
  import opened Bits

  const WIDTH32 := 0x1_0000_0000
  const WIDTH64 := 0x1_0000_0000_0000_0000
  const MAX32 := 0xffff_ffff
  const BUCKETS := 32

  type Word32 = x: nat | x < WIDTH32

  /** v belongs in bucket b: the powers of two around it, with 0 in the first bucket. */
  predicate InBucket(v: nat, b: nat) {
    if v == 0 then b == 0 else Pow2(b) <= v < Pow2(b + 1)
  }

  lemma BucketIsUnique(v: nat, b: nat, c: nat)
    requires InBucket(v, b) && InBucket(v, c)
    ensures b == c
  {
    if b < c {
      Pow2Grows(b + 1, c);
    } else if c < b {
      Pow2Grows(c + 1, b);
    }
  }

  /** How often v can be halved before it is less than two. */
  function BucketOf(v: nat): nat {
    if v < 2 then 0 else 1 + BucketOf(v / 2)
  }

  lemma {:induction false} BucketOfIsRight(v: nat)
    ensures InBucket(v, BucketOf(v))
  {
    if v >= 2 {
      BucketOfIsRight(v / 2);
    }
  }

  lemma Pow2Of32()
    ensures Pow2(32) == WIDTH32
  {
    assert Pow2(8) == 0x100;
    assert Pow2(16) == 0x1_0000;
    assert Pow2(24) == 0x100_0000;
  }

  lemma BucketOfWord(v: Word32)
    ensures BucketOf(v) < BUCKETS
  {
    BucketOfIsRight(v);
    if BucketOf(v) >= BUCKETS {
      Pow2Grows(BUCKETS, BucketOf(v));
      Pow2Of32();
    }
  }

  method BucketIndex(val: Word32) returns (count: nat)
    ensures InBucket(val, count) && count < BUCKETS
  {
    BucketOfWord(val);
    var tmp := val;
    count := 0;
    for i := 0 to BUCKETS
      invariant count == i && count + BucketOf(tmp) == BucketOf(val)
    {
      tmp := tmp / 2;
      if tmp == 0 {
        break;
      }
      count := count + 1;
    }
    BucketOfIsRight(val);
  }

  class Counter {
    var val: nat
    var count: nat
    var min: nat
    var max: nat
    const bucket: array<nat>

    predicate Valid()
      reads this, bucket
    {
      && val < WIDTH64 && count < WIDTH64 && min <= MAX32 && max <= MAX32
      && bucket.Length == BUCKETS && forall i | 0 <= i < BUCKETS :: bucket[i] < WIDTH32
    }

    constructor ()
      ensures Valid() && val == 0 && count == 0 && min == MAX32 && max == 0
      ensures fresh(bucket) && forall i | 0 <= i < BUCKETS :: bucket[i] == 0
    {
      val, count, min, max := 0, 0, MAX32, 0;
      bucket := new nat[BUCKETS];
      new;
      InitBucket();
    }

    method InitBucket()
      requires bucket.Length == BUCKETS
      modifies bucket
      ensures forall i | 0 <= i < BUCKETS :: bucket[i] == 0
    {
      for i := 0 to BUCKETS
        invariant forall j | 0 <= j < i :: bucket[j] == 0
      {
        bucket[i] := 0;
      }
    }

    /** Adds one to the bucket of val and to no other. */
    method UpdateBucket(v: Word32)
      requires Valid()
      modifies bucket
      ensures Valid()
      ensures forall i: nat | i < BUCKETS ::
        bucket[i] == if InBucket(v, i) then (old(bucket[i]) + 1) % WIDTH32 else old(bucket[i])
    {
      var count := BucketIndex(v);
      bucket[count] := (bucket[count] + 1) % WIDTH32;
      forall i: nat | i < BUCKETS && InBucket(v, i) ensures i == count {
        BucketIsUnique(v, i, count);
      }
    }

    /** A call that no other call disturbs. */
    method Update(v: Word32)
      requires Valid()
      modifies this, bucket
      ensures Valid()
      ensures val == (old(val) + v) % WIDTH64 && count == (old(count) + 1) % WIDTH64
      ensures min <= old(min) && min <= v && (min == old(min) || min == v)
      ensures max >= old(max) && max >= v && (max == old(max) || max == v)
      ensures forall i: nat | i < BUCKETS ::
        bucket[i] == if InBucket(v, i) then (old(bucket[i]) + 1) % WIDTH32 else old(bucket[i])
    {
      val := (val + v) % WIDTH64;
      count := (count + 1) % WIDTH64;
      var minCount := min;
      while v < minCount
        invariant minCount == min && (min == old(min) || min == v) && min <= old(min)
        invariant Valid() && val == (old(val) + v) % WIDTH64 && count == (old(count) + 1) % WIDTH64
        invariant max == old(max)
        invariant bucket[..] == old(bucket[..])
        decreases minCount
      {
        min := CompareAndSwap(min, minCount, v);
        minCount := min;
      }
      var maxCount := max;
      while v > maxCount
        invariant maxCount == max && (max == old(max) || max == v) && max >= old(max)
        invariant Valid() && val == (old(val) + v) % WIDTH64 && count == (old(count) + 1) % WIDTH64
        invariant min <= old(min) && min <= v && (min == old(min) || min == v)
        invariant bucket[..] == old(bucket[..])
        decreases v - maxCount
      {
        max := CompareAndSwap(max, maxCount, v);
        maxCount := max;
      }
      UpdateBucket(v);
    }
  }

  /** The new value of a cell that is swapped if it holds what is expected. */
  function CompareAndSwap(cell: nat, expected: nat, v: nat): nat { if cell == expected then v else cell }
}
