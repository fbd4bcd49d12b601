/** Sequences in general: reversal and subsequences. */
module Sequences {
  function At<T>(s: seq<T>, i: nat): seq<T> { if i < |s| then [s[i]] else [] }

  function Reversed<T>(s: seq<T>): (r: seq<T>)
    ensures |r| == |s|
  {
    if s == [] then [] else Reversed(s[1..]) + [s[0]]
  }

  lemma {:induction false} ReversedSnoc<T>(s: seq<T>, x: T)
    ensures Reversed(s + [x]) == [x] + Reversed(s)
  {
    if s != [] {
      assert (s + [x])[1..] == s[1..] + [x];
      ReversedSnoc(s[1..], x);
    }
  }

  /** The positions at, strictly increasing, pick the first j elements of sub out of the first i of s. */
  ghost predicate PicksOut<T>(at: seq<nat>, sub: seq<T>, j: nat, s: seq<T>, i: nat)
    requires j <= |sub| && i <= |s|
  {
    && |at| >= j
    && (forall k | 0 <= k < j :: at[k] < i && s[at[k]] == sub[k])
    && (forall k, m | 0 <= k < m < j :: at[k] < at[m])
  }

  ghost predicate IsSubsequence<T>(sub: seq<T>, s: seq<T>) {
    exists at: seq<nat> :: PicksOut(at, sub, |sub|, s, |s|)
  }

  lemma {:induction false} PicksOutLength<T>(at: seq<nat>, sub: seq<T>, j: nat, s: seq<T>, i: nat, k: nat)
    requires k <= j <= |sub| && i <= |s| && PicksOut(at, sub, j, s, i)
    ensures k <= i && (0 < k ==> k - 1 <= at[k - 1])
  {
    if k > 0 {
      PicksOutLength(at, sub, j, s, i, k - 1);
      assert at[k - 1] < i;
    }
  }

  /** s without its element k. */
  function Without<T>(s: seq<T>, k: nat): seq<T>
    requires k < |s|
  {
    s[..k] + s[k + 1..]
  }

  lemma {:induction false} ReversedWithout<T>(s: seq<T>, k: nat)
    requires k < |s|
    ensures Reversed(Without(s, k)) == Without(Reversed(s), |s| - 1 - k)
  {
    if k == 0 {
      assert Without(s, 0) == s[1..];
      assert Reversed(s) == Reversed(s[1..]) + [s[0]];
    } else {
      assert Without(s, k)[0] == s[0] && Without(s, k)[1..] == Without(s[1..], k - 1);
      ReversedWithout(s[1..], k - 1);
    }
  }

  lemma PicksOutSnoc<T>(at: seq<nat>, sub: seq<T>, s: seq<T>, x: T)
    requires |at| == |sub| && PicksOut(at, sub, |sub|, s, |s|)
    ensures PicksOut(at + [|s|], sub + [x], |sub| + 1, s + [x], |s| + 1)
  {
  }

  lemma PicksOutWithout<T>(at: seq<nat>, sub: seq<T>, s: seq<T>, k: nat)
    requires |at| == |sub| && PicksOut(at, sub, |sub|, s, |s|) && k < |sub|
    ensures PicksOut(Without(at, k), Without(sub, k), |sub| - 1, s, |s|)
  {
  }

  ghost predicate Distinct<T>(s: seq<T>) {
    forall i, j | 0 <= i < j < |s| :: s[i] != s[j]
  }

  /** How many of the first n are set. */
  function CountSet(flags: seq<bool>, n: nat): (count: nat)
    requires n <= |flags|
    ensures count <= n
  {
    if n == 0 then 0 else CountSet(flags, n - 1) + if flags[n - 1] then 1 else 0
  }

  /** s has w at position i. */
  predicate HasAt<T(==)>(s: seq<T>, i: nat, w: seq<T>) {
    i + |w| <= |s| && forall k | 0 <= k < |w| :: s[i + k] == w[k]
  }

  /** Where s from i on consists of w and rest, w is at i and rest is what follows it. */
  lemma Parts<T>(s: seq<T>, i: nat, w: seq<T>, rest: seq<T>) returns (j: nat)
    requires i <= |s| && s[i..] == w + rest
    ensures HasAt(s, i, w) && j == i + |w| <= |s| && s[j..] == rest
  {
    j := i + |w|;
    assert s[i..][|w|..] == s[j..];
    assert forall k | 0 <= k < |w| :: s[i + k] == s[i..][k] == w[k];
  }
}
