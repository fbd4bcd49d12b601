/** The random source and the in-place shuffle of a range. */
module Shuffle {
  import opened Options

  const WIDTH32 := 0x1_0000_0000
  const MAX_RANGE := 0x8000_0000

  function NextState(state: nat): (next: nat)
    ensures next < MAX_RANGE
  {
    (1103515245 * state + 12345) % WIDTH32 % MAX_RANGE
  }

  class Random {
    var state: nat

    constructor (seed: nat)
      ensures state == seed
    {
      state := seed;
    }

    method Reseed(seed: nat)
      modifies this
      ensures state == seed
    {
      state := seed;
    }

    /** A number below range; none for a range that is empty or too wide. */
    method Generate(range: nat) returns (r: Option<nat>)
      modifies this
      ensures state == NextState(old(state))
      ensures r.Some? <==> 0 < range <= MAX_RANGE
      ensures r.Some? ==> r.value < range && r.value == state % range
    {
      state := NextState(state);
      r := if 0 < range <= MAX_RANGE then Some(state % range) else None;
    }
  }

  function Swapped<T>(s: seq<T>, i: nat, j: nat): (t: seq<T>)
    requires i < |s| && j < |s|
    ensures |t| == |s|
  {
    s[i := s[j]][j := s[i]]
  }

  /** How many numbers are drawn for a range. */
  function Draws(width: nat): nat { if width == 0 then 0 else width - 1 }

  /** The k-th number drawn is below the width that the range then has. */
  predicate AreDraws(draws: seq<nat>, width: nat) {
    |draws| == Draws(width) && forall k | 0 <= k < |draws| :: draws[k] < width - k
  }

  /** What the draws make of the range of this width that starts at begin: each decides the last
      element of what is left of it. */
  function Shuffled<T>(s: seq<T>, begin: nat, width: nat, draws: seq<nat>): (t: seq<T>)
    requires begin + width <= |s| && AreDraws(draws, width)
    ensures |t| == |s|
    decreases width
  {
    if width < 2 then s
    else Shuffled(Swapped(s, begin + draws[0], begin + width - 1), begin, width - 1, draws[1..])
  }

  lemma ShuffledCons<T>(s: seq<T>, begin: nat, width: nat, k: nat, rest: seq<nat>)
    requires 2 <= width && begin + width <= |s| && k < width && AreDraws(rest, width - 1)
    ensures AreDraws([k] + rest, width)
    ensures Shuffled(s, begin, width, [k] + rest)
      == Shuffled(Swapped(s, begin + k, begin + width - 1), begin, width - 1, rest)
  {
    assert ([k] + rest)[1..] == rest;
  }

  /** The numbers that a random source in this state draws for a range, and its state after that. */
  function DrawsFrom(state: nat, width: nat): (draws: seq<nat>)
    ensures AreDraws(draws, width)
    decreases width
  {
    if width < 2 then [] else [NextState(state) % width] + DrawsFrom(NextState(state), width - 1)
  }

  function StateAfter(state: nat, width: nat): nat
    decreases width
  {
    if width < 2 then state else StateAfter(NextState(state), width - 1)
  }

  /** The state after k numbers have been drawn. */
  function Iterated(state: nat, k: nat): nat {
    if k == 0 then state else NextState(Iterated(state, k - 1))
  }

  lemma {:induction false} IteratedOnce(state: nat, k: nat)
    ensures Iterated(NextState(state), k) == Iterated(state, k + 1)
  {
    if k > 0 {
      IteratedOnce(state, k - 1);
    }
  }

  /** The draws for a range are what the source yields one after the other, reduced to what is left of it. */
  lemma {:induction false} DrawsAreConsecutive(state: nat, width: nat)
    ensures StateAfter(state, width) == Iterated(state, Draws(width))
    ensures forall k | 0 <= k < Draws(width) :: DrawsFrom(state, width)[k] == Iterated(state, k + 1) % (width - k)
    decreases width
  {
    if width >= 2 {
      var next := NextState(state);
      DrawsAreConsecutive(next, width - 1);
      IteratedOnce(state, Draws(width - 1));
      assert Iterated(state, 0) == state && Iterated(state, 1) == next;
      forall k | 0 <= k < Draws(width) ensures DrawsFrom(state, width)[k] == Iterated(state, k + 1) % (width - k) {
        if k > 0 {
          IteratedOnce(state, k);
        }
      }
    }
  }

  /** The vector after its elements from begin to end have been shuffled. */
  function ShuffledBy<T>(state: nat, s: seq<T>, begin: nat, end: nat): (t: seq<T>)
    requires begin <= end <= |s|
    ensures |t| == |s|
  {
    Shuffled(s, begin, end - begin, DrawsFrom(state, end - begin))
  }

  lemma ShuffledByStep<T>(state: nat, s: seq<T>, begin: nat, end: nat)
    requires begin + 2 <= end <= |s|
    ensures var next := NextState(state);
      ShuffledBy(state, s, begin, end)
      == ShuffledBy(next, Swapped(s, begin + next % (end - begin), end - 1), begin, end - 1)
  {
    var width := end - begin;
    ShuffledCons(s, begin, width, NextState(state) % width, DrawsFrom(NextState(state), width - 1));
  }

  /** Shuffles v[begin..end]. Fails on a range that is not one. */
  method ShuffleRange<T>(random: Random, begin: int, end: int, v: seq<T>) returns (shuffled: Option<seq<T>>)
    requires |v| < MAX_RANGE
    modifies random
    ensures shuffled.Some? <==> 0 <= begin <= end <= |v|
    ensures shuffled.Some? ==>
      && shuffled.value == ShuffledBy(old(random.state), v, begin, end)
      && random.state == StateAfter(old(random.state), end - begin)
  {
    if !(0 <= begin <= |v|) || !(begin <= end <= |v|) {
      return None;
    }
    var s := v;
    var rangeWidth := end - begin;
    while rangeWidth >= 2
      invariant 0 <= rangeWidth <= end - begin && |s| == |v|
      invariant ShuffledBy(old(random.state), v, begin, end) == ShuffledBy(random.state, s, begin, begin + rangeWidth)
      invariant StateAfter(old(random.state), end - begin) == StateAfter(random.state, rangeWidth)
    {
      ShuffledByStep(random.state, s, begin, begin + rangeWidth);
      var lastInRange := begin + rangeWidth - 1;
      var drawn := random.Generate(rangeWidth);
      var selected := begin + drawn.value;
      s := Swapped(s, selected, lastInRange);
      rangeWidth := rangeWidth - 1;
    }
    shuffled := Some(s);
  }

  /** The same elements, in another order inside the range at most. */
  ghost predicate PermutesRange<T>(s: seq<T>, t: seq<T>, begin: nat, end: nat) {
    && |s| == |t| && begin <= end <= |s|
    && multiset(s) == multiset(t)
    && forall i | 0 <= i < |s| && !(begin <= i < end) :: s[i] == t[i]
  }

  lemma SwapPermutes<T>(s: seq<T>, begin: nat, end: nat, i: nat, j: nat)
    requires begin <= i < end && begin <= j < end <= |s|
    ensures PermutesRange(s, Swapped(s, i, j), begin, end)
  {
  }

  lemma {:induction false} ShuffleIsPermutation<T>(s: seq<T>, begin: nat, width: nat, draws: seq<nat>)
    requires begin + width <= |s| && AreDraws(draws, width)
    ensures PermutesRange(s, Shuffled(s, begin, width, draws), begin, begin + width)
    decreases width
  {
    if width >= 2 {
      SwapPermutes(s, begin, begin + width, begin + draws[0], begin + width - 1);
      ShuffleIsPermutation(Swapped(s, begin + draws[0], begin + width - 1), begin, width - 1, draws[1..]);
    }
  }

  lemma ShuffledByPermutes<T>(state: nat, s: seq<T>, begin: nat, end: nat)
    requires begin <= end <= |s|
    ensures PermutesRange(s, ShuffledBy(state, s, begin, end), begin, end)
  {
    ShuffleIsPermutation(s, begin, end - begin, DrawsFrom(state, end - begin));
  }

  lemma ThreeParts<T>(u: seq<T>, begin: nat, end: nat)
    requires begin <= end <= |u|
    ensures multiset(u[begin..end]) == multiset(u) - multiset(u[..begin]) - multiset(u[end..])
  {
    assert u == u[..begin] + u[begin..end] + u[end..];
  }

  lemma RangesHaveSameElements<T>(u: seq<T>, t: seq<T>, begin: nat, end: nat)
    requires PermutesRange(u, t, begin, end)
    ensures multiset(u[begin..end]) == multiset(t[begin..end])
  {
    ThreeParts(u, begin, end);
    ThreeParts(t, begin, end);
    assert u[..begin] == t[..begin] && u[end..] == t[end..];
  }

  /** An element of the range of t is somewhere in the range of u. */
  lemma Find<T>(u: seq<T>, t: seq<T>, begin: nat, end: nat, i: nat) returns (k: nat)
    requires PermutesRange(u, t, begin, end) && begin <= i < end
    ensures begin + k < end && u[begin + k] == t[i]
  {
    RangesHaveSameElements(u, t, begin, end);
    var range := u[begin..end];
    assert t[i] in range by {
      assert t[begin..end][i - begin] == t[i];
      assert t[i] in multiset(range);
    }
    k :| k < |range| && range[k] == t[i];
  }

  /** Swapping the element that belongs last into its place leaves the others to permute. */
  lemma DrawLast<T>(s: seq<T>, t: seq<T>, begin: nat, last: nat) returns (k: nat)
    requires begin <= last < |s| && PermutesRange(s, t, begin, last + 1)
    ensures begin + k <= last && PermutesRange(Swapped(s, begin + k, last), t, begin, last)
  {
    k := Find(s, t, begin, last + 1, last);
    var swapped := Swapped(s, begin + k, last);
    SwapPermutes(s, begin, last + 1, begin + k, last);
    assert swapped[last] == t[last] && multiset(swapped) == multiset(t);
  }

  lemma NothingToPermute<T>(s: seq<T>, t: seq<T>, begin: nat, end: nat)
    requires PermutesRange(s, t, begin, end) && end <= begin + 1
    ensures s == t
  {
    if end == begin + 1 {
      var k := Find(s, t, begin, end, begin);
    }
  }

  /** Every order of the range can be drawn. */
  lemma {:induction false} EveryOrderCanBeDrawn<T>(s: seq<T>, t: seq<T>, begin: nat, width: nat)
    returns (draws: seq<nat>)
    requires PermutesRange(s, t, begin, begin + width)
    ensures AreDraws(draws, width) && Shuffled(s, begin, width, draws) == t
    decreases width
  {
    if width < 2 {
      draws := [];
      NothingToPermute(s, t, begin, begin + width);
    } else {
      var last := begin + width - 1;
      var k := DrawLast(s, t, begin, last);
      var swapped := Swapped(s, begin + k, last);
      var rest := EveryOrderCanBeDrawn(swapped, t, begin, width - 1);
      ShuffledCons(s, begin, width, k, rest);
      draws := [k] + rest;
    }
  }

  ghost predicate DistinctRange<T>(s: seq<T>, begin: nat, end: nat)
    requires end <= |s|
  {
    forall i, j | begin <= i < j < end :: s[i] != s[j]
  }

  /** The first draw decides what is last in the range. */
  lemma FirstDrawDecides<T>(s: seq<T>, begin: nat, width: nat, d: seq<nat>)
    requires 2 <= width && begin + width <= |s| && AreDraws(d, width)
    ensures Shuffled(s, begin, width, d)[begin + width - 1] == s[begin + d[0]]
  {
    ShuffleIsPermutation(Swapped(s, begin + d[0], begin + width - 1), begin, width - 1, d[1..]);
  }

  lemma FirstStates()
    ensures NextState(1) == 1103527590 && NextState(2) == 59559187
  {
  }

  lemma NotBothLast(width: nat)
    requires 2 <= width
    ensures 1103527590 % width != width - 1 || 59559187 % width != width - 1
  {
    if 1103527590 % width == width - 1 && 59559187 % width == width - 1 {
      IsMultiple(1103527590, width);
      IsMultiple(59559187, width);
      NoCommonFactor(width, 1103527590 / width + 1, 59559187 / width + 1);
    }
  }

  /** For every width, the first draw with seed 1 or with seed 2 moves the last element. */
  lemma SomeSeedMovesLast(width: nat) returns (seed: nat)
    requires 2 <= width
    ensures 1 <= seed <= 2 && NextState(seed) % width != width - 1
  {
    FirstStates();
    NotBothLast(width);
    seed := if 1103527590 % width != width - 1 then 1 else 2;
  }

  lemma IsMultiple(x: nat, width: nat)
    requires 0 < width && x % width == width - 1
    ensures x + 1 == width * (x / width + 1)
  {
  }

  lemma NoCommonFactor(width: nat, p: nat, q: nat)
    requires width * p == 1103527591 && width * q == 59559188
    ensures width == 1
  {
    var m := 495218445 * q - 26727749 * p;
    assert width * m == 495218445 * (width * q) - 26727749 * (width * p);
    if width > 1 {
      NotOne(width, m);
    }
  }

  lemma NotOne(a: nat, b: int)
    requires a >= 2
    ensures a * b != 1
  {
    if b >= 1 {
      assert a * b >= a * 1;
    }
  }

  /** No two series of draws give the same order: as every order can be drawn, draws that are equally
      likely give every order equally often. */
  lemma {:induction false} DrawsAreDetermined<T>(s: seq<T>, begin: nat, width: nat, d: seq<nat>, e: seq<nat>)
    requires begin + width <= |s| && AreDraws(d, width) && AreDraws(e, width)
    requires DistinctRange(s, begin, begin + width)
    requires Shuffled(s, begin, width, d) == Shuffled(s, begin, width, e)
    ensures d == e
    decreases width
  {
    if width >= 2 {
      FirstDrawDecides(s, begin, width, d);
      FirstDrawDecides(s, begin, width, e);
      DrawsAreDetermined(Swapped(s, begin + d[0], begin + width - 1), begin, width - 1, d[1..], e[1..]);
      assert d == [d[0]] + d[1..] && e == [e[0]] + e[1..];
    }
  }
}
