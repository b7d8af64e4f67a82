/**
 * The two Fisher–Yates passes the games use, with the random source replaced
 * by draws the caller supplies.
 *
 * - The full backward pass (memory cards): for i from n-1 down to 1, pick
 *   j in [0, i] and swap positions i and j.
 * - The forward partial pass (chimp test): for i from 0 to count-1, pick
 *   an offset r in [0, n-i), swap positions i and i+r, and take the
 *   element now at position i.
 */
module FisherYates {
  import opened Common

  /** Exchanges positions `i` and `j`. */
  function Swap<T>(a: seq<T>, i: nat, j: nat): (r: seq<T>)
    requires i < |a| && j < |a|
    ensures |r| == |a|
    ensures r[i] == a[j] && r[j] == a[i]
    ensures forall k :: 0 <= k < |a| && k != i && k != j ==> r[k] == a[k]
    ensures multiset(r) == multiset(a)
  {
    a[i := a[j]][j := a[i]]
  }

  lemma SwapKeepsDistinct<T>(a: seq<T>, i: nat, j: nat)
    requires i < |a| && j < |a|
    ensures Distinct(a) ==> Distinct(Swap(a, i, j))
  {
    var r := Swap(a, i, j);
    forall p, q | 0 <= p < q < |r| && Distinct(a) ensures r[p] != r[q] {
      var p' := if p == i then j else if p == j then i else p;
      var q' := if q == i then j else if q == j then i else q;
      assert r[p] == a[p'] && r[q] == a[q'];
      assert p' != q';
    }
  }

  // ---------------------------------------------------------------------------
  // Full backward pass

  /**
   * Draws for the remaining steps of a backward pass: the step that consumes
   * `draws[k]` is i = |draws| - k, and its draw must lie in [0, i].
   */
  predicate BackwardDraws(draws: seq<nat>)
  {
    forall k :: 0 <= k < |draws| ==> draws[k] <= |draws| - k
  }

  /** The draws a whole backward pass over `n` elements consumes: one per i in n-1 .. 1. */
  predicate ShuffleDraws(n: nat, draws: seq<nat>)
  {
    |draws| == (if n == 0 then 0 else n - 1) && BackwardDraws(draws)
  }

  /** Runs the backward pass for i = |draws| down to 1. */
  function ShuffleSteps<T>(a: seq<T>, draws: seq<nat>): (r: seq<T>)
    requires |draws| == 0 || |draws| < |a|
    requires BackwardDraws(draws)
    ensures |r| == |a|
    ensures multiset(r) == multiset(a)
    ensures Distinct(a) ==> Distinct(r)
    decreases |draws|
  {
    if |draws| == 0 then a
    else
      var i := |draws|;
      SwapKeepsDistinct(a, i, draws[0]);
      ShuffleSteps(Swap(a, i, draws[0]), draws[1..])
  }

  /**
   * The full shuffle of a copy of `a`: the result is a permutation of `a`
   * (same length, same multiset), so a sequence without repetitions stays
   * without repetitions. The argument is a value and is not changed.
   */
  function Shuffle<T>(a: seq<T>, draws: seq<nat>): (r: seq<T>)
    requires ShuffleDraws(|a|, draws)
    ensures |r| == |a|
    ensures multiset(r) == multiset(a)
    ensures Distinct(a) ==> Distinct(r)
  {
    ShuffleSteps(a, draws)
  }

  // ---------------------------------------------------------------------------
  // Forward partial pass

  /**
   * Offsets for picking `|offsets|` of `n` elements: the offset used at step
   * i must lie in [0, n - i), so the swap partner i + offset lies in [i, n).
   */
  predicate ForwardOffsets(n: nat, offsets: seq<nat>)
  {
    |offsets| <= n && forall i :: 0 <= i < |offsets| ==> offsets[i] < n - i
  }

  /** Steps i .. |offsets|-1 of the forward pass; `picked` holds what steps 0 .. i-1 took. */
  function PickSteps<T>(a: seq<T>, i: nat, offsets: seq<nat>, picked: seq<T>): (r: (seq<T>, seq<T>))
    requires ForwardOffsets(|a|, offsets)
    requires i <= |offsets|
    requires picked == a[..i]
    ensures |r.0| == |a|
    ensures multiset(r.0) == multiset(a)
    ensures Distinct(a) ==> Distinct(r.0)
    ensures r.1 == r.0[..|offsets|]
    decreases |offsets| - i
  {
    if i == |offsets| then (a, picked)
    else
      var a' := Swap(a, i, i + offsets[i]);
      SwapKeepsDistinct(a, i, i + offsets[i]);
      assert a'[..i] == a[..i];
      assert picked + [a'[i]] == a'[..i + 1];
      PickSteps(a', i + 1, offsets, picked + [a'[i]])
  }

  /**
   * The elements the forward partial pass takes: one per offset, each drawn
   * from `a`, never the same position twice, so picks from a sequence
   * without repetitions are pairwise distinct.
   */
  function PartialPick<T>(a: seq<T>, offsets: seq<nat>): (picked: seq<T>)
    requires ForwardOffsets(|a|, offsets)
    ensures |picked| == |offsets|
    ensures multiset(picked) <= multiset(a)
    ensures forall k :: 0 <= k < |picked| ==> picked[k] in a
    ensures Distinct(a) ==> Distinct(picked)
  {
    var r := PickSteps(a, 0, offsets, []);
    assert r.0 == r.1 + r.0[|offsets|..];
    assert forall k :: 0 <= k < |r.1| ==> r.1[k] in multiset(r.0);
    r.1
  }
}
