/**
 * Python's `random.shuffle`, the Fisher-Yates shuffle: for i from n-1 down
 * to 1, draw j in [0, i] and swap positions i and j. The random source is
 * the parameter `draws`; the k-th swap uses `draws[k] % (i + 1)`, and 0 once
 * the draws run out. Every sequence of draws yields a permutation.
 */
module Shuffle {

  /** The two elements at `i` and `j` exchanged. */
  function Swap<T>(s: seq<T>, i: nat, j: nat): (r: seq<T>)
    requires i < |s| && j < |s|
    ensures |r| == |s| && r[i] == s[j] && r[j] == s[i]
    ensures forall k :: 0 <= k < |s| && k != i && k != j ==> r[k] == s[k]
  {
    s[i := s[j]][j := s[i]]
  }

  /** Exchanging two elements keeps the multiset of elements. */
  lemma SwapPermutes<T>(s: seq<T>, i: nat, j: nat)
    requires i < |s| && j < |s|
    ensures multiset(Swap(s, i, j)) == multiset(s)
  {
  }

  /** The position drawn for the k-th swap, below `bound`. */
  function Draw(draws: seq<nat>, k: nat, bound: nat): (j: nat)
    requires 0 < bound
    ensures j < bound
  {
    if k < |draws| then draws[k] % bound else 0
  }

  /** The swaps of positions i, i-1, ..., 1 applied to `s`. */
  function ShuffleFrom<T>(s: seq<T>, draws: seq<nat>, i: nat): (r: seq<T>)
    requires i < |s|
    ensures |r| == |s|
    decreases i
  {
    if i == 0 then s
    else ShuffleFrom(Swap(s, i, Draw(draws, |s| - 1 - i, i + 1)), draws, i - 1)
  }

  /** `random.shuffle` of `s` under the given draws. */
  function Shuffled<T>(s: seq<T>, draws: seq<nat>): (r: seq<T>)
    ensures |r| == |s|
  {
    if |s| == 0 then s else ShuffleFrom(s, draws, |s| - 1)
  }

  /** The swaps of positions i down to 1 only reorder the elements. */
  lemma {:induction false} ShuffleFromPermutes<T>(s: seq<T>, draws: seq<nat>, i: nat)
    requires i < |s|
    ensures multiset(ShuffleFrom(s, draws, i)) == multiset(s)
    decreases i
  {
    if i > 0 {
      var j := Draw(draws, |s| - 1 - i, i + 1);
      SwapPermutes(s, i, j);
      ShuffleFromPermutes(Swap(s, i, j), draws, i - 1);
    }
  }

  /** Whatever the draws, a shuffle is a permutation: same elements, same multiplicities. */
  lemma ShuffledPermutes<T>(s: seq<T>, draws: seq<nat>)
    ensures multiset(Shuffled(s, draws)) == multiset(s)
    ensures forall x :: x in Shuffled(s, draws) <==> x in s
  {
    var r := Shuffled(s, draws);
    if |s| > 0 {
      ShuffleFromPermutes(s, draws, |s| - 1);
    }
    forall x ensures x in r <==> x in s {
      assert x in r <==> x in multiset(r);
      assert x in s <==> x in multiset(s);
    }
  }

  /**
   * One Fisher-Yates step on a list whose positions i and j = Draw(...) were
   * exchanged: the remaining swaps lead to the same final order.
   */
  lemma SwapStep<T>(before: seq<T>, after: seq<T>, draws: seq<nat>, i: nat, j: nat)
    requires 0 < i < |before| && |after| == |before|
    requires j == Draw(draws, |before| - 1 - i, i + 1)
    requires after[i] == before[j] && after[j] == before[i]
    requires forall k :: 0 <= k < |before| && k != i && k != j ==> after[k] == before[k]
    ensures ShuffleFrom(after, draws, i - 1) == ShuffleFrom(before, draws, i)
  {
    assert after == Swap(before, i, j);
  }

  /** The in-place shuffle of a list, as `random.shuffle(xs)` performs it. */
  method ShuffleInPlace<T>(a: array<T>, draws: seq<nat>)
    modifies a
    ensures a[..] == Shuffled(old(a[..]), draws)
  {
    if a.Length == 0 {
      return;
    }
    ghost var goal := Shuffled(a[..], draws);
    var i := a.Length - 1;
    while i > 0
      invariant 0 <= i < a.Length
      invariant ShuffleFrom(a[..], draws, i) == goal
      decreases i
    {
      var j := Draw(draws, a.Length - 1 - i, i + 1);
      ghost var before := a[..];
      a[i], a[j] := a[j], a[i];
      SwapStep(before, a[..], draws, i, j);
      i := i - 1;
    }
  }

  /** `xs = list(s); random.shuffle(xs)`: a fresh list shuffled in place. */
  method ShuffledCopy<T>(s: seq<T>, draws: seq<nat>) returns (r: seq<T>)
    ensures r == Shuffled(s, draws)
  {
    var a := new T[|s|](k requires 0 <= k < |s| => s[k]);
    assert a[..] == s;
    ShuffleInPlace(a, draws);
    r := a[..];
  }
}
