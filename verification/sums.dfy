/** Sums of natural-number sequences and the facts about them that the
    histogram and prefix-sum kernels rely on. */
module Sums {

  /** Sum of a sequence, peeled from the back so that `Sum(s[..k+1])`
      unfolds to `Sum(s[..k]) + s[k]`. */
  function Sum(s: seq<nat>): nat
    decreases |s|
  {
    if |s| == 0 then 0 else Sum(s[..|s| - 1]) + s[|s| - 1]
  }

  /** Exclusive prefix sum: entry `k` is the sum of the entries strictly before `k`. */
  function ExclusiveScan(s: seq<nat>): (r: seq<nat>)
    ensures |r| == |s|
    ensures |s| > 0 ==> r[0] == 0
    ensures forall k :: 0 <= k < |s| - 1 ==> r[k + 1] == r[k] + s[k]
  {
    var r := seq(|s|, k requires 0 <= k < |s| => Sum(s[..k]));
    assert forall k :: 0 <= k < |s| - 1 ==> r[k + 1] == r[k] + s[k] by {
      forall k | 0 <= k < |s| - 1
        ensures r[k + 1] == r[k] + s[k]
      {
        SumPrefixStep(s, k);
      }
    }
    r
  }

  lemma SumPrefixStep(s: seq<nat>, k: nat)
    requires k < |s|
    ensures Sum(s[..k + 1]) == Sum(s[..k]) + s[k]
  {
    assert s[..k + 1][..k] == s[..k];
  }

  lemma {:induction false} SumAppend(a: seq<nat>, b: seq<nat>)
    ensures Sum(a + b) == Sum(a) + Sum(b)
    decreases |b|
  {
    if |b| == 0 {
      assert a + b == a;
    } else {
      var b' := b[..|b| - 1];
      assert (a + b)[..|a + b| - 1] == a + b';
      SumAppend(a, b');
    }
  }

  lemma SumSplit(s: seq<nat>, i: nat)
    requires i <= |s|
    ensures Sum(s) == Sum(s[..i]) + Sum(s[i..])
  {
    assert s == s[..i] + s[i..];
    SumAppend(s[..i], s[i..]);
  }

  /** The sum of a slice `s[i..j]` is the difference of two prefix sums. */
  lemma SumSlice(s: seq<nat>, i: nat, j: nat)
    requires i <= j <= |s|
    ensures Sum(s[..j]) == Sum(s[..i]) + Sum(s[i..j])
  {
    SumSplit(s[..j], i);
    assert s[..j][..i] == s[..i];
    assert s[..j][i..] == s[i..j];
  }

  lemma {:induction false} SumZeros(s: seq<nat>)
    requires forall k :: 0 <= k < |s| ==> s[k] == 0
    ensures Sum(s) == 0
    decreases |s|
  {
    if |s| > 0 {
      SumZeros(s[..|s| - 1]);
    }
  }

  /** Adding one to a single entry adds one to the sum. */
  lemma {:induction false} SumBump(s: seq<nat>, d: nat)
    requires d < |s|
    ensures Sum(s[d := s[d] + 1]) == Sum(s) + 1
  {
    var t := s[d := s[d] + 1];
    SumSplit(s, d);
    SumSplit(t, d);
    assert t[..d] == s[..d];
    assert t[d..] == [s[d] + 1] + s[d + 1..];
    assert s[d..] == [s[d]] + s[d + 1..];
    SumAppend([s[d] + 1], s[d + 1..]);
    SumAppend([s[d]], s[d + 1..]);
  }

  /** Sum of `f` over the elements of a sequence of indices, from the front. */
  function SumMap(xs: seq<nat>, f: nat -> nat): nat
    decreases |xs|
  {
    if |xs| == 0 then 0 else f(xs[0]) + SumMap(xs[1..], f)
  }

  /** The indices `0 .. m-1` in increasing order. */
  function Range(m: nat): (r: seq<nat>)
    ensures |r| == m
    ensures forall i :: 0 <= i < m ==> r[i] == i
  {
    seq(m, i requires 0 <= i < m => i)
  }

  lemma {:induction false} SumMapAppend(xs: seq<nat>, ys: seq<nat>, f: nat -> nat)
    ensures SumMap(xs + ys, f) == SumMap(xs, f) + SumMap(ys, f)
    decreases |xs|
  {
    if |xs| == 0 {
      assert xs + ys == ys;
    } else {
      assert (xs + ys)[1..] == xs[1..] + ys;
      SumMapAppend(xs[1..], ys, f);
    }
  }

  /** Removing the element at position `j` removes its term from the sum. */
  lemma SumMapRemove(ys: seq<nat>, j: nat, f: nat -> nat)
    requires j < |ys|
    ensures SumMap(ys, f) == f(ys[j]) + SumMap(ys[..j] + ys[j + 1..], f)
  {
    assert ys == ys[..j] + ([ys[j]] + ys[j + 1..]);
    SumMapAppend(ys[..j], [ys[j]] + ys[j + 1..], f);
    SumMapAppend(ys[..j], ys[j + 1..], f);
    assert ([ys[j]] + ys[j + 1..])[1..] == ys[j + 1..];
  }

  /** Removing position `j` removes one occurrence of its element. */
  lemma MultisetRemove(ys: seq<nat>, j: nat)
    requires j < |ys|
    ensures multiset(ys[..j] + ys[j + 1..]) == multiset(ys) - multiset{ys[j]}
  {
    assert ys == ys[..j] + [ys[j]] + ys[j + 1..];
  }

  /** The first element of `xs` occurs in a permutation `ys` of it, and the
      rests left after removing it from each are again permutations. */
  lemma MatchFirst(xs: seq<nat>, ys: seq<nat>) returns (j: nat)
    requires |xs| > 0 && multiset(xs) == multiset(ys)
    ensures j < |ys| && ys[j] == xs[0]
    ensures multiset(xs[1..]) == multiset(ys[..j] + ys[j + 1..])
  {
    assert xs[0] in multiset(ys);
    j :| 0 <= j < |ys| && ys[j] == xs[0];
    MultisetRemove(ys, j);
    MultisetRemove(xs, 0);
    assert xs[..0] + xs[1..] == xs[1..];
  }

  /** A sum over indices does not depend on the order the indices come in:
      this is what makes an atomic accumulation independent of scheduling. */
  lemma {:induction false} SumMapPermutation(xs: seq<nat>, ys: seq<nat>, f: nat -> nat)
    requires multiset(xs) == multiset(ys)
    ensures SumMap(xs, f) == SumMap(ys, f)
    decreases |xs|
  {
    if |xs| == 0 {
      assert |ys| == |multiset(ys)| == 0;
    } else {
      var j := MatchFirst(xs, ys);
      SumMapPermutation(xs[1..], ys[..j] + ys[j + 1..], f);
      SumMapRemove(ys, j, f);
    }
  }
}
