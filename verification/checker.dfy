/** The Checker kernel: `T = 512 * numWorkgroups` threads, each walking a
    window of at most `w = ceil(n / T)` adjacent pairs starting at its own
    global index, adding 1 to `Result[0]` for every pair out of order.
    Windows start at consecutive indices (`thread_index + i`), so they
    overlap; `CheckerCorrectedTotal` is the version with windows laid end to end. */
module Checker {

  import opened Arith
  import opened Layout
  import opened Digits

  /** `thread_index + i < total_element - 1` with `total_element - 1` taken in u32. */
  function LastPair(n: u32): (last: nat)
    ensures n >= 1 ==> last == n - 1
    ensures n == 0 ==> last == 0xffff_ffff
  {
    (n + 0xffff_ffff) % 0x1_0000_0000
  }

  /** `workLoadPerThread`, with the float ceiling taken exactly. */
  function Workload(n: nat, threads: nat): (w: nat)
    requires threads > 0
    ensures n == 0 <==> w == 0
    ensures n <= threads ==> w <= 1
  {
    var w := CeilDiv(n, threads);
    assert n <= threads ==> w <= 1 by {
      if n <= threads && w > 0 {
        MulLessCancel(w - 1, 1, threads);
      }
    }
    w
  }

  /** Number of pairs `(j, j + 1)` with `lo <= j < hi` that are out of order. */
  function Descents(keys: seq<u32>, lo: nat, hi: nat): nat
    requires hi <= lo || hi < |keys|
    decreases hi
  {
    if hi <= lo then 0
    else Descents(keys, lo, hi - 1) + (if keys[hi - 1] > keys[hi] then 1 else 0)
  }

  /** No pair in `[lo, hi)` is out of order. */
  predicate Ordered(keys: seq<u32>, lo: nat, hi: nat)
    requires hi <= lo || hi < |keys|
  {
    forall j :: lo <= j < hi ==> keys[j] <= keys[j + 1]
  }

  lemma {:induction false} DescentsZeroIff(keys: seq<u32>, lo: nat, hi: nat)
    requires hi <= lo || hi < |keys|
    ensures Descents(keys, lo, hi) == 0 <==> Ordered(keys, lo, hi)
    decreases hi
  {
    if hi > lo {
      DescentsZeroIff(keys, lo, hi - 1);
    }
  }

  lemma {:induction false} DescentsSplit(keys: seq<u32>, lo: nat, mid: nat, hi: nat)
    requires lo <= mid <= hi && (hi <= lo || hi < |keys|)
    ensures Descents(keys, lo, hi) == Descents(keys, lo, mid) + Descents(keys, mid, hi)
    decreases hi
  {
    if hi > mid {
      DescentsSplit(keys, lo, mid, hi - 1);
    }
  }

  /** End of thread `t`'s window of pairs. */
  function WindowEnd(n: nat, w: nat, t: nat): nat {
    if n == 0 then 0 else Min(t + w, n - 1)
  }

  /** One thread of the kernel as written: pairs `t + i` for `i < w` while
      `t + i < n - 1`; the result is the number of descents in its window. */
  method CheckerThread(keys: seq<u32>, n: u32, threads: nat, t: nat) returns (count: nat)
    requires n <= |keys| && threads > 0
    ensures count == Descents(keys, t, WindowEnd(n, Workload(n, threads), t))
    ensures count <= Workload(n, threads)
  {
    var w := Workload(n, threads);
    var last := LastPair(n);
    count := 0;
    var i := 0;
    while i < w && t + i < last
      invariant i <= w
      invariant n >= 1 && i > 0 ==> t + i <= n - 1
      invariant count == Descents(keys, t, t + i)
      invariant count <= i
    {
      if keys[t + i] > keys[t + i + 1] {
        count := count + 1;
      }
      i := i + 1;
    }
  }

  /** `Result[0]` after the first `m` threads have finished; the atomic adds
      commute, so the threads are summed in index order. */
  function CheckerTotal(keys: seq<u32>, n: nat, w: nat, m: nat): nat
    requires n <= |keys|
    decreases m
  {
    if m == 0 then 0
    else CheckerTotal(keys, n, w, m - 1) + Descents(keys, m - 1, WindowEnd(n, w, m - 1))
  }

  /** The dispatch: `Result[0]` starts cleared and every thread adds its count. */
  method Checker(keys: seq<u32>, n: u32, numWorkgroups: nat) returns (result: nat)
    requires n <= |keys| && numWorkgroups > 0
    ensures var threads := WORKGROUP_SIZE * numWorkgroups;
      result == CheckerTotal(keys, n, Workload(n, threads), threads)
    ensures result <= WORKGROUP_SIZE * numWorkgroups * Workload(n, WORKGROUP_SIZE * numWorkgroups)
  {
    var threads := WORKGROUP_SIZE * numWorkgroups;
    ghost var w := Workload(n, threads);
    result := 0;
    var t := 0;
    while t < threads
      invariant t <= threads
      invariant result == CheckerTotal(keys, n, w, t)
      invariant result <= t * w
    {
      var count := CheckerThread(keys, n, threads, t);
      assert (t + 1) * w == t * w + w;
      result := result + count;
      t := t + 1;
    }
  }

  /** Last pair any window reaches, plus one: windows of `T` threads cover
      exactly the pairs below `min(n - 1, T - 1 + w)`. */
  function Covered(n: nat, w: nat, threads: nat): nat
    requires threads > 0
  {
    WindowEnd(n, w, threads - 1)
  }

  /** The result is 0 exactly when no covered pair is out of order. */
  lemma CheckerZeroIff(keys: seq<u32>, n: nat, threads: nat)
    requires n <= |keys| && threads > 0
    ensures var w := Workload(n, threads);
      CheckerTotal(keys, n, w, threads) == 0 <==> Ordered(keys, 0, Covered(n, w, threads))
  {
    var w := Workload(n, threads);
    forall m | 0 < m <= threads
      ensures CheckerTotal(keys, n, w, m) == 0 <==> Ordered(keys, 0, WindowEnd(n, w, m - 1))
    {
      WindowsZeroIff(keys, n, w, m);
    }
  }

  /** The first `m >= 1` windows together are the pairs below the end of window `m - 1`. */
  lemma {:induction false} WindowsZeroIff(keys: seq<u32>, n: nat, w: nat, m: nat)
    requires n <= |keys| && m > 0 && (n > 0 ==> w > 0)
    ensures CheckerTotal(keys, n, w, m) == 0 <==> Ordered(keys, 0, WindowEnd(n, w, m - 1))
    decreases m
  {
    DescentsZeroIff(keys, m - 1, WindowEnd(n, w, m - 1));
    if m == 1 {
    } else {
      WindowsZeroIff(keys, n, w, m - 1);
      var e1 := WindowEnd(n, w, m - 2);
      var e2 := WindowEnd(n, w, m - 1);
      if n > 0 {
        assert e1 <= e2;
        assert m - 1 <= e1 || e1 == n - 1;
        if Ordered(keys, 0, e2) {
          assert Ordered(keys, 0, e1);
          assert Ordered(keys, m - 1, e2);
        }
        if Ordered(keys, 0, e1) && Ordered(keys, m - 1, e2) {
          forall j | 0 <= j < e2
            ensures keys[j] <= keys[j + 1]
          {
            if j >= e1 {
              assert m - 1 <= j;
            }
          }
        }
      }
    }
  }

  /** A nondecreasing array always checks out. */
  lemma CheckerSortedZero(keys: seq<u32>, n: nat, threads: nat)
    requires n <= |keys| && threads > 0
    requires n == 0 || Ordered(keys, 0, n - 1)
    ensures CheckerTotal(keys, n, Workload(n, threads), threads) == 0
  {
    CheckerZeroIff(keys, n, threads);
  }

  /** Fewer than two keys always check out: there is no pair. */
  lemma CheckerTinyZero(keys: seq<u32>, n: nat, threads: nat)
    requires n <= |keys| && threads > 0 && n <= 1
    ensures CheckerTotal(keys, n, Workload(n, threads), threads) == 0
  {
    CheckerSortedZero(keys, n, threads);
  }

  /** With one-pair windows, the first `m` threads count the descents below `min(m, n - 1)`. */
  lemma {:induction false} SinglePairWindows(keys: seq<u32>, n: nat, m: nat)
    requires 0 < n <= |keys|
    ensures CheckerTotal(keys, n, 1, m) == Descents(keys, 0, Min(m, n - 1))
    decreases m
  {
    if m > 0 {
      SinglePairWindows(keys, n, m - 1);
      if m <= n - 1 {
        DescentsSplit(keys, 0, m - 1, m);
        assert Descents(keys, m - 1, m) == Descents(keys, m - 1, m - 1) + (if keys[m - 1] > keys[m] then 1 else 0);
      }
    }
  }

  /** With at least one thread per key, the result is exactly the number of
      descents, and so it is 0 exactly when the keys are sorted. */
  lemma CheckerUncappedExact(keys: seq<u32>, n: nat, threads: nat)
    requires n <= |keys| && threads > 0 && threads >= n
    ensures var r := CheckerTotal(keys, n, Workload(n, threads), threads);
      && r == (if n == 0 then 0 else Descents(keys, 0, n - 1))
      && (r == 0 <==> (n == 0 || Ordered(keys, 0, n - 1)))
  {
    if n > 0 {
      assert Workload(n, threads) == 1;
      SinglePairWindows(keys, n, threads);
      DescentsZeroIff(keys, 0, n - 1);
    } else {
      CheckerTinyZero(keys, n, threads);
    }
  }

  /** As written, when the thread count is capped below the key count the
      windows stop short: a descent at a pair `j >= T - 1 + w` is never
      examined, and an array whose only descent is there checks out as 0. */
  lemma CheckerMissesTail(keys: seq<u32>, n: nat, threads: nat, j: nat)
    requires n <= |keys| && threads > 0
    requires threads - 1 + Workload(n, threads) <= j && j + 1 < n
    requires Ordered(keys, 0, j)
    ensures CheckerTotal(keys, n, Workload(n, threads), threads) == 0
  {
    var w := Workload(n, threads);
    assert Covered(n, w, threads) <= j;
    CheckerZeroIff(keys, n, threads);
  }

  /** With the default limit of 65535 workgroups and 2^25 keys (128 MiB, the
      default largest storage binding), the threads have two-pair windows
      that reach only the pairs below 33553921: a descent just past them is
      never counted. */
  lemma CappedCheckerCounterexample()
    ensures var n := 0x200_0000;
      var threads := WORKGROUP_SIZE * 65535;
      var keys := seq(n, k requires 0 <= k < n => if k <= threads + 1 then 1 else 0);
      && Workload(n, threads) == 2
      && keys[threads + 1] > keys[threads + 2]
      && CheckerTotal(keys, n, Workload(n, threads), threads) == 0
  {
    var n := 0x200_0000;
    var threads := WORKGROUP_SIZE * 65535;
    var keys: seq<u32> := seq(n, k requires 0 <= k < n => if k <= threads + 1 then 1 else 0);
    assert CeilDiv(n, threads) == 2;
    CheckerMissesTail(keys, n, threads, threads + 1);
  }

  /** The checker with windows laid end to end: thread `t` examines pairs
      `t * w + i` for `i < w` while `t * w + i < n - 1`. */
  function CorrectedWindow(keys: seq<u32>, n: nat, w: nat, t: nat): nat
    requires n <= |keys|
  {
    if n == 0 then 0 else Descents(keys, Min(t * w, n - 1), Min(t * w + w, n - 1))
  }

  function CheckerCorrectedTotal(keys: seq<u32>, n: nat, w: nat, m: nat): nat
    requires n <= |keys|
    decreases m
  {
    if m == 0 then 0 else CheckerCorrectedTotal(keys, n, w, m - 1) + CorrectedWindow(keys, n, w, m - 1)
  }

  /** The first `m` end-to-end windows count the descents below `min(m * w, n - 1)`. */
  lemma {:induction false} CorrectedPrefix(keys: seq<u32>, n: nat, w: nat, m: nat)
    requires 0 < n <= |keys|
    ensures CheckerCorrectedTotal(keys, n, w, m) == Descents(keys, 0, Min(m * w, n - 1))
    decreases m
  {
    if m > 0 {
      CorrectedPrefix(keys, n, w, m - 1);
      assert m * w == (m - 1) * w + w;
      DescentsSplit(keys, 0, Min((m - 1) * w, n - 1), Min(m * w, n - 1));
    }
  }

  /** The corrected checker counts every descent exactly once for any
      number of threads, so it is 0 exactly when the keys are sorted. */
  lemma CheckerCorrectedExact(keys: seq<u32>, n: nat, threads: nat)
    requires n <= |keys| && threads > 0
    ensures var r := CheckerCorrectedTotal(keys, n, Workload(n, threads), threads);
      && r == (if n == 0 then 0 else Descents(keys, 0, n - 1))
      && (r == 0 <==> (n == 0 || Ordered(keys, 0, n - 1)))
  {
    var w := Workload(n, threads);
    if n > 0 {
      CorrectedPrefix(keys, n, w, threads);
      assert threads * w >= n;
      DescentsZeroIff(keys, 0, n - 1);
    } else {
      CorrectedZero(keys, threads);
    }
  }

  lemma {:induction false} CorrectedZero(keys: seq<u32>, m: nat)
    ensures CheckerCorrectedTotal(keys, 0, 0, m) == 0
    decreases m
  {
    if m > 0 {
      CorrectedZero(keys, m - 1);
    }
  }
}
