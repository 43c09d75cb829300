/** Keys, 8-bit digits and digit counts over index ranges: the vocabulary
    the Upsweep and Spine kernels are specified in. Indices at or beyond the
    element count read as the sentinel key `0xffffffff`, as Upsweep does. */
module Digits {

  import opened Sums
  import opened Layout

  /** The key an out-of-range index is read as. */
  const KEY_SENTINEL: u32 := 0xffff_ffff

  function Pow256(k: nat): (r: nat)
    ensures r > 0
  {
    if k == 0 then 1 else RADIX * Pow256(k - 1)
  }

  /** `extractBits(key, 8 * pass, 8)`: the pass-th byte of the key. */
  function Digit(key: u32, pass: nat): (d: nat)
    ensures d < RADIX
  {
    (key / Pow256(pass)) % RADIX
  }

  /** The sentinel falls in the top bucket for every pass of a 32-bit key. */
  lemma SentinelDigit(pass: nat)
    requires pass < PASS_COUNT
    ensures Digit(KEY_SENTINEL, pass) == RADIX - 1
  {
    assert Pow256(1) == 0x100;
    assert Pow256(2) == 0x1_0000;
    assert Pow256(3) == 0x100_0000;
  }

  /** `select(0xffffffff, KeysIn[k], k < elementCount)`. */
  function KeyAt(keys: seq<u32>, n: nat, k: nat): (key: u32)
    requires n <= |keys|
    ensures k < n ==> key == keys[k]
    ensures k >= n ==> key == KEY_SENTINEL
  {
    if k < n then keys[k] else KEY_SENTINEL
  }

  function DigitAt(keys: seq<u32>, n: nat, pass: nat, k: nat): nat
    requires n <= |keys|
  {
    Digit(KeyAt(keys, n, k), pass)
  }

  /** Number of indices in `[lo, hi)` whose digit is `b`. */
  function Count(keys: seq<u32>, n: nat, pass: nat, lo: nat, hi: nat, b: nat): nat
    requires n <= |keys|
    decreases hi
  {
    if hi <= lo then 0
    else Count(keys, n, pass, lo, hi - 1, b) + (if DigitAt(keys, n, pass, hi - 1) == b then 1 else 0)
  }

  /** Number of indices in `[lo, hi)` whose digit is below `b`. */
  function CountBelow(keys: seq<u32>, n: nat, pass: nat, lo: nat, hi: nat, b: nat): nat
    requires n <= |keys|
    decreases hi
  {
    if hi <= lo then 0
    else CountBelow(keys, n, pass, lo, hi - 1, b) + (if DigitAt(keys, n, pass, hi - 1) < b then 1 else 0)
  }

  /** The 256-bucket digit histogram of `[lo, hi)`. */
  function Hist(keys: seq<u32>, n: nat, pass: nat, lo: nat, hi: nat): (h: seq<nat>)
    requires n <= |keys|
    ensures |h| == RADIX
    ensures forall b :: 0 <= b < RADIX ==> h[b] == Count(keys, n, pass, lo, hi, b)
  {
    seq(RADIX, b requires 0 <= b < RADIX => Count(keys, n, pass, lo, hi, b))
  }

  lemma {:induction false} CountSplit(keys: seq<u32>, n: nat, pass: nat, lo: nat, mid: nat, hi: nat, b: nat)
    requires n <= |keys|
    requires lo <= mid <= hi
    ensures Count(keys, n, pass, lo, hi, b) == Count(keys, n, pass, lo, mid, b) + Count(keys, n, pass, mid, hi, b)
    decreases hi
  {
    if hi > mid {
      CountSplit(keys, n, pass, lo, mid, hi - 1, b);
    }
  }

  /** Extending the range by one index bumps exactly that index's bucket. */
  lemma HistStep(keys: seq<u32>, n: nat, pass: nat, lo: nat, hi: nat)
    requires n <= |keys|
    requires lo <= hi
    ensures var d := DigitAt(keys, n, pass, hi);
      Hist(keys, n, pass, lo, hi + 1) == Hist(keys, n, pass, lo, hi)[d := Hist(keys, n, pass, lo, hi)[d] + 1]
  {
  }

  /** Every index of the range lands in exactly one bucket. */
  lemma {:induction false} HistTotal(keys: seq<u32>, n: nat, pass: nat, lo: nat, hi: nat)
    requires n <= |keys|
    requires lo <= hi
    ensures Sum(Hist(keys, n, pass, lo, hi)) == hi - lo
    decreases hi
  {
    if hi == lo {
      SumZeros(Hist(keys, n, pass, lo, hi));
    } else {
      HistTotal(keys, n, pass, lo, hi - 1);
      HistStep(keys, n, pass, lo, hi - 1);
      SumBump(Hist(keys, n, pass, lo, hi - 1), DigitAt(keys, n, pass, hi - 1));
    }
  }

  lemma {:induction false} CountBelowStep(keys: seq<u32>, n: nat, pass: nat, lo: nat, hi: nat, b: nat)
    requires n <= |keys|
    ensures CountBelow(keys, n, pass, lo, hi, b + 1)
         == CountBelow(keys, n, pass, lo, hi, b) + Count(keys, n, pass, lo, hi, b)
    decreases hi
  {
    if hi > lo {
      CountBelowStep(keys, n, pass, lo, hi - 1, b);
    }
  }

  /** The first `b` buckets of a histogram together count the digits below `b`. */
  lemma {:induction false} HistBelow(keys: seq<u32>, n: nat, pass: nat, lo: nat, hi: nat, b: nat)
    requires n <= |keys|
    requires b <= RADIX
    ensures Sum(Hist(keys, n, pass, lo, hi)[..b]) == CountBelow(keys, n, pass, lo, hi, b)
    decreases b
  {
    var h := Hist(keys, n, pass, lo, hi);
    if b == 0 {
      CountBelowZero(keys, n, pass, lo, hi);
    } else {
      HistBelow(keys, n, pass, lo, hi, b - 1);
      SumPrefixStep(h, b - 1);
      CountBelowStep(keys, n, pass, lo, hi, b - 1);
    }
  }

  lemma {:induction false} CountBelowZero(keys: seq<u32>, n: nat, pass: nat, lo: nat, hi: nat)
    requires n <= |keys|
    ensures CountBelow(keys, n, pass, lo, hi, 0) == 0
    decreases hi
  {
    if hi > lo {
      CountBelowZero(keys, n, pass, lo, hi - 1);
    }
  }

  /** Padding indices never count below any bucket: their digit is the top one. */
  lemma {:induction false} PaddingNotBelow(keys: seq<u32>, n: nat, pass: nat, lo: nat, hi: nat, b: nat)
    requires n <= |keys|
    requires pass < PASS_COUNT
    requires n <= lo
    requires b < RADIX
    ensures CountBelow(keys, n, pass, lo, hi, b) == 0
    decreases hi
  {
    if hi > lo {
      SentinelDigit(pass);
      PaddingNotBelow(keys, n, pass, lo, hi - 1, b);
    }
  }

  lemma {:induction false} CountBelowSplit(keys: seq<u32>, n: nat, pass: nat, lo: nat, mid: nat, hi: nat, b: nat)
    requires n <= |keys|
    requires lo <= mid <= hi
    ensures CountBelow(keys, n, pass, lo, hi, b)
         == CountBelow(keys, n, pass, lo, mid, b) + CountBelow(keys, n, pass, mid, hi, b)
    decreases hi
  {
    if hi > mid {
      CountBelowSplit(keys, n, pass, lo, mid, hi - 1, b);
    }
  }
}
