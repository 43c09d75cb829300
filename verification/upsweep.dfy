/** The Upsweep kernel: one workgroup per partition of 4096 keys builds the
    partition's digit histogram, stores it as row `p` of PartitionHistogram
    and adds it into row `pass` of GlobalHistogram. A workgroup is a
    sequential fold over its 512 threads; the workgroups of one dispatch are
    applied one after another in an arbitrary order, which is sound because
    they write disjoint partition rows and only add into the global row. */
module Upsweep {

  import opened Arith
  import opened Sums
  import opened Layout
  import opened Digits

  /** The two histogram buffers, one row of 256 u32 counters per digit pass
      (GlobalHistogram) or per partition (PartitionHistogram): word
      `RADIX * r + b` of the buffer is entry `b` of row `r`. */
  datatype Histograms = Histograms(global: seq<seq<nat>>, partition: seq<seq<nat>>)

  predicate Rows(rows: seq<seq<nat>>) {
    forall r :: 0 <= r < |rows| ==> |rows[r]| == RADIX
  }

  /** GlobalHistogram holds 4 rows; PartitionHistogram has a row for every
      partition that holds keys. */
  predicate Fits(h: Histograms, n: nat) {
    && |h.global| == PASS_COUNT && Rows(h.global)
    && |h.partition| >= CeilDiv(n, PARTITION_SIZE) && Rows(h.partition)
  }

  /** A partition holds keys exactly when it is below the exact partition count. */
  lemma ActiveIff(p: nat, n: nat)
    ensures p * PARTITION_SIZE < n <==> p < CeilDiv(n, PARTITION_SIZE)
  {
    var c := CeilDiv(n, PARTITION_SIZE);
    if p < c {
      MulLeMono(p, c - 1, PARTITION_SIZE);
    }
    if p * PARTITION_SIZE < n {
      MulLessCancel(p, c, PARTITION_SIZE);
    }
  }

  /** Offset within the partition of the key thread `index` handles in step `i`. */
  function KeyOffset(i: nat, index: nat): nat {
    WORKGROUP_SIZE * i + index
  }

  /** The 8 x 512 (step, thread) pairs address each of the 4096 keys of a
      partition exactly once. */
  lemma KeyOffsetsEnumeratePartition()
    ensures forall i, index :: 0 <= i < PARTITION_DIVISION && 0 <= index < WORKGROUP_SIZE ==>
              KeyOffset(i, index) < PARTITION_SIZE
    ensures forall k :: 0 <= k < PARTITION_SIZE ==>
              k / WORKGROUP_SIZE < PARTITION_DIVISION && KeyOffset(k / WORKGROUP_SIZE, k % WORKGROUP_SIZE) == k
    ensures forall i1, x1, i2, x2 ::
              0 <= x1 < WORKGROUP_SIZE && 0 <= x2 < WORKGROUP_SIZE && KeyOffset(i1, x1) == KeyOffset(i2, x2) ==>
              i1 == i2 && x1 == x2
  {
    forall i1, x1, i2, x2 |
      0 <= x1 < WORKGROUP_SIZE && 0 <= x2 < WORKGROUP_SIZE && KeyOffset(i1, x1) == KeyOffset(i2, x2)
      ensures i1 == i2 && x1 == x2
    {
      DivUnique(KeyOffset(i1, x1), WORKGROUP_SIZE, i1);
      DivUnique(KeyOffset(i2, x2), WORKGROUP_SIZE, i2);
    }
  }

  /** The digit histogram of partition `p`, padding included. */
  function LocalHistogram(keys: seq<u32>, n: nat, pass: nat, p: nat): (h: seq<nat>)
    requires n <= |keys|
    ensures |h| == RADIX
    ensures Sum(h) == PARTITION_SIZE
  {
    HistTotal(keys, n, pass, p * PARTITION_SIZE, p * PARTITION_SIZE + PARTITION_SIZE);
    Hist(keys, n, pass, p * PARTITION_SIZE, p * PARTITION_SIZE + PARTITION_SIZE)
  }

  /** The shared-memory histogram loop: thread `index` in step `i` reads key
      `partitionStart + 512 * i + index` (the sentinel past the element count)
      and increments the bucket of its digit. */
  method BuildLocalHistogram(keys: seq<u32>, n: nat, pass: nat, p: nat) returns (local: seq<nat>)
    requires n <= |keys|
    ensures |local| == RADIX
    ensures forall b :: 0 <= b < RADIX ==>
              local[b] == Count(keys, n, pass, p * PARTITION_SIZE, p * PARTITION_SIZE + PARTITION_SIZE, b)
    ensures Sum(local) == PARTITION_SIZE
  {
    var start := p * PARTITION_SIZE;
    local := seq(RADIX, _ => 0);
    var i := 0;
    while i < PARTITION_DIVISION
      invariant 0 <= i <= PARTITION_DIVISION
      invariant local == Hist(keys, n, pass, start, start + KeyOffset(i, 0))
    {
      var index := 0;
      while index < WORKGROUP_SIZE
        invariant 0 <= index <= WORKGROUP_SIZE
        invariant local == Hist(keys, n, pass, start, start + KeyOffset(i, index))
      {
        var keyIndex := start + KeyOffset(i, index);
        var key := if keyIndex < n then keys[keyIndex] else KEY_SENTINEL;
        var radix := Digit(key, pass);
        HistStep(keys, n, pass, start, keyIndex);
        local := local[radix := local[radix] + 1];
        index := index + 1;
      }
      i := i + 1;
    }
    HistTotal(keys, n, pass, start, start + PARTITION_SIZE);
  }

  /** One Upsweep workgroup for partition `p`. */
  function Workgroup(h: Histograms, keys: seq<u32>, n: nat, pass: nat, p: nat): (h': Histograms)
    requires n <= |keys| && pass < PASS_COUNT && Fits(h, n)
    ensures Fits(h', n) && |h'.partition| == |h.partition|
    ensures p * PARTITION_SIZE >= n ==> h' == h
    ensures p * PARTITION_SIZE < n ==>
              && p < |h.partition|
              && h'.partition[p] == LocalHistogram(keys, n, pass, p)
              && forall b :: 0 <= b < RADIX ==>
                   h'.global[pass][b] == h.global[pass][b] + LocalHistogram(keys, n, pass, p)[b]
    ensures forall q :: 0 <= q < |h.partition| && q != p ==> h'.partition[q] == h.partition[q]
    ensures forall r :: 0 <= r < |h.global| && r != pass ==> h'.global[r] == h.global[r]
  {
    if p * PARTITION_SIZE >= n then h
    else
      ActiveIff(p, n);
      var local := LocalHistogram(keys, n, pass, p);
      var row := h.global[pass];
      Histograms(
        h.global[pass := seq(RADIX, b requires 0 <= b < RADIX => row[b] + local[b])],
        h.partition[p := local])
  }

  /** What partition `p` contributes to bucket `b` of the global row. */
  function Contribution(keys: seq<u32>, n: nat, pass: nat, b: nat): nat -> nat
    requires n <= |keys| && b < RADIX
  {
    (p: nat) => if p * PARTITION_SIZE < n then LocalHistogram(keys, n, pass, p)[b] else 0
  }

  /** An Upsweep dispatch whose workgroups run in the order `order`. */
  function Dispatch(h: Histograms, keys: seq<u32>, n: nat, pass: nat, order: seq<nat>): (h': Histograms)
    requires n <= |keys| && pass < PASS_COUNT && Fits(h, n)
    ensures Fits(h', n) && |h'.partition| == |h.partition|
    ensures forall b :: 0 <= b < RADIX ==>
              h'.global[pass][b] == h.global[pass][b] + SumMap(order, Contribution(keys, n, pass, b))
    ensures forall r :: 0 <= r < |h.global| && r != pass ==> h'.global[r] == h.global[r]
    ensures forall q :: 0 <= q < |h.partition| ==>
              h'.partition[q] == if q in order && q * PARTITION_SIZE < n
                                 then LocalHistogram(keys, n, pass, q)
                                 else h.partition[q]
    decreases |order|
  {
    if |order| == 0 then h
    else
      var h1 := Workgroup(h, keys, n, pass, order[0]);
      assert forall q :: q in order <==> q == order[0] || q in order[1..] by {
        assert order == [order[0]] + order[1..];
      }
      Dispatch(h1, keys, n, pass, order[1..])
  }

  /** The order workgroups run in does not matter: any permutation of the
      same workgroups gives the same histograms. */
  lemma DispatchOrderIrrelevant(h: Histograms, keys: seq<u32>, n: nat, pass: nat, o1: seq<nat>, o2: seq<nat>)
    requires n <= |keys| && pass < PASS_COUNT && Fits(h, n)
    requires multiset(o1) == multiset(o2)
    ensures Dispatch(h, keys, n, pass, o1) == Dispatch(h, keys, n, pass, o2)
  {
    var h1 := Dispatch(h, keys, n, pass, o1);
    var h2 := Dispatch(h, keys, n, pass, o2);
    forall b | 0 <= b < RADIX
      ensures h1.global[pass][b] == h2.global[pass][b]
    {
      SumMapPermutation(o1, o2, Contribution(keys, n, pass, b));
    }
    assert h1.global[pass] == h2.global[pass];
    assert h1.global == h2.global;
    forall q | 0 <= q < |h.partition|
      ensures h1.partition[q] == h2.partition[q]
    {
      assert q in o1 <==> q in multiset(o1);
      assert q in o2 <==> q in multiset(o2);
    }
  }

  /** Summed over the first `m` partitions, the contributions count the
      digits of the indices those partitions cover that hold keys. */
  lemma {:induction false} ContributionsCount(keys: seq<u32>, n: nat, pass: nat, b: nat, m: nat)
    requires n <= |keys| && b < RADIX
    ensures var c := if m < CeilDiv(n, PARTITION_SIZE) then m else CeilDiv(n, PARTITION_SIZE);
      SumMap(Range(m), Contribution(keys, n, pass, b)) == Count(keys, n, pass, 0, c * PARTITION_SIZE, b)
    decreases m
  {
    var f := Contribution(keys, n, pass, b);
    var cn := CeilDiv(n, PARTITION_SIZE);
    if m == 0 {
    } else {
      ContributionsCount(keys, n, pass, b, m - 1);
      assert Range(m) == Range(m - 1) + [m - 1];
      SumMapAppend(Range(m - 1), [m - 1], f);
      assert SumMap([m - 1], f) == f(m - 1);
      ActiveIff(m - 1, n);
      if m - 1 < cn {
        CountSplit(keys, n, pass, 0, (m - 1) * PARTITION_SIZE, m * PARTITION_SIZE, b);
      }
    }
  }

  /** The dispatch `gpuSort` issues (`RoundUp(n, 4096)` workgroups, in any
      order): the global row grows by the digit counts of every index in the
      partitions holding keys, and row `p` of PartitionHistogram becomes the
      histogram of partition `p` for each such partition. */
  lemma DispatchAllPartitions(h: Histograms, keys: seq<u32>, n: nat, pass: nat, order: seq<nat>)
    requires n <= |keys| && pass < PASS_COUNT && Fits(h, n)
    requires multiset(order) == multiset(Range(RoundUp(n, PARTITION_SIZE)))
    ensures var h' := Dispatch(h, keys, n, pass, order);
      && (forall b :: 0 <= b < RADIX ==>
            h'.global[pass][b]
            == h.global[pass][b] + Count(keys, n, pass, 0, CeilDiv(n, PARTITION_SIZE) * PARTITION_SIZE, b))
      && (forall p :: 0 <= p < CeilDiv(n, PARTITION_SIZE) ==>
            h'.partition[p] == LocalHistogram(keys, n, pass, p))
  {
    var m := RoundUp(n, PARTITION_SIZE);
    var cn := CeilDiv(n, PARTITION_SIZE);
    RoundUpBounds(n, PARTITION_SIZE);
    DispatchOrderIrrelevant(h, keys, n, pass, order, Range(m));
    forall b | 0 <= b < RADIX
      ensures SumMap(Range(m), Contribution(keys, n, pass, b)) == Count(keys, n, pass, 0, cn * PARTITION_SIZE, b)
    {
      ContributionsCount(keys, n, pass, b, m);
    }
    forall p | 0 <= p < cn
      ensures Dispatch(h, keys, n, pass, Range(m)).partition[p] == LocalHistogram(keys, n, pass, p)
    {
      ActiveIff(p, n);
      assert Range(m)[p] == p;
    }
  }
}
