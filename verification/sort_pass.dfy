/** The histogram half of one digit pass of `gpuSort`: the clear of
    GlobalHistogram, the Upsweep dispatch and the Spine dispatch. Afterwards
    entry `b` of GlobalHistogram row `pass` plus entry `b` of partition row
    `p` is where Downsweep starts writing the keys of partition `p` whose
    digit is `b`: the number of keys with a smaller digit, plus the keys
    with digit `b` in the partitions before `p`. These are the offsets of a
    stable counting sort by the digit. */
module SortPass {

  import opened Sums
  import opened Layout
  import opened Digits
  import opened Upsweep
  import opened Spine

  /** The `clearBuffer` of the first 4 * 256 words: all four global rows are zero. */
  function ClearGlobal(h: Histograms): (h': Histograms)
    requires |h.global| == PASS_COUNT && Rows(h.global)
    ensures |h'.global| == PASS_COUNT && Rows(h'.global)
    ensures forall r, b :: 0 <= r < PASS_COUNT && 0 <= b < RADIX ==> h'.global[r][b] == 0
    ensures h'.partition == h.partition
  {
    var zero := seq(RADIX, _ => 0);
    h.(global := seq(PASS_COUNT, _ => zero))
  }

  /** Summing column `b` of the partition histograms over the first `p`
      partitions counts digit `b` over the first `p` partitions' keys. */
  lemma {:induction false} ColumnPrefixCount(partition: seq<seq<nat>>, keys: seq<u32>, n: nat, pass: nat,
                                             cn: nat, b: nat, p: nat)
    requires n <= |keys| && Rows(partition) && b < RADIX && p <= cn <= |partition|
    requires forall q :: 0 <= q < cn ==> partition[q] == LocalHistogram(keys, n, pass, q)
    ensures Sum(Column(partition, b, cn)[..p]) == Count(keys, n, pass, 0, p * PARTITION_SIZE, b)
    decreases p
  {
    if p > 0 {
      var col := Column(partition, b, cn);
      ColumnPrefixCount(partition, keys, n, pass, cn, b, p - 1);
      SumPrefixStep(col, p - 1);
      assert p * PARTITION_SIZE == (p - 1) * PARTITION_SIZE + PARTITION_SIZE;
      CountSplit(keys, n, pass, 0, (p - 1) * PARTITION_SIZE, p * PARTITION_SIZE, b);
    }
  }

  /** After the Upsweep, the global row is the digit histogram of all partitions
      holding keys; its prefix sums count the keys with a smaller digit, the
      padding after the last key never being below any bucket. */
  lemma GlobalPrefixCountsSmallerDigits(row: seq<nat>, keys: seq<u32>, n: nat, pass: nat, b: nat)
    requires n <= |keys| && pass < PASS_COUNT && b < RADIX && |row| == RADIX
    requires forall d :: 0 <= d < RADIX ==>
               row[d] == Count(keys, n, pass, 0, CeilDiv(n, PARTITION_SIZE) * PARTITION_SIZE, d)
    ensures Sum(row[..b]) == CountBelow(keys, n, pass, 0, n, b)
  {
    var end := CeilDiv(n, PARTITION_SIZE) * PARTITION_SIZE;
    assert row == Hist(keys, n, pass, 0, end);
    HistBelow(keys, n, pass, 0, end, b);
    CountBelowSplit(keys, n, pass, 0, n, end, b);
    PaddingNotBelow(keys, n, pass, n, end, b);
  }

  /** The Upsweep dispatch of a pass, with the global row starting at zero:
      the row becomes the digit histogram of the partitions holding keys,
      and each such partition's row its own histogram. */
  function UpsweepPass(h: Histograms, keys: seq<u32>, n: nat, pass: nat, order: seq<nat>): (h1: Histograms)
    requires n <= |keys| && pass < PASS_COUNT && Fits(h, n)
    requires multiset(order) == multiset(Range(RoundUp(n, PARTITION_SIZE)))
    requires forall b :: 0 <= b < RADIX ==> h.global[pass][b] == 0
    ensures Fits(h1, n) && |h1.partition| == |h.partition|
    ensures forall d :: 0 <= d < RADIX ==>
              h1.global[pass][d] == Count(keys, n, pass, 0, CeilDiv(n, PARTITION_SIZE) * PARTITION_SIZE, d)
    ensures forall q :: 0 <= q < CeilDiv(n, PARTITION_SIZE) ==> h1.partition[q] == LocalHistogram(keys, n, pass, q)
    ensures forall r :: 0 <= r < PASS_COUNT && r != pass ==> h1.global[r] == h.global[r]
  {
    DispatchAllPartitions(h, keys, n, pass, order);
    Dispatch(h, keys, n, pass, order)
  }

  /** One pass of `gpuSort` up to Downsweep, with the Upsweep workgroups run in
      the order `order` (any order of the `RoundUp(n, 4096)` workgroups). */
  method HistogramPass(h: Histograms, keys: seq<u32>, n: u32, pass: nat, order: seq<nat>, s: nat)
    returns (h': Histograms)
    requires n <= |keys| && pass < PASS_COUNT && Fits(h, n) && SubgroupSize(s)
    requires n + PARTITION_SIZE - 1 < 0x1_0000_0000
    requires multiset(order) == multiset(Range(RoundUp(n, PARTITION_SIZE)))
    requires forall b :: 0 <= b < RADIX ==> h.global[pass][b] == 0
    ensures Fits(h', n) && |h'.partition| == |h.partition|
    ensures forall b :: 0 <= b < RADIX ==> h'.global[pass][b] == CountBelow(keys, n, pass, 0, n, b)
    ensures forall p, b :: 0 <= p < CeilDiv(n, PARTITION_SIZE) && 0 <= b < RADIX ==>
              h'.partition[p][b] == Count(keys, n, pass, 0, p * PARTITION_SIZE, b)
    ensures forall r :: 0 <= r < PASS_COUNT && r != pass ==> h'.global[r] == h.global[r]
  {
    var cn := CeilDiv(n, PARTITION_SIZE);
    var h1 := UpsweepPass(h, keys, n, pass, order);
    h' := SpineDispatch(h1, n, pass, s);
    forall b | 0 <= b < RADIX
      ensures h'.global[pass][b] == CountBelow(keys, n, pass, 0, n, b)
    {
      GlobalPrefixCountsSmallerDigits(h1.global[pass], keys, n, pass, b);
    }
    forall p, b | 0 <= p < cn && 0 <= b < RADIX
      ensures h'.partition[p][b] == Count(keys, n, pass, 0, p * PARTITION_SIZE, b)
    {
      ColumnPrefixCount(h1.partition, keys, n, pass, cn, b, p);
    }
  }

  /** A pass that starts from the cleared histograms of `gpuSort`. */
  method ClearedHistogramPass(h: Histograms, keys: seq<u32>, n: u32, pass: nat, order: seq<nat>, s: nat)
    returns (h': Histograms)
    requires n <= |keys| && pass < PASS_COUNT && Fits(h, n) && SubgroupSize(s)
    requires n + PARTITION_SIZE - 1 < 0x1_0000_0000
    requires multiset(order) == multiset(Range(RoundUp(n, PARTITION_SIZE)))
    ensures Fits(h', n)
    ensures forall p, b :: 0 <= p < CeilDiv(n, PARTITION_SIZE) && 0 <= b < RADIX ==>
              h'.global[pass][b] + h'.partition[p][b]
              == CountBelow(keys, n, pass, 0, n, b) + Count(keys, n, pass, 0, p * PARTITION_SIZE, b)
  {
    var cleared := ClearGlobal(h);
    h' := HistogramPass(cleared, keys, n, pass, order, s);
  }
}
