/** The Spine kernel: workgroup `radix` turns column `radix` of
    PartitionHistogram (one entry per partition) into its exclusive prefix
    sum, walking the partitions in chunks of 512 with a two-level subgroup
    scan and a running `reduction`; workgroup 0 also turns row `pass` of
    GlobalHistogram into its exclusive prefix sum. The level-two stage is the
    corrected one (see `Subgroup.TwoLevelScanCorrected`); for subgroups of at
    least 32 lanes it is what the kernel computes (`ChunkScanAsWritten`). */
module Spine {

  import opened Arith
  import opened Sums
  import opened Layout
  import opened Digits
  import opened Subgroup
  import opened Upsweep

  /** Size of the `intermediate` workgroup array. */
  const MAX_SUBGROUP_SIZE: nat := 128

  /** The subgroup sizes a WebGPU device may report: powers of two from 4 to 128. */
  predicate SubgroupSize(s: nat) {
    s == 4 || s == 8 || s == 16 || s == 32 || s == 64 || s == 128
  }

  /** Every allowed size splits a chunk and a histogram row evenly, and the
      subgroup totals of a chunk fit in `intermediate`. */
  lemma SubgroupSizeFits(s: nat)
    requires SubgroupSize(s)
    ensures Lanes(WORKGROUP_SIZE, s) && Lanes(RADIX, s)
    ensures WORKGROUP_SIZE / s <= MAX_SUBGROUP_SIZE
  {
  }

  /** `partitionCount` as the kernel computes it in u32: `(n + 4095) / 4096`,
      the sum wrapping modulo 2^32. */
  function PartitionCount(n: u32): (pc: nat)
    ensures n + PARTITION_SIZE - 1 < 0x1_0000_0000 ==> pc == CeilDiv(n, PARTITION_SIZE)
    ensures n + PARTITION_SIZE - 1 >= 0x1_0000_0000 ==> pc == 0
  {
    ((n + PARTITION_SIZE - 1) % 0x1_0000_0000) / PARTITION_SIZE
  }

  /** Column `radix` of the first `pc` partition rows. */
  function Column(partition: seq<seq<nat>>, radix: nat, pc: nat): (col: seq<nat>)
    requires Rows(partition) && radix < RADIX && pc <= |partition|
    ensures |col| == pc
    ensures forall q :: 0 <= q < pc ==> col[q] == partition[q][radix]
  {
    seq(pc, q requires 0 <= q < pc => partition[q][radix])
  }

  /** `value` of lane `j` in the chunk starting at partition `base`:
      `select(0, PartitionHistogram[RADIX * (base + j) + radix], base + j < pc)`. */
  function ChunkValues(partition: seq<seq<nat>>, radix: nat, pc: nat, base: nat): (v: seq<nat>)
    requires Rows(partition) && radix < RADIX && pc <= |partition|
    ensures |v| == WORKGROUP_SIZE
    ensures forall j :: 0 <= j < WORKGROUP_SIZE ==>
              v[j] == if base + j < pc then partition[base + j][radix] else 0
  {
    seq(WORKGROUP_SIZE, j requires 0 <= j < WORKGROUP_SIZE =>
      if base + j < pc then partition[base + j][radix] else 0)
  }

  /** The first `j` lanes of a chunk hold the column entries `[base, base + j)`
      that exist, and zeros after the end of the column. */
  lemma {:induction false} ChunkPrefixSum(v: seq<nat>, col: seq<nat>, base: nat, j: nat)
    requires base <= |col| && j <= |v|
    requires forall k :: 0 <= k < |v| ==> v[k] == if base + k < |col| then col[base + k] else 0
    ensures Sum(v[..j]) == Sum(col[base..Min(base + j, |col|)])
    decreases j
  {
    if j > 0 {
      ChunkPrefixSum(v, col, base, j - 1);
      SumPrefixStep(v, j - 1);
      if base + j <= |col| {
        SumSlice(col[..base + j], base, base + j - 1);
        assert col[..base + j][..base + j - 1] == col[..base + j - 1];
        SumSlice(col, base, base + j);
        SumSlice(col, base, base + j - 1);
        SumPrefixStep(col, base + j - 1);
      }
    }
  }

  /** Lane `j`'s prefix after the chunk: `reduction` (the sum of the column
      before `base`) plus the chunk scan is the sum of the column before `base + j`. */
  lemma ChunkLane(col: seq<nat>, base: nat, v: seq<nat>, j: nat)
    requires base + j <= |col| && j <= |v|
    requires forall k :: 0 <= k < |v| ==> v[k] == if base + k < |col| then col[base + k] else 0
    ensures Sum(col[..base]) + Sum(v[..j]) == Sum(col[..base + j])
  {
    ChunkPrefixSum(v, col, base, j);
    SumSlice(col, base, base + j);
  }

  /** The chunk total advances `reduction` to the sum of the column before
      the next chunk (or before its end). */
  lemma ChunkTotal(col: seq<nat>, base: nat, v: seq<nat>)
    requires base <= |col| && |v| == WORKGROUP_SIZE
    requires forall k :: 0 <= k < |v| ==> v[k] == if base + k < |col| then col[base + k] else 0
    ensures Sum(col[..base]) + Sum(v) == Sum(col[..Min(base + WORKGROUP_SIZE, |col|)])
  {
    ChunkPrefixSum(v, col, base, WORKGROUP_SIZE);
    assert v[..WORKGROUP_SIZE] == v;
    SumSlice(col, base, Min(base + WORKGROUP_SIZE, |col|));
  }

  /** For subgroups of 32 lanes or more the kernel's own level two computes
      the corrected chunk scan and chunk total. */
  lemma ChunkScanAsWritten(v: seq<nat>, s: nat)
    requires SubgroupSize(s) && s >= 32 && |v| == WORKGROUP_SIZE
    ensures TwoLevelScan(v, s) == TwoLevelScanCorrected(v, s)
    ensures TwoLevelTotal(v, s) == TwoLevelTotalCorrected(v, s)
  {
    DivUnique(WORKGROUP_SIZE, s, WORKGROUP_SIZE / s);
    TwoLevelScanAgrees(v, s);
  }

  /** The write-back of one chunk: lane `j` with `base + j < pc` stores
      `excl` (its scan value plus `reduction`) into column `radix` of
      partition row `base + j`; no other entry changes. */
  method WriteChunk(partition: seq<seq<nat>>, radix: nat, pc: nat, base: nat, scan: seq<nat>, reduction: nat,
                    ghost want: seq<nat>)
    returns (partition': seq<seq<nat>>)
    requires Rows(partition) && radix < RADIX && pc <= |partition| && base <= pc
    requires |scan| == WORKGROUP_SIZE && |want| == pc
    requires forall j :: 0 <= j < WORKGROUP_SIZE && base + j < pc ==> scan[j] + reduction == want[base + j]
    ensures |partition'| == |partition| && Rows(partition')
    ensures forall q :: base <= q < Min(base + WORKGROUP_SIZE, pc) ==> partition'[q][radix] == want[q]
    ensures forall q :: 0 <= q < |partition| && (q < base || q >= Min(base + WORKGROUP_SIZE, pc)) ==>
              partition'[q] == partition[q]
    ensures forall q, b :: 0 <= q < |partition| && 0 <= b < RADIX && b != radix ==>
              partition'[q][b] == partition[q][b]
  {
    partition' := partition;
    var index := 0;
    while index < WORKGROUP_SIZE
      invariant 0 <= index <= WORKGROUP_SIZE
      invariant |partition'| == |partition| && Rows(partition')
      invariant forall q :: base <= q < Min(base + index, pc) ==> partition'[q][radix] == want[q]
      invariant forall q :: 0 <= q < |partition| && (q < base || q >= Min(base + index, pc)) ==>
                  partition'[q] == partition[q]
      invariant forall q, b :: 0 <= q < |partition| && 0 <= b < RADIX && b != radix ==>
                  partition'[q][b] == partition[q][b]
    {
      var partitionIndex := base + index;
      if partitionIndex < pc {
        var excl: nat := scan[index] + reduction;
        var row: seq<nat> := partition'[partitionIndex][radix := excl];
        partition' := partition'[partitionIndex := row];
      }
      index := index + 1;
    }
  }

  /** One chunk of the partition loop: while the rows from `base` on are
      untouched, the chunk's scan plus `reduction` gives every lane its
      column prefix, and the chunk total advances `reduction` past the chunk. */
  lemma ChunkStep(partition: seq<seq<nat>>, current: seq<seq<nat>>, radix: nat, pc: nat, base: nat, s: nat,
                  reduction: nat)
    requires Rows(partition) && Rows(current) && |current| == |partition|
    requires radix < RADIX && pc <= |partition| && base <= pc && Lanes(WORKGROUP_SIZE, s)
    requires forall q :: base <= q < |partition| ==> current[q] == partition[q]
    requires reduction == Sum(Column(partition, radix, pc)[..base])
    ensures var values := ChunkValues(current, radix, pc, base);
      && (forall j :: 0 <= j < WORKGROUP_SIZE && base + j < pc ==>
            TwoLevelScanCorrected(values, s)[j] + reduction == ExclusiveScan(Column(partition, radix, pc))[base + j])
      && reduction + TwoLevelTotalCorrected(values, s) == Sum(Column(partition, radix, pc)[..Min(base + WORKGROUP_SIZE, pc)])
  {
    var col := Column(partition, radix, pc);
    var values := ChunkValues(current, radix, pc, base);
    assert forall k :: 0 <= k < |values| ==> values[k] == if base + k < |col| then col[base + k] else 0;
    TwoLevelScanCorrectedIsExclusiveSum(values, s);
    forall j | 0 <= j < WORKGROUP_SIZE && base + j < pc
      ensures TwoLevelScanCorrected(values, s)[j] + reduction == ExclusiveScan(col)[base + j]
    {
      ChunkLane(col, base, values, j);
    }
    ChunkTotal(col, base, values);
  }

  /** One iteration of the partition loop at chunk `base`: the chunk's
      entries of column `radix` get their prefixes, `reduction` moves past
      the chunk, and nothing else changes. */
  method ChunkIteration(partition: seq<seq<nat>>, current: seq<seq<nat>>, radix: nat, pc: nat, base: nat, s: nat,
                        reduction: nat, ghost want: seq<nat>)
    returns (next: seq<seq<nat>>, reduction': nat)
    requires Rows(partition) && Rows(current) && |current| == |partition|
    requires radix < RADIX && pc <= |partition| && base < pc && SubgroupSize(s)
    requires want == ExclusiveScan(Column(partition, radix, pc))
    requires reduction == Sum(Column(partition, radix, pc)[..base])
    requires forall q :: 0 <= q < base ==> current[q][radix] == want[q]
    requires forall q :: base <= q < |partition| ==> current[q] == partition[q]
    requires forall q, b :: 0 <= q < |partition| && 0 <= b < RADIX && b != radix ==> current[q][b] == partition[q][b]
    ensures |next| == |partition| && Rows(next)
    ensures reduction' == Sum(Column(partition, radix, pc)[..Min(base + WORKGROUP_SIZE, pc)])
    ensures forall q :: 0 <= q < Min(base + WORKGROUP_SIZE, pc) ==> next[q][radix] == want[q]
    ensures forall q :: Min(base + WORKGROUP_SIZE, pc) <= q < |partition| ==> next[q] == partition[q]
    ensures forall q, b :: 0 <= q < |partition| && 0 <= b < RADIX && b != radix ==> next[q][b] == partition[q][b]
  {
    SubgroupSizeFits(s);
    var values := ChunkValues(current, radix, pc, base);
    var scan := TwoLevelScanCorrected(values, s);
    ChunkStep(partition, current, radix, pc, base, s, reduction);
    next := WriteChunk(current, radix, pc, base, scan, reduction, want);
    reduction' := reduction + TwoLevelTotalCorrected(values, s);
  }

  /** One Spine workgroup's partition loop for column `radix`: afterwards
      entry `q < pc` of the column holds the sum of the entries before it,
      everything else is unchanged, and `reduction` is the column total. */
  method SpineColumn(partition: seq<seq<nat>>, n: u32, radix: nat, s: nat)
    returns (partition': seq<seq<nat>>, reduction: nat)
    requires Rows(partition) && radix < RADIX && PartitionCount(n) <= |partition|
    requires SubgroupSize(s)
    ensures |partition'| == |partition| && Rows(partition')
    ensures var col := Column(partition, radix, PartitionCount(n));
      forall q :: 0 <= q < PartitionCount(n) ==> partition'[q][radix] == Sum(col[..q])
    ensures reduction == Sum(Column(partition, radix, PartitionCount(n)))
    ensures forall q, b :: 0 <= q < |partition| && 0 <= b < RADIX && (b != radix || q >= PartitionCount(n)) ==>
              partition'[q][b] == partition[q][b]
  {
    var pc := PartitionCount(n);
    ghost var col := Column(partition, radix, pc);
    ghost var want := ExclusiveScan(col);
    partition' := partition;
    reduction := 0;
    var i := 0;
    while WORKGROUP_SIZE * i < pc
      invariant |partition'| == |partition| && Rows(partition')
      invariant reduction == Sum(col[..Min(WORKGROUP_SIZE * i, pc)])
      invariant forall q :: 0 <= q < Min(WORKGROUP_SIZE * i, pc) ==> partition'[q][radix] == want[q]
      invariant forall q :: Min(WORKGROUP_SIZE * i, pc) <= q < |partition| ==> partition'[q] == partition[q]
      invariant forall q, b :: 0 <= q < |partition| && 0 <= b < RADIX && b != radix ==>
                  partition'[q][b] == partition[q][b]
      decreases pc - WORKGROUP_SIZE * i
    {
      partition', reduction := ChunkIteration(partition, partition', radix, pc, WORKGROUP_SIZE * i, s, reduction, want);
      i := i + 1;
    }
    assert col[..pc] == col;
  }

  /** Workgroup 0's scan of GlobalHistogram row `pass`. */
  function GlobalRowScan(row: seq<nat>, s: nat): (r: seq<nat>)
    requires |row| == RADIX && SubgroupSize(s)
    ensures |r| == RADIX
    ensures forall b :: 0 <= b < RADIX ==> r[b] == Sum(row[..b])
  {
    SubgroupSizeFits(s);
    TwoLevelScanCorrectedIsExclusiveSum(row, s);
    TwoLevelScanCorrected(row, s)
  }

  /** For subgroups of 16 lanes or more the kernel's own level two computes
      the global-row scan. */
  lemma GlobalRowScanAsWritten(row: seq<nat>, s: nat)
    requires |row| == RADIX && SubgroupSize(s) && s >= 16
    ensures TwoLevelScan(row, s) == GlobalRowScan(row, s)
  {
    DivUnique(RADIX, s, RADIX / s);
    TwoLevelScanAgrees(row, s);
  }

  /** The Spine dispatch of `gpuSort`: 256 workgroups, one per column; the
      workgroups touch disjoint columns, so they are applied in radix order. */
  method SpineDispatch(h: Histograms, n: u32, pass: nat, s: nat) returns (h': Histograms)
    requires Fits(h, n) && pass < PASS_COUNT && SubgroupSize(s)
    requires n + PARTITION_SIZE - 1 < 0x1_0000_0000
    ensures Fits(h', n) && |h'.partition| == |h.partition|
    ensures forall b :: 0 <= b < RADIX ==> h'.global[pass][b] == Sum(h.global[pass][..b])
    ensures forall r :: 0 <= r < |h.global| && r != pass ==> h'.global[r] == h.global[r]
    ensures forall q, b :: 0 <= q < CeilDiv(n, PARTITION_SIZE) && 0 <= b < RADIX ==>
              h'.partition[q][b] == Sum(Column(h.partition, b, CeilDiv(n, PARTITION_SIZE))[..q])
    ensures forall q :: CeilDiv(n, PARTITION_SIZE) <= q < |h.partition| ==> h'.partition[q] == h.partition[q]
  {
    var pc := PartitionCount(n);
    var partition := h.partition;
    var radix := 0;
    while radix < RADIX
      invariant 0 <= radix <= RADIX
      invariant |partition| == |h.partition| && Rows(partition)
      invariant forall q, b :: 0 <= q < pc && 0 <= b < radix ==>
                  partition[q][b] == Sum(Column(h.partition, b, pc)[..q])
      invariant forall q, b :: 0 <= q < |partition| && radix <= b < RADIX ==>
                  partition[q][b] == h.partition[q][b]
      invariant forall q, b :: pc <= q < |partition| && 0 <= b < RADIX ==>
                  partition[q][b] == h.partition[q][b]
    {
      var reduction;
      ghost var before := partition;
      assert Column(before, radix, pc) == Column(h.partition, radix, pc);
      partition, reduction := SpineColumn(partition, n, radix, s);
      radix := radix + 1;
    }
    assert forall q :: pc <= q < |partition| ==> partition[q] == h.partition[q];
    var row := GlobalRowScan(h.global[pass], s);
    h' := Histograms(h.global[pass := row], partition);
  }
}
