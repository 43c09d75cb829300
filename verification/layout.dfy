/** The layout planner of `RadixSorter`: the fixed sort geometry and the
    byte sizes of the histogram and key/value regions of the workspace. */
module Layout {

  import opened Arith

  /** Buckets per digit pass (an 8-bit digit). */
  const RADIX: nat := 256
  /** Threads per workgroup in every kernel. */
  const WORKGROUP_SIZE: nat := 512
  /** Keys handled by each Upsweep thread. */
  const PARTITION_DIVISION: nat := 8
  /** Keys per partition, one partition per Upsweep workgroup. */
  const PARTITION_SIZE: nat := PARTITION_DIVISION * WORKGROUP_SIZE
  /** `Uint32Array.BYTES_PER_ELEMENT`. */
  const BYTES_PER_ELEMENT: nat := 4
  /** Digit passes needed to cover a 32-bit key. */
  const PASS_COUNT: nat := 4

  /** A WGSL `u32` value. */
  type u32 = x: nat | x < 0x1_0000_0000

  /** Exact integer ceiling of `a / b`, the reference the host quirk is measured against. */
  function CeilDiv(a: nat, b: nat): (q: nat)
    requires b > 0
    ensures q * b >= a
    ensures q == 0 || (q - 1) * b < a
  {
    var q := (a + b - 1) / b;
    DivBounds(a + b - 1, b);
    assert (q - 1) * b == q * b - b;
    q
  }

  /** `RoundUp(a, b)` as written: `Math.ceil((a + b - 1) / b)`. The ceiling
      of the real quotient `(a + b - 1) / b`, which is one more than
      `ceil(a / b)` whenever `b` divides `a`. */
  function RoundUp(a: nat, b: nat): (r: nat)
    requires b > 0
    ensures r * b >= a + b - 1
    ensures r == 0 || (r - 1) * b < a + b - 1
  {
    CeilDiv(a + b - 1, b)
  }

  /** `AlignUp(a, alignment)`: the least multiple of `alignment` not below `a`. */
  function AlignUp(a: nat, alignment: nat): (r: nat)
    requires alignment > 0
    ensures r % alignment == 0
    ensures a <= r < a + alignment
  {
    var q := (a + alignment - 1) / alignment;
    DivBounds(a + alignment - 1, alignment);
    MulMod(q, alignment);
    q * alignment
  }

  /** `RoundUp` overshoots the exact ceiling by at most one. */
  lemma RoundUpBounds(a: nat, b: nat)
    requires b > 0
    ensures CeilDiv(a, b) <= RoundUp(a, b) <= CeilDiv(a, b) + 1
  {
    var c := CeilDiv(a, b);
    var r := RoundUp(a, b);
    if c > 0 {
      MulLessCancel(c - 1, r, b);
    }
    if r > 0 {
      assert (c + 1) * b == c * b + b;
      MulLessCancel(r - 1, c + 1, b);
    }
  }

  /** The quirk made concrete: on an exact multiple `RoundUp` is one too large,
      and it never returns 0 for `b > 1`. */
  lemma RoundUpOnMultiple(k: nat, b: nat)
    requires b > 1
    ensures RoundUp(k * b, b) == k + 1
    ensures RoundUp(0, b) == 1
  {
    assert (k + 1) * b == k * b + b;
    DivUnique(k * b + b - 1 + b - 1, b, k + 1);
    DivUnique(b - 1 + b - 1, b, 1);
  }

  /** Every partition holding at least one key gets an Upsweep workgroup. */
  lemma RoundUpCoversPartitions(n: nat, b: nat, p: nat)
    requires b > 0
    requires p * b < n
    ensures p < RoundUp(n, b)
  {
    RoundUpBounds(n, b);
    MulLessCancel(p, CeilDiv(n, b), b);
  }

  /** A larger element count never gets fewer partitions. */
  lemma RoundUpMonotone(a: nat, c: nat, b: nat)
    requires b > 0 && a <= c
    ensures RoundUp(a, b) <= RoundUp(c, b)
  {
    var ra := RoundUp(a, b);
    var rc := RoundUp(c, b);
    if ra > rc {
      MulLeMono(rc, ra - 1, b);
    }
  }

  lemma AlignUpIdempotent(a: nat, alignment: nat)
    requires alignment > 0
    ensures AlignUp(AlignUp(a, alignment), alignment) == AlignUp(a, alignment)
  {
    var r := AlignUp(a, alignment);
    AlignUpOfMultiple(r, alignment);
  }

  /** A value that is already aligned is left alone. */
  lemma AlignUpOfMultiple(a: nat, alignment: nat)
    requires alignment > 0
    requires a % alignment == 0
    ensures AlignUp(a, alignment) == a
  {
    DivBounds(a, alignment);
    DivUnique(a + alignment - 1, alignment, a / alignment);
  }

  /** `GlobalHistogramSize()`: four rows of 256 u32 counters, aligned. */
  function GlobalHistogramSize(storageAlign: nat): (r: nat)
    requires storageAlign > 0
    ensures r >= PASS_COUNT * RADIX * BYTES_PER_ELEMENT
    ensures r % storageAlign == 0
    ensures r < PASS_COUNT * RADIX * BYTES_PER_ELEMENT + storageAlign
  {
    AlignUp(BYTES_PER_ELEMENT * 4 * RADIX, storageAlign)
  }

  /** Byte size of the partition-histogram region: `(1 + RoundUp(n, 4096) * 256) * 4`, aligned. */
  function PartitionHistogramSize(elementCount: nat, storageAlign: nat): (r: nat)
    requires storageAlign > 0
    ensures r >= (1 + RoundUp(elementCount, PARTITION_SIZE) * RADIX) * BYTES_PER_ELEMENT
    ensures r % storageAlign == 0
  {
    AlignUp((1 + RoundUp(elementCount, PARTITION_SIZE) * RADIX) * BYTES_PER_ELEMENT, storageAlign)
  }

  /** The partition region sized for `m` keys has a 256-word row for every
      partition of any `n <= m` keys, dispatched or holding keys. */
  lemma PartitionRowsFit(n: nat, m: nat, storageAlign: nat)
    requires storageAlign > 0 && n <= m
    ensures PartitionHistogramSize(m, storageAlign) >= BYTES_PER_ELEMENT * RADIX * RoundUp(n, PARTITION_SIZE)
    ensures PartitionHistogramSize(m, storageAlign) >= BYTES_PER_ELEMENT * RADIX * CeilDiv(n, PARTITION_SIZE)
  {
    RoundUpMonotone(n, m, PARTITION_SIZE);
    RoundUpBounds(n, PARTITION_SIZE);
  }

  /** The partition region sized for `m` keys is too small for the rows of
      `n` keys once `n` exceeds `m` by `4096 * (storageAlign + 1)`: the
      alignment slack no longer absorbs the extra rows. */
  lemma PartitionRowsOverflow(n: nat, m: nat, storageAlign: nat)
    requires storageAlign > 0 && n >= m + PARTITION_SIZE * (storageAlign + 1)
    ensures PartitionHistogramSize(m, storageAlign) < BYTES_PER_ELEMENT * RADIX * RoundUp(n, PARTITION_SIZE)
  {
    var rm := RoundUp(m, PARTITION_SIZE);
    var rn := RoundUp(n, PARTITION_SIZE);
    var size := PartitionHistogramSize(m, storageAlign);
    assert size < (1 + rm * RADIX) * BYTES_PER_ELEMENT + storageAlign;
    assert rm == 0 || (rm - 1) * PARTITION_SIZE < m + PARTITION_SIZE - 1;
    assert rm * PARTITION_SIZE < m + 2 * PARTITION_SIZE;
    assert rn * PARTITION_SIZE >= n + PARTITION_SIZE - 1;
    assert 4 * size < 4 * BYTES_PER_ELEMENT + rm * PARTITION_SIZE + 4 * storageAlign;
  }

  /** `HistogramSize(n)`: global histogram followed by the partition histogram. */
  function HistogramSize(elementCount: nat, storageAlign: nat): (r: nat)
    requires storageAlign > 0
    ensures r % storageAlign == 0
    ensures r - GlobalHistogramSize(storageAlign)
         >= BYTES_PER_ELEMENT * RADIX * CeilDiv(elementCount, PARTITION_SIZE) + BYTES_PER_ELEMENT
  {
    var g := GlobalHistogramSize(storageAlign);
    var p := PartitionHistogramSize(elementCount, storageAlign);
    MultipleAdd(g, p, storageAlign);
    RoundUpBounds(elementCount, PARTITION_SIZE);
    g + p
  }

  /** `InoutSize(n)`: one aligned region of `n` u32 keys (or values). */
  function InoutSize(elementCount: nat, storageAlign: nat): (r: nat)
    requires storageAlign > 0
    ensures r % storageAlign == 0
    ensures BYTES_PER_ELEMENT * elementCount <= r < BYTES_PER_ELEMENT * elementCount + storageAlign
  {
    AlignUp(elementCount * BYTES_PER_ELEMENT, storageAlign)
  }

  /** `GPUBufferUsage` flags a workspace must carry. */
  datatype Usage = Storage | CopyDst

  /** `VrdxSorterStorageRequirements`. */
  datatype StorageRequirements = StorageRequirements(size: nat, usage: set<Usage>)

  /** `vrdxGetSorterStorageRequirements`: keys-only workspace. */
  function SorterStorageRequirements(maxElementCount: nat, storageAlign: nat): (req: StorageRequirements)
    requires storageAlign > 0
    ensures req.size % storageAlign == 0
    ensures req.size >= GlobalHistogramSize(storageAlign) + BYTES_PER_ELEMENT * maxElementCount
    ensures req.usage == {Storage, CopyDst}
  {
    var i := InoutSize(maxElementCount, storageAlign);
    var h := HistogramSize(maxElementCount, storageAlign);
    MultipleAdd(i, h, storageAlign);
    StorageRequirements(i + h, {Storage, CopyDst})
  }

  /** `vrdxGetSorterKeyValueStorageRequirements`: workspace with room for keys and values. */
  function SorterKeyValueStorageRequirements(maxElementCount: nat, storageAlign: nat): (req: StorageRequirements)
    requires storageAlign > 0
    ensures req.size % storageAlign == 0
    ensures req.size >= GlobalHistogramSize(storageAlign) + 2 * BYTES_PER_ELEMENT * maxElementCount
    ensures req.size == SorterStorageRequirements(maxElementCount, storageAlign).size
                        + InoutSize(maxElementCount, storageAlign)
    ensures req.usage == {Storage, CopyDst}
  {
    var keysOnly := SorterStorageRequirements(maxElementCount, storageAlign).size;
    var i := InoutSize(maxElementCount, storageAlign);
    MultipleAdd(keysOnly, i, storageAlign);
    assert 2 * BYTES_PER_ELEMENT * maxElementCount == BYTES_PER_ELEMENT * maxElementCount + BYTES_PER_ELEMENT * maxElementCount;
    StorageRequirements(keysOnly + i, {Storage, CopyDst})
  }

  /** Aligning up preserves order. */
  lemma AlignUpMonotone(a: nat, b: nat, alignment: nat)
    requires alignment > 0 && a <= b
    ensures AlignUp(a, alignment) <= AlignUp(b, alignment)
  {
    var qa := (a + alignment - 1) / alignment;
    var qb := (b + alignment - 1) / alignment;
    DivBounds(a + alignment - 1, alignment);
    DivBounds(b + alignment - 1, alignment);
    assert (qb + 1) * alignment == qb * alignment + alignment;
    MulLessCancel(qa, qb + 1, alignment);
    MulLeMono(qa, qb, alignment);
  }

  /** A larger element count never needs a smaller key region. */
  lemma InoutSizeMonotone(n: nat, m: nat, storageAlign: nat)
    requires storageAlign > 0 && n <= m
    ensures InoutSize(n, storageAlign) <= InoutSize(m, storageAlign)
  {
    AlignUpMonotone(n * BYTES_PER_ELEMENT, m * BYTES_PER_ELEMENT, storageAlign);
  }

  /** A larger element count never needs a smaller histogram area. */
  lemma HistogramSizeMonotone(n: nat, m: nat, storageAlign: nat)
    requires storageAlign > 0 && n <= m
    ensures HistogramSize(n, storageAlign) <= HistogramSize(m, storageAlign)
  {
    var rn := RoundUp(n, PARTITION_SIZE);
    var rm := RoundUp(m, PARTITION_SIZE);
    DivBounds(n + PARTITION_SIZE - 1 + PARTITION_SIZE - 1, PARTITION_SIZE);
    DivBounds(m + PARTITION_SIZE - 1 + PARTITION_SIZE - 1, PARTITION_SIZE);
    assert (rm + 1) * PARTITION_SIZE == rm * PARTITION_SIZE + PARTITION_SIZE;
    MulLessCancel(rn, rm + 1, PARTITION_SIZE);
    AlignUpMonotone((1 + rn * RADIX) * BYTES_PER_ELEMENT, (1 + rm * RADIX) * BYTES_PER_ELEMENT, storageAlign);
  }
}
