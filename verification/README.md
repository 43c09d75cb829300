# WebGPU radix sort: host layout, command streams and the histogram kernels

This project models the core of a WebGPU least-significant-digit radix sort
for 32-bit keys and proves properties of that model in Dafny. The sort runs
four passes of 8-bit digits (radix 256). Each pass is three compute
dispatches: Upsweep, Spine and Downsweep. A partition holds 4096 keys and is
handled by one 512-thread workgroup. A separate Checker kernel counts
adjacent out-of-order pairs.

The modules follow the program's structure:

- `Layout` holds the host-side size arithmetic: `RoundUp`, `AlignUp`, the
  histogram and in/out region sizes, and the two storage-requirement
  queries. `u32` is defined here.
- `PassBuffer` is the uniform buffer holding the pass numbers 0..3, one per
  dynamic-uniform-alignment slot.
- `Binding` models the two ping-pong bind groups that `createBindGroup`
  builds and the checker's bind group. It also shows how the workspace
  regions tile the caller's storage buffer.
- `Commands` replays a command stream on a small model of a WebGPU command
  encoder. This is the `Step`/`Run` interpreter, which returns `None` for a
  command WebGPU validation would reject. With it the module states what
  `gpuSort` and `gpuCheck` record.
- `Digits` covers digit extraction, the sentinel padding of the last
  partition, and digit counts.
- `Upsweep` models the per-partition local histogram, its write-back, and
  the atomic accumulation into the global histogram in any workgroup order.
- `Subgroup` models the two-level subgroup scan that Spine uses: the code as
  written, and a corrected version.
- `Spine` models the exclusive scan of each bucket's column across the
  partitions and the scan of the global row.
- `SortPass` composes the clear, Upsweep and Spine into the histogram half
  of one digit pass. Its result is the offsets of a stable counting sort.
- `Checker` models the checker kernel, both as written and with strided
  windows.
- `Sums`, `Arith` and `Wrappers` are shared helpers.

## Model

| member | source | states |
|---|---|---|
| Layout.RoundUp | wgpu-radix-sort.js:19-21 | the result is the ceiling of `(a + b - 1) / b`: the least `r` with `r * b >= a + b - 1` |
| Layout.RoundUpBounds | wgpu-radix-sort.js:19-21 | `RoundUp(a, b)` is the exact ceiling of `a / b` or one more |
| Layout.RoundUpOnMultiple | wgpu-radix-sort.js:19-21 | on an exact multiple `k * b` (b > 1) `RoundUp` gives `k + 1`, and `RoundUp(0, b) == 1`, so there is always one more partition than the keys need |
| Layout.RoundUpCoversPartitions | wgpu-radix-sort.js:455 | every partition that starts before `n` has an index below `RoundUp(n, 4096)`, so it gets a workgroup |
| Layout.RoundUpMonotone | wgpu-radix-sort.js:19-21 | a larger element count never gets fewer partitions |
| Layout.PartitionRowsFit | wgpu-radix-sort.js:34-35 | the partition region sized for `m` keys has a 256-word row for every partition of any `n <= m` keys |
| Layout.PartitionRowsOverflow | wgpu-radix-sort.js:34-35 | the partition region sized for `m` keys is too small for the partitions of `n >= m + 4096 * (storageAlign + 1)` keys |
| Layout.AlignUp | wgpu-radix-sort.js:22-24 | the result is a multiple of the alignment, at least `a`, and less than `a + alignment` |
| Layout.AlignUpIdempotent | wgpu-radix-sort.js:22-24 | aligning twice equals aligning once |
| Layout.AlignUpOfMultiple | wgpu-radix-sort.js:22-24 | an already aligned size is unchanged |
| Layout.GlobalHistogramSize | wgpu-radix-sort.js:26-30 | the global region is aligned, holds the 4 x 256 words, and exceeds them by less than one alignment |
| Layout.PartitionHistogramSize | wgpu-radix-sort.js:34-35 | the partition region is aligned and holds `1 + RoundUp(n, 4096) * 256` words |
| Layout.HistogramSize | wgpu-radix-sort.js:32-37 | the histogram area is aligned and, past the global region, leaves room for one 256-word row per partition holding keys, plus one word |
| Layout.InoutSize | wgpu-radix-sort.js:39-41 | the key region is aligned, holds `n` words, and exceeds them by less than one alignment |
| Layout.SorterStorageRequirements | wgpu-radix-sort.js:205-210 | the keys-only size is aligned, covers the global histogram plus `n` words, and the usage is storage and copy-destination |
| Layout.SorterKeyValueStorageRequirements | wgpu-radix-sort.js:212-217 | the key-value size is the keys-only size plus one more in/out region, so it holds `2n` words past the global histogram |
| PassBuffer.WriteWord | wgpu-radix-sort.js:304-307 | writing a word makes it readable back at its offset and changes no other byte |
| PassBuffer.SlotsApart | wgpu-radix-sort.js:304-307 | slots `i < j` at stride `uniformAlign >= 4` do not overlap |
| PassBuffer.CreatePassBuffer | wgpu-radix-sort.js:298-308 | the buffer spans 4 slots, and slot `i` reads back the pass number `i` |
| Binding.SwapRoles | wgpu-radix-sort.js:384-449 | exchanges KeysIn with KeysOut and ValuesIn with ValuesOut; every other binding is unchanged |
| Binding.BindGroupsComplete | wgpu-radix-sort.js:318-449 | both groups bind exactly the eight bindings of the shared layout |
| Binding.Group1IsSwappedGroup0 | wgpu-radix-sort.js:384-449 | `_bindGroup1` is `_bindGroup0` with the in/out roles swapped, and the swap is its own inverse |
| Binding.PingPong | wgpu-radix-sort.js:466 | each pass's outputs are the next pass's inputs; pass 0 reads the caller's keys and values, and pass 3 writes them back to the caller's buffers |
| Binding.WorkspaceRegions | wgpu-radix-sort.js:310-373 | the global histogram, partition histogram, workspace keys and workspace values are contiguous from `storageOffset`, end at the key-value requirement, and are aligned whenever `storageOffset` is |
| Binding.StorageBindingsAligned | wgpu-radix-sort.js:310-373 | every binding into the storage buffer, in either group, starts at a multiple of the storage alignment when `storageOffset` is one |
| Binding.ClearFitsGlobalHistogram | wgpu-radix-sort.js:452-462 | the 4 x 256-word clear `gpuSort` records at its own `storageBuffer` and `storageOffset` starts at the GlobalHistogram binding and stays inside it if and only if that buffer and offset are the ones `createBindGroup` was given |
| Binding.PartitionHistogramCovers | wgpu-radix-sort.js:452-456 | for `gpuSort`'s own element count `n`, the PartitionHistogram binding holds a row for every one of the `RoundUp(n, 4096)` Upsweep workgroups whenever `n` is at most the count `createBindGroup` was given, and falls short once `n` exceeds it by `4096 * (storageAlign + 1)` |
| Binding.PassSlotsFit | wgpu-radix-sort.js:374-381 | the pass binding is one slot of the pass buffer, and every dynamic offset `i * uniformAlign` is aligned and stays within the buffer |
| Binding.CheckerReadsSortOutput | wgpu-radix-sort.js:262-287 | the checker group reads the element count the sort read and the keys the last sort pass wrote if and only if `createChecker` was given the same indirect and key buffers and offsets as `createBindGroup` |
| Binding.KeysOnlyWorkspaceOverrun | wgpu-radix-sort.js:205-210 | with a storage buffer sized by the keys-only requirement, the ValuesOut binding ends beyond it for every `n >= 1` |
| Binding.KeysOnlyRequirementsCorrected | wgpu-radix-sort.js:205-210 | the corrected requirement is aligned, and every binding of both groups lies inside it for any element count up to the maximum |
| Digits.Digit | shaders/upsweep_comp_wgsl.js:44 | a digit is below 256 |
| Digits.SentinelDigit | shaders/upsweep_comp_wgsl.js:43-44 | the padding key `0xffffffff` has digit 255 in every pass |
| Digits.HistTotal | shaders/upsweep_comp_wgsl.js:41-46 | a histogram of `hi - lo` slots sums to `hi - lo` |
| Digits.PaddingNotBelow | shaders/upsweep_comp_wgsl.js:43 | padding slots never have a digit below any bucket, so they never shift a real key's offset |
| Upsweep.ActiveIff | shaders/upsweep_comp_wgsl.js:27-33 | a workgroup does work if and only if its partition index is below the exact ceiling of `n / 4096` |
| Upsweep.KeyOffsetsEnumeratePartition | shaders/upsweep_comp_wgsl.js:41-42 | the 8 x 512 (step, thread) pairs address each of the 4096 slots of a partition exactly once |
| Upsweep.LocalHistogram | shaders/upsweep_comp_wgsl.js:35-46 | a local histogram has 256 buckets summing to 4096 |
| Upsweep.BuildLocalHistogram | shaders/upsweep_comp_wgsl.js:35-46 | each bucket counts the partition's slots with that digit, counting padding as digit 255; the total is 4096 |
| Upsweep.Workgroup | shaders/upsweep_comp_wgsl.js:24-55 | an early-exit workgroup changes nothing; otherwise it writes its own partition row and adds it into the global row of the pass, and nothing else changes |
| Upsweep.Dispatch | shaders/upsweep_comp_wgsl.js:49-55 | after any sequence of workgroups, the global row has gained the sum of their contributions, and exactly the active partitions in the sequence have their local histograms |
| Upsweep.DispatchOrderIrrelevant | shaders/upsweep_comp_wgsl.js:54 | two orders of the same workgroups give the same histograms |
| Upsweep.ContributionsCount | shaders/upsweep_comp_wgsl.js:54 | the contributions of workgroups `0..m` to bucket `b` count digit `b` over the active partitions among them |
| Upsweep.DispatchAllPartitions | shaders/upsweep_comp_wgsl.js:24-55 | a dispatch of `RoundUp(n, 4096)` workgroups in any order adds the digit counts of all active partitions to the global row and leaves each active partition's local histogram |
| Subgroup.LaneSubgroup | shaders/spine_comp_wgsl.js:25-27 | a thread's subgroup index is below the number of subgroups |
| Subgroup.TotalsPrefix | shaders/spine_comp_wgsl.js:42-46 | the first `k` subgroup totals sum to the first `k * s` values |
| Subgroup.TwoLevelScanIsExclusiveSum | shaders/spine_comp_wgsl.js:41-61 | when the subgroup totals fit in one subgroup, the kernel's two-level scan gives every lane the sum of the values before it |
| Subgroup.TwoLevelTotalIsSum | shaders/spine_comp_wgsl.js:49-56 | under the same condition, the value added to `reduction` is the sum of all values |
| Subgroup.SmallSubgroupGlobalRowFails | shaders/spine_comp_wgsl.js:49-56 | with subgroups of 8 and a 256-entry row of ones, the written scan gives entry 64 a prefix of 0 instead of 64 |
| Subgroup.TwoLevelScanCorrectedIsExclusiveSum | shaders/spine_comp_wgsl.js:49-56 | with the second level scanned across all subgroups, every lane gets its exclusive prefix sum and the total is the sum, for every subgroup size |
| Subgroup.TwoLevelScanAgrees | shaders/spine_comp_wgsl.js:49-56 | when the totals fit in one subgroup, the written and the corrected scans are equal |
| Subgroup.SmallSubgroupScanFails | shaders/spine_comp_wgsl.js:49-56 | with subgroups of 16 and 512 ones, the written scan gives lane 256 a prefix of 0 instead of 256, and the total is 256 instead of 512; with subgroups of 8 and 256 ones, it gives lane 64 a prefix of 0 instead of 64 |
| Spine.SubgroupSizeFits | shaders/spine_comp_wgsl.js:16-27 | for every supported subgroup size, 512 and 256 split into whole subgroups, and the subgroup totals fit the 128-entry `intermediate` array |
| Spine.PartitionCount | shaders/spine_comp_wgsl.js:31 | the count is the exact ceiling of `n / 4096` when `n + 4095` fits in 32 bits, and 0 when the sum wraps |
| Spine.ChunkPrefixSum | shaders/spine_comp_wgsl.js:39-41 | a prefix of a chunk sums the matching slice of the column, cut at the partition count |
| Spine.ChunkLane | shaders/spine_comp_wgsl.js:60-62 | the running reduction plus a lane's in-chunk prefix is the column prefix up to that partition |
| Spine.ChunkTotal | shaders/spine_comp_wgsl.js:51-56 | the reduction after a chunk is the column sum up to the end of that chunk |
| Spine.ChunkScanAsWritten | shaders/spine_comp_wgsl.js:41-61 | for subgroups of 32 or more, the chunk scan as written equals the corrected one |
| Spine.ChunkStep | shaders/spine_comp_wgsl.js:38-63 | one loop iteration gives each partition of the chunk its exclusive column prefix and advances `reduction` by the chunk total (with the corrected second-level scan; see Left out) |
| Spine.ChunkIteration | shaders/spine_comp_wgsl.js:38-64 | one iteration writes the chunk's exclusive column prefixes, advances `reduction` to the column sum through the chunk, and leaves later partitions and other buckets untouched (with the corrected second-level scan; see Left out) |
| Spine.WriteChunk | shaders/spine_comp_wgsl.js:60-63 | only the chunk's entries of this bucket change, and each gets its scan value |
| Spine.SpineColumn | shaders/spine_comp_wgsl.js:31-65 | one workgroup replaces its bucket's count in each partition with the sum over the earlier partitions; `reduction` ends as the column total; other buckets and partitions are unchanged (with the corrected second-level scan; see Left out) |
| Spine.GlobalRowScan | shaders/spine_comp_wgsl.js:67-84 | bucket `b` of the pass's global row becomes the sum of the buckets before it |
| Spine.GlobalRowScanAsWritten | shaders/spine_comp_wgsl.js:67-84 | for subgroups of 16 or more, the row scan as written equals that exclusive prefix sum |
| Spine.SpineDispatch | shaders/spine_comp_wgsl.js:28-84 | the 256 workgroups turn each bucket's partition column and the pass's global row into exclusive prefix sums; other passes' rows and partitions past the keys are unchanged (with the corrected second-level scan; see Left out) |
| SortPass.ClearGlobal | wgpu-radix-sort.js:458-462 | all four global rows are zero afterwards, and the partition rows are untouched |
| SortPass.ColumnPrefixCount | shaders/spine_comp_wgsl.js:60-62 | the prefix of a bucket's column over the first `p` partitions counts that digit among the first `p * 4096` keys |
| SortPass.GlobalPrefixCountsSmallerDigits | shaders/spine_comp_wgsl.js:80-82 | the prefix of the Upsweep's global row before bucket `b` counts the keys whose digit is below `b` |
| SortPass.UpsweepPass | wgpu-radix-sort.js:468-470 | from a zero global row, the Upsweep dispatch leaves the digit histogram of the keys and each active partition's local histogram; other rows are untouched |
| SortPass.HistogramPass | wgpu-radix-sort.js:464-474 | after Upsweep and Spine, global bucket `b` is the number of keys with a smaller digit, and partition `p`'s bucket `b` is the number of digit-`b` keys before partition `p` (with the corrected second-level scan; see Left out) |
| SortPass.ClearedHistogramPass | wgpu-radix-sort.js:458-474 | from any starting histograms, clear + Upsweep + Spine leave as the sum of the global and partition entries the start offset of a stable counting sort (with the corrected second-level scan; see Left out) |
| Checker.LastPair | shaders/checker_comp_wgsl.js:18 | `total_element - 1` is `n - 1`, and wraps to `0xffffffff` when `n == 0` |
| Checker.Workload | shaders/checker_comp_wgsl.js:16 | the workload is zero if and only if there are no keys, and at most one when threads cover the keys |
| Checker.DescentsZeroIff | shaders/checker_comp_wgsl.js:19 | no descents in a range if and only if the range is ordered |
| Checker.CheckerThread | shaders/checker_comp_wgsl.js:17-22 | a thread adds the number of descents in its window `[t, min(t + w, n - 1))` |
| Checker.Checker | shaders/checker_comp_wgsl.js:14-22 | the result is the total over all threads' windows, at most `threads * w` |
| Checker.CheckerZeroIff | shaders/checker_comp_wgsl.js:14-21 | the result is zero if and only if the keys are ordered over the prefix the windows cover |
| Checker.WindowsZeroIff | shaders/checker_comp_wgsl.js:17-18 | the first `m` windows see no descent if and only if the keys are ordered up to the end of window `m - 1` |
| Checker.CheckerSortedZero | shaders/checker_comp_wgsl.js:18-21 | sorted keys give a zero result |
| Checker.CheckerTinyZero | shaders/checker_comp_wgsl.js:16-18 | zero or one key gives zero, with no out-of-range pair from the wrapped `n - 1` |
| Checker.SinglePairWindows | shaders/checker_comp_wgsl.js:16-21 | with workload 1, each thread checks one pair, and the result counts the descents of the first `min(threads, n - 1)` pairs |
| Checker.CheckerUncappedExact | shaders/checker_comp_wgsl.js:14-21 | when there are at least as many threads as keys, the result is exactly the number of descents, and zero if and only if the keys are sorted |
| Checker.CheckerMissesTail | shaders/checker_comp_wgsl.js:17-18 | with the windows as written, a descent at a pair at or after `threads - 1 + w` is never counted |
| Checker.CappedCheckerCounterexample | wgpu-radix-sort.js:495 | with 65535 workgroups and 2^25 = 33,554,432 keys, an unsorted input gives a result of 0 |
| Checker.CheckerCorrectedExact | shaders/checker_comp_wgsl.js:17-18 | with windows starting at `t * w`, the result is exactly the number of descents for any thread count, and zero if and only if the keys are sorted |
| Commands.RecordStage | wgpu-radix-sort.js:468-470 | `setPipeline` then `dispatchWorkgroups` adds one dispatch that runs with the groups bound at that moment, and changes nothing else |
| Commands.RecordPass | wgpu-radix-sort.js:465-479 | one loop iteration records Upsweep (`partitionCount` workgroups), Spine (256) and Downsweep (`partitionCount`), each with only group 3 bound, to the pass's group at offset `i * uniformAlign` |
| Commands.GpuSort | wgpu-radix-sort.js:452-482 | the stream is valid and ends outside a pass; its only clear is the global histogram clear, which comes first; its dispatches are the twelve of `Schedule` with `RoundUp(n, 4096)` partitions |
| Commands.SortMatchesBindGroup | wgpu-radix-sort.js:452-466 | with `gpuSort`'s own element count, storage buffer and storage offset, its clear covers the GlobalHistogram binding of the group each dispatch runs with if and only if the buffer and offset are the bound ones, and for an element count at most the bound one every Upsweep dispatch has a PartitionHistogram row per workgroup |
| Commands.ScheduleBindsPass | wgpu-radix-sort.js:466 | dispatch `k` of the sort binds `GroupForPass(k / 3)`, and its dynamic offset reads pass number `k / 3` from the pass buffer |
| Commands.CheckWorkgroups | wgpu-radix-sort.js:495 | the checker's workgroup count never exceeds the device limit, is positive when the limit is, and gives a thread per key when uncapped |
| Commands.GpuCheck | wgpu-radix-sort.js:484-500 | the stream is valid and ends outside a pass; it clears the 4-byte result, runs one checker dispatch with the checker group in slot 3, and ends with the copy to the staging buffer |
| Commands.GpuCheckUncappedExact | wgpu-radix-sort.js:495 | when the workgroup count is not capped, the dispatched checker counts exactly the descents, and reports zero if and only if the keys are sorted |
| Commands.GpuCheckCorrectedExact | wgpu-radix-sort.js:495 | with strided checker windows, the dispatch `gpuCheck` records counts exactly the descents for any positive device limit |

## Left out

- Downsweep, the scatter half of each pass, is not part of this model: its kernel source is absent. The model therefore proves the histogram offsets a stable scatter needs, not that the four passes sort. `Commands` records the Downsweep dispatch only as a dispatch.
- Device creation and feature negotiation (Device.js) are left out. So are the creation and destruction of buffers, layouts, shader modules and pipelines, and `checkResult`'s asynchronous read-back. These are host I/O with no logic to prove.
- The subgroup size is a parameter restricted to the sizes WebGPU allows (4 to 128, powers of two). Nothing in the program constrains it further.
- GPU concurrency is modelled as sequential folds: threads, barriers, atomics and subgroup operations. Upsweep workgroups may run in any order, and `Upsweep.DispatchOrderIrrelevant` shows the order does not matter. Spine workgroups are applied bucket by bucket because they write disjoint columns.
- Checker.Workload: takes `ceil(f32(n) / f32(threads))` as the exact integer ceiling. It does not model the 24-bit f32 mantissa rounding for very large counts.
- The 32-bit wrap of the counters is not modelled: histogram entries, the Spine `reduction` and the checker's atomic result. Every count is bounded by `n < 2^32`, except the checker result, which can exceed `n` through overlapping windows.
- Upsweep.Workgroup: computes `partitionIndex * 4096` without 32-bit wrap-around. It wraps only for the workgroup with index 2^20, which exists only when `n > 2^32 - 4095`.
- Spine.SpineDispatch: requires `n + 4095 < 2^32`. `Spine.PartitionCount` models the wrap itself: a wrapped sum gives 0 partitions.
- Spine.SpineColumn: uses the corrected second-level scan. It is the kernel as written for subgroups of 32 or more (`Spine.ChunkScanAsWritten`), and the Findings table describes smaller ones.
- Spine.GlobalRowScan: uses the corrected second-level scan. It is the kernel as written for subgroups of 16 or more (`Spine.GlobalRowScanAsWritten`).
- Spine.ChunkStep: uses the corrected second-level scan for every subgroup size. It states what the kernel computes only for subgroups of 32 or more (`Spine.ChunkScanAsWritten`); with subgroups of 16 and more than 256 partitions the kernel as written gives other offsets (see Findings).
- Spine.ChunkIteration: uses the corrected second-level scan, so it equals the kernel's loop iteration only for subgroups of 32 or more.
- Spine.SpineDispatch: uses the corrected second-level scan in both the column scans and the global row scan, so it states the kernel as written only for subgroups of 32 or more.
- SortPass.HistogramPass: inherits the corrected Spine scan. The counting-sort offsets it proves are those of the program as written only for subgroups of 32 or more.
- SortPass.ClearedHistogramPass: inherits the corrected Spine scan, so it holds for the program as written only for subgroups of 32 or more.
- Binding.CheckerReadsSortOutput: the model does not require the caller of `createChecker` to pass the sort's buffers. The lemma states exactly when the checker reads the sort's output.
- Commands.SortMatchesBindGroup: the model does not require the caller of `gpuSort` to pass the element count, storage buffer and offset given to `createBindGroup`. The lemma states when the clear and the Upsweep rows land on the bound histograms; for an element count between the bound one and `4096 * (storageAlign + 1)` more, whether the rows fit depends on the alignment slack, and it is not stated.
- `ElementCount[0]` on the GPU is taken to equal the host's `elementCount`. The caller fills the indirect buffer.
- WebGPU's own rules are modelled only as far as the command encoder needs. Validation of bind-group sizes against buffer sizes, and `maxComputeWorkgroupsPerDimension` for the sort's dispatches, are not checked. Bind groups 0 to 2 of the pipeline layouts, which are empty, are not modelled.
- Keys are read beyond `n` only under a `select` that discards them. WGSL's bounds-clamped reads are not modelled.

## Findings

| source | as written | input that shows it | evidently intended | confidence | as-written member | corrected member |
|---|---|---|---|---|---|---|
| shaders/checker_comp_wgsl.js:17-18 | thread `t` checks pairs `t .. t + w - 1`: the windows overlap, so only pairs below `threads - 1 + w` are examined | `maxComputeWorkgroupsPerDimension` 65535 and `n = 2^25 = 33,554,432` (a 128 MiB key binding, within the default limits) give workload 2; keys 1 up to index 33,553,921 and 0 after give result 0 although the keys are unsorted | windows `t * w .. t * w + w - 1`, covering every pair exactly once | high; not executed | Checker.CappedCheckerCounterexample | Checker.CheckerCorrectedExact |
| wgpu-radix-sort.js:205-210 | the keys-only requirement reserves one in/out region, but `createBindGroup` always binds ValuesOut to a second region at `inoutOffset + inoutSize` | any `n >= 1`, with a storage buffer of exactly the keys-only size: the ValuesOut binding ends `InoutSize(n)` bytes past the buffer | reserve both in/out regions (the key-value size) whenever the same bind groups are used | medium; not executed | Binding.KeysOnlyWorkspaceOverrun | Binding.KeysOnlyRequirementsCorrected |
| shaders/spine_comp_wgsl.js:49-56 | the second level scans the `512 / s` subgroup totals with one `subgroupExclusiveAdd`, which sees only the `s` lanes of each subgroup | subgroup size 16 and more than 256 partitions (`n > 1,048,576`): a chunk of 512 ones gives partition 256 the offset 0 instead of 256, and `reduction` grows by 256 instead of 512 (likewise the 256-entry global row for subgroup size 8: entry 64 gets 0 instead of 64) | scan all `512 / s` totals across subgroups | medium; not executed | Subgroup.SmallSubgroupScanFails | Subgroup.TwoLevelScanCorrectedIsExclusiveSum |
