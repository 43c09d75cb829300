/** The resource binder of `createBindGroup`: the two bind groups of the
    sort, as maps from binding number to buffer range, and the facts that
    make the ping-pong scheme and the workspace carving sound. */
module Binding {

  import opened Arith
  import opened Layout

  /** The buffers a bind group can refer to. The caller's buffers are
      opaque; only the workspace (`StorageBuffer`) is carved by the sorter. */
  datatype BufferId =
    | IndirectBuffer | KeysBuffer | ValuesBuffer | StorageBuffer
    | PassIndexBuffer | ResultBuffer | StagingBuffer

  /** A binding without a size covers the rest of its buffer. */
  datatype Extent = RestOfBuffer | Bytes(size: nat)

  datatype BufferBinding = BufferBinding(buffer: BufferId, offset: nat, extent: Extent)

  /** Binding number to the buffer range bound there. */
  type BindGroup = map<nat, BufferBinding>

  /** Binding numbers of the shared sort layout, as the kernels declare them. */
  const ELEMENT_COUNT: nat := 0
  const GLOBAL_HISTOGRAM: nat := 1
  const PARTITION_HISTOGRAM: nat := 2
  const KEYS_IN: nat := 3
  const KEYS_OUT: nat := 4
  const VALUES_IN: nat := 5
  const VALUES_OUT: nat := 6
  const PASS_INDEX: nat := 7

  /** The binding numbers of the sort's bind-group layout. */
  const LayoutBindings: set<nat> := {
    ELEMENT_COUNT, GLOBAL_HISTOGRAM, PARTITION_HISTOGRAM, KEYS_IN,
    KEYS_OUT, VALUES_IN, VALUES_OUT, PASS_INDEX}

  /** Device limits the sorter reads at construction. */
  datatype Limits = Limits(storageAlign: nat, uniformAlign: nat, maxWorkgroupsPerDimension: nat)

  predicate ValidLimits(l: Limits) {
    l.storageAlign > 0 && l.uniformAlign >= BYTES_PER_ELEMENT
  }

  /** The buffer offsets and element count handed to `createBindGroup`. */
  datatype Placement = Placement(
    elementCount: nat,
    indirectOffset: nat,
    keysOffset: nat,
    valuesOffset: nat,
    storageOffset: nat)

  /** Start of the key/value ping-pong regions: right after the histograms. */
  function InoutOffset(l: Limits, pl: Placement): nat
    requires ValidLimits(l)
  {
    pl.storageOffset + HistogramSize(pl.elementCount, l.storageAlign)
  }

  /** The bindings both groups share: element count, the two histograms, the pass index. */
  function SharedBindings(l: Limits, pl: Placement): BindGroup
    requires ValidLimits(l)
  {
    var globalHistogramSize := GlobalHistogramSize(l.storageAlign);
    var histogramSize := HistogramSize(pl.elementCount, l.storageAlign);
    map[
      ELEMENT_COUNT := BufferBinding(IndirectBuffer, pl.indirectOffset, RestOfBuffer),
      GLOBAL_HISTOGRAM := BufferBinding(StorageBuffer, pl.storageOffset, Bytes(globalHistogramSize)),
      PARTITION_HISTOGRAM := BufferBinding(StorageBuffer, pl.storageOffset + globalHistogramSize,
                                           Bytes(histogramSize - globalHistogramSize)),
      PASS_INDEX := BufferBinding(PassIndexBuffer, 0, Bytes(l.uniformAlign))
    ]
  }

  /** The caller's keys and values, bound without a size. */
  function CallerKeys(pl: Placement): BufferBinding {
    BufferBinding(KeysBuffer, pl.keysOffset, RestOfBuffer)
  }

  function CallerValues(pl: Placement): BufferBinding {
    BufferBinding(ValuesBuffer, pl.valuesOffset, RestOfBuffer)
  }

  /** The workspace key region and, right after it, the workspace value region. */
  function WorkspaceKeys(l: Limits, pl: Placement): BufferBinding
    requires ValidLimits(l)
  {
    BufferBinding(StorageBuffer, InoutOffset(l, pl), Bytes(InoutSize(pl.elementCount, l.storageAlign)))
  }

  function WorkspaceValues(l: Limits, pl: Placement): BufferBinding
    requires ValidLimits(l)
  {
    var inoutSize := InoutSize(pl.elementCount, l.storageAlign);
    BufferBinding(StorageBuffer, InoutOffset(l, pl) + inoutSize, Bytes(inoutSize))
  }

  /** `_bindGroup0`: reads the caller's keys/values, writes the workspace. */
  function BindGroup0(l: Limits, pl: Placement): BindGroup
    requires ValidLimits(l)
  {
    SharedBindings(l, pl)[
      KEYS_IN := CallerKeys(pl)][
      KEYS_OUT := WorkspaceKeys(l, pl)][
      VALUES_IN := CallerValues(pl)][
      VALUES_OUT := WorkspaceValues(l, pl)]
  }

  /** `_bindGroup1`: the same ranges with In and Out bound the other way round. */
  function BindGroup1(l: Limits, pl: Placement): BindGroup
    requires ValidLimits(l)
  {
    SharedBindings(l, pl)[
      KEYS_OUT := CallerKeys(pl)][
      KEYS_IN := WorkspaceKeys(l, pl)][
      VALUES_OUT := CallerValues(pl)][
      VALUES_IN := WorkspaceValues(l, pl)]
  }

  /** Exchanges the In and Out roles of keys and of values. */
  function SwapRoles(g: BindGroup): (r: BindGroup)
    requires KEYS_IN in g && KEYS_OUT in g && VALUES_IN in g && VALUES_OUT in g
    ensures r.Keys == g.Keys
    ensures r[KEYS_IN] == g[KEYS_OUT] && r[KEYS_OUT] == g[KEYS_IN]
    ensures r[VALUES_IN] == g[VALUES_OUT] && r[VALUES_OUT] == g[VALUES_IN]
    ensures forall b :: b in g && b !in {KEYS_IN, KEYS_OUT, VALUES_IN, VALUES_OUT} ==> r[b] == g[b]
  {
    g[KEYS_IN := g[KEYS_OUT]][KEYS_OUT := g[KEYS_IN]][VALUES_IN := g[VALUES_OUT]][VALUES_OUT := g[VALUES_IN]]
  }

  /** Both groups bind exactly the eight roles of the shared layout. */
  lemma BindGroupsComplete(l: Limits, pl: Placement)
    requires ValidLimits(l)
    ensures BindGroup0(l, pl).Keys == LayoutBindings
    ensures BindGroup1(l, pl).Keys == LayoutBindings
  {
  }

  /** `_bindGroup1` is `_bindGroup0` with bindings 3 and 4, and 5 and 6,
      exchanged; nothing else differs. */
  lemma Group1IsSwappedGroup0(l: Limits, pl: Placement)
    requires ValidLimits(l)
    ensures BindGroup1(l, pl) == SwapRoles(BindGroup0(l, pl))
    ensures BindGroup0(l, pl) == SwapRoles(BindGroup1(l, pl))
  {
    var g0, g1 := BindGroup0(l, pl), BindGroup1(l, pl);
    assert forall b :: b in g1 ==> g1[b] == SwapRoles(g0)[b];
    assert forall b :: b in g0 ==> g0[b] == SwapRoles(g1)[b];
  }

  /** The group bound for digit pass `i`: even passes use `_bindGroup0`. */
  function GroupForPass(l: Limits, pl: Placement, i: nat): BindGroup
    requires ValidLimits(l)
  {
    if i % 2 == 0 then BindGroup0(l, pl) else BindGroup1(l, pl)
  }

  /** Ping-pong: what pass `i` writes is what pass `i + 1` reads, the first
      pass reads the caller's keys and values, and the last pass (pass 3)
      writes them back to the caller's buffers. */
  lemma PingPong(l: Limits, pl: Placement)
    requires ValidLimits(l)
    ensures forall i :: 0 <= i < PASS_COUNT - 1 ==>
              GroupForPass(l, pl, i)[KEYS_OUT] == GroupForPass(l, pl, i + 1)[KEYS_IN]
              && GroupForPass(l, pl, i)[VALUES_OUT] == GroupForPass(l, pl, i + 1)[VALUES_IN]
    ensures GroupForPass(l, pl, 0)[KEYS_IN] == CallerKeys(pl)
    ensures GroupForPass(l, pl, 0)[VALUES_IN] == CallerValues(pl)
    ensures GroupForPass(l, pl, PASS_COUNT - 1)[KEYS_OUT] == CallerKeys(pl)
    ensures GroupForPass(l, pl, PASS_COUNT - 1)[VALUES_OUT] == CallerValues(pl)
  {
    forall i | 0 <= i < PASS_COUNT - 1
      ensures GroupForPass(l, pl, i)[KEYS_OUT] == GroupForPass(l, pl, i + 1)[KEYS_IN]
      ensures GroupForPass(l, pl, i)[VALUES_OUT] == GroupForPass(l, pl, i + 1)[VALUES_IN]
    {
      Group1IsSwappedGroup0(l, pl);
    }
  }

  /** The buffers and offsets handed to `createChecker`, chosen by its caller
      independently of those handed to `createBindGroup`. */
  datatype CheckerArgs = CheckerArgs(indirectBuffer: BufferId, indirectOffset: nat, keysBuffer: BufferId, keysOffset: nat)

  /** `_bindGroup_checker`: ElementCount, the keys, and the 4-byte result counter. */
  function CheckerBindGroup(a: CheckerArgs): BindGroup {
    map[
      0 := BufferBinding(a.indirectBuffer, a.indirectOffset, RestOfBuffer),
      1 := BufferBinding(a.keysBuffer, a.keysOffset, RestOfBuffer),
      2 := BufferBinding(ResultBuffer, 0, Bytes(BYTES_PER_ELEMENT))]
  }

  /** The checker reads the element count the sort read and the keys where
      the last pass of the sort wrote them exactly when `createChecker` was
      given the indirect and key buffers and offsets of `createBindGroup`. */
  lemma CheckerReadsSortOutput(l: Limits, pl: Placement, a: CheckerArgs)
    requires ValidLimits(l)
    ensures (CheckerBindGroup(a)[1] == GroupForPass(l, pl, PASS_COUNT - 1)[KEYS_OUT]
             && CheckerBindGroup(a)[0] == GroupForPass(l, pl, PASS_COUNT - 1)[ELEMENT_COUNT])
            <==> a == CheckerArgs(IndirectBuffer, pl.indirectOffset, KeysBuffer, pl.keysOffset)
  {
    PingPong(l, pl);
  }

  /** End of a sized binding. */
  function End(b: BufferBinding): nat
    requires b.extent.Bytes?
  {
    b.offset + b.extent.size
  }

  /** The four workspace regions follow one another without gap or overlap,
      starting at `storageOffset` and ending exactly where the key-value
      storage requirement ends; every one of them is aligned when the
      workspace offset is. */
  lemma WorkspaceRegions(l: Limits, pl: Placement)
    requires ValidLimits(l)
    ensures var g := BindGroup0(l, pl);
      && g[GLOBAL_HISTOGRAM].offset == pl.storageOffset
      && End(g[GLOBAL_HISTOGRAM]) == g[PARTITION_HISTOGRAM].offset
      && End(g[PARTITION_HISTOGRAM]) == g[KEYS_OUT].offset
      && End(g[KEYS_OUT]) == g[VALUES_OUT].offset
      && End(g[VALUES_OUT])
         == pl.storageOffset + SorterKeyValueStorageRequirements(pl.elementCount, l.storageAlign).size
    ensures pl.storageOffset % l.storageAlign == 0 ==>
      var g := BindGroup0(l, pl);
      && g[GLOBAL_HISTOGRAM].offset % l.storageAlign == 0
      && g[PARTITION_HISTOGRAM].offset % l.storageAlign == 0
      && g[KEYS_OUT].offset % l.storageAlign == 0
      && g[VALUES_OUT].offset % l.storageAlign == 0
  {
    var sa := l.storageAlign;
    var g := GlobalHistogramSize(sa);
    var h := HistogramSize(pl.elementCount, sa);
    var i := InoutSize(pl.elementCount, sa);
    assert h >= g;
    if pl.storageOffset % sa == 0 {
      MultipleAdd(pl.storageOffset, g, sa);
      MultipleAdd(pl.storageOffset, h, sa);
      MultipleAdd(pl.storageOffset + h, i, sa);
    }
  }

  /** Every workspace binding of either group, whatever its role, is aligned
      when the workspace offset is. */
  lemma StorageBindingsAligned(l: Limits, pl: Placement, i: nat)
    requires ValidLimits(l)
    requires pl.storageOffset % l.storageAlign == 0
    ensures forall b :: b in GroupForPass(l, pl, i) && GroupForPass(l, pl, i)[b].buffer == StorageBuffer ==>
              GroupForPass(l, pl, i)[b].offset % l.storageAlign == 0
  {
    WorkspaceRegions(l, pl);
  }

  /** `gpuSort` clears 4 rows of 256 u32 counters from its own
      `storageBuffer` and `storageOffset` arguments. That clear starts at the
      GlobalHistogram binding, and then stays inside it, if and only if the
      buffer and offset are the ones `createBindGroup` was given. */
  lemma ClearFitsGlobalHistogram(l: Limits, pl: Placement, clearBuffer: BufferId, clearOffset: nat)
    requires ValidLimits(l)
    ensures var gh := BindGroup0(l, pl)[GLOBAL_HISTOGRAM];
      (gh.buffer == clearBuffer && gh.offset == clearOffset
       && clearOffset + PASS_COUNT * RADIX * BYTES_PER_ELEMENT <= End(gh))
      <==> clearBuffer == StorageBuffer && clearOffset == pl.storageOffset
  {
  }

  /** `gpuSort` dispatches `RoundUp(n, 4096)` Upsweep workgroups for its own
      element count `n`, and workgroup `p` writes the words `RADIX * p + b`.
      The PartitionHistogram binding has a row for each of them whenever `n`
      is at most the count `createBindGroup` sized it for; an `n` larger by
      `4096 * (storageAlign + 1)` or more always has rows past its end. */
  lemma PartitionHistogramCovers(l: Limits, pl: Placement, n: nat)
    requires ValidLimits(l)
    ensures var ph := BindGroup0(l, pl)[PARTITION_HISTOGRAM];
      n <= pl.elementCount ==>
        && ph.extent.size >= BYTES_PER_ELEMENT * RADIX * CeilDiv(n, PARTITION_SIZE)
        && ph.extent.size >= BYTES_PER_ELEMENT * RADIX * RoundUp(n, PARTITION_SIZE)
    ensures var ph := BindGroup0(l, pl)[PARTITION_HISTOGRAM];
      n >= pl.elementCount + PARTITION_SIZE * (l.storageAlign + 1) ==>
        ph.extent.size < BYTES_PER_ELEMENT * RADIX * RoundUp(n, PARTITION_SIZE)
  {
    assert BindGroup0(l, pl)[PARTITION_HISTOGRAM].extent.size
        == PartitionHistogramSize(pl.elementCount, l.storageAlign);
    if n <= pl.elementCount {
      PartitionRowsFit(n, pl.elementCount, l.storageAlign);
    }
    if n >= pl.elementCount + PARTITION_SIZE * (l.storageAlign + 1) {
      PartitionRowsOverflow(n, pl.elementCount, l.storageAlign);
    }
  }

  /** The pass-index binding is one uniform-alignment slot; each of the four
      dynamic offsets `i * uniformAlign` keeps it inside the
      `4 * uniformAlign`-byte pass buffer, and is itself aligned. */
  lemma PassSlotsFit(l: Limits, pl: Placement)
    requires ValidLimits(l)
    ensures BindGroup0(l, pl)[PASS_INDEX] == BufferBinding(PassIndexBuffer, 0, Bytes(l.uniformAlign))
    ensures forall i :: 0 <= i < PASS_COUNT ==>
              i * l.uniformAlign + l.uniformAlign <= PASS_COUNT * l.uniformAlign
              && (i * l.uniformAlign) % l.uniformAlign == 0
  {
    forall i | 0 <= i < PASS_COUNT
      ensures i * l.uniformAlign + l.uniformAlign <= PASS_COUNT * l.uniformAlign
      ensures (i * l.uniformAlign) % l.uniformAlign == 0
    {
      MulLeMono(i + 1, PASS_COUNT, l.uniformAlign);
      MulMod(i, l.uniformAlign);
    }
  }

  /** A workspace binding lies inside `[storageOffset, storageOffset + size)`. */
  predicate InsideWorkspace(b: BufferBinding, storageOffset: nat, size: nat) {
    b.buffer == StorageBuffer ==>
      b.extent.Bytes? && storageOffset <= b.offset && b.offset + b.extent.size <= storageOffset + size
  }

  /** The keys-only requirement is too small for the groups `createBindGroup`
      builds: ValuesOut is always bound one key region past its end, so for
      any non-empty sort it overruns a workspace sized by that query. */
  lemma KeysOnlyWorkspaceOverrun(l: Limits, pl: Placement)
    requires ValidLimits(l)
    requires pl.elementCount > 0
    ensures var size := SorterStorageRequirements(pl.elementCount, l.storageAlign).size;
      End(BindGroup0(l, pl)[VALUES_OUT]) > pl.storageOffset + size
      && !InsideWorkspace(BindGroup0(l, pl)[VALUES_OUT], pl.storageOffset, size)
  {
    WorkspaceRegions(l, pl);
  }

  /** The keys-only storage requirement as it would have to read for a
      workspace sized by it to hold every region `createBindGroup` binds:
      it must reserve the ValuesOut region too. */
  function KeysOnlyRequirementsCorrected(maxElementCount: nat, l: Limits, pl: Placement): (req: StorageRequirements)
    requires ValidLimits(l)
    requires pl.elementCount <= maxElementCount
    ensures req.usage == {Storage, CopyDst}
    ensures req.size % l.storageAlign == 0
    ensures forall i, b :: b in GroupForPass(l, pl, i) ==>
              InsideWorkspace(GroupForPass(l, pl, i)[b], pl.storageOffset, req.size)
  {
    var req := SorterKeyValueStorageRequirements(maxElementCount, l.storageAlign);
    WorkspaceRegions(l, pl);
    HistogramSizeMonotone(pl.elementCount, maxElementCount, l.storageAlign);
    InoutSizeMonotone(pl.elementCount, maxElementCount, l.storageAlign);
    req
  }
}
