/** The command streams `gpuSort` and `gpuCheck` record, and an encoder
    that replays a stream the way WebGPU validates and executes it: a compute
    pass starts with no pipeline and no bind groups, a dispatch needs both
    and runs with whatever is bound at that moment, and buffer clears and
    copies are encoder commands that may not appear inside a pass. */
module Commands {

  import opened Wrappers
  import opened Layout
  import opened Binding
  import opened PassBuffer
  import Checker

  datatype Pipeline = UpsweepPipeline | SpinePipeline | DownsweepPipeline | CheckerPipeline

  /** The bind groups the sorter owns. */
  datatype GroupRef = Group0 | Group1 | CheckerGroup

  datatype Command =
    | ClearBuffer(buffer: BufferId, offset: nat, size: nat)
    | BeginComputePass
    | SetBindGroup(index: nat, group: GroupRef, dynamicOffsets: seq<nat>)
    | SetPipeline(pipeline: Pipeline)
    | DispatchWorkgroups(x: nat, y: nat, z: nat)
    | EndComputePass
    | CopyBufferToBuffer(source: BufferId, sourceOffset: nat, destination: BufferId, destinationOffset: nat, size: nat)

  /** The bind-group slot the sort's resources use; slots 0 to 2 are the caller's. */
  const SORT_GROUP_INDEX: nat := 3

  /** A group bound at a slot, with its dynamic offsets. */
  datatype Bound = Bound(group: GroupRef, dynamicOffsets: seq<nat>)

  /** A dispatch as it runs: the pipeline, what is bound at every slot, and the
      number of workgroups. */
  datatype DispatchRecord = DispatchRecord(pipeline: Pipeline, bound: map<nat, Bound>, workgroups: nat)

  datatype EncoderState = EncoderState(inPass: bool, pipeline: Option<Pipeline>, bound: map<nat, Bound>)

  /** What replaying a stream leaves: the encoder state, the dispatches run so
      far in order, and the clears recorded so far. */
  datatype Trace = Trace(state: EncoderState, dispatches: seq<DispatchRecord>, clears: seq<Command>)

  const Idle: EncoderState := EncoderState(false, None, map[])

  /** One command; `None` when WebGPU validation would reject it. */
  function Step(t: Trace, c: Command): (r: Option<Trace>)
    ensures r.Some? && !c.DispatchWorkgroups? ==> r.value.dispatches == t.dispatches
    ensures r.Some? && !c.ClearBuffer? ==> r.value.clears == t.clears
  {
    var st := t.state;
    match c
    case ClearBuffer(_, _, _) =>
      if st.inPass then None else Some(t.(clears := t.clears + [c]))
    case BeginComputePass =>
      if st.inPass then None else Some(t.(state := EncoderState(true, None, map[])))
    case SetBindGroup(index, group, offsets) =>
      if !st.inPass then None
      else Some(t.(state := st.(bound := st.bound[index := Bound(group, offsets)])))
    case SetPipeline(p) =>
      if !st.inPass then None else Some(t.(state := st.(pipeline := Some(p))))
    case DispatchWorkgroups(x, y, z) =>
      if !st.inPass || st.pipeline.None? || SORT_GROUP_INDEX !in st.bound then None
      else Some(t.(dispatches := t.dispatches + [DispatchRecord(st.pipeline.value, st.bound, x)]))
    case EndComputePass =>
      if !st.inPass then None else Some(t.(state := Idle))
    case CopyBufferToBuffer(_, _, _, _, _) =>
      if st.inPass then None else Some(t)
  }

  /** Replays a stream from a fresh encoder. */
  function Run(cmds: seq<Command>): Option<Trace>
    decreases |cmds|
  {
    if |cmds| == 0 then Some(Trace(Idle, [], []))
    else
      var prev := Run(cmds[..|cmds| - 1]);
      if prev.None? then None else Step(prev.value, cmds[|cmds| - 1])
  }

  lemma RunAppend(cmds: seq<Command>, c: Command)
    ensures Run(cmds + [c]) == if Run(cmds).None? then None else Step(Run(cmds).value, c)
  {
    assert (cmds + [c])[..|cmds|] == cmds;
  }

  /** Which stage runs as dispatch `k % 3` of a pass. */
  function StagePipeline(stage: nat): Pipeline {
    if stage == 0 then UpsweepPipeline else if stage == 1 then SpinePipeline else DownsweepPipeline
  }

  /** The group a pass binds: even passes use `_bindGroup0`. */
  function PassGroup(pass: nat): GroupRef {
    if pass % 2 == 0 then Group0 else Group1
  }

  /** The twelve dispatches of a sort, described per dispatch index `k`:
      pass `k / 3`, stage `k % 3`; each runs with only slot 3 bound, to the
      pass's group at dynamic offset `pass * uniformAlign`. Upsweep and
      Downsweep get `partitionCount` workgroups, Spine one per bucket. */
  function Schedule(partitionCount: nat, uniformAlign: nat): (s: seq<DispatchRecord>)
    ensures |s| == 3 * PASS_COUNT
  {
    seq(3 * PASS_COUNT, k requires 0 <= k < 3 * PASS_COUNT =>
      DispatchRecord(
        StagePipeline(k % 3),
        map[SORT_GROUP_INDEX := Bound(PassGroup(k / 3), [(k / 3) * uniformAlign])],
        if k % 3 == 1 then RADIX else partitionCount))
  }

  /** The clear `gpuSort` records: four rows of 256 counters from its own
      `storageBuffer` and `storageOffset` arguments. */
  function HistogramClear(storageBuffer: BufferId, storageOffset: nat): Command {
    ClearBuffer(storageBuffer, storageOffset, PASS_COUNT * RADIX * BYTES_PER_ELEMENT)
  }

  /** Records one more command. */
  function Emit(cmds: seq<Command>, c: Command): (r: seq<Command>)
    ensures r == cmds + [c]
    ensures Run(r) == if Run(cmds).None? then None else Step(Run(cmds).value, c)
  {
    RunAppend(cmds, c);
    cmds + [c]
  }

  /** `setPipeline` followed by `dispatchWorkgroups`: one dispatch with the
      groups bound at that moment. */
  method RecordStage(cmds: seq<Command>, pipeline: Pipeline, workgroups: nat) returns (cmds': seq<Command>)
    requires Run(cmds).Some? && Run(cmds).value.state.inPass
    requires SORT_GROUP_INDEX in Run(cmds).value.state.bound
    ensures |cmds'| > |cmds| && (|cmds| > 0 ==> cmds'[0] == cmds[0])
    ensures Run(cmds').Some?
    ensures Run(cmds').value.state == Run(cmds).value.state.(pipeline := Some(pipeline))
    ensures Run(cmds').value.clears == Run(cmds).value.clears
    ensures Run(cmds').value.dispatches
            == Run(cmds).value.dispatches + [DispatchRecord(pipeline, Run(cmds).value.state.bound, workgroups)]
  {
    var c1 := Emit(cmds, SetPipeline(pipeline));
    cmds' := Emit(c1, DispatchWorkgroups(workgroups, 1, 1));
  }

  /** The seven commands one iteration of the `gpuSort` loop records for pass `i`. */
  method RecordPass(cmds: seq<Command>, i: nat, partitionCount: nat, uniformAlign: nat) returns (cmds': seq<Command>)
    requires Run(cmds).Some? && Run(cmds).value.state.inPass
    requires Run(cmds).value.state.bound.Keys <= {SORT_GROUP_INDEX}
    ensures |cmds'| > |cmds| && (|cmds| > 0 ==> cmds'[0] == cmds[0])
    ensures Run(cmds').Some? && Run(cmds').value.state.inPass
    ensures Run(cmds').value.state.bound.Keys <= {SORT_GROUP_INDEX}
    ensures Run(cmds').value.clears == Run(cmds).value.clears
    ensures var slots := map[SORT_GROUP_INDEX := Bound(PassGroup(i), [i * uniformAlign])];
      Run(cmds').value.dispatches == Run(cmds).value.dispatches + [
        DispatchRecord(UpsweepPipeline, slots, partitionCount),
        DispatchRecord(SpinePipeline, slots, RADIX),
        DispatchRecord(DownsweepPipeline, slots, partitionCount)]
  {
    var slots := map[SORT_GROUP_INDEX := Bound(PassGroup(i), [i * uniformAlign])];
    var c1 := Emit(cmds, SetBindGroup(SORT_GROUP_INDEX, if i % 2 == 0 then Group0 else Group1, [i * uniformAlign]));
    assert Run(c1).value.state.bound == slots;
    var c2 := RecordStage(c1, UpsweepPipeline, partitionCount);
    var c3 := RecordStage(c2, SpinePipeline, RADIX);
    cmds' := RecordStage(c3, DownsweepPipeline, partitionCount);
  }

  /** The dispatches of passes `0..i` are those of passes `0..i - 1` and the three of pass `i`. */
  lemma ScheduleStep(partitionCount: nat, uniformAlign: nat, i: nat)
    requires i < PASS_COUNT
    ensures var s := Schedule(partitionCount, uniformAlign);
      var slots := map[SORT_GROUP_INDEX := Bound(PassGroup(i), [i * uniformAlign])];
      s[..3 * (i + 1)] == s[..3 * i] + [
        DispatchRecord(UpsweepPipeline, slots, partitionCount),
        DispatchRecord(SpinePipeline, slots, RADIX),
        DispatchRecord(DownsweepPipeline, slots, partitionCount)]
  {
    var s := Schedule(partitionCount, uniformAlign);
    assert (3 * i) / 3 == i && (3 * i + 1) / 3 == i && (3 * i + 2) / 3 == i;
    assert s[..3 * (i + 1)] == s[..3 * i] + [s[3 * i], s[3 * i + 1], s[3 * i + 2]];
  }

  /** `gpuSort`: the recorded stream replays without validation errors, ends
      outside a pass, runs exactly the twelve scheduled dispatches in order,
      and clears only the global histogram, once, before anything else. */
  method GpuSort(elementCount: nat, storageBuffer: BufferId, storageOffset: nat, uniformAlign: nat) returns (cmds: seq<Command>)
    ensures Run(cmds).Some?
    ensures Run(cmds).value.state == Idle
    ensures Run(cmds).value.dispatches == Schedule(RoundUp(elementCount, PARTITION_SIZE), uniformAlign)
    ensures Run(cmds).value.clears == [HistogramClear(storageBuffer, storageOffset)]
    ensures |cmds| > 0 && cmds[0] == HistogramClear(storageBuffer, storageOffset)
  {
    var partitionCount := RoundUp(elementCount, PARTITION_SIZE);
    var schedule := Schedule(partitionCount, uniformAlign);
    cmds := Emit([], HistogramClear(storageBuffer, storageOffset));
    cmds := Emit(cmds, BeginComputePass);
    var i := 0;
    while i < PASS_COUNT
      invariant 0 <= i <= PASS_COUNT
      invariant |cmds| > 0 && cmds[0] == HistogramClear(storageBuffer, storageOffset)
      invariant Run(cmds).Some? && Run(cmds).value.state.inPass
      invariant Run(cmds).value.state.bound.Keys <= {SORT_GROUP_INDEX}
      invariant Run(cmds).value.dispatches == schedule[..3 * i]
      invariant Run(cmds).value.clears == [HistogramClear(storageBuffer, storageOffset)]
    {
      cmds := RecordPass(cmds, i, partitionCount, uniformAlign);
      ScheduleStep(partitionCount, uniformAlign, i);
      i := i + 1;
    }
    cmds := Emit(cmds, EndComputePass);
    assert schedule[..3 * PASS_COUNT] == schedule;
  }

  /** The bind group a `GroupRef` of the sort stands for. */
  function Resolve(l: Limits, pl: Placement, a: CheckerArgs, g: GroupRef): BindGroup
    requires ValidLimits(l)
  {
    match g
    case Group0 => BindGroup0(l, pl)
    case Group1 => BindGroup1(l, pl)
    case CheckerGroup => CheckerBindGroup(a)
  }

  /** Dispatch `k` of a sort binds the ping-pong group of pass `k / 3`, and its
      dynamic offset selects the pass-buffer word holding `k / 3`: every
      kernel of pass `i` reads `_pass == i`. */
  lemma ScheduleBindsPass(l: Limits, pl: Placement, a: CheckerArgs, partitionCount: nat, passBuffer: seq<byte>, k: nat)
    requires ValidLimits(l) && k < 3 * PASS_COUNT
    requires |passBuffer| == PASS_COUNT * l.uniformAlign
    requires forall i :: 0 <= i < PASS_COUNT ==> ReadWord(passBuffer, i * l.uniformAlign) == i
    ensures var d := Schedule(partitionCount, l.uniformAlign)[k];
      && d.bound.Keys == {SORT_GROUP_INDEX}
      && Resolve(l, pl, a, d.bound[SORT_GROUP_INDEX].group) == GroupForPass(l, pl, k / 3)
      && |d.bound[SORT_GROUP_INDEX].dynamicOffsets| == 1
      && ReadWord(passBuffer, d.bound[SORT_GROUP_INDEX].dynamicOffsets[0]) == k / 3
  {
    var i := k / 3;
    ScheduleEntry(partitionCount, l.uniformAlign, k);
    PassGroupResolves(l, pl, a, i);
    assert ReadWord(passBuffer, i * l.uniformAlign) == i;
  }

  lemma ScheduleEntry(partitionCount: nat, uniformAlign: nat, k: nat)
    requires k < 3 * PASS_COUNT
    ensures k / 3 < PASS_COUNT
    ensures Schedule(partitionCount, uniformAlign)[k].bound
            == map[SORT_GROUP_INDEX := Bound(PassGroup(k / 3), [(k / 3) * uniformAlign])]
  {
  }

  lemma PassGroupResolves(l: Limits, pl: Placement, a: CheckerArgs, i: nat)
    requires ValidLimits(l)
    ensures Resolve(l, pl, a, PassGroup(i)) == GroupForPass(l, pl, i)
  {
    if i % 2 == 0 {
      assert PassGroup(i) == Group0;
    } else {
      assert PassGroup(i) == Group1;
    }
  }

  /** `gpuSort` takes its own element count `n`, storage buffer `buf` and
      offset `o`, apart from the ones `createBindGroup` was given. Its clear
      covers the GlobalHistogram binding exactly when `buf` and `o` are the
      bound ones, and when
      `n` is at most the bound count every Upsweep dispatch of its schedule
      finds a PartitionHistogram row for each of its workgroups in the group
      it runs with. */
  lemma SortMatchesBindGroup(l: Limits, pl: Placement, a: CheckerArgs, n: nat, buf: BufferId, o: nat, k: nat)
    requires ValidLimits(l) && k < 3 * PASS_COUNT
    ensures var d := Schedule(RoundUp(n, PARTITION_SIZE), l.uniformAlign)[k];
      && SORT_GROUP_INDEX in d.bound
      && var g := Resolve(l, pl, a, d.bound[SORT_GROUP_INDEX].group);
      && var c := HistogramClear(buf, o);
      && ((c.buffer == g[GLOBAL_HISTOGRAM].buffer && c.offset == g[GLOBAL_HISTOGRAM].offset
           && c.offset + c.size <= End(g[GLOBAL_HISTOGRAM])) <==> buf == StorageBuffer && o == pl.storageOffset)
      && (n <= pl.elementCount && d.pipeline == UpsweepPipeline ==>
            BYTES_PER_ELEMENT * RADIX * d.workgroups <= g[PARTITION_HISTOGRAM].extent.size)
  {
    var i := k / 3;
    ScheduleEntry(RoundUp(n, PARTITION_SIZE), l.uniformAlign, k);
    PassGroupResolves(l, pl, a, i);
    var g := GroupForPass(l, pl, i);
    assert g[GLOBAL_HISTOGRAM] == BindGroup0(l, pl)[GLOBAL_HISTOGRAM];
    assert g[PARTITION_HISTOGRAM] == BindGroup0(l, pl)[PARTITION_HISTOGRAM];
    ClearFitsGlobalHistogram(l, pl, buf, o);
    PartitionHistogramCovers(l, pl, n);
  }

  /** Number of workgroups `gpuCheck` dispatches. */
  function CheckWorkgroups(elementCount: nat, maxWorkgroups: nat): (count: nat)
    ensures count <= maxWorkgroups
    ensures maxWorkgroups > 0 ==> count > 0
    ensures RoundUp(elementCount, WORKGROUP_SIZE) <= maxWorkgroups ==> WORKGROUP_SIZE * count >= elementCount
  {
    var r := RoundUp(elementCount, WORKGROUP_SIZE);
    RoundUpBounds(elementCount, WORKGROUP_SIZE);
    if maxWorkgroups < r then maxWorkgroups else r
  }

  /** `gpuCheck`: clear the counter, run the Checker once over slot 3, then
      copy the counter to the staging buffer. */
  function GpuCheck(elementCount: nat, maxWorkgroups: nat): (cmds: seq<Command>)
    ensures Run(cmds).Some? && Run(cmds).value.state == Idle
    ensures Run(cmds).value.dispatches == [DispatchRecord(CheckerPipeline, map[SORT_GROUP_INDEX := Bound(CheckerGroup, [])],
                                                            CheckWorkgroups(elementCount, maxWorkgroups))]
    ensures Run(cmds).value.clears == [ClearBuffer(ResultBuffer, 0, BYTES_PER_ELEMENT)]
    ensures cmds[|cmds| - 1] == CopyBufferToBuffer(ResultBuffer, 0, StagingBuffer, 0, BYTES_PER_ELEMENT)
  {
    var dispatch := DispatchRecord(CheckerPipeline, map[SORT_GROUP_INDEX := Bound(CheckerGroup, [])],
                                   CheckWorkgroups(elementCount, maxWorkgroups));
    var c1 := Emit([], ClearBuffer(ResultBuffer, 0, BYTES_PER_ELEMENT));
    var c2 := Emit(c1, BeginComputePass);
    var c3 := Emit(c2, SetBindGroup(SORT_GROUP_INDEX, CheckerGroup, []));
    var c4 := Emit(c3, SetPipeline(CheckerPipeline));
    var c5 := Emit(c4, DispatchWorkgroups(CheckWorkgroups(elementCount, maxWorkgroups), 1, 1));
    assert Run(c5).value.dispatches == [dispatch];
    var c6 := Emit(c5, EndComputePass);
    Emit(c6, CopyBufferToBuffer(ResultBuffer, 0, StagingBuffer, 0, BYTES_PER_ELEMENT))
  }

  /** When `gpuCheck` is not capped by the workgroup limit the counter it
      copies out is exactly the number of out-of-order pairs, and so 0
      exactly when the keys are sorted. */
  lemma GpuCheckUncappedExact(keys: seq<u32>, n: nat, maxWorkgroups: nat)
    requires n <= |keys| && RoundUp(n, WORKGROUP_SIZE) <= maxWorkgroups
    ensures var threads := WORKGROUP_SIZE * CheckWorkgroups(n, maxWorkgroups);
      var r := Checker.CheckerTotal(keys, n, Checker.Workload(n, threads), threads);
      && r == (if n == 0 then 0 else Checker.Descents(keys, 0, n - 1))
      && (r == 0 <==> (n == 0 || Checker.Ordered(keys, 0, n - 1)))
  {
    RoundUpBounds(n, WORKGROUP_SIZE);
    var threads := WORKGROUP_SIZE * CheckWorkgroups(n, maxWorkgroups);
    Checker.CheckerUncappedExact(keys, n, threads);
  }

  /** With strided windows the counter `gpuCheck` copies out is exact for
      every workgroup count the dispatch can get, capped or not. */
  lemma GpuCheckCorrectedExact(keys: seq<u32>, n: nat, maxWorkgroups: nat)
    requires n <= |keys| && maxWorkgroups > 0
    ensures var threads := WORKGROUP_SIZE * CheckWorkgroups(n, maxWorkgroups);
      var r := Checker.CheckerCorrectedTotal(keys, n, Checker.Workload(n, threads), threads);
      && r == (if n == 0 then 0 else Checker.Descents(keys, 0, n - 1))
      && (r == 0 <==> (n == 0 || Checker.Ordered(keys, 0, n - 1)))
  {
    var threads := WORKGROUP_SIZE * CheckWorkgroups(n, maxWorkgroups);
    Checker.CheckerCorrectedExact(keys, n, threads);
  }
}
