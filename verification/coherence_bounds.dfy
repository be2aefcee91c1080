/** Two exact counts about the protocol: which status pairs occur, and how many
    host/device copies a run makes. */
module CoherenceBounds {
  import opened Coherence
  import opened CoherenceRuns

  // ----- exactly twelve reachable status pairs -----

  function LegalPairs(): (pairs: set<(Status, Status)>)
    ensures |pairs| == 12
  {
    { (OutOfDate, UpToDateWrite), (TempWrite, UpToDateWrite),
      (OutOfDate, UpToDateRead), (TempWrite, UpToDateRead), (UpToDateRead, UpToDateRead),
      (UpToDateWrite, OutOfDate), (UpToDateRead, OutOfDate),
      (UpToDateWrite, TempWrite), (UpToDateRead, TempWrite),
      (UpToDateWrite, ResizedOnCpu), (UpToDateRead, ResizedOnCpu),
      (NotAllocated, NotAllocated) }
  }

  function Start(registered: bool): System {
    var host := if registered then [0.0] else [];
    System(Entry(registered, false, NotAllocated, NotAllocated, FullAccess, 1, host, []), false, host, 0)
  }

  /** The end of a run of allowed operations from a dataset without a device instance. */
  ghost predicate ReachableState(s: System) {
    Coherent(s.e, s.logical) && exists s0, ops :: EndsIn(s0, ops, s)
  }

  ghost predicate EndsIn(s0: System, ops: seq<Op>, s: System) {
    Initial(s0) && AllowedRun(s0, ops) && Run(s0, ops) == s
  }

  ghost predicate Reachable(pair: (Status, Status)) {
    exists s :: ReachableState(s) && s.e.instance && (s.e.cpu, s.e.gpu) == pair
  }

  lemma ConsRun(s: System, op: Op, rest: seq<Op>)
    requires Coherent(s.e, s.logical) && Allowed(s, op)
    requires Coherent(Step(s, op).e, Step(s, op).logical) && AllowedRun(Step(s, op), rest)
    ensures AllowedRun(s, [op] + rest)
    ensures Run(s, [op] + rest) == Run(Step(s, op), rest)
  {
    assert ([op] + rest)[1..] == rest;
  }

  lemma {:induction false} OneMoreStep(s0: System, ops: seq<Op>, op: Op)
    requires Coherent(s0.e, s0.logical) && AllowedRun(s0, ops)
    requires WellFormed(Run(s0, ops).e) && Allowed(Run(s0, ops), op)
    ensures |Run(s0, ops).logical| == |Run(s0, ops).e.host|
    ensures AllowedRun(s0, ops + [op])
    ensures Run(s0, ops + [op]) == Step(Run(s0, ops), op)
    decreases |ops|
  {
    hide Step, Allowed;
    if ops == [] {
      StepKeepsCoherence(s0, op);
      assert ops + [op] == [op];
    } else {
      StepKeepsCoherence(s0, ops[0]);
      var s1 := Step(s0, ops[0]);
      OneMoreStep(s1, ops[1..], op);
      ConsRun(s0, ops[0], ops[1..] + [op]);
      assert ops + [op] == [ops[0]] + (ops[1..] + [op]);
    }
  }

  lemma StepStaysReachable(s: System, op: Op)
    requires ReachableState(s) && Allowed(s, op)
    ensures ReachableState(Step(s, op))
  {
    StepKeepsCoherence(s, op);
    var s0, ops :| EndsIn(s0, ops, s);
    OneMoreStep(s0, ops, op);
    assert EndsIn(s0, ops + [op], Step(s, op));
  }

  lemma StartIsReachable(registered: bool)
    ensures ReachableState(Start(registered))
  {
    assert EndsIn(Start(registered), [], Start(registered));
  }

  /** A one-element registered dataset in the given pair, to continue from. */
  ghost predicate At(s: System, cpu: Status, gpu: Status) {
    && ReachableState(s)
    && s.e.registered && s.e.instance && s.e.size == 1
    && s.e.cpu == cpu && s.e.gpu == gpu
  }

  lemma Send(s: System, mode: TransferMode) returns (s': System)
    requires ReachableState(s) && s.e.registered && s.e.size == 1
    requires GpuTransferAllowed(SetUp(s.e, [0.0]), mode)
    ensures var e1 := SetUp(s.e, [0.0]);
            var grant := GpuGrant(mode, if e1.gpu.ResizedOnCpu? then UpToDateWrite else e1.cpu);
            At(s', grant.0, grant.1)
  {
    var op := SendToGpu(mode, [0.0]);
    StepStaysReachable(s, op);
    s' := Step(s, op);
  }

  lemma Fetch(s: System, gpu: Status) returns (s': System)
    requires At(s, UpToDateWrite, gpu)
    ensures At(s', UpToDateRead, gpu)
  {
    var op := SendToCpu(ReadOnly);
    StepStaysReachable(s, op);
    s' := Step(s, op);
  }

  lemma Prepare() returns (s': System)
    ensures At(s', UpToDateWrite, OutOfDate)
  {
    StartIsReachable(true);
    var op := SetUpDevice([0.0]);
    StepStaysReachable(Start(true), op);
    s' := Step(Start(true), op);
  }

  lemma Enlarge(s: System) returns (s': System)
    requires At(s, UpToDateWrite, OutOfDate)
    ensures At(s', UpToDateWrite, ResizedOnCpu)
  {
    var op := Resize(1);
    StepStaysReachable(s, op);
    s' := Step(s, op);
  }

  lemma PrepareUnregistered() returns (s': System)
    ensures ReachableState(s') && s'.e.instance && s'.e.cpu.NotAllocated? && s'.e.gpu.NotAllocated?
  {
    StartIsReachable(false);
    var op := SetUpDevice([]);
    StepStaysReachable(Start(false), op);
    s' := Step(Start(false), op);
  }

  lemma LegalIsReachable(pair: (Status, Status))
    requires LegalPair(pair.0, pair.1)
    ensures Reachable(pair)
  {
    var s := Prepare();
    match pair
    case (OutOfDate, UpToDateWrite) => s := Send(s, Move);
    case (TempWrite, UpToDateWrite) => s := Send(s, SyncAndMove);
    case (OutOfDate, UpToDateRead) => s := Send(s, Move); s := Send(s, ReadOnly);
    case (TempWrite, UpToDateRead) => s := Send(s, SyncAndMove); s := Send(s, ReadOnly);
    case (UpToDateRead, UpToDateRead) => s := Send(s, ReadOnly);
    case (UpToDateWrite, OutOfDate) =>
    case (UpToDateRead, OutOfDate) => s := Fetch(s, OutOfDate);
    case (UpToDateWrite, TempWrite) => s := Send(s, Copy);
    case (UpToDateRead, TempWrite) => s := Send(s, Copy); s := Fetch(s, TempWrite);
    case (UpToDateWrite, ResizedOnCpu) => s := Enlarge(s);
    case (UpToDateRead, ResizedOnCpu) => s := Enlarge(s); s := Fetch(s, ResizedOnCpu);
    case (NotAllocated, NotAllocated) => s := PrepareUnregistered();
  }

  /** Reachable is the same as legal: twelve pairs, each with a run that ends in it, and
      no run that has a device instance ends anywhere else. */
  lemma ReachablePairs(pair: (Status, Status))
    ensures Reachable(pair) <==> pair in LegalPairs()
  {
    assert pair in LegalPairs() <==> LegalPair(pair.0, pair.1);
    if LegalPair(pair.0, pair.1) {
      LegalIsReachable(pair);
    }
  }

  // ----- the number of copies -----

  datatype Device = Cpu | Gpu

  /** The device an operation accesses the data from, if it accesses them at all. */
  function AccessedFrom(op: Op): seq<Device> {
    match op
    case Elsewhere(_) => []
    case Read(_, _) => [Cpu]
    case Write(_, _, _) => [Cpu]
    case SetUpDevice(_) => []
    case SendToGpu(_, _) => [Gpu]
    case SendToCpu(_) => [Cpu]
    case Launch(uses, _, _) => if uses == [] then [] else [Gpu]
    case CopyOut(_) => [Gpu]
    case CopyIn(_, _) => [Gpu]
    case Resize(_) => [Cpu]
    case Register => [Cpu]
  }

  /** How often the accesses of a run switch device, starting on the CPU. */
  function Switches(last: Device, ops: seq<Op>): nat
    decreases |ops|
  {
    if ops == [] then 0
    else
      var here := AccessedFrom(ops[0]);
      if here == [] || here[0] == last then Switches(last, ops[1..])
      else 1 + Switches(here[0], ops[1..])
  }

  function LastDevice(last: Device, op: Op): Device {
    if AccessedFrom(op) == [] then last else AccessedFrom(op)[0]
  }

  /** All operations but the transfers that lend scratch permission. */
  predicate LendsNothing(op: Op) {
    match op
    case SendToGpu(mode, _) => !mode.Copy? && !mode.SyncAndMove?
    case SendToCpu(mode) => !mode.Copy? && !mode.SyncAndMove?
    case _ => true
  }

  /** Without scratch permissions the device that accessed last is up to date. */
  predicate LastIsCurrent(s: System, last: Device) {
    && (s.e.instance ==> !s.e.cpu.TempWrite? && !s.e.gpu.TempWrite?)
    && (last.Cpu? && s.e.instance && s.e.registered ==> Current(s.e.cpu))
    && (last.Gpu? ==> s.e.instance && (s.e.registered ==> Current(s.e.gpu)))
  }

  lemma {:induction false} LaunchCost(e: Entry, uses: seq<bool>, raw: seq<real>)
    requires WellFormed(e) && e.instance && |raw| == |e.host| && !e.gpu.TempWrite? && !e.cpu.TempWrite?
    ensures LaunchCopies(e, uses, raw) == if uses != [] && e.registered && !Current(e.gpu) then 1 else 0
    ensures var e' := UseAll(e, uses, raw);
            && !e'.gpu.TempWrite? && !e'.cpu.TempWrite? && e'.registered == e.registered
            && (uses == [] ==> e' == e)
            && (uses != [] && e.registered ==> Current(e'.gpu))
    decreases |uses|
  {
    if uses != [] {
      LaunchCost(UseInKernel(e, uses[0], raw), uses[1..], raw);
    }
  }

  ghost predicate Cheap(s: System, op: Op, last: Device)
    requires Coherent(s.e, s.logical) && Allowed(s, op)
  {
    && LastIsCurrent(Step(s, op), LastDevice(last, op))
    && Step(s, op).copies <= s.copies + if LastDevice(last, op) == last then 0 else 1
  }

  lemma AccessIsCheap(s: System, op: Op, last: Device)
    requires Coherent(s.e, s.logical) && Allowed(s, op) && LastIsCurrent(s, last)
    requires op.Read? || op.Write?
    ensures Cheap(s, op, last)
  {
    ServeKeepsCoherence(s.e, FlagAfter(op.via, s.flag), op.Write?, s.logical);
  }

  lemma TransferIsCheap(s: System, op: Op, last: Device)
    requires Coherent(s.e, s.logical) && Allowed(s, op) && LastIsCurrent(s, last) && LendsNothing(op)
    requires op.SendToGpu? || op.SendToCpu?
    ensures Cheap(s, op, last)
  {
  }

  lemma KernelIsCheap(s: System, op: Op, last: Device)
    requires Coherent(s.e, s.logical) && Allowed(s, op) && LastIsCurrent(s, last)
    requires op.Launch? || op.CopyOut? || op.CopyIn?
    ensures Cheap(s, op, last)
  {
    if op.Launch? {
      LaunchCost(SetUp(s.e, op.raw), op.uses, op.raw);
    }
  }

  lemma ResizeIsCheap(s: System, op: Op, last: Device)
    requires Coherent(s.e, s.logical) && Allowed(s, op) && LastIsCurrent(s, last)
    requires op.Resize? || op.Register?
    ensures Cheap(s, op, last)
  {
    if op.Resize? {
      ServeKeepsCoherence(s.e, s.flag, false, s.logical);
    }
  }

  /** One step costs a copy only when it switches device. */
  lemma StepCost(s: System, op: Op, last: Device)
    requires Coherent(s.e, s.logical) && Allowed(s, op) && LastIsCurrent(s, last) && LendsNothing(op)
    ensures Cheap(s, op, last)
  {
    match op
    case Read(_, _) => AccessIsCheap(s, op, last);
    case Write(_, _, _) => AccessIsCheap(s, op, last);
    case SendToGpu(_, _) => TransferIsCheap(s, op, last);
    case SendToCpu(_) => TransferIsCheap(s, op, last);
    case Launch(_, _, _) => KernelIsCheap(s, op, last);
    case CopyOut(_) => KernelIsCheap(s, op, last);
    case CopyIn(_, _) => KernelIsCheap(s, op, last);
    case Resize(_) => ResizeIsCheap(s, op, last);
    case Register => ResizeIsCheap(s, op, last);
    case _ =>
  }

  lemma {:induction false} CopiesBoundedBySwitches(s: System, last: Device, ops: seq<Op>)
    requires Coherent(s.e, s.logical) && AllowedRun(s, ops) && LastIsCurrent(s, last)
    requires forall op :: op in ops ==> LendsNothing(op)
    ensures Run(s, ops).copies <= s.copies + Switches(last, ops)
    decreases |ops|
  {
    if ops != [] {
      assert ops[0] in ops;
      StepKeepsCoherence(s, ops[0]);
      StepCost(s, ops[0], last);
      CopiesBoundedBySwitches(Step(s, ops[0]), LastDevice(last, ops[0]), ops[1..]);
    }
  }

  /** In any run without COPY and SYNC_AND_MOVE transfers, whatever else it does explicitly, by
      fault or by kernel launch, a dataset is copied at most once per switch of device. */
  lemma CopyBound(s: System, ops: seq<Op>)
    requires Initial(s) && AllowedRun(s, ops)
    requires forall op :: op in ops ==> LendsNothing(op)
    ensures Run(s, ops).copies <= Switches(Cpu, ops)
  {
    CopiesBoundedBySwitches(s, Cpu, ops);
  }

  /** Writing accesses only: CPU writes, MOVE transfers and launches that may write. */
  predicate WritingAccess(op: Op) {
    match op
    case Elsewhere(_) => true
    case Write(_, _, _) => true
    case SendToGpu(mode, _) => mode.Move?
    case SendToCpu(mode) => mode.Move?
    case Launch(uses, _, _) => uses != [] && uses[0] == false
    case _ => false
  }

  /** With only writing accesses exactly one device is up to date. */
  predicate LastOwns(s: System, last: Device) {
    && s.e.registered
    && (last.Cpu? ==> s.e.instance ==> s.e.cpu.UpToDateWrite? && (s.e.gpu.OutOfDate? || s.e.gpu.ResizedOnCpu?))
    && (last.Gpu? ==> s.e.instance && s.e.cpu.OutOfDate?)
  }

  lemma {:induction false} LaunchTakesOwnership(e: Entry, uses: seq<bool>, raw: seq<real>)
    requires WellFormed(e) && e.instance && e.registered && |raw| == |e.host|
    requires Current(e.gpu) && e.cpu.OutOfDate?
    ensures UseAll(e, uses, raw).cpu.OutOfDate? && Current(UseAll(e, uses, raw).gpu)
    ensures UseAll(e, uses, raw).registered && UseAll(e, uses, raw).instance
    decreases |uses|
  {
    if uses != [] {
      LaunchTakesOwnership(UseInKernel(e, uses[0], raw), uses[1..], raw);
    }
  }

  ghost predicate CostsItsSwitch(s: System, op: Op, last: Device)
    requires Coherent(s.e, s.logical) && Allowed(s, op)
  {
    && LastOwns(Step(s, op), LastDevice(last, op))
    && Step(s, op).copies == s.copies + if LastDevice(last, op) == last then 0 else 1
  }

  lemma WriteCostsItsSwitch(s: System, op: Op, last: Device)
    requires Coherent(s.e, s.logical) && Allowed(s, op) && LastOwns(s, last) && op.Write?
    ensures CostsItsSwitch(s, op, last)
  {
    ServeKeepsCoherence(s.e, FlagAfter(op.via, s.flag), true, s.logical);
  }

  lemma LaunchCostsItsSwitch(s: System, op: Op, last: Device)
    requires Coherent(s.e, s.logical) && Allowed(s, op) && LastOwns(s, last) && op.Launch? && WritingAccess(op)
    ensures CostsItsSwitch(s, op, last)
  {
    var e1 := SetUp(s.e, op.raw);
    LaunchCost(e1, op.uses, op.raw);
    LaunchTakesOwnership(UseInKernel(e1, false, op.raw), op.uses[1..], op.raw);
  }

  lemma MoveCostsItsSwitch(s: System, op: Op, last: Device)
    requires Coherent(s.e, s.logical) && Allowed(s, op) && LastOwns(s, last) && WritingAccess(op)
    requires op.SendToGpu? || op.SendToCpu? || op.Elsewhere?
    ensures CostsItsSwitch(s, op, last)
  {
  }

  /** The bound is attained: when every access writes, every switch costs a copy. */
  lemma {:induction false} WritingRunsCopyAtEverySwitch(s: System, last: Device, ops: seq<Op>)
    requires Coherent(s.e, s.logical) && AllowedRun(s, ops) && LastOwns(s, last)
    requires forall op :: op in ops ==> WritingAccess(op)
    ensures Run(s, ops).copies == s.copies + Switches(last, ops)
    decreases |ops|
  {
    if ops != [] {
      var op := ops[0];
      assert op in ops;
      StepKeepsCoherence(s, op);
      if op.Write? {
        WriteCostsItsSwitch(s, op, last);
      } else if op.Launch? {
        LaunchCostsItsSwitch(s, op, last);
      } else {
        MoveCostsItsSwitch(s, op, last);
      }
      WritingRunsCopyAtEverySwitch(Step(s, op), LastDevice(last, op), ops[1..]);
    }
  }
}
