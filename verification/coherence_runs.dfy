/** Whole runs of the coherence protocol on one dataset: any interleaving of CPU
    accesses, page faults, explicit transfers, kernel launches and resizes. */
module CoherenceRuns {
  import opened Coherence

  datatype Via = ConstOperator | Operator | RawPointer

  /** One thing a program does with the dataset. `raw` is what a device allocation
      contains if one is made, `out` what a kernel leaves in the device buffer. */
  datatype Op =
    | Elsewhere(flagLeft: bool)
    | Read(via: Via, at: nat)
    | Write(via: Via, at: nat, value: real)
    | SetUpDevice(raw: seq<real>)
    | SendToGpu(mode: TransferMode, raw: seq<real>)
    | SendToCpu(mode: TransferMode)
    | Launch(uses: seq<bool>, raw: seq<real>, out: seq<real>)
    | CopyOut(raw: seq<real>)
    | CopyIn(raw: seq<real>, data: seq<real>)
    | Resize(newSize: nat)
    | Register

  /** `logical` is the plain array the two buffers stand for, `copies` the number of
      host/device copies made for the dataset so far. */
  datatype System = System(e: Entry, flag: bool, logical: seq<real>, copies: nat)

  predicate Initial(s: System) {
    && WellFormed(s.e) && !s.e.instance
    && s.logical == s.e.host && s.copies == 0
  }

  function FlagAfter(via: Via, flag: bool): bool {
    match via
    case ConstOperator => true
    case Operator => false
    case RawPointer => flag
  }

  /** What the source demands of the caller of each operation. */
  predicate Allowed(s: System, op: Op)
    requires WellFormed(s.e)
  {
    match op
    case Elsewhere(_) => true
    case Read(_, i) => i < |s.e.host|
    case Write(via, i, _) => i < |s.e.host| && !via.ConstOperator?
    case SetUpDevice(raw) => |raw| == |s.e.host|
    case SendToGpu(mode, raw) => |raw| == |s.e.host| && GpuTransferAllowed(SetUp(s.e, raw), mode)
    case SendToCpu(mode) => CpuTransferAllowed(s.e, mode)
    case Launch(_, raw, out) => |raw| == |out| == |s.e.host|
    case CopyOut(raw) => s.e.registered && |raw| == |s.e.host| > 0
    case CopyIn(raw, data) => s.e.registered && |raw| == |data| == |s.e.host| && s.e.size > 0
    case Resize(n) => ResizeAllowed(s.e, n)
    case Register => !s.e.registered
  }

  /** How each operation changes the plain array. Scratch writes leave it alone; among
      transfers only a NOT_INITIALIZE that takes ownership changes it. */
  function Effect(s: System, op: Op): seq<real>
    requires WellFormed(s.e) && Allowed(s, op) && |s.logical| == |s.e.host|
  {
    match op
    case Write(_, i, v) => if s.e.instance && s.e.cpu.TempWrite? then s.logical else s.logical[i := v]
    case SendToGpu(mode, raw) => LogicalAfterToGpu(SetUp(s.e, raw), mode, raw, s.logical)
    case SendToCpu(mode) => LogicalAfterToCpu(s.e, mode, s.logical)
    case Launch(uses, _, out) => if false !in uses || (s.e.instance && s.e.gpu.TempWrite?) then s.logical else out
    case CopyIn(_, data) => data
    case Resize(n) => if s.e.registered then Resized(s.logical, n) else []
    case Register => seq(s.e.size, i => 0.0)
    case _ => s.logical
  }

  /** Readying the device copy as the source of a device-to-device copy. */
  function LendMode(e: Entry): TransferMode {
    if !e.instance then Move else ReadOnly
  }

  function LendEntry(e: Entry, raw: seq<real>): Entry
    requires WellFormed(e) && |raw| == |e.host|
  {
    var e1 := SetUp(e, raw);
    if e.instance && Current(e.gpu) then e1 else ToGpu(e1, LendMode(e), raw)
  }

  function LendCopies(e: Entry, raw: seq<real>): nat
    requires WellFormed(e) && |raw| == |e.host|
  {
    if e.instance && Current(e.gpu) then 0 else ToGpuCopies(SetUp(e, raw), LendMode(e))
  }

  lemma LendIgnoresRaw(e: Entry, raw: seq<real>, other: seq<real>)
    requires WellFormed(e) && e.registered && |raw| == |other| == |e.host|
    ensures LendEntry(e, raw) == LendEntry(e, other) && LendCopies(e, raw) == LendCopies(e, other)
  {
  }

  /** The device buffer as the destination of such a copy. */
  function TakeEntry(e: Entry, raw: seq<real>, data: seq<real>): Entry
    requires WellFormed(e) && |raw| == |e.host|
  {
    ToGpu(SetUp(e, raw), NotInitialize, raw).(dev := data)
  }

  lemma TakeIgnoresRaw(e: Entry, raw: seq<real>, other: seq<real>, data: seq<real>)
    requires WellFormed(e) && |raw| == |other| == |e.host|
    ensures TakeEntry(e, raw, data) == TakeEntry(e, other, data)
  {
  }

  function LaunchCopies(e: Entry, uses: seq<bool>, raw: seq<real>): nat
    requires WellFormed(e) && e.instance && |raw| == |e.host|
    decreases |uses|
  {
    if uses == [] then 0
    else UseCopies(e, uses[0]) + LaunchCopies(UseInKernel(e, uses[0], raw), uses[1..], raw)
  }

  lemma {:induction false} LaunchCopiesSnoc(e: Entry, uses: seq<bool>, isConst: bool, raw: seq<real>)
    requires WellFormed(e) && e.instance && |raw| == |e.host|
    ensures LaunchCopies(e, uses + [isConst], raw)
            == LaunchCopies(e, uses, raw) + UseCopies(UseAll(e, uses, raw), isConst)
    decreases |uses|
  {
    if uses != [] {
      LaunchCopiesSnoc(UseInKernel(e, uses[0], raw), uses[1..], isConst, raw);
      assert (uses + [isConst])[1..] == uses[1..] + [isConst];
    }
  }

  lemma {:induction false} LaunchCopiesIgnoreRaw(e: Entry, uses: seq<bool>, raw: seq<real>, other: seq<real>)
    requires WellFormed(e) && e.instance && |raw| == |other| == |e.host|
    ensures LaunchCopies(e, uses, raw) == LaunchCopies(e, uses, other)
    decreases |uses|
  {
    if uses != [] {
      UseIgnoresRaw(e, uses[0], raw, other);
      LaunchCopiesIgnoreRaw(UseInKernel(e, uses[0], raw), uses[1..], raw, other);
    }
  }

  /** So a launch with the dataset among its arguments makes the same step whatever the device
      buffers contained when they were allocated. */
  lemma LaunchIgnoresRaw(e: Entry, uses: seq<bool>, raw: seq<real>, other: seq<real>)
    requires WellFormed(e) && |raw| == |other| == |e.host| && uses != []
    ensures UseAll(SetUp(e, raw), uses, raw) == UseAll(SetUp(e, other), uses, other)
    ensures LaunchCopies(SetUp(e, raw), uses, raw) == LaunchCopies(SetUp(e, other), uses, other)
  {
    assert UseInKernel(SetUp(e, raw), uses[0], raw) == UseInKernel(SetUp(e, other), uses[0], other);
    UseAllIgnoresRaw(UseInKernel(SetUp(e, raw), uses[0], raw), uses[1..], raw, other);
    LaunchCopiesIgnoreRaw(UseInKernel(SetUp(e, raw), uses[0], raw), uses[1..], raw, other);
  }

  function KernelWrites(e: Entry, uses: seq<bool>, out: seq<real>): Entry {
    if false in uses then e.(dev := out) else e
  }

  function Step(s: System, op: Op): System
    requires WellFormed(s.e) && Allowed(s, op) && |s.logical| == |s.e.host|
  {
    var logical := Effect(s, op);
    match op
    case Elsewhere(f) => s.(flag := f)
    case Read(via, i) =>
      var r := Serve(s.e, FlagAfter(via, s.flag), false);
      System(r.entry, r.flag, logical, s.copies + r.copies)
    case Write(via, i, v) =>
      var r := Serve(s.e, FlagAfter(via, s.flag), true);
      System(r.entry.(host := Poke(r.entry.host, i, v)), r.flag, logical, s.copies + r.copies)
    case SetUpDevice(raw) => s.(e := SetUp(s.e, raw))
    case SendToGpu(mode, raw) =>
      var e1 := SetUp(s.e, raw);
      System(ToGpu(e1, mode, raw), s.flag, logical, s.copies + ToGpuCopies(e1, mode))
    case SendToCpu(mode) => System(ToCpu(s.e, mode), s.flag, logical, s.copies + ToCpuCopies(s.e, mode))
    case Launch(uses, raw, out) =>
      var e1 := SetUp(s.e, raw);
      System(KernelWrites(UseAll(e1, uses, raw), uses, out), s.flag, logical, s.copies + LaunchCopies(e1, uses, raw))
    case CopyOut(raw) =>
      System(LendEntry(s.e, raw), s.flag, logical, s.copies + LendCopies(s.e, raw))
    case CopyIn(raw, data) =>
      System(TakeEntry(s.e, raw, data), s.flag, logical, s.copies)
    case Resize(n) =>
      var r := ResizeEntry(s.e, s.flag, n);
      System(r.entry, r.flag, logical, s.copies + r.copies)
    case Register =>
      var r := Promote(s.e, s.flag);
      System(r.entry, r.flag, logical, s.copies)
  }

  function Poke(data: seq<real>, i: nat, v: real): (r: seq<real>)
    ensures |r| == |data|
  {
    if i < |data| then data[i := v] else data
  }

  // ----- refinement of one plain array -----

  lemma AccessKeepsCoherence(s: System, op: Op)
    requires Coherent(s.e, s.logical) && Allowed(s, op) && (op.Read? || op.Write?)
    ensures Coherent(Step(s, op).e, Step(s, op).logical)
  {
    ServeKeepsCoherence(s.e, FlagAfter(op.via, s.flag), op.Write?, s.logical);
  }

  lemma SendKeepsCoherence(s: System, op: Op)
    requires Coherent(s.e, s.logical) && Allowed(s, op) && (op.SendToGpu? || op.CopyOut? || op.CopyIn?)
    ensures Coherent(Step(s, op).e, Step(s, op).logical)
  {
    var mode := if op.SendToGpu? then op.mode else if op.CopyOut? then LendMode(s.e) else NotInitialize;
    ToGpuKeepsCoherence(SetUp(s.e, op.raw), mode, op.raw, s.logical);
  }

  lemma LaunchKeepsCoherence(s: System, op: Op)
    requires Coherent(s.e, s.logical) && Allowed(s, op) && op.Launch?
    ensures Coherent(Step(s, op).e, Step(s, op).logical)
  {
    UseAllReady(SetUp(s.e, op.raw), op.uses, op.raw, s.logical);
    UseAllKeepsScratch(SetUp(s.e, op.raw), op.uses, op.raw);
  }

  lemma ResizeStepKeepsCoherence(s: System, op: Op)
    requires Coherent(s.e, s.logical) && Allowed(s, op) && (op.Resize? || op.Register?)
    ensures Coherent(Step(s, op).e, Step(s, op).logical)
  {
    if op.Resize? {
      ResizeKeepsCoherence(s.e, s.flag, op.newSize, s.logical);
    }
  }

  lemma StepKeepsCoherence(s: System, op: Op)
    requires Coherent(s.e, s.logical) && Allowed(s, op)
    ensures Coherent(Step(s, op).e, Step(s, op).logical)
  {
    if op.Read? || op.Write? {
      AccessKeepsCoherence(s, op);
    } else if op.SendToGpu? || op.CopyOut? || op.CopyIn? {
      SendKeepsCoherence(s, op);
    } else if op.Launch? {
      LaunchKeepsCoherence(s, op);
    } else if op.Resize? || op.Register? {
      ResizeStepKeepsCoherence(s, op);
    } else if op.SendToCpu? {
      ToCpuKeepsCoherence(s.e, op.mode, s.logical);
    }
  }

  /** A launch neither grants nor withdraws scratch permission on the device. */
  lemma {:induction false} UseAllKeepsScratch(e: Entry, uses: seq<bool>, raw: seq<real>)
    requires WellFormed(e) && e.instance && |raw| == |e.host|
    ensures UseAll(e, uses, raw).gpu.TempWrite? <==> e.gpu.TempWrite?
    ensures UseAll(e, uses, raw).registered == e.registered
    decreases |uses|
  {
    if uses != [] {
      UseAllKeepsScratch(UseInKernel(e, uses[0], raw), uses[1..], raw);
    }
  }

  ghost predicate AllowedRun(s: System, ops: seq<Op>)
    requires Coherent(s.e, s.logical)
    decreases |ops|
  {
    ops == [] ||
    (Allowed(s, ops[0]) && (StepKeepsCoherence(s, ops[0]); AllowedRun(Step(s, ops[0]), ops[1..])))
  }

  ghost function Run(s: System, ops: seq<Op>): System
    requires Coherent(s.e, s.logical) && AllowedRun(s, ops)
    decreases |ops|
  {
    if ops == [] then s else StepKeepsCoherence(s, ops[0]); Run(Step(s, ops[0]), ops[1..])
  }

  /** What the program gets to see in a step: the element read on the CPU, or the whole
      buffer handed to a kernel; nothing when the reader only has scratch permission. */
  datatype Seen = Nothing | Element(v: real) | Buffer(data: seq<real>)

  function Observed(s: System, op: Op): Seen
    requires Coherent(s.e, s.logical) && Allowed(s, op)
  {
    match op
    case Read(via, i) =>
      if s.e.instance && s.e.cpu.TempWrite? then Nothing
      else Element(PeekHost(Serve(s.e, FlagAfter(via, s.flag), false).entry, i))
    case Launch(uses, raw, _) =>
      if uses == [] || (s.e.instance && s.e.gpu.TempWrite?) then Nothing
      else Buffer(UseAll(SetUp(s.e, raw), uses, raw).dev)
    case CopyOut(raw) => Buffer(LendEntry(s.e, raw).dev)
    case _ => Nothing
  }

  function PeekHost(e: Entry, i: nat): real {
    if i < |e.host| then e.host[i] else 0.0
  }

  /** What a program working on the plain array would see instead. */
  function Expected(s: System, op: Op): Seen
    requires Coherent(s.e, s.logical) && Allowed(s, op)
  {
    match op
    case Read(_, i) => if s.e.instance && s.e.cpu.TempWrite? then Nothing else Element(s.logical[i])
    case Launch(uses, _, _) =>
      if uses == [] || (s.e.instance && s.e.gpu.TempWrite?) then Nothing else Buffer(s.logical)
    case CopyOut(_) => Buffer(s.logical)
    case _ => Nothing
  }

  lemma StepShowsThePlainArray(s: System, op: Op)
    requires Coherent(s.e, s.logical) && Allowed(s, op)
    ensures Observed(s, op) == Expected(s, op)
  {
    match op
    case Read(via, i) =>
      if !(s.e.instance && s.e.cpu.TempWrite?) {
        ServeKeepsCoherence(s.e, FlagAfter(via, s.flag), false, s.logical);
      }
    case Launch(uses, raw, _) =>
      var e1 := SetUp(s.e, raw);
      UseAllReady(e1, uses, raw, s.logical);
      UseAllKeepsScratch(e1, uses, raw);
    case CopyOut(raw) => ToGpuKeepsCoherence(SetUp(s.e, raw), LendMode(s.e), raw, s.logical);
    case _ =>
  }

  ghost function Observations(s: System, ops: seq<Op>): seq<Seen>
    requires Coherent(s.e, s.logical) && AllowedRun(s, ops)
    decreases |ops|
  {
    if ops == [] then []
    else StepKeepsCoherence(s, ops[0]); [Observed(s, ops[0])] + Observations(Step(s, ops[0]), ops[1..])
  }

  ghost function PlainObservations(s: System, ops: seq<Op>): seq<Seen>
    requires Coherent(s.e, s.logical) && AllowedRun(s, ops)
    decreases |ops|
  {
    if ops == [] then []
    else StepKeepsCoherence(s, ops[0]); [Expected(s, ops[0])] + PlainObservations(Step(s, ops[0]), ops[1..])
  }

  /** Refinement over every run: the two buffers are indistinguishable from the one
      plain array, and the invariant holds at the end (hence after every prefix). */
  lemma {:induction false} RunRefinesPlainArray(s: System, ops: seq<Op>)
    requires Coherent(s.e, s.logical) && AllowedRun(s, ops)
    ensures Coherent(Run(s, ops).e, Run(s, ops).logical)
    ensures Observations(s, ops) == PlainObservations(s, ops)
    decreases |ops|
  {
    if ops != [] {
      StepKeepsCoherence(s, ops[0]);
      StepShowsThePlainArray(s, ops[0]);
      RunRefinesPlainArray(Step(s, ops[0]), ops[1..]);
    }
  }

  /** Operations that may not change the plain array: everything that is not a write by
      an owner, a NOT_INITIALIZE, a resize or a registration. */
  predicate Innocent(op: Op) {
    match op
    case Write(_, _, _) => false
    case SendToGpu(mode, _) => !mode.NotInitialize?
    case SendToCpu(mode) => !mode.NotInitialize?
    case Launch(uses, _, _) => false !in uses
    case CopyIn(_, _) => false
    case Resize(_) => false
    case Register => false
    case _ => true
  }

  /** However long the run and whatever the statuses: only operations that write can
      change the data, data movement never does. */
  lemma {:induction false} MovementNeverChangesData(s: System, ops: seq<Op>)
    requires Coherent(s.e, s.logical) && AllowedRun(s, ops)
    requires forall op :: op in ops ==> Innocent(op)
    ensures Run(s, ops).logical == s.logical
    decreases |ops|
  {
    if ops != [] {
      StepKeepsCoherence(s, ops[0]);
      assert ops[0] in ops;
      MovementNeverChangesData(Step(s, ops[0]), ops[1..]);
    }
  }

  /** Scratch writes on the CPU are forgotten: whatever a TEMP_WRITE host scribbled,
      the next ownership transfer to the CPU finds the owner's values. */
  lemma {:induction false} ScratchIsForgotten(s: System, writes: seq<Op>)
    requires Coherent(s.e, s.logical) && s.e.instance && s.e.cpu.TempWrite?
    requires forall op :: op in writes ==> op.Write?
    requires AllowedRun(s, writes)
    ensures Run(s, writes).logical == s.logical
    ensures Coherent(Run(s, writes).e, s.logical)
    ensures Run(s, writes).e.(host := s.e.host) == s.e
    ensures ToCpu(Run(s, writes).e, Move) == ToCpu(s.e, Move)
    decreases |writes|
  {
    if writes != [] {
      StepKeepsCoherence(s, writes[0]);
      assert writes[0] in writes;
      ScratchIsForgotten(Step(s, writes[0]), writes[1..]);
    }
  }
}
