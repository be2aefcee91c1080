/** The CPU/GPU coherence protocol of one dataset, as functions on its state.
    The methods of class DataSet are proved to compute these functions; the
    lemmas about whole runs are stated and proved here and in CoherenceRuns. */
module Coherence {

  datatype TransferMode = Move | Copy | NotInitialize | SyncAndMove | ReadOnly

  datatype Status = UpToDateWrite | OutOfDate | TempWrite | UpToDateRead | ResizedOnCpu | NotAllocated

  datatype Protection = NoAccess | ReadAccess | FullAccess

  /** Everything the framework keeps about one dataset. `host` is the mapped CPU
      buffer, `dev` the device buffer (empty when its pointer is null), `size` the
      number of elements, which an unregistered dataset has without a buffer. */
  datatype Entry = Entry(registered: bool, instance: bool, cpu: Status, gpu: Status,
                         prot: Protection, size: nat, host: seq<real>, dev: seq<real>)

  /** The holder of this status has the most recent values. */
  predicate Current(s: Status) {
    s.UpToDateWrite? || s.UpToDateRead?
  }

  /** The (CPU, GPU) status pairs the switch statements accept. */
  predicate LegalPair(cpu: Status, gpu: Status) {
    match gpu
    case UpToDateWrite => cpu.OutOfDate? || cpu.TempWrite?
    case UpToDateRead => cpu.OutOfDate? || cpu.TempWrite? || cpu.UpToDateRead?
    case OutOfDate => Current(cpu)
    case TempWrite => Current(cpu)
    case ResizedOnCpu => Current(cpu)
    case NotAllocated => cpu.NotAllocated?
  }

  function ProtectionFor(cpu: Status): Protection {
    match cpu
    case OutOfDate => NoAccess
    case UpToDateRead => ReadAccess
    case _ => FullAccess
  }

  predicate Permits(p: Protection, write: bool) {
    p.FullAccess? || (p.ReadAccess? && !write)
  }

  /** The data structure invariant that does not mention what the data mean. */
  predicate WellFormed(e: Entry) {
    && |e.host| == (if e.registered then e.size else 0)
    && (!e.instance ==> e.prot.FullAccess? && e.dev == [])
    && (e.instance ==>
          && LegalPair(e.cpu, e.gpu)
          && (e.registered <==> !e.cpu.NotAllocated?)
          && e.prot == ProtectionFor(e.cpu)
          && (e.gpu.NotAllocated? ==> e.dev == [])
          && (!e.gpu.NotAllocated? && !e.gpu.ResizedOnCpu? ==> |e.dev| == e.size)
          && (e.gpu.ResizedOnCpu? && e.size == 0 ==> e.dev == []))
  }

  /** Every up-to-date side holds exactly the one logical array. */
  predicate Coherent(e: Entry, logical: seq<real>) {
    && WellFormed(e)
    && |logical| == |e.host|
    && (!e.instance ==> e.host == logical)
    && (e.instance && Current(e.cpu) ==> e.host == logical)
    && (e.instance && Current(e.gpu) ==> e.dev == logical)
  }

  /** Some side holds the logical array, so no transfer can lose it. */
  lemma SomeSideIsCurrent(e: Entry, logical: seq<real>)
    requires Coherent(e, logical) && e.registered
    ensures e.host == logical || e.dev == logical
    ensures !e.instance || Current(e.cpu) || Current(e.gpu)
  {
  }

  // ----- device instance set-up -----

  /** `raw` is whatever a new device allocation happens to contain. */
  function SetUp(e: Entry, raw: seq<real>): Entry
    requires WellFormed(e) && |raw| == |e.host|
  {
    if e.instance then e
    else if e.registered then e.(instance := true, cpu := UpToDateWrite, gpu := OutOfDate, dev := raw)
    else e.(instance := true, cpu := NotAllocated, gpu := NotAllocated)
  }

  // ----- explicit transfers -----

  /** COPY may only be asked for by the side that does not own the data. */
  predicate GpuTransferAllowed(e: Entry, mode: TransferMode) {
    mode.Copy? && e.registered ==> Current(e.cpu)
  }

  predicate CpuTransferAllowed(e: Entry, mode: TransferMode) {
    mode.Copy? && e.registered && e.instance ==> Current(e.gpu)
  }

  /** Statuses left by a transfer to the GPU. */
  function GpuGrant(mode: TransferMode, cpu: Status): (r: (Status, Status)) {
    match mode
    case Move => (if cpu.TempWrite? then TempWrite else OutOfDate, UpToDateWrite)
    case NotInitialize => (if cpu.TempWrite? then TempWrite else OutOfDate, UpToDateWrite)
    case ReadOnly => (if Current(cpu) then UpToDateRead else cpu, UpToDateRead)
    case Copy => (cpu, TempWrite)
    case SyncAndMove => (TempWrite, UpToDateWrite)
  }

  /** Host values go to the device exactly when the device is stale and wants them. */
  predicate GpuLoads(e: Entry, mode: TransferMode) {
    e.registered && !Current(e.gpu) && !mode.NotInitialize?
  }

  /** SYNC_AND_MOVE brings the device values back to a stale host. */
  predicate GpuFlushes(e: Entry, mode: TransferMode) {
    e.registered && Current(e.gpu) && mode.SyncAndMove? && !Current(e.cpu)
  }

  function ToGpu(e: Entry, mode: TransferMode, raw: seq<real>): Entry
    requires WellFormed(e) && e.instance && |raw| == |e.host|
  {
    if !e.registered then e
    else
      var owner := if e.gpu.ResizedOnCpu? then UpToDateWrite else e.cpu;
      var grant := GpuGrant(mode, owner);
      var dev := if GpuLoads(e, mode) then e.host else if e.gpu.ResizedOnCpu? then raw else e.dev;
      var host := if GpuFlushes(e, mode) then e.dev else e.host;
      e.(cpu := grant.0, gpu := grant.1, prot := ProtectionFor(grant.0), host := host, dev := dev)
  }

  function ToGpuCopies(e: Entry, mode: TransferMode): nat {
    if GpuLoads(e, mode) || GpuFlushes(e, mode) then 1 else 0
  }

  function CpuGrant(mode: TransferMode, gpu: Status): (r: (Status, Status)) {
    match mode
    case Move => (UpToDateWrite, if Current(gpu) then OutOfDate else gpu)
    case NotInitialize => (UpToDateWrite, if Current(gpu) then OutOfDate else gpu)
    case ReadOnly => (UpToDateRead, if Current(gpu) then UpToDateRead else gpu)
    case Copy => (TempWrite, gpu)
    case SyncAndMove => (TempWrite, UpToDateWrite)
  }

  predicate CpuLoads(e: Entry, mode: TransferMode) {
    e.registered && !Current(e.cpu) && !mode.NotInitialize?
  }

  predicate CpuFlushes(e: Entry, mode: TransferMode) {
    e.registered && Current(e.cpu) && mode.SyncAndMove? && !Current(e.gpu)
  }

  /** Without a device instance the transfer returns at once. */
  function ToCpu(e: Entry, mode: TransferMode): Entry
    requires WellFormed(e)
  {
    if !e.instance || !e.registered then e
    else
      var grant := CpuGrant(mode, e.gpu);
      var host := if CpuLoads(e, mode) then e.dev else e.host;
      var dev := if CpuFlushes(e, mode) then e.host else e.dev;
      e.(cpu := grant.0, gpu := grant.1, prot := ProtectionFor(grant.0), host := host, dev := dev)
  }

  function ToCpuCopies(e: Entry, mode: TransferMode): nat {
    if e.instance && (CpuLoads(e, mode) || CpuFlushes(e, mode)) then 1 else 0
  }

  /** What the logical array becomes: only NOT_INITIALIZE that takes the data
      away from its owner replaces it, by what the new owner's buffer holds. */
  function LogicalAfterToGpu(e: Entry, mode: TransferMode, raw: seq<real>, logical: seq<real>): seq<real>
    requires WellFormed(e) && e.instance && |raw| == |e.host|
  {
    if mode.NotInitialize? && e.registered && !Current(e.gpu) then ToGpu(e, mode, raw).dev else logical
  }

  function LogicalAfterToCpu(e: Entry, mode: TransferMode, logical: seq<real>): seq<real> {
    if mode.NotInitialize? && e.instance && e.registered && !Current(e.cpu) then e.host else logical
  }

  lemma ToGpuKeepsCoherence(e: Entry, mode: TransferMode, raw: seq<real>, logical: seq<real>)
    requires Coherent(e, logical) && e.instance && |raw| == |e.host|
    requires GpuTransferAllowed(e, mode)
    ensures Coherent(ToGpu(e, mode, raw), LogicalAfterToGpu(e, mode, raw, logical))
    ensures e.registered ==> mode.Copy? || Current(ToGpu(e, mode, raw).gpu)
    ensures |ToGpu(e, mode, raw).dev| == |e.host|
  {
  }

  lemma ToCpuKeepsCoherence(e: Entry, mode: TransferMode, logical: seq<real>)
    requires Coherent(e, logical)
    requires CpuTransferAllowed(e, mode)
    ensures Coherent(ToCpu(e, mode), LogicalAfterToCpu(e, mode, logical))
  {
  }

  /** The COPY assertion is not a formality: exactly when it fails the protocol
      leaves the legal pairs, because no side would own the data any more. */
  lemma CopyNeedsTheOwner(e: Entry, mode: TransferMode, raw: seq<real>)
    requires WellFormed(e) && e.instance && |raw| == |e.host|
    ensures GpuTransferAllowed(e, mode) <==> LegalPair(ToGpu(e, mode, raw).cpu, ToGpu(e, mode, raw).gpu)
    ensures CpuTransferAllowed(e, mode) <==> LegalPair(ToCpu(e, mode).cpu, ToCpu(e, mode).gpu)
  {
  }

  // ----- implicit transfers: page faults -----

  /** How many more faults an access can need: none once it is permitted. */
  function FaultsLeft(e: Entry, write: bool): nat {
    if Permits(e.prot, write) then 0
    else if e.prot.ReadAccess? then 1 else 2
  }

  /** One run of the handler: the transfer it asks for depends on the global flag. */
  function Fault(e: Entry, constFlag: bool): Entry
    requires WellFormed(e)
  {
    ToCpu(e, if constFlag then ReadOnly else Move)
  }

  lemma FaultMakesProgress(e: Entry, constFlag: bool, write: bool)
    requires WellFormed(e) && !Permits(e.prot, write)
    ensures e.instance && e.registered
    ensures WellFormed(Fault(e, constFlag))
    ensures FaultsLeft(Fault(e, constFlag), write) < FaultsLeft(e, write) || (constFlag && write && e.prot.ReadAccess?)
    ensures !constFlag ==> Fault(e, constFlag).prot.FullAccess?
    ensures !write ==> Permits(Fault(e, constFlag).prot, write)
  {
  }

  datatype Served = Served(entry: Entry, flag: bool, faults: nat, copies: nat)

  /** Retrying an access until the page protection permits it. */
  function Serve(e: Entry, flag: bool, write: bool): (r: Served)
    requires WellFormed(e)
    ensures WellFormed(r.entry) && Permits(r.entry.prot, write)
    ensures r.faults <= 2 && (r.faults == 2 ==> flag && write)
    ensures r.faults == 0 ==> r == Served(e, flag, 0, 0)
    ensures r.faults > 0 ==> !r.flag
    decreases if Permits(e.prot, write) then 0 else if flag then 2 else 1
  {
    if Permits(e.prot, write) then Served(e, flag, 0, 0)
    else
      FaultMakesProgress(e, flag, write);
      var rest := Serve(Fault(e, flag), false, write);
      Served(rest.entry, rest.flag, rest.faults + 1,
             rest.copies + ToCpuCopies(e, if flag then ReadOnly else Move))
  }

  /** A served access never changes the data: what the CPU then sees is coherent
      whatever the flag was, and at most one copy was made for it. */
  lemma ServeKeepsCoherence(e: Entry, flag: bool, write: bool, logical: seq<real>)
    requires Coherent(e, logical)
    ensures var r := Serve(e, flag, write);
            && Coherent(r.entry, logical)
            && r.copies == (if Permits(e.prot, false) then 0 else 1)
            && (r.faults > 0 ==> Current(r.entry.cpu))
            && (r.faults > 0 && write ==> r.entry.cpu.UpToDateWrite?)
            && r.entry.(cpu := e.cpu, gpu := e.gpu, prot := e.prot, host := e.host) == e
            && (r.entry.instance && r.entry.registered && !r.entry.cpu.TempWrite? ==> r.entry.host == logical)
  {
    if !Permits(e.prot, write) {
      var mode := if flag then ReadOnly else Move;
      ToCpuKeepsCoherence(e, mode, logical);
      var e1 := Fault(e, flag);
      if !Permits(e1.prot, write) {
        ToCpuKeepsCoherence(e1, Move, logical);
        assert Serve(e1, false, write).entry == Fault(e1, false);
      }
    }
  }

  // ----- kernel launches -----

  /** One dataset occurrence in a kernel's argument list: const arguments ask for
      shared reading, the others for ownership, and TEMP_WRITE is left alone. */
  function UseInKernel(e: Entry, isConst: bool, raw: seq<real>): Entry
    requires WellFormed(e) && e.instance && |raw| == |e.host|
  {
    if e.gpu.TempWrite? then e else ToGpu(e, if isConst then ReadOnly else Move, raw)
  }

  function UseCopies(e: Entry, isConst: bool): nat {
    if e.gpu.TempWrite? then 0 else ToGpuCopies(e, if isConst then ReadOnly else Move)
  }

  lemma UseKeepsCoherence(e: Entry, isConst: bool, raw: seq<real>, logical: seq<real>)
    requires Coherent(e, logical) && e.instance && |raw| == |e.host|
    ensures var e' := UseInKernel(e, isConst, raw);
            Coherent(e', logical) && e'.instance && |e'.host| == |e.host| && KernelReady(e')
    ensures !isConst ==> KernelMayWrite(UseInKernel(e, isConst, raw))
    ensures KernelMayWrite(e) && KernelReady(e) ==> KernelMayWrite(UseInKernel(e, isConst, raw))
  {
    if !e.gpu.TempWrite? {
      ToGpuKeepsCoherence(e, if isConst then ReadOnly else Move, raw, logical);
    }
  }

  /** The check made when arguments are extracted for the launch. */
  predicate KernelReady(e: Entry) {
    && !e.gpu.OutOfDate? && !e.gpu.ResizedOnCpu?
    && |e.dev| == |e.host|
  }

  /** Writing the device buffer cannot make an up-to-date host copy stale. */
  predicate KernelMayWrite(e: Entry) {
    e.gpu.TempWrite? || !Current(e.cpu)
  }

  /** All occurrences of one dataset in an argument list, in order (true = const). */
  function UseAll(e: Entry, uses: seq<bool>, raw: seq<real>): (e': Entry)
    requires WellFormed(e) && e.instance && |raw| == |e.host|
    ensures WellFormed(e') && e'.instance && |e'.host| == |e.host|
    decreases |uses|
  {
    if uses == [] then e
    else
      var e1 := UseInKernel(e, uses[0], raw);
      UseAll(e1, uses[1..], raw)
  }

  /** What a new device buffer contains never shows: a kernel's argument is loaded first. */
  lemma UseIgnoresRaw(e: Entry, isConst: bool, raw: seq<real>, other: seq<real>)
    requires WellFormed(e) && e.instance && |raw| == |other| == |e.host|
    ensures UseInKernel(e, isConst, raw) == UseInKernel(e, isConst, other)
  {
  }

  lemma {:induction false} UseAllIgnoresRaw(e: Entry, uses: seq<bool>, raw: seq<real>, other: seq<real>)
    requires WellFormed(e) && e.instance && |raw| == |other| == |e.host|
    ensures UseAll(e, uses, raw) == UseAll(e, uses, other)
    decreases |uses|
  {
    if uses != [] {
      UseIgnoresRaw(e, uses[0], raw, other);
      UseAllIgnoresRaw(UseInKernel(e, uses[0], raw), uses[1..], raw, other);
    }
  }

  lemma {:induction false} UseAllSnoc(e: Entry, uses: seq<bool>, isConst: bool, raw: seq<real>)
    requires WellFormed(e) && e.instance && |raw| == |e.host|
    ensures UseAll(e, uses + [isConst], raw) == UseInKernel(UseAll(e, uses, raw), isConst, raw)
    decreases |uses|
  {
    if uses != [] {
      UseAllSnoc(UseInKernel(e, uses[0], raw), uses[1..], isConst, raw);
      assert (uses + [isConst])[1..] == uses[1..] + [isConst];
    }
  }

  /** Whatever mix of const and non-const occurrences: the launch check passes, and if
      one occurrence can write then no host copy of the old values stays current. */
  lemma {:induction false} UseAllReady(e: Entry, uses: seq<bool>, raw: seq<real>, logical: seq<real>)
    requires Coherent(e, logical) && e.instance && |raw| == |e.host|
    ensures var e' := UseAll(e, uses, raw);
            && Coherent(e', logical)
            && (uses != [] || KernelReady(e) ==> KernelReady(e'))
            && (false in uses || (KernelReady(e) && KernelMayWrite(e)) ==> KernelMayWrite(e'))
    decreases |uses|
  {
    if uses != [] {
      UseKeepsCoherence(e, uses[0], raw, logical);
      UseAllReady(UseInKernel(e, uses[0], raw), uses[1..], raw, logical);
      assert uses == [uses[0]] + uses[1..];
    }
  }

  // ----- resizing -----

  function Resized(data: seq<real>, n: nat): (r: seq<real>)
    ensures |r| == n
    ensures forall i :: 0 <= i < n ==> r[i] == if i < |data| then data[i] else 0.0
  {
    if n <= |data| then data[..n] else data + seq(n - |data|, i => 0.0)
  }

  /** What the source asks of a caller that resizes: an unregistered dataset has no
      device instance yet, shrinking to nothing leaves no device buffer behind, and
      the host values are not scratch. */
  predicate ResizeAllowed(e: Entry, n: nat) {
    && (!e.registered ==> !e.instance)
    && (n == 0 ==> e.dev == [])
    && (e.instance ==> !e.cpu.TempWrite?)
  }

  /** The copy into the new mapping reads the old one through a raw pointer, so
      it first serves that read. */
  function Repaged(e: Entry, flag: bool, n: nat): Served
    requires WellFormed(e)
  {
    if !e.registered then Served(e.(size := n), flag, 0, 0)
    else if n == 0 || e.size == 0 then
      Served(e.(size := n, host := Resized([], n), prot := FullAccess), flag, 0, 0)
    else
      var read := Serve(e, flag, false);
      read.(entry := read.entry.(size := n, host := Resized(read.entry.host, n), prot := FullAccess))
  }

  /** The whole resize: new pages, then the device side becomes RESIZED_ON_CPU. */
  function ResizeEntry(e: Entry, flag: bool, n: nat): Served
    requires WellFormed(e)
  {
    var paged := Repaged(e, flag, n);
    paged.(entry := MarkResized(paged.entry))
  }

  function MarkResized(e: Entry): Entry {
    if e.instance then e.(gpu := ResizedOnCpu, cpu := UpToDateWrite) else e
  }

  lemma ResizeKeepsCoherence(e: Entry, flag: bool, n: nat, logical: seq<real>)
    requires Coherent(e, logical) && ResizeAllowed(e, n)
    ensures WellFormed(e)
    ensures Coherent(ResizeEntry(e, flag, n).entry, if e.registered then Resized(logical, n) else [])
    ensures ResizeEntry(e, flag, n).entry.size == n
  {
    if e.registered && n != 0 && e.size != 0 {
      ServeKeepsCoherence(e, flag, false, logical);
    }
  }

  /** Exactly when the host is not scratch, or nothing is kept, is the common prefix
      of the logical array safe for every content of the host buffer. */
  lemma ResizeKeepsPrefixIff(e: Entry, flag: bool, n: nat, logical: seq<real>)
    requires Coherent(e, logical) && e.registered && e.instance
    ensures (forall scratch: seq<real> | Coherent(e.(host := scratch), logical) ::
               ResizeEntry(e.(host := scratch), flag, n).entry.host == Resized(logical, n))
            <==> (!e.cpu.TempWrite? || n == 0 || e.size == 0)
  {
    if e.cpu.TempWrite? && n != 0 && e.size != 0 {
      var scratch := logical[0 := logical[0] + 1.0];
      assert Coherent(e.(host := scratch), logical);
      assert ResizeEntry(e.(host := scratch), flag, n).entry.host == Resized(scratch, n);
      assert Resized(scratch, n)[0] != Resized(logical, n)[0];
    } else {
      forall scratch: seq<real> | Coherent(e.(host := scratch), logical)
        ensures ResizeEntry(e.(host := scratch), flag, n).entry.host == Resized(logical, n)
      {
        if n != 0 && e.size != 0 {
          ServeKeepsCoherence(e.(host := scratch), flag, false, logical);
        }
      }
    }
  }

  /** Registering a dataset that was retrieved before it existed. */
  function Promote(e: Entry, flag: bool): Served
    requires WellFormed(e) && !e.registered
  {
    var host := seq(e.size, i => 0.0);
    Served(MarkResized(e.(registered := true, host := host, prot := FullAccess)), flag, 0, 0)
  }

  lemma PromoteKeepsCoherence(e: Entry, flag: bool)
    requires Coherent(e, []) && !e.registered
    ensures Coherent(Promote(e, flag).entry, seq(e.size, i => 0.0))
  {
  }
}
