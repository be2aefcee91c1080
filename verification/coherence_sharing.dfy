/** What the five modes are for, over runs. Reading shares: as long as a dataset is only read,
    from whichever side, it is copied once at most, and exactly if some access comes from a side
    that was not up to date. Scratch permission lasts from the transfer that lends it to the one
    that recalls it. Ownership is exclusive. */
module CoherenceSharing {
  import opened Coherence
  import opened CoherenceBounds
  import opened CoherenceRuns

  // ----- reading shares -----

  /** Accesses that only read: reads through the const operator, READ_ONLY transfers, launches
      with const arguments only, and copies out of the dataset. */
  predicate OnlyReads(op: Op) {
    match op
    case Elsewhere(_) => true
    case Read(via, _) => via.ConstOperator?
    case SetUpDevice(_) => true
    case SendToGpu(mode, _) => mode.ReadOnly?
    case SendToCpu(mode) => mode.ReadOnly?
    case Launch(uses, _, _) => false !in uses
    case CopyOut(_) => true
    case _ => false
  }

  predicate NoScratch(e: Entry) {
    e.instance ==> !e.cpu.TempWrite? && !e.gpu.TempWrite?
  }

  /** Without a device instance the host is up to date, and nothing else. */
  predicate CurrentOn(e: Entry, d: Device) {
    if d.Cpu? then !e.instance || Current(e.cpu) else e.instance && Current(e.gpu)
  }

  predicate Accesses(op: Op, d: Device) {
    AccessedFrom(op) == [d]
  }

  /** The access comes from a side that is not up to date. */
  predicate Misses(e: Entry, op: Op) {
    exists d: Device :: Accesses(op, d) && !CurrentOn(e, d)
  }

  /** A reading step makes the side it reads from current and leaves the other as it was; it
      copies exactly if the side was not current. */
  ghost predicate Shares(s: System, op: Op, next: System) {
    && next.e.registered && (s.e.instance ==> next.e.instance) && NoScratch(next.e) && next.logical == s.logical
    && (forall d: Device :: CurrentOn(next.e, d) <==> CurrentOn(s.e, d) || Accesses(op, d))
    && next.copies == s.copies + if Misses(s.e, op) then 1 else 0
  }

  lemma {:induction false} ConstUses(e: Entry, uses: seq<bool>, raw: seq<real>)
    requires WellFormed(e) && e.instance && e.registered && |raw| == |e.host| && NoScratch(e) && false !in uses
    ensures var e' := UseAll(e, uses, raw);
            && e'.registered && NoScratch(e')
            && (Current(e'.cpu) <==> Current(e.cpu)) && (Current(e'.gpu) <==> Current(e.gpu) || uses != [])
    decreases |uses|
  {
    if uses != [] {
      assert uses[0] in uses;
      ConstUses(UseInKernel(e, uses[0], raw), uses[1..], raw);
    }
  }

  lemma FetchShares(s: System, op: Op)
    requires Coherent(s.e, s.logical) && Allowed(s, op) && s.e.registered && NoScratch(s.e)
    requires OnlyReads(op) && (op.Read? || op.SendToCpu?)
    ensures Shares(s, op, Step(s, op))
  {
    if op.Read? {
      ServeKeepsCoherence(s.e, true, false, s.logical);
    }
    assert Accesses(op, Cpu) && !Accesses(op, Gpu);
  }

  lemma SendShares(s: System, op: Op)
    requires Coherent(s.e, s.logical) && Allowed(s, op) && s.e.registered && NoScratch(s.e)
    requires OnlyReads(op) && (op.SendToGpu? || (op.CopyOut? && s.e.instance))
    ensures Shares(s, op, Step(s, op))
  {
    assert Accesses(op, Gpu) && !Accesses(op, Cpu);
  }

  lemma LaunchShares(s: System, op: Op)
    requires Coherent(s.e, s.logical) && Allowed(s, op) && s.e.registered && NoScratch(s.e)
    requires OnlyReads(op) && op.Launch?
    ensures Shares(s, op, Step(s, op))
  {
    ConstUses(SetUp(s.e, op.raw), op.uses, op.raw);
    LaunchCost(SetUp(s.e, op.raw), op.uses, op.raw);
    assert !Accesses(op, Cpu) && (Accesses(op, Gpu) <==> op.uses != []);
  }

  lemma StepShares(s: System, op: Op)
    requires Coherent(s.e, s.logical) && Allowed(s, op) && s.e.registered && NoScratch(s.e)
    requires OnlyReads(op) && (op.CopyOut? ==> s.e.instance)
    ensures Shares(s, op, Step(s, op))
  {
    if op.Launch? {
      LaunchShares(s, op);
    } else if op.Read? || op.SendToCpu? {
      FetchShares(s, op);
    } else if op.SendToGpu? || op.CopyOut? {
      SendShares(s, op);
    }
  }

  /** While both sides are current neither may write: the pages are read-only. */
  lemma SharedPages(e: Entry)
    requires WellFormed(e) && e.instance && Current(e.cpu) && Current(e.gpu)
    ensures e.cpu.UpToDateRead? && e.gpu.UpToDateRead? && Permits(e.prot, false) && !Permits(e.prot, true)
  {
  }

  /** The pages of a set-up dataset permit reading exactly to a side that is current or has
      scratch permission, and writing exactly to an owner or for scratch. */
  lemma PagesFollowRights(e: Entry)
    requires WellFormed(e) && e.instance && e.registered
    ensures Permits(e.prot, false) <==> Current(e.cpu) || e.cpu.TempWrite?
    ensures Permits(e.prot, true) <==> e.cpu.UpToDateWrite? || e.cpu.TempWrite?
  {
  }

  /** A READ_ONLY transfer withdraws the permission to write, on either side. */
  lemma ReadOnlyWithdraws(e: Entry, raw: seq<real>)
    requires WellFormed(e) && e.instance && e.registered && |raw| == |e.host| && NoScratch(e)
    ensures !ToCpu(e, ReadOnly).cpu.UpToDateWrite? && !ToCpu(e, ReadOnly).gpu.UpToDateWrite?
    ensures !ToGpu(e, ReadOnly, raw).cpu.UpToDateWrite? && !ToGpu(e, ReadOnly, raw).gpu.UpToDateWrite?
    ensures !Permits(ToCpu(e, ReadOnly).prot, true) && !Permits(ToGpu(e, ReadOnly, raw).prot, true)
  {
  }

  /** Some access of the run comes from a side that is not up to date at its beginning. */
  ghost predicate RunMisses(e: Entry, ops: seq<Op>) {
    exists k :: 0 <= k < |ops| && Misses(e, ops[k])
  }

  /** However long the run and however often the device switches: reading copies once if some
      access comes from a side that was not up to date, and never otherwise. (A copy out of a
      dataset that has no device instance is made with MOVE: LendingTakesOwnership.) */
  lemma {:induction false} ReadingRunCost(s: System, ops: seq<Op>)
    requires Coherent(s.e, s.logical) && AllowedRun(s, ops) && s.e.registered && NoScratch(s.e)
    requires forall op :: op in ops ==> OnlyReads(op) && (op.CopyOut? ==> s.e.instance)
    ensures Run(s, ops).copies == s.copies + if RunMisses(s.e, ops) then 1 else 0
    ensures Run(s, ops).logical == s.logical
    decreases |ops|
  {
    hide Step, Coherent, Allowed;
    if ops != [] {
      var op, rest := ops[0], ops[1..];
      assert op in ops;
      StepKeepsCoherence(s, op);
      Basics(s);
      StepShares(s, op);
      ReadingRunCost(Step(s, op), rest);
      if RunMisses(s.e, ops) && !Misses(s.e, op) {
        var k :| 0 <= k < |ops| && Misses(s.e, ops[k]);
        assert rest[k - 1] == ops[k];
        MissedLater(s, op, Step(s, op), ops[k]);
      }
      if RunMisses(Step(s, op).e, rest) {
        var k :| 0 <= k < |rest| && Misses(Step(s, op).e, rest[k]);
        MissedBefore(s, op, Step(s, op), rest[k]);
        assert ops[k + 1] == rest[k];
      }
    }
  }

  lemma Basics(s: System)
    requires Coherent(s.e, s.logical) && s.e.registered
    ensures WellFormed(s.e) && |s.logical| == |s.e.host| && (CurrentOn(s.e, Cpu) || CurrentOn(s.e, Gpu))
  {
    SomeSideIsCurrent(s.e, s.logical);
  }

  /** If the step misses nothing, what would have missed before it still does. */
  lemma MissedLater(s: System, op: Op, next: System, later: Op)
    requires Shares(s, op, next) && !Misses(s.e, op) && Misses(s.e, later)
    ensures Misses(next.e, later)
  {
    var d :| Accesses(later, d) && !CurrentOn(s.e, d);
    assert !CurrentOn(next.e, d);
  }

  /** After a step that missed nothing misses any more; otherwise only what did before. */
  lemma MissedBefore(s: System, op: Op, next: System, later: Op)
    requires Shares(s, op, next) && (CurrentOn(s.e, Cpu) || CurrentOn(s.e, Gpu)) && Misses(next.e, later)
    ensures Misses(s.e, later) && !Misses(s.e, op)
  {
    var d :| Accesses(later, d) && !CurrentOn(next.e, d);
    assert !CurrentOn(s.e, d) && !Accesses(op, d);
  }

  /** A first copy out of a dataset without a device instance takes ownership: reading the
      dataset on the CPU afterwards costs a second copy, for every content. */
  lemma LendingTakesOwnership(s: System, raw: seq<real>, at: nat)
    requires Coherent(s.e, s.logical) && s.e.registered && !s.e.instance && |raw| == |s.e.host| > at
    ensures AllowedRun(s, [CopyOut(raw), Read(ConstOperator, at)])
    ensures Run(s, [CopyOut(raw), Read(ConstOperator, at)]).copies == s.copies + 2
  {
    var op, last := CopyOut(raw), Read(ConstOperator, at);
    StepKeepsCoherence(s, op);
    var next := Step(s, op);
    assert next.e.cpu.OutOfDate? && next.copies == s.copies + 1;
    StepKeepsCoherence(next, last);
    ServeKeepsCoherence(next.e, true, false, next.logical);
    assert Step(next, last).copies == next.copies + 1;
    assert AllowedRun(Step(next, last), []);
    ConsRun(next, last, []);
    ConsRun(s, op, [last]);
    assert [last] + [] == [last] && [op] + [last] == [op, last];
  }

  // ----- ownership is exclusive -----

  /** The device may write what the other will see. */
  predicate OwnedBy(e: Entry, d: Device) {
    if d.Cpu? then e.cpu.UpToDateWrite? else e.gpu.UpToDateWrite?
  }

  function Other(d: Device): Device {
    if d.Cpu? then Gpu else Cpu
  }

  predicate ScratchOn(e: Entry, d: Device) {
    if d.Cpu? then e.cpu.TempWrite? else e.gpu.TempWrite?
  }

  /** An explicit transfer to a device. */
  function Sent(e: Entry, d: Device, mode: TransferMode, raw: seq<real>): Entry
    requires WellFormed(e) && e.instance && |raw| == |e.host|
  {
    if d.Cpu? then ToCpu(e, mode) else ToGpu(e, mode, raw)
  }

  predicate MaySend(e: Entry, d: Device, mode: TransferMode) {
    if d.Cpu? then CpuTransferAllowed(e, mode) else GpuTransferAllowed(e, mode)
  }

  /** An owner excludes the other side from the values. */
  lemma OwnerIsAlone(e: Entry, d: Device)
    requires WellFormed(e) && e.instance && OwnedBy(e, d)
    ensures !CurrentOn(e, Other(d))
  {
  }

  /** What a transfer leaves each side. MOVE and NOT_INITIALIZE make the receiver the owner,
      READ_ONLY lets it read beside whoever could, COPY lends it scratch permission while the
      other side keeps what it has, and SYNC_AND_MOVE leaves the data to the GPU and scratch
      permission to the CPU. Scratch permission of the other side outlives all but
      SYNC_AND_MOVE. */
  lemma TransferRights(e: Entry, d: Device, mode: TransferMode, raw: seq<real>)
    requires WellFormed(e) && e.instance && e.registered && |raw| == |e.host| && MaySend(e, d, mode)
    ensures var e', o := Sent(e, d, mode, raw), Other(d);
            && (mode.Move? || mode.NotInitialize? ==> OwnedBy(e', d))
            && (mode.ReadOnly? ==>
                  CurrentOn(e', d) && !OwnedBy(e', d) && !OwnedBy(e', o) && (CurrentOn(e', o) <==> CurrentOn(e, o)))
            && (mode.Copy? ==> ScratchOn(e', d) && CurrentOn(e', o) && (OwnedBy(e, o) ==> OwnedBy(e', o)))
            && (mode.Copy? && e.gpu.ResizedOnCpu? ==> OwnedBy(e', Cpu))
            && (mode.SyncAndMove? ==> OwnedBy(e', Gpu) && ScratchOn(e', Cpu))
            && (!mode.SyncAndMove? ==> (ScratchOn(e', o) <==> ScratchOn(e, o)) && (ScratchOn(e', d) <==> mode.Copy?))
  {
  }

  // ----- values and copies -----

  function BufferOn(e: Entry, d: Device): seq<real> {
    if d.Cpu? then e.host else e.dev
  }

  /** Every mode but NOT_INITIALIZE brings the values to the receiver, scratch or not, and
      SYNC_AND_MOVE leaves them on both sides. */
  lemma TransferValues(e: Entry, d: Device, mode: TransferMode, raw: seq<real>, logical: seq<real>)
    requires Coherent(e, logical) && e.instance && e.registered && |raw| == |e.host| && MaySend(e, d, mode)
    ensures !mode.NotInitialize? ==> BufferOn(Sent(e, d, mode, raw), d) == logical
    ensures mode.SyncAndMove? ==> BufferOn(Sent(e, d, mode, raw), Other(d)) == logical
  {
    SomeSideIsCurrent(e, logical);
  }

  function SentCopies(e: Entry, d: Device, mode: TransferMode): nat {
    if d.Cpu? then ToCpuCopies(e, mode) else ToGpuCopies(e, mode)
  }

  /** A transfer copies exactly if values are wanted where they are not: by the receiver, unless
      it will overwrite them, and for SYNC_AND_MOVE on either side. */
  lemma TransferCopiesIff(e: Entry, d: Device, mode: TransferMode)
    requires WellFormed(e) && e.instance && e.registered
    ensures SentCopies(e, d, mode) <= 1
    ensures SentCopies(e, d, mode) == 1 <==>
            && !mode.NotInitialize?
            && (!CurrentOn(e, d) || (mode.SyncAndMove? && !CurrentOn(e, Other(d))))
  {
  }

  /** What is overwritten is never copied first: neither by NOT_INITIALIZE nor for a copy into
      the dataset. */
  lemma OverwritingIsFree(s: System, op: Op)
    requires Coherent(s.e, s.logical) && Allowed(s, op)
    requires op.CopyIn? || ((op.SendToGpu? || op.SendToCpu?) && op.mode.NotInitialize?)
    ensures Step(s, op).copies == s.copies
  {
  }

  /** The first set-up of the device takes nothing from the host: no copy, and no fault later. */
  lemma SetUpIsFree(e: Entry, raw: seq<real>)
    requires WellFormed(e) && !e.instance && e.registered && |raw| == |e.host|
    ensures var e' := SetUp(e, raw);
            OwnedBy(e', Cpu) && Permits(e'.prot, true) && e'.host == e.host && !CurrentOn(e', Gpu)
  {
  }

  /** After a resize the host owns the data, and its pages permit everything. */
  lemma ResizeOwns(e: Entry, flag: bool, n: nat, logical: seq<real>)
    requires Coherent(e, logical) && ResizeAllowed(e, n) && e.instance && e.registered
    ensures OwnedBy(ResizeEntry(e, flag, n).entry, Cpu) && Permits(ResizeEntry(e, flag, n).entry.prot, true)
  {
    if n != 0 && e.size != 0 {
      ServeKeepsCoherence(e, flag, false, logical);
    }
  }

  /** And after the registration of a dataset that is set up on the device. */
  lemma PromotionOwns(e: Entry, flag: bool)
    requires WellFormed(e) && e.instance && !e.registered
    ensures OwnedBy(Promote(e, flag).entry, Cpu) && Permits(Promote(e, flag).entry.prot, true)
  {
  }

  /** The faults of one access: none if the pages permit it. Otherwise the first asks for
      READ_ONLY if the flag is up, and a write then needs a second. The const operator puts the
      flag up, the other operator takes it down, a raw pointer leaves it as it was. */
  lemma FaultCount(e: Entry, via: Via, flag: bool, write: bool)
    requires WellFormed(e)
    ensures var up := via.ConstOperator? || (via.RawPointer? && flag);
            Serve(e, FlagAfter(via, flag), write).faults
            == if Permits(e.prot, write) then 0 else if up && write then 2 else 1
  {
    if !Permits(e.prot, write) {
      var e1 := Fault(e, FlagAfter(via, flag));
      FaultMakesProgress(e, FlagAfter(via, flag), write);
      if !Permits(e1.prot, write) {
        FaultMakesProgress(e1, false, write);
        assert Serve(e1, false, write).faults == 1;
      }
    }
  }

  // ----- scratch permission lasts until it is recalled -----

  predicate Lends(op: Op, d: Device) {
    match op
    case SendToCpu(mode) => d.Cpu? && (mode.Copy? || mode.SyncAndMove?)
    case SendToGpu(mode, _) => if d.Cpu? then mode.SyncAndMove? else mode.Copy?
    case _ => false
  }

  predicate Recalls(op: Op, d: Device) {
    match op
    case SendToCpu(mode) => if d.Cpu? then true else mode.SyncAndMove?
    case SendToGpu(_, _) => d.Gpu?
    case CopyOut(_) => d.Gpu?
    case CopyIn(_, _) => d.Gpu?
    case Resize(_) => true
    case _ => false
  }

  lemma {:induction false} UsesKeepScratch(e: Entry, uses: seq<bool>, raw: seq<real>)
    requires WellFormed(e) && e.instance && e.registered && |raw| == |e.host|
    ensures UseAll(e, uses, raw).cpu.TempWrite? <==> e.cpu.TempWrite?
    ensures UseAll(e, uses, raw).gpu.TempWrite? <==> e.gpu.TempWrite?
    decreases |uses|
  {
    if uses != [] {
      UsesKeepScratch(UseInKernel(e, uses[0], raw), uses[1..], raw);
    }
  }

  ghost predicate ScratchFollows(s: System, op: Op, next: System) {
    forall d: Device :: ScratchOn(next.e, d) <==> Lends(op, d) || (ScratchOn(s.e, d) && !Recalls(op, d))
  }

  lemma AccessKeepsScratch(e: Entry, flag: bool, write: bool, logical: seq<real>)
    requires Coherent(e, logical) && e.instance && e.registered
    ensures Serve(e, flag, write).entry.cpu.TempWrite? <==> e.cpu.TempWrite?
    ensures Serve(e, flag, write).entry.gpu.TempWrite? <==> e.gpu.TempWrite?
  {
    if !Permits(e.prot, write) {
      var e1 := Fault(e, flag);
      if !Permits(e1.prot, write) {
        assert Serve(e1, false, write).entry == Fault(e1, false);
      }
    }
  }

  lemma AccessScratch(s: System, op: Op)
    requires Coherent(s.e, s.logical) && Allowed(s, op) && s.e.instance && s.e.registered && (op.Read? || op.Write?)
    ensures ScratchFollows(s, op, Step(s, op))
  {
    AccessKeepsScratch(s.e, FlagAfter(op.via, s.flag), op.Write?, s.logical);
  }

  lemma SendScratch(s: System, op: Op)
    requires Coherent(s.e, s.logical) && Allowed(s, op) && s.e.instance && s.e.registered
    requires op.SendToGpu? || op.SendToCpu?
    ensures ScratchFollows(s, op, Step(s, op))
  {
  }

  lemma DeviceScratch(s: System, op: Op)
    requires Coherent(s.e, s.logical) && Allowed(s, op) && s.e.instance && s.e.registered
    requires op.Launch? || op.CopyOut? || op.CopyIn?
    ensures ScratchFollows(s, op, Step(s, op))
  {
    if op.Launch? {
      UsesKeepScratch(s.e, op.uses, op.raw);
    }
  }

  /** Whatever the program does, a side has scratch permission exactly if the step lends it, or
      it had it and the step does not recall it; no fault and no launch takes it away. */
  lemma ScratchIff(s: System, op: Op)
    requires Coherent(s.e, s.logical) && Allowed(s, op) && s.e.instance && s.e.registered
    ensures ScratchFollows(s, op, Step(s, op))
  {
    if op.Read? || op.Write? {
      AccessScratch(s, op);
    } else if op.SendToGpu? || op.SendToCpu? {
      SendScratch(s, op);
    } else if op.Launch? || op.CopyOut? || op.CopyIn? {
      DeviceScratch(s, op);
    }
  }
}
