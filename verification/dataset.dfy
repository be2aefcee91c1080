/** A dataset as the framework keeps it: the CPU side (dataSetBase) together with its
    GPU instance. The transfer methods follow the source's switch statements, with its
    assertions, and are proved against the functions of module Coherence. */
module DataSets {
  import opened Coherence

  class DataSet {
    const elementBytes: nat

    var registered: bool
    var size: nat
    var byteSize: nat
    var host: seq<real>
    var address: nat
    var allocation: nat
    var prot: Protection

    var instance: bool
    var cpu: Status
    var gpu: Status
    var dev: seq<real>

    ghost var logical: seq<real>
    ghost var copies: nat

    ghost function State(): Entry
      reads this
    {
      Entry(registered, instance, cpu, gpu, prot, size, host, dev)
    }

    ghost predicate Valid()
      reads this
    {
      Coherent(State(), logical)
    }

    /** A new entry, without a device instance. An unresolved one has no buffer yet, and its
        shape, hence its size in bytes, is still unknown. */
    constructor (numEntries: nat, bytes: nat, unresolved: bool)
      ensures elementBytes == bytes && size == numEntries && address == allocation == 0
      ensures registered == !unresolved && byteSize == (if unresolved then 0 else numEntries * bytes)
      ensures State() == Entry(!unresolved, false, NotAllocated, NotAllocated, FullAccess, numEntries, [], [])
      ensures logical == [] && copies == 0
    {
      elementBytes, size, registered := bytes, numEntries, !unresolved;
      byteSize := if unresolved then 0 else numEntries * bytes;
      host, dev, address, allocation := [], [], 0, 0;
      prot, instance, cpu, gpu := FullAccess, false, NotAllocated, NotAllocated;
      logical, copies := [], 0;
    }

    method ProtectData()
      modifies this`prot
      ensures prot == if cpu.OutOfDate? || cpu.UpToDateRead? || cpu.UpToDateWrite? || cpu.TempWrite?
                      then ProtectionFor(cpu) else old(prot)
    {
      if cpu == OutOfDate {
        prot := NoAccess;
      } else if cpu == UpToDateRead {
        prot := ReadAccess;
      } else if cpu == UpToDateWrite || cpu == TempWrite {
        prot := FullAccess;
      }
    }

    method AllocateDeviceData(raw: seq<real>)
      requires dev == [] && |raw| == size
      modifies this`dev, this`cpu, this`gpu
      ensures dev == raw && cpu == UpToDateWrite && gpu == OutOfDate
    {
      dev := raw;
      cpu := UpToDateWrite;
      gpu := OutOfDate;
    }

    method DeallocateDeviceData()
      requires size == 0 ==> dev == []
      modifies this`dev, this`cpu, this`gpu
      ensures dev == [] && cpu == UpToDateWrite && gpu == NotAllocated
    {
      if size == 0 {
        assert dev == [];
      } else {
        dev := [];
      }
      gpu := NotAllocated;
      cpu := UpToDateWrite;
    }

    method ResizeDeviceData(raw: seq<real>)
      requires registered && |raw| == size
      requires size == 0 ==> dev == []
      modifies this`dev, this`cpu, this`gpu
      ensures dev == raw && cpu == UpToDateWrite && gpu == OutOfDate
    {
      DeallocateDeviceData();
      AllocateDeviceData(raw);
    }

    /** Create the GPU instance, and the device buffer if there is something to mirror. */
    method SetUpDevice(raw: seq<real>)
      requires Valid() && |raw| == |host|
      modifies this`instance, this`cpu, this`gpu, this`dev
      ensures Valid()
      ensures State() == SetUp(old(State()), raw)
      ensures logical == old(logical) && copies == old(copies)
    {
      if !instance {
        instance := true;
        if registered {
          cpu := UpToDateWrite;
        } else {
          cpu := NotAllocated;
        }
        gpu := NotAllocated;
      }
      if registered && gpu == NotAllocated {
        AllocateDeviceData(raw);
      }
    }

    /** First switch of transfer_to_gpu: 1 copies host to device, -1 device to host. */
    method ChooseCopyForGpu(mode: TransferMode, raw: seq<real>) returns (doCopy: int)
      requires Valid() && instance && |raw| == |host|
      modifies this`dev, this`cpu, this`gpu
      ensures var e := old(State());
              && doCopy == (if GpuLoads(e, mode) then 1 else if GpuFlushes(e, mode) then -1 else 0)
              && State() == if e.gpu.ResizedOnCpu? then e.(dev := raw, cpu := UpToDateWrite, gpu := OutOfDate) else e
    {
      doCopy := 0;
      assert cpu != ResizedOnCpu;
      match gpu {
        case UpToDateWrite =>
          assert cpu == OutOfDate || cpu == TempWrite;
          if mode == SyncAndMove {
            doCopy := -1;
          }
        case UpToDateRead =>
          assert cpu == OutOfDate || cpu == TempWrite || cpu == UpToDateRead;
          if mode == SyncAndMove && cpu != UpToDateRead {
            doCopy := -1;
          }
        case OutOfDate =>
          assert cpu == UpToDateWrite || cpu == UpToDateRead;
          if mode != NotInitialize {
            doCopy := 1;
          }
        case TempWrite =>
          assert cpu == UpToDateWrite || cpu == UpToDateRead;
          if mode != NotInitialize {
            doCopy := 1;
          }
        case ResizedOnCpu =>
          assert cpu == UpToDateWrite || cpu == UpToDateRead;
          ResizeDeviceData(raw);
          if mode != NotInitialize {
            doCopy := 1;
          }
        case NotAllocated =>
          assert cpu == NotAllocated;
      }
    }

    method CopyToDevice()
      requires |host| == |dev|
      modifies this`dev, this`prot, this`copies
      ensures dev == host && prot == ReadAccess && copies == old(copies) + 1
    {
      prot := ReadAccess;
      dev := host;
      copies := copies + 1;
    }

    method CopyToHost()
      requires |host| == |dev|
      modifies this`host, this`prot, this`copies
      ensures host == dev && prot == FullAccess && copies == old(copies) + 1
    {
      prot := FullAccess;
      host := dev;
      copies := copies + 1;
    }

    /** Second switch of transfer_to_gpu: ownership, then page protection. */
    method GrantToGpu(mode: TransferMode, doCopy: int)
      requires cpu.UpToDateWrite? || cpu.UpToDateRead? || cpu.OutOfDate? || cpu.TempWrite?
      requires mode.Copy? ==> Current(cpu)
      requires mode.NotInitialize? ==> doCopy == 0
      modifies this`cpu, this`gpu, this`prot
      ensures (cpu, gpu) == GpuGrant(mode, old(cpu))
      ensures prot == ProtectionFor(cpu)
    {
      match mode {
        case Move =>
          if cpu != TempWrite {
            cpu := OutOfDate;
          }
          gpu := UpToDateWrite;
        case ReadOnly =>
          gpu := UpToDateRead;
          if cpu == UpToDateWrite {
            cpu := UpToDateRead;
          }
        case Copy =>
          assert cpu == UpToDateWrite || cpu == UpToDateRead;
          gpu := TempWrite;
        case NotInitialize =>
          assert doCopy == 0;
          if cpu != TempWrite {
            cpu := OutOfDate;
          }
          gpu := UpToDateWrite;
        case SyncAndMove =>
          gpu := UpToDateWrite;
          cpu := TempWrite;
      }
      ProtectData();
    }

    method TransferToGpu(mode: TransferMode, raw: seq<real>)
      requires Valid() && instance && |raw| == |host|
      requires GpuTransferAllowed(State(), mode)
      modifies this`cpu, this`gpu, this`prot, this`host, this`dev, this`logical, this`copies
      ensures Valid()
      ensures State() == ToGpu(old(State()), mode, raw)
      ensures logical == LogicalAfterToGpu(old(State()), mode, raw, old(logical))
      ensures copies == old(copies) + ToGpuCopies(old(State()), mode)
    {
      ghost var before := State();
      ToGpuKeepsCoherence(before, mode, raw, logical);
      var doCopy := ChooseCopyForGpu(mode, raw);
      if gpu != NotAllocated {
        if doCopy != 0 {
          assert (doCopy == -1 && mode == SyncAndMove) || doCopy == 1;
          if doCopy == 1 {
            CopyToDevice();
          } else {
            CopyToHost();
          }
        }
        GrantToGpu(mode, doCopy);
      }
      logical := LogicalAfterToGpu(before, mode, raw, logical);
    }

    /** First switch of transfer_to_cpu: 1 copies device to host, -1 host to device. */
    method ChooseCopyForCpu(mode: TransferMode, raw: seq<real>) returns (doCopy: int)
      requires Valid() && instance && |raw| == |host|
      modifies this`dev, this`cpu, this`gpu
      ensures var e := old(State());
              && doCopy == (if CpuLoads(e, mode) then 1 else if CpuFlushes(e, mode) then -1 else 0)
              && State() == if e.gpu.ResizedOnCpu? && mode.SyncAndMove?
                            then e.(dev := raw, cpu := UpToDateWrite, gpu := OutOfDate) else e
    {
      doCopy := 0;
      match cpu {
        case UpToDateWrite =>
          // Not merely the disjunction: neither status can occur beside an owning CPU.
          assert gpu != UpToDateWrite && gpu != UpToDateRead;
          if mode == SyncAndMove {
            doCopy := -1;
            if gpu == ResizedOnCpu {
              ResizeDeviceData(raw);
            }
          }
        case UpToDateRead =>
          assert gpu != UpToDateWrite;
          if mode == SyncAndMove && gpu != UpToDateRead {
            doCopy := -1;
            if gpu == ResizedOnCpu {
              ResizeDeviceData(raw);
            }
          }
        case OutOfDate =>
          assert gpu == UpToDateWrite || gpu == UpToDateRead;
          if mode != NotInitialize {
            doCopy := 1;
          }
        case TempWrite =>
          assert gpu == UpToDateWrite || gpu == UpToDateRead;
          if mode != NotInitialize {
            doCopy := 1;
          }
        case ResizedOnCpu =>
          assert false;
        case NotAllocated =>
          assert gpu == NotAllocated;
      }
    }

    /** Second switch of transfer_to_cpu. */
    method GrantToCpu(mode: TransferMode, doCopy: int)
      requires mode.Copy? ==> Current(gpu)
      requires mode.NotInitialize? ==> doCopy == 0
      modifies this`cpu, this`gpu, this`prot
      ensures (cpu, gpu) == CpuGrant(mode, old(gpu))
      ensures prot == ProtectionFor(cpu)
    {
      match mode {
        case Move =>
          if gpu == UpToDateRead || gpu == UpToDateWrite {
            gpu := OutOfDate;
          }
          cpu := UpToDateWrite;
        case ReadOnly =>
          cpu := UpToDateRead;
          if gpu == UpToDateWrite {
            gpu := UpToDateRead;
          }
        case Copy =>
          assert gpu == UpToDateWrite || gpu == UpToDateRead;
          cpu := TempWrite;
        case NotInitialize =>
          assert doCopy == 0;
          if gpu == UpToDateRead || gpu == UpToDateWrite {
            gpu := OutOfDate;
          }
          cpu := UpToDateWrite;
        case SyncAndMove =>
          gpu := UpToDateWrite;
          cpu := TempWrite;
      }
      ProtectData();
    }

    method TransferToCpu(mode: TransferMode)
      requires Valid()
      requires CpuTransferAllowed(State(), mode)
      modifies this`cpu, this`gpu, this`prot, this`host, this`dev, this`logical, this`copies
      ensures Valid()
      ensures State() == ToCpu(old(State()), mode)
      ensures logical == LogicalAfterToCpu(old(State()), mode, old(logical))
      ensures copies == old(copies) + ToCpuCopies(old(State()), mode)
    {
      if !instance {
        return;
      }
      ghost var before := State();
      ToCpuKeepsCoherence(before, mode, logical);
      var raw: seq<real> :| |raw| == |host|;
      var doCopy := ChooseCopyForCpu(mode, raw);
      if cpu != NotAllocated {
        if doCopy != 0 {
          assert (doCopy == -1 && mode == SyncAndMove) || doCopy == 1;
          if doCopy == -1 {
            CopyToDevice();
          } else {
            CopyToHost();
          }
        }
        GrantToCpu(mode, doCopy);
      }
      logical := LogicalAfterToCpu(before, mode, logical);
    }

    /** set_gpu_data_status_to_resized */
    method SetStatusToResized()
      modifies this`gpu, this`cpu
      ensures State() == MarkResized(old(State()))
    {
      if instance {
        gpu := ResizedOnCpu;
        cpu := UpToDateWrite;
      }
    }

    /** One dataset argument of a kernel being launched. */
    method TransferForKernel(isConst: bool, raw: seq<real>)
      requires Valid() && instance && |raw| == |host|
      modifies this`cpu, this`gpu, this`prot, this`host, this`dev, this`logical, this`copies
      ensures Valid()
      ensures State() == UseInKernel(old(State()), isConst, raw)
      ensures logical == old(logical)
      ensures copies == old(copies) + UseCopies(old(State()), isConst)
    {
      if gpu != TempWrite {
        TransferToGpu(if isConst then ReadOnly else Move, raw);
      }
    }

    /** What a kernel leaves in the device buffer of a non-const argument. */
    method WriteOnDevice(out: seq<real>)
      requires Valid() && instance && |out| == |host|
      requires KernelReady(State()) && KernelMayWrite(State())
      modifies this`dev, this`logical
      ensures Valid() && dev == out
      ensures logical == if gpu.TempWrite? then old(logical) else out
    {
      dev := out;
      if gpu != TempWrite {
        logical := out;
      }
    }
  }
}
