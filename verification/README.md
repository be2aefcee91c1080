# A verified model of KAMTOF and its heat solver

KAMTOF keeps each dataset of a simulation in two buffers, one on the CPU and one on the GPU,
and moves data between them behind the program's back: page faults bring it to the CPU, kernel
launches to the GPU. The solver shipped with it computes heat conduction on the unit square
with MPI, explicitly or implicitly, on the CPU or on the GPU. This project models both in Dafny
and proves what they are for. `dafny verify dfyconfig.toml` checks all of it.

## What is modelled, and the main results

**Coherence of CPU and GPU data.** `coherence.dfy` gives the five-mode, two-device protocol as
functions on a dataset's state; `dataset.dfy` is the class whose methods follow the source's
switch statements and are proved against those functions; `framework.dfy` adds the creation of
entries, the ordered set of mappings, the page-fault handler, resizing, registration, kernel
launches and device copies, each of which makes exactly the step of the runs. Over every run,
the two buffers cannot be told from one plain array (`CoherenceRuns.RunRefinesPlainArray`);
exactly twelve pairs of statuses occur (`CoherenceBounds.ReachablePairs`); a raw write needs at
most two faults; a dataset is copied at most once per switch of device
(`CoherenceBounds.CopyBound`), a bound that is attained; and as long as it is only read, from
whichever side, it is copied once at all, exactly if some access comes from a side that was not
up to date (`CoherenceSharing.ReadingRunCost`).

**Grid, partition and halo exchange.** The out-of-order loops of `generate_grid`, the column
partition, the renumbering and the send and receive lists are built on all ranks at once, with
the MPI collectives as pure functions on the ranks' buffers. Ranks get their columns in order and
differ by at most one column (`Partition.DistributeColumns`). One exchange then gives every ghost
slot its owner's value (`HaloExchange.ExchangeDelivers`), and every send list has exactly one
entry per ghost (`HaloBalance.SendsBalanceReceives`).

**The solver.** `stencil.dfy` states the discrete problem on the whole grid without ranks,
arrays or matrices. Everything the ranks compute is compared with it: from the grid size and the
number of ranks alone, the explicit solver, the implicit solver with Jacobi sweeps and the
implicit solver with BiCGSTAB produce on every rank, ghosts included, the values of one run of
the whole grid (`DistributedSolver.SolveExplicit`, `DistributedJacobi.SolveImplicit`,
`BicgstabSteps.SolveImplicit`). About that run it is proved that the matrix is the exact
Jacobian of the residual (`Jacobian.MatrixIsJacobian`), that interior fluxes cancel
(`DistributedSums.ResidualsConserve`), that over any number of explicit steps the grid gains
exactly what came in through its sides (`ExplicitBalance.RanksBalance`), that the explicit
solution stays within the bounds of the initial and boundary values on every grid
(`UniformStart.RunStaysBounded`), although a single update does so for arbitrary fields only on
some grids (`MaxPrinciple.BoundsKeptIffStable`), and that Jacobi sweeps contract by 10/11 on
every grid, so that each implicit step ends that much closer to backward Euler
(`ImplicitRuns.RunApproaches`). A pass of BiCGSTAB is characterised by what it achieves, its
orthogonalities, and by nothing else (`BicgstabPasses.PassIff`); its residual is the true one and
measures how far a step is from backward Euler (`BicgstabSteps.RemainderIsDefect`). The loop has
no test before its divisions; its results hold as long as no divisor is zero, the methods report
exactly that, and `bicgstab_breakdown.dfy` says when it is so.

**GPU kernels.** Threads are state machines moved by an arbitrary schedule. The compare-and-swap
loops find the extreme and terminate under every interleaving (`gpu_atomics.dfy`). Kernels that
compute entry by entry (`grid_stride.dfy`) or add to shared cells (`gpu_operations.dfy`) leave
the same values for every thread count and schedule, and those are the values of the CPU loops:
the residual and the Jacobi sweep (`gpu_kernels.dfy`), the assembled matrix
(`GpuAssembly.GpuSystemIsCpuSystem`), the area sums and the minimum behind the time step
(`GpuTimeStep.GpuMinimumIsCpuMinimum`). Every state of a launch leads to a finished one.

Reals stand for floating-point numbers throughout. Methods are loops over arrays where the
source has them; each is proved against a specification function, and the lemmas are about those
functions.

## What the code asks of its callers

These are preconditions of the model because the code does not handle the other cases:

- `Nx >= 2` and `Ny >= 2`; the index formulas use `Nx-2` and `Ny-2`.
- A resize is of scalar (ZEROD) data, not of an unresolved entry that has a device instance, not
  to size zero while there is a device buffer, and not while the CPU copy is scratch. The last
  is necessary (`Coherence.ResizeKeepsPrefixIff`).
- COPY is asked for only by the side that does not own the data, which is exactly when the
  statuses stay legal (`Coherence.CopyNeedsTheOwner`).
- A fault address lies at or above the lowest mapping; below it the handler steps back from the
  first element of the set.
- `Nx + Ny <= 1e30`, the start value of the minimum in `compute_time_step`.

## Where the code and its description differ

- The comment at solver/cpu/src/solver_base.cpp line 471 says that `delta_t` is below the
  stability limit. Boundary faces are only half a cell away, so a corner cell has more
  conductance than an interior one, and as a statement about one update of an arbitrary field
  the comment holds exactly when `nx^2 + ny^2 <= 4 nx ny` (`MaxPrinciple.BoundsKeptIffStable`).
  Nothing goes wrong in a run: from the uniform start and the constant sides that the solver has,
  the solution stays within its bounds on every grid (`UniformStart.RunStaysBounded`).
- `bicgstab_linear_solver` makes all `num_iter` passes without a stopping test. In exact
  arithmetic a pass that starts from a solved system divides zero by zero
  (`Bicgstab.SolvedBreaksDown`), so a solve can have too many passes; on two by two cells with
  equal sides even one is too many (`BicgstabBreakdown.FourCellsBreakDown`).
- The assertion at gpu_framework/src/gpu_manager_t.cpp line 298 joins two inequalities by "or"
  and so always holds; the conjunction it must mean holds too (`DataSets.DataSet.ChooseCopyForCpu`).
- `slist` is sized by the number of ghosts a rank receives, not by what it sends; that is right
  only because the partition is by columns (`HaloBalance.SendsBalanceReceives`).
- `ia_local[0]` is never written; it is zero because fresh pages are.
- `num_faces` still holds the face count of the whole grid when the local faces are added to it, so
  the FACE arrays are longer than the local adjacency; the model only asks that they are long
  enough.

## Model

| member | source | states |
|---|---|---|
| `Coherence.SomeSideIsCurrent` | gpu_framework/src/gpu_manager_t.cpp:66-126 | The invariant is enough to keep the data: one of the two buffers always holds the logical array. |
| `Coherence.ToGpuKeepsCoherence` | gpu_framework/src/gpu_manager_t.cpp:39-274 | A transfer to the GPU in any of the five modes keeps every up-to-date side equal to the logical array; only NOT_INITIALIZE that takes ownership replaces that array; the device length is the host length. |
| `Coherence.ToCpuKeepsCoherence` | gpu_framework/src/gpu_manager_t.cpp:276-500 | The same for a transfer to the CPU. |
| `Coherence.CopyNeedsTheOwner` | gpu_framework/src/gpu_manager_t.cpp:185-190 | The COPY assertions hold exactly when the statuses afterwards are a legal pair (also `gpu_framework/src/gpu_manager_t.cpp`, lines 413-418): copying from a side that does not own the data leaves no owner. |
| `Coherence.FaultMakesProgress` | cpu_framework/src/pagefault_handler.cpp:90-97 | A handler run on a forbidden access leads nearer to permission, except for a write to readable pages with the flag up, where it only lowers the flag; with the flag down one run permits everything, and a read needs one run whatever the flag. |
| `Coherence.Serve` | cpu_framework/src/pagefault_handler.cpp:52-98 | Retrying an access ends after at most two faults, two only for a write with the flag up, with the access permitted and the flag lowered by any fault. |
| `Coherence.ServeKeepsCoherence` | gpu_framework/src/datasetbase_gpu_funcs_impl.cpp:85-95 | Whatever the flag was, a served access finds the logical array, changes nothing else, and costs one copy exactly when the pages were inaccessible. |
| `Coherence.UseKeepsCoherence` | gpu_framework/include/gpu_api_functions.h:207-219 | One kernel argument ends neither OUT_OF_DATE nor RESIZED_ON_CPU, with device length equal to host length; after a non-const occurrence the device is scratch or the CPU is not current, and later occurrences keep that. |
| `Coherence.UseAllReady` | gpu_framework/include/gpu_api_functions.h:221-226 | The same for any list of const and non-const occurrences of one dataset. |
| `Coherence.ResizeKeepsCoherence` | cpu_framework/src/datasetbase.cpp:64-112 | Resizing keeps the common prefix of the logical array, zeros behind it, even when only the device was current. |
| `Coherence.ResizeKeepsPrefixIff` | gpu_framework/src/datasetbase_gpu_funcs_impl.cpp:56-63 | For a set-up, registered, nonempty dataset that stays nonempty, resizing keeps the prefix of every coherent logical array if and only if the CPU status is not TEMP_WRITE. |
| `Coherence.PromoteKeepsCoherence` | cpu_framework/include/detail/silo.hpp:63-80 | Registering an entry that was retrieved earlier gives it zeroed data and a legal pair of statuses. |
| `CoherenceRuns.StepKeepsCoherence` | gpu_framework/src/gpu_manager_t.cpp:39-500 | Each of the eleven kinds of operation keeps the coherence invariant. |
| `CoherenceRuns.StepShowsThePlainArray` | gpu_framework/src/gpu_manager_t.cpp:39-500 | What an operation shows the program (an element read, a buffer handed to a kernel or copied out) is what the one plain array would show. |
| `CoherenceRuns.RunRefinesPlainArray` | gpu_framework/src/gpu_manager_t.cpp:39-500 | Over every allowed run of any length, the observations equal those of a program on one plain array, and the invariant holds at the end. |
| `CoherenceRuns.LaunchIgnoresRaw` | gpu_framework/include/gpu_api_functions.h:201-226 | The contents of a new device buffer make no difference to a launch: not to the state, not to the copies. |
| `CoherenceRuns.MovementNeverChangesData` | gpu_framework/src/gpu_manager_t.cpp:39-500 | A run of reads, set-ups, const launches and transfers other than NOT_INITIALIZE never changes the logical array. |
| `CoherenceRuns.ScratchIsForgotten` | gpu_framework/src/gpu_manager_t.cpp:357-480 | Any number of host writes under TEMP_WRITE leaves the logical array alone, and the next MOVE to the CPU ends in the very state it would have ended in without them. |
| `CoherenceBounds.ReachablePairs` | gpu_framework/src/gpu_manager_t.cpp:66-126 | A pair of statuses is reached by some run if and only if it is one of twelve (also `gpu_framework/src/gpu_manager_t.cpp`, lines 294-355). |
| `CoherenceBounds.StepCost` | gpu_framework/src/gpu_manager_t.cpp:66-110 | Without COPY and SYNC_AND_MOVE, one operation makes a copy at most when it accesses the data from another device than the last one. |
| `CoherenceBounds.CopyBound` | gpu_framework/src/gpu_manager_t.cpp:294-334 | Over any such run the number of copies is at most the number of switches of device, starting on the CPU. |
| `CoherenceBounds.WritingRunsCopyAtEverySwitch` | gpu_framework/src/gpu_manager_t.cpp:66-110 | The bound is attained: when every access may write, copies and switches are equal. |
| `CoherenceSharing.ReadingRunCost` | gpu_framework/src/gpu_manager_t.cpp:404-410 | A run that only reads, through the const operator, READ_ONLY transfers either way, const launches and copies out of the dataset, costs one copy if some access comes from a side that was not up to date at the beginning, and none otherwise, however often the device switches (also `gpu_framework/src/gpu_manager_t.cpp`, lines 82-88 and `cpu_framework/src/pagefault_handler.cpp`, lines 90-97). |
| `CoherenceSharing.StepShares` | gpu_framework/src/gpu_manager_t.cpp:404-410 | Each such step makes the side it reads from current and leaves the other side as current as it was. |
| `CoherenceSharing.SharedPages` | gpu_framework/src/gpu_manager_t.cpp:404-410 | While both sides are current neither may write: the host pages are readable and not writable. |
| `CoherenceSharing.PagesFollowRights` | gpu_framework/src/gpu_manager_t.cpp:12-37 | The pages permit reading exactly to a current side or for scratch, and writing exactly to an owner or for scratch. |
| `CoherenceSharing.ReadOnlyWithdraws` | gpu_framework/src/gpu_manager_t.cpp:404-410 | A READ_ONLY transfer leaves no side the permission to write (also the GPU side). |
| `CoherenceSharing.LendingTakesOwnership` | gpu_framework/include/gpu_api_functions.h:115-120 | A first copy out of a dataset without a device instance asks for MOVE, so reading it on the CPU afterwards costs a second copy. |
| `CoherenceSharing.TransferRights` | gpu_framework/src/gpu_manager_t.cpp:385-430 | What each mode leaves each side: MOVE and NOT_INITIALIZE an owner, READ_ONLY two readers, COPY scratch permission beside the owner, SYNC_AND_MOVE the data on the GPU and scratch on the CPU (also `gpu_framework/src/gpu_manager_t.cpp`, lines 166-224). |
| `CoherenceSharing.TransferValues` | gpu_framework/src/gpu_manager_t.cpp:61-126 | Every mode but NOT_INITIALIZE leaves the logical array in the receiver's buffer, scratch or not, and SYNC_AND_MOVE in both buffers. |
| `CoherenceSharing.TransferCopiesIff` | gpu_framework/src/gpu_manager_t.cpp:61-126 | A transfer makes a copy if and only if the receiver lacks the values and will not overwrite them, or the mode is SYNC_AND_MOVE and the other side lacks them. |
| `CoherenceSharing.OverwritingIsFree` | gpu_framework/src/gpu_manager_t.cpp:66-126 | NOT_INITIALIZE and a copy into the dataset never copy old values. |
| `CoherenceSharing.SetUpIsFree` | gpu_framework/include/detail/gpu_manager_t.hpp:166-181 | Set-up of the device leaves the host the owner, with writable pages and nothing copied. |
| `CoherenceSharing.ResizeOwns` | cpu_framework/src/datasetbase.cpp:64-112 | After a resize of a set-up dataset the host owns the data and its pages permit everything. |
| `CoherenceSharing.PromotionOwns` | cpu_framework/include/detail/silo.hpp:63-80 | And after the registration of one that was retrieved and set up before it existed. |
| `CoherenceSharing.FaultCount` | cpu_framework/src/pagefault_handler.cpp:52-98 | The exact number of faults of an access: none if permitted, two for a write that is not while the flag is up, one otherwise; the const operator puts the flag up, the other takes it down, a raw pointer leaves it. |
| `CoherenceSharing.ScratchIff` | gpu_framework/src/gpu_manager_t.cpp:385-430 | After any operation a side has scratch permission if and only if the operation lends it, or it had it and the operation does not recall it; faults and launches never take it away. |
| `DataSets.DataSet.ProtectData` | gpu_framework/src/gpu_manager_t.cpp:10-37 | The host protection becomes none, read or read-write by the CPU status, and stays for other statuses. |
| `DataSets.DataSet.AllocateDeviceData` | gpu_framework/src/gpu_manager_t.cpp:502-523 | A device buffer of the host size with unknown contents; CPU current, GPU stale. |
| `DataSets.DataSet.DeallocateDeviceData` | gpu_framework/src/gpu_manager_t.cpp:525-545 | The buffer is gone unless the size is zero, when there must be none. |
| `DataSets.DataSet.ResizeDeviceData` | gpu_framework/src/gpu_manager_t.cpp:547-554 | Deallocation then allocation at the new size; the invariant is broken on entry and in between. |
| `DataSets.DataSet.SetUpDevice` | gpu_framework/include/detail/gpu_manager_t.hpp:166-181 | Set-up refines SetUp and keeps the invariant, for registered and unregistered entries, any number of times. |
| `DataSets.DataSet.ChooseCopyForGpu` | gpu_framework/src/gpu_manager_t.cpp:61-126 | The first switch: all its assertions hold, the copy direction is the one the statuses call for, and only a resized dataset is touched. |
| `DataSets.DataSet.CopyToDevice` | gpu_framework/src/gpu_manager_t.cpp:139-163 | Host contents in the device buffer, pages readable, one copy counted. |
| `DataSets.DataSet.CopyToHost` | gpu_framework/src/gpu_manager_t.cpp:144-163 | Device contents in the host buffer, pages writable, one copy counted. |
| `DataSets.DataSet.GrantToGpu` | gpu_framework/src/gpu_manager_t.cpp:166-224 | The second switch gives the statuses of GpuGrant and the protection that belongs to them. |
| `DataSets.DataSet.TransferToGpu` | gpu_framework/src/gpu_manager_t.cpp:39-274 | The whole transfer refines ToGpu, keeps the invariant, and counts its copies. |
| `DataSets.DataSet.ChooseCopyForCpu` | gpu_framework/src/gpu_manager_t.cpp:291-355 | The first switch of the other direction; beside an owning CPU the GPU status is neither up-to-date one, which line 298 only asserts as a disjunction that always holds. |
| `DataSets.DataSet.GrantToCpu` | gpu_framework/src/gpu_manager_t.cpp:395-450 | The second switch of the other direction. |
| `DataSets.DataSet.TransferToCpu` | gpu_framework/src/gpu_manager_t.cpp:276-500 | The whole transfer refines ToCpu, and returns at once without a device instance. |
| `DataSets.DataSet.SetStatusToResized` | gpu_framework/src/datasetbase_gpu_funcs_impl.cpp:56-63 | Marks an existing instance resized, with the CPU as owner. |
| `DataSets.DataSet.TransferForKernel` | gpu_framework/include/gpu_api_functions.h:207-219 | One dataset argument: MOVE or READ_ONLY unless the device copy is scratch. |
| `DataSets.DataSet.WriteOnDevice` | gpu_framework/include/gpu_api_functions.h:257-267 | A kernel write becomes the logical array unless it was scratch; the invariant holds after it. |
| `AddressSet.InsideIsUnique` | cpu_framework/src/pagefault_handler.cpp:66-89 | With disjoint mappings, an address inside one is resolved to that mapping and no other. |
| `AddressSet.RoomExists` | cpu_framework/src/pagefault_handler.cpp:21 | A free region always exists, so the model of mmap is never stuck. |
| `DataSets.DataSet.constructor` | cpu_framework/src/datasetbase.cpp:12-32 | A new entry: its size in bytes, and no buffer yet; unresolved ones have no size in bytes either. |
| `Framework.Silo.CreateEntry` | cpu_framework/include/detail/silo.hpp:36-52 | A new entry is disjoint from all others, zeroed, and the start of a run; a registered one has its buffer, an unresolved one none. |
| `Framework.Silo.Locate` | cpu_framework/src/pagefault_handler.cpp:66-92 | The upper_bound search and its last-element case find the mapping that starts last at or below the address, and the bounding test decides. |
| `Framework.Silo.PageFault` | cpu_framework/src/pagefault_handler.cpp:52-130 | The handler transfers exactly the dataset whose bytes contain the address, in the mode the flag asks for, lowers the flag, and touches nothing otherwise. |
| `Framework.Silo.AddressResolvesToItsDataset` | cpu_framework/src/pagefault_handler.cpp:66-98 | Every address inside a live dataset resolves to it and to no other. |
| `Framework.Silo.ServeAccess` | cpu_framework/src/pagefault_handler.cpp:90-97 | The loop of faults on an element, through the address search, computes Serve and keeps all datasets valid. |
| `Framework.Silo.FaultAt` | cpu_framework/src/pagefault_handler.cpp:52-98 | One fault at any element of a dataset is handled, and by that dataset. |
| `Framework.Silo.ReadConst` | cpu_framework/include/datasetbase.h:82-93 | A read through the const operator takes at most one fault and returns the element of the logical array unless the host copy is scratch. |
| `Framework.Silo.WriteThrough` | cpu_framework/include/datasetbase.h:69-80 | A write through the other operator takes at most one fault, leaves the state of a served write, and changes exactly that element, or nothing logical if the host copy is scratch. |
| `Framework.Silo.WriteRaw` | cpu_framework/src/pagefault_handler.cpp:90-97 | A write through a raw pointer takes at most two faults, two only if the flag was left up, with the same effect. |
| `Framework.Silo.AllocationSize` | cpu_framework/src/pagefault_handler.cpp:15 | The allocation is the least multiple of the page size that covers the bytes. |
| `Framework.Silo.MapPages` | cpu_framework/src/pagefault_handler.cpp:12-31 | A new mapping has the rounded size and overlaps no live one. |
| `Framework.Silo.MoveToNewPages` | cpu_framework/src/datasetbase.cpp:191-211 | The old contents are read through a raw pointer, faulting back from the device if need be, into a zeroed mapping that takes the old one's place in the address set. |
| `Framework.Silo.ReleasePages` | cpu_framework/src/datasetbase.cpp:180-189 | The mapping leaves the address set. |
| `Framework.Silo.ReplacePages` | cpu_framework/src/datasetbase.cpp:64-106 | The three cases of a resize: release, move, or only the size of an unregistered entry. |
| `Framework.Silo.ResizeInternal` | cpu_framework/src/datasetbase.cpp:64-112 | A resize keeps the prefix of the logical array with zeros behind it, keeps the address set exactly the live mappings, and leaves the other datasets alone. |
| `Framework.Silo.ResizeEach` | cpu_framework/include/detail/silo.hpp:21-25 | A loop over entries gives each the new length, its own prefix, and zeros. |
| `Framework.Silo.ResizeAll` | cpu_framework/include/detail/silo.hpp:14-33 | Both loops together, over registered and unresolved entries. |
| `Framework.Silo.RegisterRetrieved` | cpu_framework/include/detail/silo.hpp:63-80 | Promotion of an unresolved entry: zeroed pages, listed in the address set, marked resized on the device. |
| `Framework.Silo.TransferArguments` | gpu_framework/include/gpu_api_functions.h:201-226 | For every argument list, datasets repeated or not, each dataset ends in the state, and at the cost in copies, that its own occurrences in order give it; every argument is ready, and no logical array changes. |
| `Framework.Silo.RunKernel` | gpu_framework/include/detail/gpu_manager_t.hpp:40-96 | The check made at extraction never fails, and a kernel changes only device buffers, and only of its non-const arguments. |
| `Framework.Silo.ReadyArguments` | gpu_framework/include/gpu_api_functions.h:201-226 | Set-up before that pass, for datasets with or without a device instance, makes the state and the copies of a launch of the runs. |
| `Framework.Silo.LaunchKernel` | gpu_framework/include/gpu_api_functions.h:257-267 | Every dataset makes exactly the launch step of its run, status and copies included; the last value written to it becomes its logical array, const-only datasets keep theirs. |
| `Framework.Silo.CopyDataset` | gpu_framework/include/gpu_api_functions.h:108-141 | Source and destination make exactly the two copy steps of their runs, also when they are the same; the destination takes over the source's logical array on the device and the source keeps it. |
| `GpuAtomics.EveryInterleavingFindsTheExtreme` | gpu_framework/include/utils/gpu_atomics.h:32-60 | Under every interleaving of any number of threads the cell moves one way, and once all are done it is the extreme of its start value and all submitted values. |
| `GpuAtomics.InterleavingsAgree` | gpu_framework/include/utils/gpu_atomics.h:32-60 | So any two complete interleavings end with the same value. |
| `GpuAtomics.FailedSwapWasOvertaken` | gpu_framework/include/utils/gpu_atomics.h:38-44 | A swap fails if and only if the cell changed since the thread looked, and then another thread strictly improved it. |
| `GpuAtomics.StepUsesPotential` | gpu_framework/include/utils/gpu_atomics.h:38-59 | Every action of an unfinished thread uses up potential, failed swaps included. |
| `GpuAtomics.EveryInterleavingTerminates` | gpu_framework/include/utils/gpu_atomics.h:32-60 | No interleaving of n threads takes more than 2n^2 + 5n actions. |
| `GridTopology.MiddlePositions` | solver/cpu/src/grid.cpp:73 | The closed forms for interior cells, left and right columns (also `solver/cpu/src/grid.cpp`, lines 109 and 119) are the row-major prefix sum of the cell degrees. |
| `GridTopology.BottomPositions` | solver/cpu/src/grid.cpp:86 | The same for the bottom row and its corners (also `solver/cpu/src/grid.cpp`, lines 131 and 141). |
| `GridTopology.TopPositions` | solver/cpu/src/grid.cpp:96 | The same for the top row and its corners (also `solver/cpu/src/grid.cpp`, lines 151 and 161). |
| `GridTopology.TotalIsAllocated` | solver/cpu/src/grid.cpp:65 | The sum of all degrees is the size allocated. |
| `GridTopology.SlicesInOrder` | solver/cpu/src/grid.cpp:69-168 | The slice of a cell ends before that of any later cell begins: no overlap. |
| `GridLayout.SliceOfEntry` | solver/cpu/src/grid.cpp:65-168 | Every entry lies in some cell's slice: no gap. |
| `GridTopology.NeighboursExact` | solver/cpu/src/grid.cpp:69-168 | A cell is in a slice if and only if it is one of the in-grid cells left, right, below or above. |
| `GridTopology.NeighbourOrder` | solver/cpu/src/grid.cpp:75-79 | In a slice the left neighbour comes first, then the right, the lower and the upper one, each if there is one. |
| `GridTopology.NeighboursDistinct` | solver/cpu/src/grid.cpp:69-168 | No slice names a cell twice or the cell itself. |
| `GridTopology.AdjacencySymmetric` | solver/cpu/src/grid.cpp:69-168 | The adjacency is symmetric. |
| `GridTopology.WriteSlice` | solver/cpu/src/grid.cpp:75-79 | Writing one cell's slice and end keeps every other cell's slice as stored before. |
| `GridTopology.GenerateAdjacency` | solver/cpu/src/grid.cpp:62-168 | The loop groups, run in the source's order, store every cell's slice and end, for all Nx, Ny >= 2. |
| `Partition.BlockOwnersMonotone` | solver/cpu/src/grid.cpp:354-376 | Columns have one rank, and ranks grow with the columns. |
| `Partition.DistributeColumns` | solver/cpu/src/grid.cpp:354-376 | Counted on the result: ranks grow with the columns, rank r gets nx / procs columns and one more exactly if r < nx % procs, so no rank has fewer columns than a later one nor more than one column more. |
| `Partition.DistributeGrid` | solver/cpu/src/grid.cpp:347-386 | Every cell gets the rank of its column, so rank r gets ny times its columns, again counted on the result. |
| `GridLayout.FairCounts` | solver/cpu/src/grid.cpp:354-386 | So the numbers of cells that two ranks solve differ by at most one column, the earlier rank having the more. |
| `Renumbering.BlocksEnd` | solver/cpu/src/grid.cpp:448-453 | The ranks' blocks end exactly at the number of cells. |
| `Renumbering.BlocksDisjoint` | solver/cpu/src/grid.cpp:448-453 | A new number lies in one block only. |
| `Renumbering.NewNumberInBlock` | solver/cpu/src/grid.cpp:465-472 | A cell's new number lies in its owner's block. |
| `Renumbering.NewNumberInjective` | solver/cpu/src/grid.cpp:465-472 | Different cells have different new numbers. |
| `Renumbering.NewNumberOrder` | solver/cpu/src/grid.cpp:465-472 | New numbers are in the order of ranks, and within a rank in the order of the old numbers. |
| `Renumbering.OldThenNew` | solver/cpu/src/grid.cpp:465-472 | gcnum after gcinvnum is the identity. |
| `Renumbering.NewThenOld` | solver/cpu/src/grid.cpp:465-472 | gcinvnum after gcnum is the identity. |
| `Renumbering.NumberOwned` | solver/cpu/src/grid.cpp:426-443 | The first loop numbers the owned cells in order, both ways, and leaves -1000 elsewhere. |
| `Renumbering.RankOffsets` | solver/cpu/src/grid.cpp:448-453 | The offsets from the gathered counts are the starts of the blocks. |
| `Renumbering.Renumber` | solver/cpu/src/grid.cpp:462-472 | One pass fills gcnum and gcinvnum, and they are mutually inverse. |
| `Renumbering.InverseIsComplete` | solver/cpu/src/grid.cpp:462-472 | Filling gcinvnum cell by cell leaves no entry unset. |
| `Collectives.PrefixSums` | solver/cpu/src/grid.cpp:508-513 | Displacements place blocks back to back. |
| `Collectives.Alltoall` | solver/cpu/src/grid.cpp:516 | What rank i sends to rank j arrives at j in place i. |
| `Collectives.AlltoallvDelivers` | solver/cpu/src/grid.cpp:532 | The block that rank i sends to rank j is found at j at the displacement of the i-th block (section 5.8 of MPI 3.1). |
| `Halo.CollectGhosts` | solver/cpu/src/grid.cpp:474-498 | The set is exactly the new numbers of off-rank neighbours of owned cells, and rcounts counts them by owner. |
| `Halo.WantedIsBlocks` | solver/cpu/src/grid.cpp:500-503 | The ordered set, copied to rlist, is the wanted numbers of rank 0, rank 1, ... back to back. |
| `HaloBuild.FinishRank` | solver/cpu/src/grid.cpp:508-544 | The lists a rank ends with send what the others want, in local numbers, and fill its own ghost slots in order. |
| `HaloBuild.AssignRanks` | solver/cpu/src/grid.cpp:388-560 | Run on any number of ranks, with the collectives between, the construction leaves every rank with such lists. |
| `HaloExchange.ExchangeDelivers` | solver/cpu/src/grid.cpp:647-674 | One exchange sets every slot of every rank, ghosts included, to the value the cell's owner holds, and leaves the owned slots alone. |
| `HaloTransfer.Pack` | solver/cpu/src/grid.cpp:660-664 | The send buffer holds the listed entries in order. |
| `HaloTransfer.Unpack` | solver/cpu/src/grid.cpp:669-673 | The received values fill the ghost slots, owned slots unchanged. |
| `HaloTransfer.NeighbourTransfer` | solver/cpu/src/grid.cpp:647-674 | The transfer on the arrays of all ranks computes the exchange. |
| `HaloTransfer.LocalCellsDistinct` | solver/cpu/src/grid.cpp:576-592 | local_global names no cell twice. |
| `HaloTransfer.LocalCellsComplete` | solver/cpu/src/grid.cpp:576-592 | It names every owned cell and every ghost. |
| `HaloTransfer.OwnBlockIsOwned` | solver/cpu/src/grid.cpp:578-583 | gcinvnum of a rank's own block is its owned cells in local order. |
| `HaloTransfer.AddGhosts` | solver/cpu/src/grid.cpp:587-592 | After the second loop local_global and global_local are mutually inverse on all local cells and -1000 elsewhere. |
| `GridLayout.NumberParts` | solver/cpu/src/grid.cpp:74 | A cell's number determines its row and column. |
| `GridLayout.BuildLayout` | solver/cpu/src/grid.cpp:52-171 | generate_grid and distribute_grid establish what the halo construction needs, for any number of ranks, with every rank's fair share of the cells. |
| `HaloBalance.BordersMatch` | solver/cpu/src/grid.cpp:515-523 | Between any two ranks as many cells are sent as received, because ranks are column blocks. |
| `HaloBalance.SendsBalanceReceives` | solver/cpu/src/grid.cpp:498-523 | ssize == rsize on every rank, so slist, sized by the ghost count, is exactly filled. |
| `HaloBalance.GhostIffAdjacent` | solver/cpu/src/grid.cpp:479-497 | The ghosts of a rank are exactly the cells of other ranks that have one of its own as a grid neighbour. |
| `LocalAdjacency.NeighbourIsLocal` | solver/cpu/src/grid.cpp:192-200 | The neighbours of an owned cell are local cells, so no -1000 is ever stored. |
| `LocalAdjacency.BuildLocalAdjacency` | solver/cpu/src/grid.cpp:179-200 | The local rows name, in local numbers, exactly the neighbours of the owned cells, in order. |
| `DistributedBuild.OldNumbers` | solver/cpu/src/grid.cpp:576-583 | The test vector holds the old number of every owned cell. |
| `DistributedBuild.ExchangeField` | solver/cpu/src/grid.cpp:585 | On all ranks the transfer turns owned values into the full local view. |
| `DistributedBuild.NumberRanks` | solver/cpu/src/grid.cpp:576-592 | So every rank ends with mutually inverse local and global numbers of its owned and ghost cells. |
| `GridGeometry.CellCentres` | solver/cpu/src/grid.cpp:202-219 | Every owned local slot gets its cell's centre. |
| `GridGeometry.CentresSpread` | solver/cpu/src/grid.cpp:202-219 | Centres are one cell width apart and lie the same way seen from both ends of the unit interval. |
| `DistributedMesh.PlaceRanks` | solver/cpu/src/grid.cpp:202-228 | After two exchanges every local slot of every rank, ghosts included, has its cell's centre. |
| `GridGeometry.NeighbourFace` | solver/cpu/src/grid.cpp:332-342 | The tests on the normal pick the right area and distance for every pair of neighbours; the quotient is nx / ny across x and ny / nx across y (also `solver/cpu/src/solver_base.cpp`, lines 622-632). |
| `FaceGeometry.FacesOf` | solver/cpu/src/grid.cpp:321-344 | Area and unnormalised normal of every inner face from the difference of the centres. |
| `FaceGeometry.ComputeRdist` | solver/cpu/src/solver_base.cpp:615-634 | Area over distance of every inner face. |
| `BoundaryFaces.CountSide` | solver/cpu/src/grid.cpp:601-637 | Each counting loop counts the rank's cells on that side. |
| `BoundaryFaces.FillSide` | solver/cpu/src/grid.cpp:242-257 | Each side loop appends the rank's faces of that side, in order, behind the counter. |
| `BoundaryFaces.ListBoundary` | solver/cpu/src/grid.cpp:230-312 | The four loops list all boundary faces of the rank side by side, with the start of each side; the counts allocated are exactly filled. |
| `BoundaryFaces.BoundaryRdist` | solver/cpu/src/solver_base.cpp:645-659 | Area over distance of every boundary face. |
| `BoundaryFaces.BoundaryFaceIs` | solver/cpu/src/solver_base.cpp:645-659 | It is twice that of an inner face of the same direction, because the boundary is half a cell away. |
| `BoundaryFaces.SetBoundaryConditions` | solver/cpu/src/solver_base.cpp:40-78 | Every face of a side gets the side's value. |
| `RankBuild.LocalRowIs` | solver/cpu/src/grid.cpp:192-200 | Local row k names the cells across the inner sides of its cell, in the order left, right, below, above. |
| `RankBuild.EntryGeometry` | solver/cpu/src/solver_base.cpp:619-632 | Across each of them the computed distance is nonzero and the area over distance is that of its direction. |
| `MeshAssembly.BuildMesh` | solver/cpu/src/grid.cpp:173-345 | Everything a rank builds after the numbering is its part of the grid: rows, areas, boundary faces and values (also `solver/cpu/src/solver_base.cpp`, lines 40-78 and 605-660). |
| `MeshAssembly.MeshRowsDistinct` | solver/cpu/src/grid.cpp:179-200 | The rows of a rank's mesh name no cell twice and not the cell itself. |
| `DistributedMesh.BuildRanks` | solver/cpu/src/grid.cpp:52-345 | From the grid size and the number of ranks alone, every rank ends with a mesh that is its part of the grid. |
| `LocalMesh.InnerFluxes` | solver/cpu/src/solver_base.cpp:554-561 | One row of the residual loop leaves minus the sum of the fluxes of the row. |
| `LocalMesh.BoundaryFluxes` | solver/cpu/src/solver_base.cpp:569-576 | The boundary loop subtracts each face's flux from its own cell, however the faces are ordered. |
| `LocalMesh.ComputeResidual` | solver/cpu/src/solver_base.cpp:552-576 | The two loops leave in every owned cell minus the sum of all fluxes into it. |
| `SparseMatrix.BuildRowPointers` | solver/cpu/src/solver_base.cpp:371-379 | Row i starts i places behind its adjacency row. |
| `SparseMatrix.FillColumns` | solver/cpu/src/solver_base.cpp:386-413 | Diagonals first, then the neighbours; the branch that prints a problem is never taken. |
| `SparseMatrix.UniqueSlot` | solver/cpu/src/solver_base.cpp:421-427 | Within a row the slot of a neighbour is unique, so the search loop finds that one. |
| `SparseMatrix.IndexEntries` | solver/cpu/src/solver_base.cpp:415-429 | csr_diag_idx_local and csr_idx_local name exactly those slots. |
| `SparseMatrix.SetupMatrixStruct` | solver/cpu/src/solver_base.cpp:356-431 | The whole set-up. |
| `SystemAssembly.AddTimeTerms` | solver/cpu/src/solver_base.cpp:487-500 | Zero everywhere, then volume / delta_t on the diagonals. |
| `SystemAssembly.AddFace` | solver/cpu/src/solver_base.cpp:509-521 | An inner face adds its rdista to the diagonal and subtracts it from its own slot, nothing else. |
| `SystemAssembly.AddRow` | solver/cpu/src/solver_base.cpp:507-522 | A row of faces. |
| `SystemAssembly.AddFaces` | solver/cpu/src/solver_base.cpp:530-539 | Every boundary face adds its rdista to its cell's diagonal. |
| `SystemAssembly.ComputeSystem` | solver/cpu/src/solver_base.cpp:481-541 | Each diagonal is the time term plus all faces of the cell, each off-diagonal minus the rdista of its face. |
| `Jacobian.AssembleMatrix` | solver/cpu/src/solver_base.cpp:356-541 | Set-up and assembly together build that matrix row by row. |
| `Jacobian.ResidualAffine` | solver/cpu/src/solver_base.cpp:552-576 | The residual of q + d is that of q plus that of d with zero boundary values. |
| `Jacobian.MatrixIsJacobian` | solver/cpu/src/solver_base.cpp:481-576 | For all q and d, residual(q + d) - residual(q) == A d - (volume / delta_t) d in every row: the matrix is the exact Jacobian plus the time term. |
| `Csr.MultiplyLocal` | solver/cpu/src/solver_base.cpp:240-252 | The product loop computes row by row the product of the matrix, leaving the ghosts alone. |
| `Csr.SweepLocal` | solver/cpu/src/solver_base.cpp:219-231 | The sweep loop computes the Jacobi update of every row. |
| `Csr.FixedPointSolves` | solver/cpu/src/solver_base.cpp:219-231 | A vector satisfies row i if and only if the update leaves its entry i alone. |
| `SideSums.InnerSum` | solver/cpu/src/solver_base.cpp:555-561 | A sum with one term per entry of a row is the sum over the sides that have a neighbour. |
| `SideSums.BoundarySum` | solver/cpu/src/solver_base.cpp:569-576 | A sum over the listed boundary faces with other cells' terms zero is the sum over the cell's outer sides, at any corner, edge or interior cell. |
| `RankMesh.SameLocal` | solver/cpu/src/grid.cpp:587-592 | Local numbers are equal exactly when their cells are. |
| `RankMesh.ResidualMatches` | solver/cpu/src/solver_base.cpp:543-576 | The residual a rank computes for an owned cell from exchanged values is that of the cell in the whole grid. |
| `RankSystem.DiagonalMatches` | solver/cpu/src/solver_base.cpp:481-541 | A local diagonal is that of the cell's row in the whole matrix. |
| `RankSystem.ProductMatches` | solver/cpu/src/solver_base.cpp:240-252 | A local row times the local view of x is the row of the whole matrix times x. |
| `RankSystem.SweepMatches` | solver/cpu/src/solver_base.cpp:219-231 | A local Jacobi update is that of the cell in the whole system. |
| `RankSystem.DiagonalsPositive` | solver/cpu/src/solver_base.cpp:223-230 | No diagonal a rank divides by is zero. |
| `Stencil.UnitSquareValid` | solver/cpu/src/solver_base.cpp:472 | On the unit square, 1/(2(nx + ny)^2) is the step with dt * 2(wx + wy + 2) == volume; the bounds below rest on this. |
| `TimeStepping.SumAreas` | solver/cpu/src/solver_base.cpp:440-456 | data holds the area sum of every owned cell, inner and boundary faces. |
| `TimeStepping.MinimumRate` | solver/cpu/src/solver_base.cpp:458-468 | The minimum of the rates and of the start value 1e30. |
| `TimeStepping.CellAreas` | solver/cpu/src/solver_base.cpp:440-456 | The area sum of every cell, wherever it lies and whichever rank owns it, is 2 dx + 2 dy. |
| `TimeStepping.RateIs` | solver/cpu/src/solver_base.cpp:464 | So its rate is nx + ny. |
| `DistributedMesh.RankRate` | solver/cpu/src/solver_base.cpp:433-468 | A rank contributes nx + ny, or the start value when it owns no cell. |
| `DistributedMesh.LeastRate` | solver/cpu/src/solver_base.cpp:469 | The minimum over all ranks is nx + ny, for every partition, ranks without cells included. |
| `DistributedMesh.ComputeTimeStep` | solver/cpu/src/solver_base.cpp:433-475 | delta_t is 1/(2(nx + ny)^2), ten times that for the implicit solver, on every partition, provided nx + ny <= 1e30. |
| `MaxPrinciple.RunKeepsBounds` | solver/cpu/src/solver_base.cpp:95-104 | If the weights sum to at most four, any number of explicit steps from any field stays within the bounds of initial and boundary values. |
| `MaxPrinciple.BoundsKeptIffStable` | solver/cpu/src/solver_base.cpp:471-472 | The update keeps the bounds of every field, over any number of steps, if and only if nx^2 + ny^2 <= 4 nx ny. The fields are arbitrary here; those the solver reaches are the subject of UniformStart. |
| `MaxPrinciple.SpikeBreaksBounds` | solver/cpu/src/solver_base.cpp:95-104 | The field that breaks them on any other grid: one update takes a one in the corner of a cold square below zero. This is about one update of that field, not about a run of the solver. |
| `RowCones.FallingSpread` | solver/cpu/src/solver_base.cpp:543-576 | Along a row with the left side held at a value and the right one at zero, spreading keeps the row falling between the two, although a boundary cell may have a negative weight. |
| `RowCones.BalancedSpread` | solver/cpu/src/solver_base.cpp:543-576 | Between two sides at zero, spreading with 1 <= w <= n/2 keeps a row balanced: symmetric and rising to the middle for even n; for odd n, symmetric with second differences that fall and a small alternating sum. |
| `RowCones.BalancedNotNegative` | solver/cpu/src/solver_base.cpp:543-576 | A balanced row, of even or odd length, has no negative cell. |
| `GridSymmetry.RunTurned` | solver/cpu/src/solver_base.cpp:95-104 | Exchanging left with right, or rows with columns, turns the explicit run with it. |
| `UniformStart.CellGathered` | solver/cpu/src/solver_base.cpp:95-104 | With the chosen delta_t an explicit step is the spreading along the row plus the rows below and above, over 2(wx + wy + 2). |
| `UniformStart.RunCombined` | solver/cpu/src/solver_base.cpp:95-104 | Explicit runs are linear in the start and the boundary values together. |
| `UniformStart.LeftResponse` | solver/cpu/src/solver_base.cpp:80-104 | The response to one side: every row falls away from it at every step. |
| `UniformStart.AlongResponse` | solver/cpu/src/solver_base.cpp:80-104 | The response to a uniform start and the two other sides: every row along the longer side of the grid stays balanced. |
| `UniformStart.SolutionNotNegative` | solver/cpu/src/solver_base.cpp:80-104 | From a uniform start with nothing negative no cell is ever negative, on any grid. |
| `UniformStart.RunStaysBounded` | solver/cpu/src/solver_base.cpp:471-472 | From a uniform start, as initialize_solution makes it, every run stays within the bounds of the start and the four sides: all steps, all grids, no stability condition. |
| `DistributedSolver.InitializeSolution` | solver/cpu/src/solver_base.cpp:80-89 | Every local slot of every rank, ghosts included, has the initial value. |
| `DistributedSolver.StepRank` | solver/cpu/src/solver_base.cpp:95-104 | One rank's update makes its owned cells those of one step of the whole grid. |
| `DistributedSolver.StepAll` | solver/cpu/src/solver_base.cpp:91-125 | With the exchange, every local slot of every rank. |
| `DistributedSolver.SolveExplicit` | solver/cpu/src/main.cpp:87-115 | The explicit solver on any number of ranks, for any number of steps, from grid generation on: all local values are those of the same run of the whole grid, and every rank solves its fair share of it. |
| `DistributedSolver.SolutionStaysBounded` | solver/cpu/src/solver_base.cpp:80-125 | Every local value on every rank, after any number of explicit steps on any grid, lies within the bounds of initial and boundary values. |
| `DistributedSums.RanksSumAll` | solver/cpu/src/solver_base.cpp:595-602 | Whatever the partition, the ranks' own sums add up to the sum over all cells. |
| `Conservation.CellBalance` | solver/cpu/src/solver_base.cpp:543-576 | A face carries opposite fluxes seen from its two cells. |
| `Conservation.InteriorFluxesCancel` | solver/cpu/src/solver_base.cpp:543-576 | Summed over the grid the residual is minus the flux through the boundary, for every field. |
| `DistributedSums.ResidualsConserve` | solver/cpu/src/solver_base.cpp:543-603 | So the residuals computed on all ranks sum to minus the boundary flux. |
| `ExplicitBalance.RunBalance` | solver/cpu/src/solver_base.cpp:95-104 | An explicit run begins with its start, and in every later step what a cell has gained times its volume is delta_t times what flows into it. |
| `ExplicitBalance.RunIsEvolution` | solver/cpu/src/solver_base.cpp:95-104 | Any sequence of fields that begins so and keeps that balance in every cell is the run. |
| `ExplicitBalance.HeatBalance` | solver/cpu/src/main.cpp:109-115 | After any number of steps volume times what all cells have gained is delta_t times the sum of the fluxes through the boundary at every step. |
| `ExplicitBalance.RanksBalance` | solver/cpu/src/main.cpp:109-115 | The same of the values that all ranks together hold, on any partition. |
| `Contraction.DiagonalDominates` | solver/cpu/src/solver_base.cpp:474-475 | From delta_t = 10/(2(nx + ny)^2): eleven times the off-diagonals of a row are at most ten times its diagonal, on every grid. |
| `Contraction.SweepContracts` | solver/cpu/src/solver_base.cpp:219-231 | One sweep brings any two iterates closer by a factor of at most 10/11 in the sup norm. |
| `Contraction.SolutionIsFixed` | solver/cpu/src/solver_base.cpp:219-231 | A vector solves the system if and only if the sweep leaves it alone. |
| `Contraction.RunsContract` | solver/cpu/src/solver_base.cpp:215-237 | Any two runs, any number of sweeps. |
| `Contraction.JacobiConverges` | solver/cpu/src/solver_base.cpp:201-238 | After num_iter sweeps the distance to any exact solution is at most (10/11)^num_iter of what it was. |
| `ImplicitStepping.GridJacobian` | solver/cpu/src/solver_base.cpp:481-576 | The matrix of the whole grid is the Jacobian of the residual of the whole grid plus the time term. |
| `ImplicitStepping.ExactStepIsBackwardEuler` | solver/cpu/src/solver_base.cpp:105-122 | A change solves the linear system if and only if the cell values it leads to satisfy the backward Euler equation. |
| `ImplicitRuns.SweepCorrects` | solver/cpu/src/solver_base.cpp:219-231 | A sweep is exactly the correction whose product with the diagonal is what the system still lacks. |
| `ImplicitRuns.StepAddsSweeps` | solver/cpu/src/solver_base.cpp:105-122 | An implicit run begins with its start, and a step adds the last of num_iter such corrections from zero. |
| `ImplicitRuns.RunApproaches` | solver/cpu/src/solver_base.cpp:105-122 | From wherever the run is, a step ends within (10/11)^num_iter of the distance to the exact backward Euler step from there. |
| `ImplicitRuns.LocalApproaches` | solver/cpu/src/solver_base.cpp:105-125 | So does every local value on every rank, ghosts included. |
| `ImplicitRuns.RunDefect` | solver/cpu/src/solver_base.cpp:105-122 | A step fails the backward Euler equation of each cell by at most (10/11)^num_iter times the bound of the residual it started from, whether an exact step is known or not. |
| `ImplicitRuns.BicgstabRunMisses` | solver/cpu/src/solver_base.cpp:105-122 | A run with BiCGSTAB begins with its start, has another step exactly if the solve there is defined, and the step then fails backward Euler by exactly what the solve leaves. |
| `DistributedJacobi.AssembleAll` | solver/cpu/src/solver_base.cpp:481-541 | Every rank assembles its rows with the implicit delta_t. |
| `DistributedJacobi.SweepRank` | solver/cpu/src/solver_base.cpp:219-236 | One sweep on one rank leaves its part of the sweep of the whole system in dQ and in dQ_old. |
| `DistributedJacobi.JacobiSolve` | solver/cpu/src/solver_base.cpp:201-238 | num_iter sweeps with exchanges on all ranks leave in dQ num_iter sweeps of the whole system from zero; with num_iter zero dQ stays as it was. |
| `DistributedJacobi.RankRhs` | solver/cpu/src/solver_base.cpp:580-588 | The right-hand side is minus the residual of the grid. |
| `DistributedJacobi.AddChange` | solver/cpu/src/solver_base.cpp:116-121 | The owned cells gain dQ. |
| `DistributedJacobi.StepImplicitAll` | solver/cpu/src/solver_base.cpp:105-125 | One implicit step with Jacobi on all ranks adds the swept change of the whole grid, or with num_iter zero whatever dQ was before. |
| `DistributedJacobi.SolveImplicit` | solver/cpu/src/main.cpp:87-115 | The implicit solver with Jacobi on any number of ranks, for any number of steps, computes the run of the whole grid. |
| `Bicgstab.MoveKeepsResidual` | solver/cpu/src/solver_base.cpp:331-335 | Moving dQ and r by the same step lengths keeps r == rhs - A dQ, whatever the lengths, and so does the first half of the move. |
| `Bicgstab.ResidualIsTrue` | solver/cpu/src/solver_base.cpp:308-344 | After every number of passes that is defined, r == rhs - A dQ. |
| `Bicgstab.BreaksDownIff` | solver/cpu/src/solver_base.cpp:312-329 | For an injective operator a pass divides by zero before dQ moves if and only if A p is orthogonal to r0 or the step of length alpha already solves the system. |
| `Bicgstab.SolvedBreaksDown` | solver/cpu/src/solver_base.cpp:312-329 | A pass that starts with residual zero always divides by zero. |
| `Bicgstab.StretchedBreaksDown` | solver/cpu/src/solver_base.cpp:312-329 | With an eigenvector as right-hand side, or zero, no number of passes but zero is defined. |
| `BicgstabPasses.PassIff` | solver/cpu/src/solver_base.cpp:308-344 | A pass leads from one state to the next if and only if: the half residual, r less alpha A p, is orthogonal to r0; its image is not zero; the new r, the half residual less omega times its image, is orthogonal to that image; dQ moves by the same lengths; and the new p is q less omega A q for a q on the line through the half residual along p with A q orthogonal to r0, or lost if alpha or omega is zero. |
| `BicgstabPasses.NextIterateIff` | solver/cpu/src/solver_base.cpp:308-344 | The same of the n-th pass of a solve. |
| `BicgstabPasses.ResidualIsLeast` | solver/cpu/src/solver_base.cpp:328-335 | No other step along the image of the half residual would leave a smaller residual. |
| `BicgstabPasses.PlaneBreaksDown` | solver/cpu/src/solver_base.cpp:308-344 | If b, A b and A A b lie in a plane that b and A b span, the second pass has solved the system half way and divides zero by zero, and no later number of passes is defined. |
| `GridPositive.MatrixPositive` | solver/cpu/src/solver_base.cpp:481-541 | The matrix of the whole grid is positive definite: A x . x is at least the time term times x . x. |
| `GridPositive.TimesInjective` | solver/cpu/src/solver_base.cpp:481-541 | So it maps only zero to zero. |
| `BicgstabBreakdown.PassDefinedIff` | solver/cpu/src/solver_base.cpp:310-335 | After n passes one more moves dQ and r if and only if p is not lost, A p is not orthogonal to r0, and the step of length alpha does not solve the system. |
| `BicgstabBreakdown.DirectionLostIff` | solver/cpu/src/solver_base.cpp:337-343 | It then has a next direction if and only if r was not orthogonal to r0; omega is never zero. |
| `BicgstabBreakdown.FirstPassIff` | solver/cpu/src/solver_base.cpp:308-344 | One pass is defined if and only if the matrix does not merely stretch the right-hand side. |
| `BicgstabBreakdown.SteadyStateBreaksDown` | solver/cpu/src/solver_base.cpp:308-344 | At a steady state no positive number of passes is defined. |
| `BicgstabBreakdown.FourCellsBreakDown` | solver/cpu/src/solver_base.cpp:308-344 | Nor on two by two cells with four equal sides, from any uniform start. |
| `BicgstabBreakdown.HeatedSideHasFirstPass` | solver/cpu/src/solver_base.cpp:308-344 | With one side hot and the others cold the first pass there is defined. |
| `BicgstabBreakdown.HeatedSideHasOnePass` | solver/cpu/src/solver_base.cpp:308-344 | And the only one: there num_iter passes are defined if and only if num_iter is at most one. |
| `HeatedSide.FirstExplicitStep` | solver/cpu/src/solver_base.cpp:95-104 | With one side held at one and the rest at zero, on every grid the first explicit step takes the cells at that side to nx^2 / (nx + ny)^2 and no other. |
| `HeatedSide.ExplicitAnswers` | solver/cpu/src/solver_base.cpp:95-104 | On two by two cells: 1/4 and 0 after one step, 11/32 and 1/32 after two. |
| `HeatedSide.JacobiAnswer` | solver/cpu/src/solver_base.cpp:105-122 | 5/17 and 0 after one implicit step with one sweep. |
| `HeatedSide.BicgstabAnswer` | solver/cpu/src/solver_base.cpp:105-122 | 10/29 and 25/433 after one implicit step with one pass of BiCGSTAB. |
| `BicgstabLoops.DotProduct` | solver/cpu/src/solver_base.cpp:254-263 | The local sum of products. |
| `BicgstabLoops.FirstResidual` | solver/cpu/src/solver_base.cpp:299-302 | r0 = rhs - A dQ on the owned entries. |
| `BicgstabLoops.MoveBoth` | solver/cpu/src/solver_base.cpp:331-335 | The combined loop moves dQ and r. |
| `BicgstabLoops.MoveDirection` | solver/cpu/src/solver_base.cpp:340-343 | p becomes r + beta (p - omega Ap). |
| `BicgstabLoops.Xpby` | solver/gpu/src/solver_base_gpu.cpp:501-507 | The kernel computes x + b y also when the result is one of its operands. |
| `BicgstabLoops.SplitDirection` | solver/gpu/src/solver_base_gpu.cpp:595-597 | The two in-place updates of p together are the CPU's single one. |
| `BicgstabLoops.BetaAlgebra` | solver/gpu/src/solver_base_gpu.cpp:591-593 | The GPU's order of divisions gives the CPU's beta. |
| `GridOperator.TimesIsLinear` | solver/cpu/src/solver_base.cpp:240-252 | The product with the matrix of the whole grid is linear, so the results above apply to it. |
| `DistributedProduct.MultiplyAll` | solver/cpu/src/solver_base.cpp:240-252 | matrix_vector_multiply on all ranks, exchange included, is the product of the whole matrix with the whole vector, and completes the ghosts of its input. |
| `DistributedProduct.DotAll` | solver/cpu/src/solver_base.cpp:254-268 | dot_product on all ranks is the dot product of the whole vectors. |
| `DistributedBicgstab.XpbyAll` | solver/gpu/src/solver_base_gpu.cpp:486-507 | The kernel on every rank, in place or not, is the update of the whole vectors. |
| `DistributedBicgstab.StepLengths` | solver/cpu/src/solver_base.cpp:310-329 | alpha1, alpha and omega on all ranks are those of the whole system; it reports exactly when alpha or omega divides by zero (also `solver/gpu/src/solver_base_gpu.cpp`, lines 557-583). |
| `DistributedBicgstab.MoveAll` | solver/cpu/src/solver_base.cpp:331-335 | dQ and r on all ranks, CPU form. |
| `DistributedBicgstab.TurnAll` | solver/cpu/src/solver_base.cpp:340-343 | p on all ranks, CPU form. |
| `DistributedBicgstab.MoveSplit` | solver/gpu/src/solver_base_gpu.cpp:585-589 | dQ and r on all ranks, in the GPU's three kernels, with the contract of the CPU form. |
| `DistributedBicgstab.TurnSplit` | solver/gpu/src/solver_base_gpu.cpp:595-597 | p on all ranks, in the GPU's two kernels, with the contract of the CPU form. |
| `DistributedBicgstab.CpuIteration` | solver/cpu/src/solver_base.cpp:308-344 | One pass of the CPU loop on all ranks makes the pass of the whole system; dQ and r move even when beta does not exist. |
| `DistributedBicgstab.GpuIteration` | solver/gpu/src/solver_base_gpu.cpp:555-598 | One pass of the GPU loop on all ranks makes the same pass. |
| `DistributedBicgstab.Begin` | solver/cpu/src/solver_base.cpp:278-306 | Starting vectors on all ranks. |
| `DistributedBicgstab.Solve` | solver/cpu/src/solver_base.cpp:270-344 | It reports exactly whether all num_iter passes have their quotients, and then dQ, r and p on all ranks, on either device, are those of the num_iter-th iterate of the whole system (also `solver/gpu/src/solver_base_gpu.cpp`, lines 517-598). |
| `BicgstabSteps.RemainderIsDefect` | solver/cpu/src/solver_base.cpp:105-122 | When the solve is defined, the r it leaves is, cell by cell, what the new cell values miss of the backward Euler equation. |
| `BicgstabSteps.ZeroRemainderIsBackwardEuler` | solver/cpu/src/solver_base.cpp:105-122 | Such a step is an exact backward Euler step if and only if that r is zero. |
| `BicgstabSteps.StepBicgstab` | solver/cpu/src/solver_base.cpp:105-125 | One implicit step with BiCGSTAB on all ranks is the step of the whole grid whenever that is defined, and it reports whether it is. |
| `BicgstabSteps.SolveImplicit` | solver/cpu/src/main.cpp:87-115 | The implicit solver with BiCGSTAB, for any number of ranks and steps and either device, computes the run of the whole grid if no solve in it divides by zero, and reports exactly that. |
| `GridStride.AdvanceExecutesOne` | solver/gpu/src/solver_base_gpu.cpp:352 | Each move of a grid-stride loop executes one index that was not executed before. |
| `GridStride.EveryScheduleMaps` | solver/gpu/src/solver_base_gpu.cpp:350-367 | For any thread count and schedule, a finished launch of an index-wise kernel has executed every index once. |
| `GridStride.LaunchCanFinish` | solver/gpu/src/solver_base_gpu.cpp:350-367 | Every state of a launch of an index-wise kernel leads to a finished one. |
| `GpuOperations.EveryScheduleAdds` | solver/gpu/src/solver_base_gpu.cpp:1332-1350 | When the threads of a launch clear cells and add to them one operation at a time, then for any thread count and interleaving a finished launch has changed each cell by the sum of what each index alone would change it by, provided a cell that one index clears is touched by no other. |
| `GpuOperations.LaunchCanFinish` | solver/gpu/src/solver_base_gpu.cpp:1332-1350 | Every state such a launch can be in leads to a finished one, and every step of a thread still in its loop uses up one of the steps that remain. |
| `GpuOperations.SomeScheduleCompletes` | solver/gpu/src/solver_base_gpu.cpp:1332-1350 | So every such launch has a schedule that completes it, on any number of threads. |
| `GpuKernels.EveryScheduleScatters` | solver/gpu/src/solver_base_gpu.cpp:1144-1154 | For any thread count and schedule, one atomic addition per index leaves every cell with all its contributions, however many threads share it. |
| `GpuKernels.EveryScheduleGathers` | solver/gpu/src/solver_base_gpu.cpp:1096-1109 | However the threads' single memory operations interleave, each row's cell ends with the sum of its row added to it, or put there if the row clears it first. |
| `GpuKernels.GpuResidualIsCpuResidual` | solver/gpu/src/solver_base_gpu.cpp:1079-1154 | Interior kernel then boundary kernel, under any schedules and thread counts, leave the residuals of the CPU loops. |
| `GpuKernels.GpuSweepIsCpuSweep` | solver/gpu/src/solver_base_gpu.cpp:350-367 | The Jacobi kernel under any schedule computes the CPU sweep. |
| `GpuKernels.GpuXpbyIsAxpy` | solver/gpu/src/solver_base_gpu.cpp:486-515 | The kernel computes x + b y under any schedule, written over the first operand, over the second as in the update of p, or over neither. |
| `GpuAssembly.TimedStores` | solver/gpu/src/solver_base_gpu.cpp:1292-1299 | After the memset the time term kernel leaves volume over delta_t on the diagonals and zero elsewhere, under any schedule. |
| `GpuAssembly.InteriorLaunch` | solver/gpu/src/solver_base_gpu.cpp:1332-1350 | The kernel for inner faces, whose threads add to diagonals and subtract from slots in any interleaving, gives each diagonal the whole of its row and takes each face's rdista from its own slot. |
| `GpuAssembly.DiagonalLaunch` | solver/gpu/src/solver_base_gpu.cpp:1383-1395 | A kernel that adds to diagonals, several threads to one if they share it, changes them by exactly the sums and nothing else. |
| `GpuAssembly.GpuSystemIsCpuSystem` | solver/gpu/src/solver_base_gpu.cpp:1412-1454 | Under every thread count and schedule of its three launches compute_system on the GPU leaves A_data as the CPU loops assemble it. |
| `GpuTimeStep.GpuAreasAreCpuAreas` | solver/gpu/src/solver_base_gpu.cpp:786-831 | Under every schedule of the two launches the area sum of every cell is that of the CPU loops. |
| `GpuTimeStep.StepSimulates` | solver/gpu/src/solver_base_gpu.cpp:860-867 | One action of the launch is one action of the compare-and-swap loop of its index, seen as a thread of its own, or does not show. |
| `GpuTimeStep.RunSimulates` | solver/gpu/src/solver_base_gpu.cpp:860-867 | So every schedule of the grid-stride launch is an interleaving of one compare-and-swap loop per index. |
| `GpuTimeStep.EveryScheduleFindsTheMinimum` | solver/gpu/src/solver_base_gpu.cpp:860-867 | For any thread count and schedule, a finished launch has divided every entry once, and the shared cell holds the minimum of the start value and all rates. |
| `GpuTimeStep.GpuMinimumIsCpuMinimum` | solver/gpu/src/solver_base_gpu.cpp:903-911 | That is the value the loop of the CPU finds. |
| `GpuTimeStep.StepUsesFuel` | solver/gpu/src/solver_base_gpu.cpp:860-867 | Every action of a thread still in its loop uses up fuel, failed swaps included, so the launch cannot run for ever. |
| `GpuTimeStep.MinLaunchCanFinish` | solver/gpu/src/solver_base_gpu.cpp:860-867 | Every state of the launch leads to a finished one. |

## Left out

- Rounding, overflow, NaN and signed zero: reals are used. The CAS loops compare bit patterns, the model compares reals.
- CUDA, cuBLAS and cuSPARSE, `mmap`, `mprotect` and `sigaction`: only their effect on buffers and protection is kept; a failing allocation and the chaining to an older signal handler are not modelled.
- A dataset's element type and multi-dimensional shape: elements are reals of a fixed size in bytes, and integer datasets are separate sequences in the solver part.
- `kernel_transfer_mode`, NOT_SET, `is_read_only`, the printed copy counters and the log messages. Copies are counted by a ghost counter.
- Writes through raw device pointers, and raw host writes that do not fault. A kernel launch is one atomic step in the coherence part; asynchronous launches are not covered there.
- `Framework.Silo.Locate`: requires an address at or above the lowest mapping, because the source steps back from `begin()` otherwise.
- `Framework.Silo.PageFault`: one page fault at a time; `owner` names the mapping that starts last at or below the address so that the frame can be stated.
- MPI start-up, gathering and file output. Collectives are functions with back-to-back displacements, which is how the solver calls them; failures and deadlock are not modelled. The phases of `assign_mpi_grid` run rank by rank between two collectives, and its numbering is computed again where a later phase needs it.
- The parser, the stopping test on the residual norm, and the printing in the main loop: runs take any number of steps instead.
- `FaceGeometry.FacesOf`: the face normal is kept unnormalised and its tests are squared, so that no square root is needed; the coordinates are two vectors instead of one interleaved one.
- `BoundaryFaces.ListBoundary`: the boundary arrays are one array of records.
- `DistributedBicgstab.Solve`: says nothing of the vectors after a division by zero, which has no value in the reals; the source goes on with infinities or NaN, in `p` alone if only `alpha1` or `omega1` is zero. The copies made in place of a preconditioner are kept.
- The solver's other GPU kernels (initial and boundary values, face distances, halo packing, right-hand side, change of the cell values, `a x + b y`): each index does what the CPU loop does there, in cells of its own, which is the case of `GridStride.EveryScheduleMaps`. `kg_compute_system_compute_residual_norm` is never launched, and the dot product and norm kernels of `gpu_math_api_functions.cpp` are not run by the solver, which takes the cuBLAS path.
- `GpuKernels.GpuResidualIsCpuResidual`: the launches follow each other, as the default stream guarantees, and an addition is one step: an atomic one because the hardware makes it so, a plain one because its cell belongs to one thread. The same holds of `GpuAssembly` and `GpuTimeStep`.
- `silo` look-up by name, storage types other than as lists of datasets, the destruction of datasets, and entries registered with `allocate_mem` false, which have elements but no buffer.
