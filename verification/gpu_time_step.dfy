/** compute_time_step on the GPU: two launches add the face areas of every cell, a third divides
    them by the volume and takes the minimum with a compare-and-swap loop inside its grid
    stride. Under every schedule the areas and the minimum are those of the CPU. */
module GpuTimeStep {
  import GpuAtomics
  import opened GpuKernels
  import opened GpuOperations
  import opened GridStride
  import opened LocalMesh
  import opened TimeStepping
  import opened Vectors

  // ----- the area sums -----

  ghost function RowAreas(m: Mesh, area: seq<real>): (v: seq<seq<real>>)
    requires Shaped(m) && |area| == |m.nbrs|
    ensures |v| == m.solved && forall i :: 0 <= i < |v| ==> v[i] == RowAreaTerms(m, area, i)
  {
    seq(m.solved, i requires 0 <= i < m.solved => RowAreaTerms(m, area, i))
  }

  /** After the memset and the first launch. */
  ghost function InnerAreas(m: Mesh, area: seq<real>, threads: nat, schedule: seq<nat>): (r: seq<real>)
    requires Shaped(m) && |area| == |m.nbrs|
    ensures |r| == m.solved
  {
    Result(GatherAll(RowAreas(m, area), false), Zeros(m.solved), threads, schedule)
  }

  lemma GpuAreasAreCpuAreas(m: Mesh, area: seq<real>, faceArea: seq<real>, threads: nat, schedule: seq<nat>,
                            boundaryThreads: nat, boundarySchedule: seq<nat>)
    requires Shaped(m) && |area| == |m.nbrs| && |faceArea| == |m.faceCell| && threads > 0 && boundaryThreads > 0
    requires Completes(GatherAll(RowAreas(m, area), false), Zeros(m.solved), threads, schedule)
    requires Completes(Scatter(BoundaryCells(m), faceArea), InnerAreas(m, area, threads, schedule), boundaryThreads,
                       boundarySchedule)
    ensures Result(Scatter(BoundaryCells(m), faceArea), InnerAreas(m, area, threads, schedule), boundaryThreads,
                   boundarySchedule)
            == AreaSums(m, area, faceArea, |faceArea|)
  {
    hide Completes, Result;
    EveryScheduleGathers(RowAreas(m, area), false, Zeros(m.solved), threads, schedule);
    EveryScheduleScatters(BoundaryCells(m), faceArea, InnerAreas(m, area, threads, schedule), boundaryThreads,
                          boundarySchedule);
    forall i | 0 <= i < m.solved
      ensures Share(BoundaryCells(m), faceArea, i) == FaceAreaTerms(m, faceArea, i)
    {
    }
  }

  // ----- kg_find_min_inverse_length_scale -----

  /** A thread at an index is about to divide its entry, or in the loop that submits it. */
  datatype Stage = Divide | Submit(phase: GpuAtomics.Phase)

  datatype MinLaunch = MinLaunch(pos: seq<nat>, stages: seq<Stage>, data: seq<real>, cell: real)

  predicate Volumes(volume: seq<real>, n: nat) {
    n <= |volume| && forall i :: 0 <= i < n ==> volume[i] > 0.0
  }

  predicate Active(m: MinLaunch, t: nat) {
    t < |m.pos| == |m.stages| && m.pos[t] < |m.data|
  }

  /** One action of thread t: the division, one action of the loop, or on to its next index. */
  function MinStep(volume: seq<real>, m: MinLaunch, t: nat): (r: MinLaunch)
    requires |m.pos| == |m.stages| && Volumes(volume, |m.data|)
    ensures |r.pos| == |r.stages| == |m.pos| && |r.data| == |m.data|
  {
    if !Active(m, t) then m
    else
      var i := m.pos[t];
      match m.stages[t]
      case Divide => m.(stages := m.stages[t := Submit(GpuAtomics.Start)],
                        data := m.data[i := RateOf(m.data[i], volume[i])])
      case Submit(p) =>
        if p.Done? then m.(pos := Advance(m.pos, t), stages := m.stages[t := Divide])
        else
          var next := GpuAtomics.Act(GpuAtomics.Min, m.cell, p, m.data[i]);
          m.(stages := m.stages[t := Submit(next.1)], cell := next.0)
  }

  function MinRun(volume: seq<real>, m: MinLaunch, schedule: seq<nat>): (r: MinLaunch)
    requires |m.pos| == |m.stages| && Volumes(volume, |m.data|)
    ensures |r.pos| == |r.stages| == |m.pos| && |r.data| == |m.data|
    decreases |schedule|
  {
    if schedule == [] then m else MinRun(volume, MinStep(volume, m, schedule[0]), schedule[1..])
  }

  function MinBegin(threads: nat, areas: seq<real>): (m: MinLaunch)
    ensures |m.pos| == |m.stages| == threads && m.data == areas
  {
    MinLaunch(FirstIndices(threads), seq(threads, _ => Divide), areas, START)
  }

  function Rates(areas: seq<real>, volume: seq<real>): (r: seq<real>)
    requires Volumes(volume, |areas|)
    ensures |r| == |areas| && forall i :: 0 <= i < |r| ==> r[i] == RateOf(areas[i], volume[i])
  {
    seq(|areas|, i requires 0 <= i < |areas| => RateOf(areas[i], volume[i]))
  }

  // ----- the launch as one thread per index -----

  /** Where index i is, as a thread of its own. */
  function PhaseOf(m: MinLaunch, i: nat): GpuAtomics.Phase
    requires |m.pos| == |m.stages| > 0
  {
    var t := i % |m.pos|;
    if i < m.pos[t] then GpuAtomics.Done
    else if i == m.pos[t] && m.stages[t].Submit? then m.stages[t].phase
    else GpuAtomics.Start
  }

  function View(m: MinLaunch): (v: GpuAtomics.Machine)
    requires |m.pos| == |m.stages| > 0
    ensures |v.pc| == |m.data| && v.cell == m.cell && forall i :: 0 <= i < |v.pc| ==> v.pc[i] == PhaseOf(m, i)
  {
    GpuAtomics.Machine(m.cell, seq(|m.data|, i requires 0 <= i < |m.data| => PhaseOf(m, i)))
  }

  /** Entry i has been divided. */
  predicate Divided(m: MinLaunch, i: nat)
    requires |m.pos| == |m.stages| > 0
  {
    Past(m.pos, i) || (i == m.pos[i % |m.pos|] && m.stages[i % |m.pos|].Submit?)
  }

  ghost predicate MinInvariant(areas: seq<real>, volume: seq<real>, m: MinLaunch) {
    && |m.pos| == |m.stages| > 0 && Strides(m.pos, |m.pos|) && |m.data| == |areas| && Volumes(volume, |areas|)
    && forall i :: 0 <= i < |areas| ==> m.data[i] == if Divided(m, i) then RateOf(areas[i], volume[i]) else areas[i]
  }

  /** The step is an action of the compare-and-swap loop. */
  predicate Acts(m: MinLaunch, t: nat) {
    Active(m, t) && m.stages[t].Submit? && !m.stages[t].phase.Done?
  }

  lemma StepDivides(areas: seq<real>, volume: seq<real>, m: MinLaunch, t: nat, i: nat)
    requires MinInvariant(areas, volume, m) && i < |areas|
    ensures Divided(MinStep(volume, m, t), i) <==>
            Divided(m, i) || (Active(m, t) && m.stages[t].Divide? && i == m.pos[t])
  {
    if Active(m, t) {
      AdvanceExecutesOne(m.pos, t, i);
    }
  }

  lemma MinStepKeeps(areas: seq<real>, volume: seq<real>, m: MinLaunch, t: nat)
    requires MinInvariant(areas, volume, m)
    ensures MinInvariant(areas, volume, MinStep(volume, m, t))
  {
    var next := MinStep(volume, m, t);
    if Active(m, t) {
      AdvanceExecutesOne(m.pos, t, 0);
    }
    forall i | 0 <= i < |areas|
      ensures next.data[i] == if Divided(next, i) then RateOf(areas[i], volume[i]) else areas[i]
    {
      StepDivides(areas, volume, m, t, i);
    }
  }

  lemma PhaseAfter(areas: seq<real>, volume: seq<real>, m: MinLaunch, t: nat, i: nat)
    requires MinInvariant(areas, volume, m) && i < |areas|
    ensures PhaseOf(MinStep(volume, m, t), i)
            == if Acts(m, t) && i == m.pos[t]
               then GpuAtomics.Act(GpuAtomics.Min, m.cell, m.stages[t].phase, m.data[i]).1 else PhaseOf(m, i)
  {
    if Active(m, t) {
      AdvanceExecutesOne(m.pos, t, i);
    }
  }

  /** An action of the loop is one of the index's thread; the other steps do not show. */
  lemma StepSimulates(areas: seq<real>, volume: seq<real>, m: MinLaunch, t: nat)
    requires MinInvariant(areas, volume, m)
    ensures View(MinStep(volume, m, t))
            == if Acts(m, t) then GpuAtomics.Step(GpuAtomics.Min, Rates(areas, volume), View(m), m.pos[t]) else View(m)
  {
    hide PhaseOf;
    var next := View(MinStep(volume, m, t));
    forall i | 0 <= i < |areas|
      ensures next.pc[i] == if Acts(m, t) && i == m.pos[t]
                            then GpuAtomics.Act(GpuAtomics.Min, m.cell, m.stages[t].phase, m.data[i]).1
                              else View(m).pc[i]
    {
      PhaseAfter(areas, volume, m, t, i);
    }
    if Acts(m, t) {
      OwnPhase(areas, volume, m, t);
    }
  }

  lemma OwnPhase(areas: seq<real>, volume: seq<real>, m: MinLaunch, t: nat)
    requires MinInvariant(areas, volume, m) && Acts(m, t)
    ensures PhaseOf(m, m.pos[t]) == m.stages[t].phase && m.data[m.pos[t]] == RateOf(areas[m.pos[t]], volume[m.pos[t]])
  {
    assert Divided(m, m.pos[t]);
  }

  /** So every schedule of the launch is an interleaving of one thread per index. */
  lemma {:induction false} RunSimulates(areas: seq<real>, volume: seq<real>, m: MinLaunch, schedule: seq<nat>)
    returns (interleaving: seq<nat>)
    requires MinInvariant(areas, volume, m) && |m.pos| == |m.stages| > 0 && Volumes(volume, |m.data|)
    ensures MinInvariant(areas, volume, MinRun(volume, m, schedule)) && GpuAtomics.ThreadsOf(interleaving, |areas|)
    ensures View(MinRun(volume, m, schedule))
            == GpuAtomics.Run(GpuAtomics.Min, Rates(areas, volume), View(m), interleaving)
    decreases |schedule|
  {
    hide MinInvariant, MinStep, View;
    if schedule == [] {
      interleaving := [];
    } else {
      var t := schedule[0];
      MinStepKeeps(areas, volume, m, t);
      StepSimulates(areas, volume, m, t);
      var rest := RunSimulates(areas, volume, MinStep(volume, m, t), schedule[1..]);
      interleaving := if Acts(m, t) then [m.pos[t]] + rest else rest;
      assert Acts(m, t) ==> interleaving[1..] == rest;
    }
  }

  lemma MinBegins(areas: seq<real>, volume: seq<real>, threads: nat)
    requires threads > 0 && Volumes(volume, |areas|)
    ensures MinInvariant(areas, volume, MinBegin(threads, areas))
    ensures View(MinBegin(threads, areas)) == GpuAtomics.Initial(START, |areas|)
  {
    var m := MinBegin(threads, areas);
    FirstStrides(threads, 0);
    forall i | 0 <= i < |areas|
      ensures !Divided(m, i) && PhaseOf(m, i) == GpuAtomics.Start
    {
      FirstStrides(threads, i);
    }
  }

  /** For every thread count and schedule, a finished launch has divided every entry, and the
      shared cell holds the minimum of the start value and all rates. */
  lemma EveryScheduleFindsTheMinimum(areas: seq<real>, volume: seq<real>, threads: nat, schedule: seq<nat>)
    requires threads > 0 && Volumes(volume, |areas|)
    requires Finished(MinRun(volume, MinBegin(threads, areas), schedule).pos, |areas|)
    ensures var end := MinRun(volume, MinBegin(threads, areas), schedule);
            && end.data == Rates(areas, volume)
            && GpuAtomics.IsExtreme(GpuAtomics.Min, START, Rates(areas, volume), end.cell)
  {
    hide GpuAtomics.IsExtreme;
    MinBegins(areas, volume, threads);
    var interleaving := RunSimulates(areas, volume, MinBegin(threads, areas), schedule);
    var end := MinRun(volume, MinBegin(threads, areas), schedule);
    forall i | 0 <= i < |areas|
      ensures View(end).pc[i].Done? && Divided(end, i)
    {
      FinishedIsPast(end.pos, |areas|, i);
    }
    GpuAtomics.EveryInterleavingFindsTheExtreme(GpuAtomics.Min, START, Rates(areas, volume), interleaving);
  }

  /** Which is the value the loop of the CPU finds. */
  lemma GpuMinimumIsCpuMinimum(areas: seq<real>, volume: seq<real>, threads: nat, schedule: seq<nat>, minValue: real)
    requires threads > 0 && Volumes(volume, |areas|)
    requires Finished(MinRun(volume, MinBegin(threads, areas), schedule).pos, |areas|)
    requires minValue <= START
             && (minValue == START || exists i :: 0 <= i < |areas| && minValue == RateOf(areas[i], volume[i]))
    requires forall i :: 0 <= i < |areas| ==> minValue <= RateOf(areas[i], volume[i])
    ensures MinRun(volume, MinBegin(threads, areas), schedule).cell == minValue
  {
    EveryScheduleFindsTheMinimum(areas, volume, threads, schedule);
    if i :| 0 <= i < |areas| && minValue == RateOf(areas[i], volume[i]) {
      assert Rates(areas, volume)[i] == minValue;
    }
    assert GpuAtomics.IsExtreme(GpuAtomics.Min, START, Rates(areas, volume), minValue);
    GpuAtomics.ExtremeIsUnique(GpuAtomics.Min, START, Rates(areas, volume), minValue,
                               MinRun(volume, MinBegin(threads, areas), schedule).cell);
  }

  // ----- the launch ends -----

  /** Steps of index i outside the loop: the division, and leaving it. */
  function Chore(m: MinLaunch, i: nat): nat
    requires |m.pos| == |m.stages| > 0
  {
    (if Divided(m, i) then 0 else 1) + if Past(m.pos, i) then 0 else 1
  }

  function Chores(m: MinLaunch, n: nat): nat
    requires |m.pos| == |m.stages| > 0
  {
    if n == 0 then 0 else Chores(m, n - 1) + Chore(m, n - 1)
  }

  lemma ChoreAfter(areas: seq<real>, volume: seq<real>, m: MinLaunch, t: nat, i: nat)
    requires MinInvariant(areas, volume, m) && Active(m, t) && i < |areas|
    ensures Chore(MinStep(volume, m, t), i) == Chore(m, i) - if !Acts(m, t) && i == m.pos[t] then 1 else 0
  {
    StepDivides(areas, volume, m, t, i);
    AdvanceExecutesOne(m.pos, t, i);
  }

  lemma {:induction false} ChoresAfter(areas: seq<real>, volume: seq<real>, m: MinLaunch, t: nat, n: nat)
    requires MinInvariant(areas, volume, m) && Active(m, t) && n <= |areas|
    ensures Chores(MinStep(volume, m, t), n) == Chores(m, n) - if !Acts(m, t) && m.pos[t] < n then 1 else 0
  {
    hide MinStep, Chore, MinInvariant;
    Shape(areas, volume, m);
    if n > 0 {
      ChoresAfter(areas, volume, m, t, n - 1);
      ChoreAfter(areas, volume, m, t, n - 1);
    }
  }

  lemma Shape(areas: seq<real>, volume: seq<real>, m: MinLaunch)
    requires MinInvariant(areas, volume, m)
    ensures |m.pos| == |m.stages| > 0 && |m.data| == |areas| && Volumes(volume, |m.data|)
  {
  }

  /** What a launch has left: chores, and the potential of its compare-and-swap loops. */
  function Fuel(m: MinLaunch): nat
    requires |m.pos| == |m.stages| > 0
  {
    Chores(m, |m.data|) + GpuAtomics.Potential(View(m))
  }

  /** Every step of a thread still in its loop uses some of it up, failed swaps included. */
  lemma StepUsesFuel(areas: seq<real>, volume: seq<real>, m: MinLaunch, t: nat)
    requires MinInvariant(areas, volume, m) && Active(m, t)
    ensures Fuel(MinStep(volume, m, t)) < Fuel(m)
  {
    hide MinStep, View, GpuAtomics.Potential, Chores, GpuAtomics.Step;
    ChoresAfter(areas, volume, m, t, |areas|);
    StepSimulates(areas, volume, m, t);
    if Acts(m, t) {
      OwnPhase(areas, volume, m, t);
      GpuAtomics.StepUsesPotential(GpuAtomics.Min, Rates(areas, volume), View(m), m.pos[t]);
    }
  }

  /** So every state leads to a finished one. */
  lemma {:induction false} MinLaunchCanFinish(areas: seq<real>, volume: seq<real>, m: MinLaunch)
    returns (schedule: seq<nat>)
    requires MinInvariant(areas, volume, m) && |m.pos| == |m.stages| > 0 && Volumes(volume, |m.data|)
    ensures Finished(MinRun(volume, m, schedule).pos, |areas|) && |schedule| <= Fuel(m)
    decreases Fuel(m)
  {
    hide MinInvariant, MinStep, Fuel;
    Shape(areas, volume, m);
    if t: nat :| Active(m, t) {
      StepUsesFuel(areas, volume, m, t);
      MinStepKeeps(areas, volume, m, t);
      var rest := MinLaunchCanFinish(areas, volume, MinStep(volume, m, t));
      schedule := [t] + rest;
      assert schedule[1..] == rest;
    } else {
      forall t | 0 <= t < |m.pos|
        ensures m.pos[t] >= |areas|
      {
        assert !Active(m, t);
      }
      schedule := [];
    }
  }
}
