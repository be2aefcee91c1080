/** The explicit solver's loops on all ranks, and what they compute for the whole grid, whatever
    the partition. */
module DistributedSolver {
  import opened Renumbering
  import opened Halo
  import opened HaloExchange
  import opened HaloTransfer
  import opened GridLayout
  import opened Stencil
  import opened MaxPrinciple
  import UniformStart
  import opened LocalMesh
  import opened RankMesh
  import opened DistributedBuild
  import opened DistributedMesh

  ghost predicate Fitting(l: Layout, vecs: seq<array<real>>)
    requires Setting(l)
  {
    |vecs| == l.procs && Separate(vecs) && forall r :: 0 <= r < l.procs ==> vecs[r].Length == |LocalCells(l, r)|
  }

  /** The owned part of v holds the field f. */
  ghost predicate HoldsField(p: Problem, l: Layout, q: nat, v: seq<real>, f: seq<seq<real>>) {
    && p.Valid() && IsGrid(l, p.nx, p.ny) && IsField(p, f) && |v| == |LocalCells(l, q)|
    && forall k, i, j :: IsLocal(p, l, q, k, i, j) ==> k < |v| && v[k] == f[j][i]
  }

  lemma FieldHeld(p: Problem, l: Layout, q: nat, v: seq<real>, f: seq<seq<real>>)
    requires HoldsField(p, l, q, v, f)
    ensures IsField(p, f) && Setting(l) && |l.owner| == p.nx * p.ny && Holds(l, q, v, Flatten(p, f))
  {
    forall k | 0 <= k < NumOwned(l.owner, q)
      ensures v[k] == View(l, q, Flatten(p, f))[k]
    {
      var i, j := CellOfLocal(p, l, q, k);
      FlattenAt(p, f, i, j);
    }
  }

  /** Exchange, in terms of fields on the grid. */
  method ExchangeAll(p: Problem, l: Layout, hs: seq<RankHalo>, vecs: seq<array<real>>, ghost f: seq<seq<real>>)
    requires p.Valid() && IsGrid(l, p.nx, p.ny) && AllBuilt(l, hs) && Setting(l) && Fitting(l, vecs) && IsField(p, f)
    requires |vecs| == l.procs && |l.owner| == p.nx * p.ny
    requires forall q :: 0 <= q < l.procs ==> HoldsField(p, l, q, vecs[q][..], f)
    modifies vecs
    ensures forall q :: 0 <= q < l.procs ==> Shows(p, l, q, vecs[q][..], f)
  {
    hide IsGrid, AllBuilt, Setting, HoldsField, Holds, AllHold, IsField, LocalCells;
    forall q | 0 <= q < l.procs
      ensures Holds(l, q, vecs[q][..], Flatten(p, f))
    {
      FieldHeld(p, l, q, vecs[q][..], f);
    }
    AllHoldFrom(l, vecs, Flatten(p, f));
    ExchangeField(l, hs, vecs, Flatten(p, f));
  }

  // ----- one rank's explicit update -----

  method UpdateExplicit(m: Mesh, residual: seq<real>, deltaT: real, q: array<real>)
    requires Shaped(m) && m.solved <= q.Length && m.solved <= |residual|
             && forall i :: 0 <= i < m.solved ==> m.volume[i] > 0.0
    modifies q
    ensures forall i :: 0 <= i < m.solved ==> q[i] == Updated(old(q[i]), residual[i], deltaT, m.volume[i])
  {
    hide Updated;
    for i := 0 to m.solved
      invariant forall k :: 0 <= k < i ==> q[k] == Updated(old(q[k]), residual[k], deltaT, m.volume[k])
      invariant forall k :: i <= k < m.solved ==> q[k] == old(q[k])
    {
      q[i] := Updated(q[i], residual[i], deltaT, m.volume[i]);
    }
  }

  lemma VolumePositive(p: Problem, l: Layout, q: nat, r: Rank)
    requires RankBuilt(p, l, q, r)
    ensures Shaped(r.mesh) && r.mesh.solved <= |r.mesh.volume|
    ensures forall k :: 0 <= k < r.mesh.solved ==> r.mesh.volume[k] == p.volume > 0.0
  {
  }

  /** One explicit update of one rank: its cells now hold the next field. */
  method StepRank(ghost p: Problem, ghost l: Layout, ghost q: nat, r: Rank, deltaT: real, vec: array<real>,
                  ghost f: seq<seq<real>>)
    requires RankBuilt(p, l, q, r) && deltaT == p.dt && Shows(p, l, q, vec[..], f) && Setting(l)
    modifies vec
    ensures IsField(p, f) && HoldsField(p, l, q, vec[..], ExplicitStep(p, f))
  {
    hide RankBuilt, Shows, Setting, Shaped, Updated, ExplicitAt, Values, IsField, HoldsField;
    VolumePositive(p, l, q, r);
    RankShows(p, l, q, r, vec[..], f);
    ghost var v := vec[..];
    var residual := new real[r.mesh.involved];
    ComputeResidual(r.mesh, vec[..], r.qb, residual);
    UpdateExplicit(r.mesh, residual[..r.mesh.solved], deltaT, vec);
    StepHolds(p, l, q, r, v, vec[..], f);
  }

  lemma RankShows(p: Problem, l: Layout, q: nat, r: Rank, v: seq<real>, f: seq<seq<real>>)
    requires RankBuilt(p, l, q, r) && Shows(p, l, q, v, f)
    ensures Values(r.mesh, v) && IsField(p, f) && |r.qb| == |r.mesh.faceCell| && |v| == r.mesh.involved >= r.mesh.solved
  {
    ShowsValues(p, l, q, r.mesh, r.qb, v, f);
  }

  lemma StepHolds(p: Problem, l: Layout, q: nat, r: Rank, v: seq<real>, after: seq<real>, f: seq<seq<real>>)
    requires RankBuilt(p, l, q, r) && Shows(p, l, q, v, f) && Values(r.mesh, v) && |r.qb| == |r.mesh.faceCell|
             && IsField(p, f)
    requires |after| == |v| && r.mesh.solved <= |v| && r.mesh.solved <= |r.mesh.volume|
    requires forall k :: 0 <= k < r.mesh.solved ==> r.mesh.volume[k] == p.volume > 0.0
    requires forall k :: 0 <= k < r.mesh.solved ==>
               after[k] == Updated(v[k], ResidualAt(r.mesh, v, r.qb, k), p.dt, r.mesh.volume[k])
    ensures HoldsField(p, l, q, after, ExplicitStep(p, f))
  {
    hide Updated, MeshOf, RowsDistinct, MeshAssembly.AreasOf, Shows, ResidualAt, ResidualOf, IsGrid, Shaped;
    HoldsShape(p, l, q, r, v, after, f);
    forall k, i, j | IsLocal(p, l, q, k, i, j)
      ensures k < |after| && after[k] == ExplicitStep(p, f)[j][i]
    {
      CellStepped(p, l, q, r, v, f, k, i, j);
    }
  }

  lemma HoldsShape(p: Problem, l: Layout, q: nat, r: Rank, v: seq<real>, after: seq<real>, f: seq<seq<real>>)
    requires RankBuilt(p, l, q, r) && Shows(p, l, q, v, f) && |after| == |v|
    ensures p.Valid() && IsGrid(l, p.nx, p.ny) && Setting(l) && |after| == |LocalCells(l, q)| && IsField(p, f)
  {
  }

  lemma CellStepped(p: Problem, l: Layout, q: nat, r: Rank, v: seq<real>, f: seq<seq<real>>, k: nat, i: int, j: int)
    requires RankBuilt(p, l, q, r) && Shows(p, l, q, v, f) && Setting(l) && IsLocal(p, l, q, k, i, j)
    ensures Values(r.mesh, v) && IsField(p, f) && IsCell(p, i, j) && k < r.mesh.solved && |r.qb| == |r.mesh.faceCell|
    ensures k < |v| && v[k] == f[j][i] && ResidualAt(r.mesh, v, r.qb, k) == ResidualOf(p, f, i, j)
  {
    hide MeshOf, RowsDistinct, MeshAssembly.AreasOf, Shows, ResidualAt, ResidualOf, IsLocal, Setting;
    ResidualMatches(p, l, q, r.mesh, r.qb, v, f, k, i, j);
    ShowsOwn(p, l, q, v, f, k, i, j);
  }

  // ----- explicit runs on all ranks -----

  /** initialize_solution */
  method InitializeSolution(p: Problem, l: Layout, hs: seq<RankHalo>, initial: real) returns (vecs: seq<array<real>>)
    requires p.Valid() && IsGrid(l, p.nx, p.ny) && AllBuilt(l, hs) && Setting(l) && |l.owner| == p.nx * p.ny
    ensures Fitting(l, vecs) && fresh(vecs)
    ensures forall q :: 0 <= q < l.procs ==> Shows(p, l, q, vecs[q][..], Uniform(p, initial))
  {
    hide IsGrid, AllBuilt, Setting, HoldsField, IsField, Uniform, LocalCells, Shows;
    vecs := OwnedUniform(p, l, hs, initial);
    ExchangeAll(p, l, hs, vecs, Uniform(p, initial));
  }

  method OwnedUniform(p: Problem, l: Layout, hs: seq<RankHalo>, initial: real) returns (vecs: seq<array<real>>)
    requires p.Valid() && IsGrid(l, p.nx, p.ny) && AllBuilt(l, hs) && Setting(l) && |l.owner| == p.nx * p.ny
    ensures Fitting(l, vecs) && fresh(vecs) && |vecs| == l.procs
    ensures forall q :: 0 <= q < l.procs ==> HoldsField(p, l, q, vecs[q][..], Uniform(p, initial))
  {
    hide IsGrid, AllBuilt, Setting, HoldsField, LocalCells;
    vecs := [];
    for q := 0 to l.procs
      invariant |vecs| == q && fresh(vecs) && Separate(vecs)
      invariant forall r :: 0 <= r < q ==> vecs[r].Length == |LocalCells(l, r)|
      invariant forall r :: 0 <= r < q ==> HoldsField(p, l, r, vecs[r][..], Uniform(p, initial))
    {
      HaloSizes(l, hs, q);
      var vec := FilledVector(hs[q].numSolved, hs[q].numSolved + |hs[q].rlist|, initial);
      UniformHeld(p, l, q, vec[..], initial);
      vecs := vecs + [vec];
    }
  }

  method FilledVector(numSolved: nat, numInvolved: nat, value: real) returns (vec: array<real>)
    requires numSolved <= numInvolved
    ensures fresh(vec) && vec.Length == numInvolved && forall k :: 0 <= k < numSolved ==> vec[k] == value
  {
    vec := new real[numInvolved](_ => 0.0);
    for il := 0 to numSolved
      invariant forall k :: 0 <= k < il ==> vec[k] == value
    {
      vec[il] := value;
    }
  }

  lemma UniformHeld(p: Problem, l: Layout, q: nat, v: seq<real>, value: real)
    requires p.Valid() && IsGrid(l, p.nx, p.ny) && Setting(l) && |v| == |LocalCells(l, q)|
    requires NumOwned(l.owner, q) <= |v| && forall k :: 0 <= k < NumOwned(l.owner, q) ==> v[k] == value
    ensures HoldsField(p, l, q, v, Uniform(p, value))
  {
    hide IsGrid, Setting, LocalCells;
    assert forall k, i, j :: IsLocal(p, l, q, k, i, j) ==> IsCell(p, i, j) && 0 <= k < NumOwned(l.owner, q);
  }

  /** One explicit step: residuals and updates on every rank, then the exchange. */
  method StepAll(p: Problem, l: Layout, hs: seq<RankHalo>, ranks: seq<Rank>, deltaT: real, vecs: seq<array<real>>,
                 ghost f: seq<seq<real>>)
    requires p.Valid() && IsGrid(l, p.nx, p.ny) && AllBuilt(l, hs) && Setting(l) && |l.owner| == p.nx * p.ny
    requires RanksBuilt(p, l, ranks) && deltaT == p.dt && Fitting(l, vecs) && |vecs| == l.procs && IsField(p, f)
    requires forall q :: 0 <= q < l.procs ==> Shows(p, l, q, vecs[q][..], f)
    modifies vecs
    ensures forall q :: 0 <= q < l.procs ==> Shows(p, l, q, vecs[q][..], ExplicitStep(p, f))
  {
    hide IsGrid, AllBuilt, Setting, HoldsField, IsField, LocalCells, Shows, RankBuilt;
    for q := 0 to l.procs
      invariant forall r :: 0 <= r < q ==> HoldsField(p, l, r, vecs[r][..], ExplicitStep(p, f))
      invariant forall r :: q <= r < l.procs ==> Shows(p, l, r, vecs[r][..], f)
    {
      StepRank(p, l, q, ranks[q], deltaT, vecs[q], f);
    }
    ExchangeAll(p, l, hs, vecs, ExplicitStep(p, f));
  }

  /** The explicit solver, from the grid size to any number of time steps: on every rank and
      for every number of ranks, each local value, ghosts included, is that of the run of the
      whole grid. (Valid and the positive sizes follow from UnitSquare.) */
  method SolveExplicit(p: Problem, procs: nat, initial: real, steps: nat) returns (l: Layout, vecs: seq<array<real>>)
    requires UnitSquare(p) && p.Valid() && p.nx > 0 && p.ny > 0 && procs > 0
             && (p.nx + p.ny) as real <= TimeStepping.START
    ensures Setting(l) && l.procs == procs && FairlyDealt(l, p.nx, p.ny) && Fitting(l, vecs)
    ensures forall q :: 0 <= q < procs ==> Shows(p, l, q, vecs[q][..], ExplicitRun(p, Uniform(p, initial), steps))
  {
    hide IsGrid, FairlyDealt, AllBuilt, Setting, HoldsField, IsField, LocalCells, Shows, RankBuilt, UnitSquare, Uniform;
    var hs, ranks;
    l, hs, ranks := BuildRanks(p, procs);
    GridSizes(p, l);
    vecs := InitializeSolution(p, l, hs, initial);
    var deltaT := ComputeTimeStep(p, l, ranks, false);
    ghost var f := Uniform(p, initial);
    for n := 0 to steps
      invariant Fitting(l, vecs) && IsField(p, f) && f == ExplicitRun(p, Uniform(p, initial), n) && fresh(vecs)
      invariant forall q :: 0 <= q < l.procs ==> Shows(p, l, q, vecs[q][..], f)
    {
      StepAll(p, l, hs, ranks, deltaT, vecs, f);
      f := ExplicitStep(p, f);
    }
  }

  /** So every local value on every rank, after any number of steps and on every grid, lies
      between the least and the greatest of the initial and boundary values. */
  lemma SolutionStaysBounded(p: Problem, l: Layout, q: nat, v: seq<real>, initial: real, steps: nat, lo: real, hi: real,
                             k: nat)
    requires UnitSquare(p) && p.Valid() && lo <= initial <= hi && BoundaryWithin(p, lo, hi)
    requires Shows(p, l, q, v, ExplicitRun(p, Uniform(p, initial), steps)) && k < |v|
    ensures lo <= v[k] <= hi
  {
    hide UnitSquare, ExplicitRun, BoundaryWithin, Setting;
    UniformStart.RunStaysBounded(p, initial, lo, hi, steps);
    LocalCellsInRange(l, q, k);
    var c := LocalCells(l, q)[k];
    CellOfNumber(p.nx, p.ny, c);
    FlattenAt(p, ExplicitRun(p, Uniform(p, initial), steps), c % p.nx, c / p.nx);
  }
}
