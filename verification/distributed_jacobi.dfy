/** jacobi_linear_solver and the implicit time step on all ranks: the sweeps of the parts are
    the sweeps of the whole system, so they converge as fast. */
module DistributedJacobi {
  import opened Renumbering
  import opened Halo
  import opened HaloExchange
  import opened GridLayout
  import opened Stencil
  import opened Contraction
  import opened ImplicitStepping
  import opened LocalMesh
  import opened Csr
  import opened Jacobian
  import opened RankMesh
  import opened RankSystem
  import opened DistributedMesh
  import opened DistributedSolver

  ghost predicate MatricesBuilt(p: Problem, l: Layout, ranks: seq<Rank>, matrices: seq<Matrix>) {
    && |ranks| == |matrices| == l.procs && p.StepChosen()
    && forall q :: 0 <= q < l.procs ==> BuiltMatrix(ranks[q].mesh, p.dt * 10.0, matrices[q])
  }

  /** setup_matrix_struct and compute_system on every rank. */
  method AssembleAll(p: Problem, l: Layout, ranks: seq<Rank>, deltaT: real) returns (matrices: seq<Matrix>)
    requires p.StepChosen() && RanksBuilt(p, l, ranks) && deltaT == p.dt * 10.0 && |ranks| == l.procs
    ensures MatricesBuilt(p, l, ranks, matrices)
  {
    hide RankBuilt, BuiltMatrix;
    matrices := [];
    for q := 0 to l.procs
      invariant |matrices| == q && forall r :: 0 <= r < q ==> BuiltMatrix(ranks[r].mesh, p.dt * 10.0, matrices[r])
    {
      RankDistinct(p, l, q, ranks[q]);
      var c := AssembleMatrix(ranks[q].mesh, deltaT);
      matrices := matrices + [c];
    }
  }

  lemma RankDistinct(p: Problem, l: Layout, q: nat, r: Rank)
    requires RankBuilt(p, l, q, r)
    ensures Shaped(r.mesh) && RowsDistinct(r.mesh)
  {
  }

  /** The owned entries of rhs are those of a field. */
  ghost predicate RhsHolds(p: Problem, l: Layout, q: nat, rhs: seq<real>, field: seq<seq<real>>)
    requires Setting(l)
  {
    IsField(p, field) && |rhs| == NumOwned(l.owner, q) &&
    forall k, i, j :: IsLocal(p, l, q, k, i, j) ==> k < |rhs| && rhs[k] == field[j][i]
  }

  // ----- one sweep -----

  lemma SweepCell(p: Problem, l: Layout, q: nat, r: Rank, c: Matrix, rhs: seq<real>, field: seq<seq<real>>,
                  v: seq<real>, x: seq<seq<real>>, k: nat, i: int, j: int)
    requires p.StepChosen() && Setting(l) && RankBuilt(p, l, q, r) && BuiltMatrix(r.mesh, p.dt * 10.0, c)
    requires Shows(p, l, q, v, x) && IsLocal(p, l, q, k, i, j) && RhsHolds(p, l, q, rhs, field)
    requires DiagonalNonzero(c, r.mesh.solved, |v|) && r.mesh.solved <= |rhs|
    ensures IsCell(p, i, j) && IsField(p, field) && IsField(p, x) && k < r.mesh.solved
    ensures JacobiAt(c, r.mesh.solved, rhs, v, k) == JacobiOf(p, field, x, i, j)
  {
    hide MeshOf, RowsDistinct, MeshAssembly.AreasOf, Shows, BuiltMatrix, DiagonalNonzero, JacobiAt, JacobiOf, Setting;
    RowAt(p, l, q, r.mesh, r.qb, k, i, j);
    SweepMatches(p, l, q, r.mesh, r.qb, c, rhs, field, v, x, k, i, j);
  }

  lemma SweepHolds(p: Problem, l: Layout, q: nat, r: Rank, c: Matrix, rhs: seq<real>, field: seq<seq<real>>,
                   v: seq<real>, x: seq<seq<real>>, after: seq<real>)
    requires p.StepChosen() && Setting(l) && p.Valid() && IsGrid(l, p.nx, p.ny) && RankBuilt(p, l, q, r)
    requires BuiltMatrix(r.mesh, p.dt * 10.0, c) && IsField(p, field) && IsField(p, x)
    requires Shows(p, l, q, v, x) && RhsHolds(p, l, q, rhs, field) && DiagonalNonzero(c, r.mesh.solved, |v|)
    requires r.mesh.solved == NumOwned(l.owner, q) <= |rhs| && |after| == |LocalCells(l, q)| && r.mesh.solved <= |after|
    requires forall k :: 0 <= k < r.mesh.solved ==> after[k] == JacobiAt(c, r.mesh.solved, rhs, v, k)
    ensures HoldsField(p, l, q, after, JacobiStep(p, field, x))
  {
    hide RankBuilt, Shows, BuiltMatrix, DiagonalNonzero, JacobiAt, JacobiOf, Setting, IsGrid, RhsHolds, LocalCells;
    forall k, i, j | IsLocal(p, l, q, k, i, j)
      ensures k < |after| && after[k] == JacobiStep(p, field, x)[j][i]
    {
      SweepCell(p, l, q, r, c, rhs, field, v, x, k, i, j);
    }
  }

  /** One sweep on one rank: dQ from dQ_old, then dQ_old := dQ. */
  method SweepRank(ghost p: Problem, ghost l: Layout, ghost q: nat, r: Rank, c: Matrix, rhs: seq<real>,
                   ghost field: seq<seq<real>>, dQOld: array<real>, dQ: array<real>, ghost x: seq<seq<real>>)
    requires p.StepChosen() && Setting(l) && RankBuilt(p, l, q, r) && BuiltMatrix(r.mesh, p.dt * 10.0, c)
    requires IsField(p, field) && IsField(p, x) && dQ != dQOld && dQ.Length == |LocalCells(l, q)|
    requires Shows(p, l, q, dQOld[..], x) && RhsHolds(p, l, q, rhs, field)
    modifies dQOld, dQ
    ensures HoldsField(p, l, q, dQOld[..], JacobiStep(p, field, x))
            && HoldsField(p, l, q, dQ[..], JacobiStep(p, field, x))
  {
    hide RankBuilt, Shows, BuiltMatrix, DiagonalNonzero, JacobiAt, JacobiOf, JacobiStep, Setting, IsGrid, IsField,
         LocalCells, HoldsField;
    SweepReady(p, l, q, r, c, rhs, field, dQOld[..], x);
    ghost var v := dQOld[..];
    var numSolved := r.mesh.solved;
    SweepLocal(c, numSolved, rhs, dQOld[..], dQ);
    ghost var swept := dQ[..];
    for i := 0 to numSolved
      invariant dQ[..] == swept
      invariant forall k :: 0 <= k < i ==> dQOld[k] == swept[k]
    {
      dQOld[i] := dQ[i];
    }
    assert forall k :: 0 <= k < numSolved ==> swept[k] == swept[..numSolved][k];
    SweepHolds(p, l, q, r, c, rhs, field, v, x, dQOld[..]);
    SweepHolds(p, l, q, r, c, rhs, field, v, x, dQ[..]);
  }

  lemma SweepReady(p: Problem, l: Layout, q: nat, r: Rank, c: Matrix, rhs: seq<real>, field: seq<seq<real>>,
                   v: seq<real>, x: seq<seq<real>>)
    requires p.StepChosen() && Setting(l) && RankBuilt(p, l, q, r) && BuiltMatrix(r.mesh, p.dt * 10.0, c)
    requires Shows(p, l, q, v, x) && RhsHolds(p, l, q, rhs, field)
    ensures p.Valid() && IsGrid(l, p.nx, p.ny) && |v| == |LocalCells(l, q)|
            && |rhs| == NumOwned(l.owner, q) == r.mesh.solved <= |v|
    ensures DiagonalNonzero(c, r.mesh.solved, |v|)
  {
    DiagonalsPositive(p, l, q, r.mesh, r.qb, c);
  }

  // ----- all sweeps -----

  /** jacobi_linear_solver on all ranks, from dQ_old set to zero: after the sweeps every owned
      entry of dQ is that of as many sweeps of the whole system. Without a sweep dQ is what it
      was. */
  method JacobiSolve(p: Problem, l: Layout, hs: seq<RankHalo>, ranks: seq<Rank>, matrices: seq<Matrix>,
                     rhs: seq<seq<real>>, dQ: seq<array<real>>, ghost field: seq<seq<real>>, numIter: nat)
    requires p.StepChosen() && p.Valid() && IsGrid(l, p.nx, p.ny) && AllBuilt(l, hs) && Setting(l)
             && |l.owner| == p.nx * p.ny
    requires RanksBuilt(p, l, ranks) && MatricesBuilt(p, l, ranks, matrices) && IsField(p, field) && Fitting(l, dQ)
    requires |ranks| == |matrices| == |rhs| == |dQ| == l.procs
             && forall q :: 0 <= q < l.procs ==> RhsHolds(p, l, q, rhs[q], field)
    modifies dQ
    ensures numIter == 0 ==> forall q :: 0 <= q < l.procs ==> dQ[q][..] == old(dQ[q][..])
    ensures numIter > 0 ==> forall q :: 0 <= q < l.procs ==>
              HoldsField(p, l, q, dQ[q][..], JacobiRun(p, field, Uniform(p, 0.0), numIter))
  {
    hide IsGrid, AllBuilt, Setting, HoldsField, IsField, LocalCells, Shows, RankBuilt, RhsHolds, Uniform, BuiltMatrix,
         JacobiStep;
    var dQOld := OwnedUniform(p, l, hs, 0.0);
    ghost var x := Uniform(p, 0.0);
    for iter := 0 to numIter
      invariant Fitting(l, dQOld) && fresh(dQOld) && |dQOld| == l.procs && IsField(p, x)
                && x == JacobiRun(p, field, Uniform(p, 0.0), iter)
      invariant forall q :: 0 <= q < l.procs ==> HoldsField(p, l, q, dQOld[q][..], x)
      invariant iter == 0 ==> forall q :: 0 <= q < l.procs ==> dQ[q][..] == old(dQ[q][..])
      invariant iter > 0 ==> forall q :: 0 <= q < l.procs ==> HoldsField(p, l, q, dQ[q][..], x)
    {
      ExchangeAll(p, l, hs, dQOld, x);
      for q := 0 to l.procs
        invariant forall r :: 0 <= r < q ==> HoldsField(p, l, r, dQOld[r][..], JacobiStep(p, field, x))
        invariant forall r :: 0 <= r < q ==> HoldsField(p, l, r, dQ[r][..], JacobiStep(p, field, x))
        invariant forall r :: q <= r < l.procs ==> Shows(p, l, r, dQOld[r][..], x)
      {
        SweepRank(p, l, q, ranks[q], matrices[q], rhs[q], field, dQOld[q], dQ[q], x);
      }
      x := JacobiStep(p, field, x);
    }
  }

  // ----- the implicit time step -----

  /** rhs_local of one rank. */
  method RankRhs(ghost p: Problem, ghost l: Layout, ghost q: nat, r: Rank, vec: seq<real>, ghost f: seq<seq<real>>)
    returns (rhs: seq<real>)
    requires RankBuilt(p, l, q, r) && Shows(p, l, q, vec, f) && Setting(l) && IsField(p, f)
    ensures RhsHolds(p, l, q, rhs, RhsOf(p, f))
  {
    hide RankBuilt, Shows, Setting, Values, IsField, RhsHolds, LocalCells, ResidualAt;
    RankShows(p, l, q, r, vec, f);
    var residual := new real[r.mesh.involved];
    ComputeResidual(r.mesh, vec, r.qb, residual);
    var negated := new real[r.mesh.solved];
    for il := 0 to r.mesh.solved
      invariant forall k :: 0 <= k < il ==> negated[k] == -residual[k]
      invariant residual[..r.mesh.solved] == Residual(r.mesh, vec, r.qb)
    {
      negated[il] := -residual[il];
    }
    rhs := negated[..];
    NegatedResidual(r.mesh, vec, r.qb, residual[..r.mesh.solved], rhs);
    RhsIs(p, l, q, r, vec, rhs, f);
  }

  lemma NegatedResidual(m: Mesh, v: seq<real>, qb: seq<real>, residual: seq<real>, rhs: seq<real>)
    requires Values(m, v) && |qb| == |m.faceCell| && residual == Residual(m, v, qb) && |rhs| == m.solved
    requires forall k :: 0 <= k < m.solved ==> rhs[k] == -residual[k]
    ensures forall k :: 0 <= k < m.solved ==> rhs[k] == -ResidualAt(m, v, qb, k)
  {
    hide ResidualAt;
  }

  lemma RhsIs(p: Problem, l: Layout, q: nat, r: Rank, v: seq<real>, rhs: seq<real>, f: seq<seq<real>>)
    requires RankBuilt(p, l, q, r) && Shows(p, l, q, v, f) && Setting(l) && IsField(p, f)
    requires Values(r.mesh, v) && |r.qb| == |r.mesh.faceCell| && |rhs| == r.mesh.solved
    requires forall k :: 0 <= k < r.mesh.solved ==> rhs[k] == -ResidualAt(r.mesh, v, r.qb, k)
    ensures RhsHolds(p, l, q, rhs, RhsOf(p, f))
  {
    hide MeshOf, RowsDistinct, MeshAssembly.AreasOf, Shows, ResidualAt, ResidualOf, Setting, LocalCells;
    RankSizes(p, l, q, r);
    forall k, i, j | IsLocal(p, l, q, k, i, j)
      ensures k < |rhs| && rhs[k] == RhsOf(p, f)[j][i]
    {
      CellStepped(p, l, q, r, v, f, k, i, j);
    }
  }

  method AllRhs(ghost p: Problem, ghost l: Layout, ranks: seq<Rank>, vecs: seq<array<real>>, ghost f: seq<seq<real>>)
    returns (rhs: seq<seq<real>>)
    requires RanksBuilt(p, l, ranks) && Setting(l) && IsField(p, f) && |vecs| == |ranks| == l.procs
    requires forall q :: 0 <= q < l.procs ==> Shows(p, l, q, vecs[q][..], f)
    ensures |rhs| == l.procs && forall q :: 0 <= q < l.procs ==> RhsHolds(p, l, q, rhs[q], RhsOf(p, f))
  {
    hide RankBuilt, Shows, Setting, IsField, RhsHolds;
    rhs := [];
    for q := 0 to |ranks|
      invariant |rhs| == q && forall r :: 0 <= r < q ==> RhsHolds(p, l, r, rhs[r], RhsOf(p, f))
    {
      var own := RankRhs(p, l, q, ranks[q], vecs[q][..], f);
      rhs := rhs + [own];
    }
  }

  /** Q += dQ on one rank. */
  method AddChange(ghost p: Problem, ghost l: Layout, ghost q: nat, r: Rank, vec: array<real>, dQ: array<real>,
                   ghost f: seq<seq<real>>, ghost d: seq<seq<real>>)
    requires RankBuilt(p, l, q, r) && Setting(l) && Shows(p, l, q, vec[..], f) && HoldsField(p, l, q, dQ[..], d)
             && vec != dQ
    requires IsField(p, f) && IsField(p, d)
    modifies vec
    ensures HoldsField(p, l, q, vec[..], Sum(p, f, d))
  {
    hide RankBuilt, Shows, Setting, IsField, HoldsField, LocalCells, Sum;
    ghost var v, change := vec[..], dQ[..];
    RankShows(p, l, q, r, v, f);
    HeldLength(p, l, q, change, d);
    RankSizes(p, l, q, r);
    for i := 0 to r.mesh.solved
      invariant forall k :: 0 <= k < i ==> vec[k] == v[k] + change[k]
      invariant forall k :: i <= k < vec.Length ==> vec[k] == v[k]
    {
      vec[i] := vec[i] + dQ[i];
    }
    ChangeHolds(p, l, q, v, change, vec[..], f, d);
  }

  lemma HeldLength(p: Problem, l: Layout, q: nat, v: seq<real>, f: seq<seq<real>>)
    requires HoldsField(p, l, q, v, f)
    ensures Setting(l) && |v| == |LocalCells(l, q)|
  {
  }

  lemma ChangeHolds(p: Problem, l: Layout, q: nat, v: seq<real>, change: seq<real>, after: seq<real>, f: seq<seq<real>>,
                    d: seq<seq<real>>)
    requires Shows(p, l, q, v, f) && HoldsField(p, l, q, change, d) && Setting(l) && IsField(p, f) && IsField(p, d)
    requires |after| == |v| == |change| == |LocalCells(l, q)| && NumOwned(l.owner, q) <= |v|
    requires forall k :: 0 <= k < NumOwned(l.owner, q) ==> after[k] == v[k] + change[k]
    ensures HoldsField(p, l, q, after, Sum(p, f, d))
  {
    hide Shows, Setting, IsGrid, LocalCells;
    forall k, i, j | IsLocal(p, l, q, k, i, j)
      ensures k < |after| && after[k] == Sum(p, f, d)[j][i]
    {
      ShowsOwn(p, l, q, v, f, k, i, j);
    }
  }

  /** What dQ is after the sweeps; without a sweep it is what it was. */
  ghost function SweptChange(p: Problem, f: seq<seq<real>>, numIter: nat, before: seq<seq<real>>): (d: seq<seq<real>>)
    requires p.StepChosen() && IsField(p, f) && IsField(p, before)
    ensures IsField(p, d)
  {
    if numIter == 0 then before else JacobiRun(p, RhsOf(p, f), Uniform(p, 0.0), numIter)
  }

  lemma SweptFrom(p: Problem, f: seq<seq<real>>, numIter: nat, before: seq<seq<real>>)
    requires p.StepChosen() && IsField(p, f) && IsField(p, before) && (numIter == 0 ==> before == Uniform(p, 0.0))
    ensures Sum(p, f, SweptChange(p, f, numIter, before)) == ImplicitStep(p, f, numIter)
    ensures numIter == 0 ==> SweptChange(p, f, numIter, before) == before
  {
  }

  /** update_solution of the implicit solver with Jacobi: on every rank the step of the whole
      grid, from whatever dQ was before. */
  method StepImplicitAll(p: Problem, l: Layout, hs: seq<RankHalo>, ranks: seq<Rank>, matrices: seq<Matrix>,
                         numIter: nat, vecs: seq<array<real>>, dQ: seq<array<real>>, ghost f: seq<seq<real>>,
                         ghost before: seq<seq<real>>)
    requires p.StepChosen() && p.Valid() && IsGrid(l, p.nx, p.ny) && AllBuilt(l, hs) && Setting(l)
             && |l.owner| == p.nx * p.ny
    requires RanksBuilt(p, l, ranks) && MatricesBuilt(p, l, ranks, matrices) && |ranks| == |matrices| == l.procs
    requires Fitting(l, vecs) && |vecs| == l.procs && Fitting(l, dQ) && |dQ| == l.procs && IsField(p, f)
    requires forall q, r :: 0 <= q < |vecs| && 0 <= r < |dQ| ==> vecs[q] != dQ[r]
    requires forall q :: 0 <= q < l.procs ==> Shows(p, l, q, vecs[q][..], f)
    requires IsField(p, before) && forall q :: 0 <= q < l.procs ==> HoldsField(p, l, q, dQ[q][..], before)
    modifies vecs, dQ
    ensures forall q :: 0 <= q < l.procs ==> HoldsField(p, l, q, dQ[q][..], SweptChange(p, f, numIter, before))
    ensures forall q :: 0 <= q < l.procs ==> Shows(p, l, q, vecs[q][..], Sum(p, f, SweptChange(p, f, numIter, before)))
  {
    hide IsGrid, AllBuilt, Setting, HoldsField, IsField, LocalCells, Shows, RankBuilt, RhsHolds, MatricesBuilt,
         JacobiRun, Sum, Uniform;
    var rhs := AllRhs(p, l, ranks, vecs, f);
    ghost var d := SweptChange(p, f, numIter, before);
    JacobiSolve(p, l, hs, ranks, matrices, rhs, dQ, RhsOf(p, f), numIter);
    for q := 0 to l.procs
      invariant forall r :: 0 <= r < q ==> HoldsField(p, l, r, vecs[r][..], Sum(p, f, d))
      invariant forall r :: q <= r < l.procs ==> Shows(p, l, r, vecs[r][..], f)
      invariant forall r :: 0 <= r < l.procs ==> HoldsField(p, l, r, dQ[r][..], d)
    {
      AddChange(p, l, q, ranks[q], vecs[q], dQ[q], f, d);
    }
    ExchangeAll(p, l, hs, vecs, Sum(p, f, d));
  }

  /** The implicit solver with Jacobi, from the grid size to any number of time steps; dQ starts
      as zero, which fresh pages are. (Valid, StepChosen and the positive sizes follow from
      UnitSquare.) */
  method SolveImplicit(p: Problem, procs: nat, initial: real, steps: nat, numIter: nat)
    returns (l: Layout, vecs: seq<array<real>>)
    requires UnitSquare(p) && p.Valid() && p.nx > 0 && p.ny > 0 && procs > 0
             && (p.nx + p.ny) as real <= TimeStepping.START
    requires p.StepChosen()
    ensures Setting(l) && l.procs == procs && FairlyDealt(l, p.nx, p.ny) && Fitting(l, vecs)
    ensures forall q :: 0 <= q < procs ==>
            Shows(p, l, q, vecs[q][..], ImplicitRun(p, Uniform(p, initial), numIter, steps))
  {
    hide IsGrid, FairlyDealt, AllBuilt, Setting, HoldsField, IsField, LocalCells, Shows, RankBuilt, UnitSquare, Uniform,
         MatricesBuilt, ImplicitStep, SweptChange, Sum;
    var hs, ranks;
    l, hs, ranks := BuildRanks(p, procs);
    GridSizes(p, l);
    vecs := InitializeSolution(p, l, hs, initial);
    var deltaT := ComputeTimeStep(p, l, ranks, true);
    var matrices := AssembleAll(p, l, ranks, deltaT);
    MatrixCount(p, l, ranks, matrices);
    var dQ := OwnedUniform(p, l, hs, 0.0);
    ghost var f, d := Uniform(p, initial), Uniform(p, 0.0);
    for n := 0 to steps
      invariant Fitting(l, vecs) && IsField(p, f) && f == ImplicitRun(p, Uniform(p, initial), numIter, n) && fresh(vecs)
      invariant fresh(dQ) && forall q, r :: 0 <= q < |vecs| && 0 <= r < |dQ| ==> vecs[q] != dQ[r]
      invariant forall q :: 0 <= q < l.procs ==> Shows(p, l, q, vecs[q][..], f)
      invariant IsField(p, d) && forall q :: 0 <= q < l.procs ==> HoldsField(p, l, q, dQ[q][..], d)
      invariant numIter == 0 ==> d == Uniform(p, 0.0)
    {
      StepImplicitAll(p, l, hs, ranks, matrices, numIter, vecs, dQ, f, d);
      SweptFrom(p, f, numIter, d);
      d := SweptChange(p, f, numIter, d);
      f := ImplicitStep(p, f, numIter);
    }
  }

  lemma MatrixCount(p: Problem, l: Layout, ranks: seq<Rank>, matrices: seq<Matrix>)
    requires MatricesBuilt(p, l, ranks, matrices)
    ensures |ranks| == |matrices| == l.procs
  {
  }
}
