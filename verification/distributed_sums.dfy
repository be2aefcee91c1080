/** Sums over all ranks are sums over the grid: conservation and the residual norm do not
    depend on the partition. */
module DistributedSums {
  import opened RealSums
  import opened GridTopology
  import opened Renumbering
  import opened Halo
  import opened HaloExchange
  import opened GridLayout
  import opened Stencil
  import opened Conservation
  import opened LocalMesh
  import opened RankMesh
  import opened DistributedMesh
  import opened DistributedSolver

  // ----- every cell is summed by exactly one rank -----

  /** What one rank adds of the first n cells. */
  function Part(owner: seq<nat>, q: nat, values: seq<real>, n: nat): real
    requires |values| == |owner| && n <= |owner|
  {
    if n == 0 then 0.0 else Part(owner, q, values, n - 1) + if owner[n - 1] == q then values[n - 1] else 0.0
  }

  /** MPI_Allreduce with MPI_SUM over the parts of the first procs ranks. */
  function Parts(owner: seq<nat>, values: seq<real>, n: nat, procs: nat): real
    requires |values| == |owner| && n <= |owner|
  {
    if procs == 0 then 0.0 else Parts(owner, values, n, procs - 1) + Part(owner, procs - 1, values, n)
  }

  lemma {:induction false} PartsGrow(owner: seq<nat>, values: seq<real>, n: nat, procs: nat)
    requires |values| == |owner| && 0 < n <= |owner|
    ensures Parts(owner, values, n, procs)
            == Parts(owner, values, n - 1, procs) + if owner[n - 1] < procs then values[n - 1] else 0.0
  {
    if procs > 0 {
      PartsGrow(owner, values, n, procs - 1);
    }
  }

  lemma {:induction false} PartsEmpty(owner: seq<nat>, values: seq<real>, procs: nat)
    requires |values| == |owner|
    ensures Parts(owner, values, 0, procs) == 0.0
  {
    if procs > 0 {
      PartsEmpty(owner, values, procs - 1);
    }
  }

  lemma {:induction false} PartsAreAll(owner: seq<nat>, values: seq<real>, n: nat, procs: nat)
    requires |values| == |owner| && n <= |owner| && Owners(owner, procs)
    ensures Parts(owner, values, n, procs) == SumTo(values, n)
  {
    if n == 0 {
      PartsEmpty(owner, values, procs);
    } else {
      PartsAreAll(owner, values, n - 1, procs);
      PartsGrow(owner, values, n, procs);
    }
  }

  /** A rank's own values, for its cells among the first n. */
  ghost predicate OwnPrefix(owner: seq<nat>, q: nat, values: seq<real>, own: seq<real>, n: nat)
    requires n <= |owner|
  {
    |values| == |owner| && CountOwned(owner, q, n) <= |own| &&
    forall k :: 0 <= k < CountOwned(owner, q, n) ==>
      Owned(owner, q, n)[k] < |values| && own[k] == values[Owned(owner, q, n)[k]]
  }

  lemma OwnPrefixShrinks(owner: seq<nat>, q: nat, values: seq<real>, own: seq<real>, n: nat)
    requires 0 < n <= |owner| && OwnPrefix(owner, q, values, own, n)
    ensures OwnPrefix(owner, q, values, own, n - 1)
  {
    var shorter, longer := Owned(owner, q, n - 1), Owned(owner, q, n);
    assert longer == shorter + if owner[n - 1] == q then [n - 1] else [];
    forall k | 0 <= k < |shorter|
      ensures shorter[k] < |values| && own[k] == values[shorter[k]]
    {
      assert longer[k] == shorter[k];
    }
  }

  /** A rank's loop over its own cells adds its part. */
  lemma {:induction false} OwnSum(owner: seq<nat>, q: nat, values: seq<real>, own: seq<real>, n: nat)
    requires |values| == |owner| && n <= |owner| && CountOwned(owner, q, n) <= |own|
             && OwnPrefix(owner, q, values, own, n)
    ensures SumTo(own, CountOwned(owner, q, n)) == Part(owner, q, values, n)
  {
    if n > 0 {
      OwnPrefixShrinks(owner, q, values, own, n);
      OwnSum(owner, q, values, own, n - 1);
      if owner[n - 1] == q {
        assert Owned(owner, q, n)[CountOwned(owner, q, n - 1)] == n - 1;
      }
    }
  }

  /** The sum of all ranks' own sums. */
  function RankSums(owns: seq<seq<real>>, procs: nat): real
    requires procs <= |owns|
  {
    if procs == 0 then 0.0 else RankSums(owns, procs - 1) + SumOf(owns[procs - 1])
  }

  ghost predicate OwnValues(owner: seq<nat>, q: nat, values: seq<real>, own: seq<real>) {
    |own| == NumOwned(owner, q) && OwnPrefix(owner, q, values, own, |owner|)
  }

  lemma {:induction false} RankSumsAreParts(owner: seq<nat>, values: seq<real>, owns: seq<seq<real>>, procs: nat)
    requires |values| == |owner| && procs <= |owns|
    requires forall q :: 0 <= q < procs ==> OwnValues(owner, q, values, owns[q])
    ensures RankSums(owns, procs) == Parts(owner, values, |owner|, procs)
  {
    if procs > 0 {
      RankSumsAreParts(owner, values, owns, procs - 1);
      assert OwnValues(owner, procs - 1, values, owns[procs - 1]);
      OwnSum(owner, procs - 1, values, owns[procs - 1], |owner|);
    }
  }

  /** Whatever the partition, the ranks together sum every cell once. */
  lemma RanksSumAll(owner: seq<nat>, values: seq<real>, owns: seq<seq<real>>, procs: nat)
    requires |values| == |owner| && procs == |owns| && Owners(owner, procs)
    requires forall q :: 0 <= q < procs ==> OwnValues(owner, q, values, owns[q])
    ensures RankSums(owns, procs) == SumOf(values)
  {
    RankSumsAreParts(owner, values, owns, procs);
    PartsAreAll(owner, values, |owner|, procs);
  }

  // ----- cell numbers row by row -----

  ghost function FlatResidual(p: Problem, f: seq<seq<real>>): (r: seq<real>)
    requires IsField(p, f)
    ensures |r| == p.nx * p.ny
  {
    seq(p.nx * p.ny, c requires 0 <= c < p.nx * p.ny =>
        CellOfNumber(p.nx, p.ny, c); ResidualOf(p, f, c % p.nx, c / p.nx))
  }

  lemma FlatAt(p: Problem, f: seq<seq<real>>, i: int, j: int)
    requires IsField(p, f) && IsCell(p, i, j)
    ensures 0 <= Cell(p.nx, i, j) < p.nx * p.ny && FlatResidual(p, f)[Cell(p.nx, i, j)] == ResidualOf(p, f, i, j)
  {
    NumberParts(p.nx, p.ny, i, j);
  }

  lemma {:induction false} RowSum(p: Problem, f: seq<seq<real>>, j: nat, i: nat)
    requires IsField(p, f) && j < p.ny && i <= p.nx
    ensures 0 <= j * p.nx && j * p.nx + i <= p.nx * p.ny
    ensures SumTo(FlatResidual(p, f), j * p.nx + i)
            == SumTo(FlatResidual(p, f), j * p.nx) + SumTo(ResidualRow(p, f, j), i)
  {
    hide ResidualOf, FlatResidual;
    TimesMonotone(j + 1, p.ny, p.nx);
    TimesMonotone(0, j, p.nx);
    if i > 0 {
      RowSum(p, f, j, i - 1);
      FlatAt(p, f, i - 1, j);
    }
  }

  lemma {:induction false} RowsSum(p: Problem, f: seq<seq<real>>, rows: nat)
    requires IsField(p, f) && rows <= p.ny
    ensures 0 <= rows * p.nx <= p.nx * p.ny && SumTo(FlatResidual(p, f), rows * p.nx) == TotalResidual(p, f, rows)
  {
    hide ResidualOf, FlatResidual, ResidualRow;
    TimesMonotone(rows, p.ny, p.nx);
    TimesMonotone(0, rows, p.nx);
    if rows > 0 {
      RowsSum(p, f, rows - 1);
      RowSum(p, f, rows - 1, p.nx);
      assert (rows - 1) * p.nx + p.nx == rows * p.nx;
    }
  }

  // ----- conservation over all ranks -----

  lemma OwnResiduals(p: Problem, l: Layout, q: nat, r: Rank, v: seq<real>, f: seq<seq<real>>, own: seq<real>)
    requires RankBuilt(p, l, q, r) && Shows(p, l, q, v, f) && Setting(l) && IsField(p, f) && |l.owner| == p.nx * p.ny
    requires Values(r.mesh, v) && |r.qb| == |r.mesh.faceCell| && own == Residual(r.mesh, v, r.qb)
    requires p.Valid() && IsGrid(l, p.nx, p.ny)
    ensures OwnValues(l.owner, q, FlatResidual(p, f), own)
  {
    hide RankBuilt, Shows, Setting, IsGrid, Values, ResidualAt, ResidualOf, IsField;
    RankSizes(p, l, q, r);
    forall k | 0 <= k < |own|
      ensures Owned(l.owner, q, |l.owner|)[k] < |l.owner|
              && own[k] == FlatResidual(p, f)[Owned(l.owner, q, |l.owner|)[k]]
    {
      var i, j := CellOfLocal(p, l, q, k);
      CellStepped(p, l, q, r, v, f, k, i, j);
      FlatAt(p, f, i, j);
      assert LocalCells(l, q)[k] == Owned(l.owner, q, |l.owner|)[k];
    }
  }

  /** The residuals of all cells of all ranks sum to minus the flux through the boundary,
      whatever the cell values and the partition. */
  lemma ResidualsConserve(p: Problem, l: Layout, ranks: seq<Rank>, vecs: seq<seq<real>>, f: seq<seq<real>>,
                          residuals: seq<seq<real>>)
    requires p.Valid() && IsGrid(l, p.nx, p.ny) && Setting(l) && |l.owner| == p.nx * p.ny && IsField(p, f)
    requires RanksBuilt(p, l, ranks) && |ranks| == |vecs| == |residuals| == l.procs
    requires forall q :: 0 <= q < l.procs ==> Shows(p, l, q, vecs[q], f)
    requires forall q :: 0 <= q < l.procs ==>
               Values(ranks[q].mesh, vecs[q]) && |ranks[q].qb| == |ranks[q].mesh.faceCell|
               && residuals[q] == Residual(ranks[q].mesh, vecs[q], ranks[q].qb)
    ensures RankSums(residuals, l.procs) == -TotalBoundary(p, f, p.ny)
  {
    hide RankBuilt, Shows, IsGrid, Values, IsField, FlatResidual, OwnValues, LocalMesh.Residual, TotalResidual,
         TotalBoundary;
    forall q | 0 <= q < l.procs
      ensures OwnValues(l.owner, q, FlatResidual(p, f), residuals[q])
    {
      OwnResiduals(p, l, q, ranks[q], vecs[q], f, residuals[q]);
    }
    RanksSumAll(l.owner, FlatResidual(p, f), residuals, l.procs);
    RowsSum(p, f, p.ny);
    assert p.ny * p.nx == p.nx * p.ny;
    InteriorFluxesCancel(p, f);
  }
}
