/** The meshes of all ranks, and the time step they agree on. */
module DistributedMesh {
  import opened RealFacts
  import opened Renumbering
  import opened Halo
  import opened HaloExchange
  import opened HaloBuild
  import opened HaloTransfer
  import opened GridLayout
  import opened Stencil
  import opened GridGeometry
  import opened BoundaryFaces
  import opened LocalMesh
  import opened RankMesh
  import opened RankBuild
  import opened MeshAssembly
  import opened SideSums
  import opened TimeStepping
  import opened DistributedBuild

  /** One rank after generate_grid: its mesh, boundary values and face areas. */
  datatype Rank = Rank(mesh: Mesh, qb: seq<real>, area: seq<real>, faceArea: seq<real>)

  ghost predicate RankBuilt(p: Problem, l: Layout, q: nat, r: Rank) {
    && MeshOf(p, l, q, r.mesh, r.qb) && RowsDistinct(r.mesh) && AreasOf(p, l, q, r.mesh, r.area, r.faceArea)
    && |r.area| == |r.mesh.nbrs| && |r.faceArea| == |r.mesh.faceCell|
  }

  ghost predicate RanksBuilt(p: Problem, l: Layout, ranks: seq<Rank>) {
    |ranks| == l.procs && forall q :: 0 <= q < l.procs ==> RankBuilt(p, l, q, ranks[q])
  }

  // ----- centres -----

  method OwnCentres(p: Problem, l: Layout, numbers: seq<Numbers>) returns (xs: seq<array<real>>, ys: seq<array<real>>)
    requires IsGrid(l, p.nx, p.ny) && Setting(l) && |l.owner| == p.nx * p.ny && p.nx > 0 && p.ny > 0
    requires |numbers| == l.procs && forall q :: 0 <= q < l.procs ==> NumbersOf(l, q, numbers[q])
    ensures |xs| == |ys| == l.procs && fresh(xs) && fresh(ys) && Separate(xs) && Separate(ys)
    ensures forall k, m :: 0 <= k < |xs| && 0 <= m < |ys| ==> xs[k] != ys[m]
    ensures forall r :: 0 <= r < l.procs ==> xs[r].Length == ys[r].Length == |LocalCells(l, r)|
    ensures forall r :: 0 <= r < l.procs ==>
            Holds(l, r, xs[r][..], CentresX(p.nx, p.ny)) && Holds(l, r, ys[r][..], CentresY(p.nx, p.ny))
  {
    hide IsGrid, Setting, Holds, Located, Inverse, LocalCells;
    xs, ys := [], [];
    for q := 0 to l.procs
      invariant |xs| == |ys| == q && fresh(xs) && fresh(ys) && Separate(xs) && Separate(ys)
      invariant forall k, m :: 0 <= k < |xs| && 0 <= m < |ys| ==> xs[k] != ys[m]
      invariant forall r :: 0 <= r < q ==> xs[r].Length == ys[r].Length == |LocalCells(l, r)|
      invariant forall r :: 0 <= r < q ==>
                Holds(l, r, xs[r][..], CentresX(p.nx, p.ny)) && Holds(l, r, ys[r][..], CentresY(p.nx, p.ny))
    {
      InverseIsLocated(l, q, numbers[q].localGlobal, numbers[q].globalLocal);
      var x, y := CellCentres(l, p.nx, p.ny, q, numbers[q].globalLocal, numbers[q].numInvolved);
      HoldsLength(l, q, x[..], CentresX(p.nx, p.ny));
      HoldsLength(l, q, y[..], CentresY(p.nx, p.ny));
      xs, ys := xs + [x], ys + [y];
    }
  }

  lemma HoldsLength(l: Layout, q: nat, v: seq<real>, field: seq<real>)
    requires Setting(l) && |field| == |l.owner| && Holds(l, q, v, field)
    ensures |v| == |LocalCells(l, q)|
  {
  }

  /** The centres of all local cells on every rank, ghosts by two exchanges. */
  method PlaceRanks(p: Problem, l: Layout, hs: seq<RankHalo>, numbers: seq<Numbers>)
    returns (xs: seq<seq<real>>, ys: seq<seq<real>>)
    requires p.Valid() && IsGrid(l, p.nx, p.ny) && AllBuilt(l, hs) && Setting(l) && |l.owner| == p.nx * p.ny && p.nx > 0
             && p.ny > 0
    requires |numbers| == l.procs && forall q :: 0 <= q < l.procs ==> NumbersOf(l, q, numbers[q])
    ensures |xs| == |ys| == l.procs && forall q :: 0 <= q < l.procs ==> Centred(p, l, q, xs[q], ys[q])
  {
    hide IsGrid, Setting, AllBuilt, NumbersOf, Holds, AllHold, LocalCells;
    var locX, locY := OwnCentres(p, l, numbers);
    AllHoldFrom(l, locX, CentresX(p.nx, p.ny));
    ExchangeField(l, hs, locX, CentresX(p.nx, p.ny));
    AllHoldFrom(l, locY, CentresY(p.nx, p.ny));
    ExchangeField(l, hs, locY, CentresY(p.nx, p.ny));
    xs := seq(l.procs, q requires 0 <= q < l.procs reads locX => locX[q][..]);
    ys := seq(l.procs, q requires 0 <= q < l.procs reads locY => locY[q][..]);
  }

  /** generate_grid on every rank, then compute_rdist and set_boundary_conditions. */
  method BuildRanks(p: Problem, procs: nat) returns (l: Layout, hs: seq<RankHalo>, ranks: seq<Rank>)
    requires UnitSquare(p) && p.Valid() && p.nx > 0 && p.ny > 0 && procs > 0
    ensures IsGrid(l, p.nx, p.ny) && l.procs == procs && AllBuilt(l, hs) && RanksBuilt(p, l, ranks)
    ensures FairlyDealt(l, p.nx, p.ny)
  {
    hide UnitSquare, IsGrid, FairlyDealt, AllBuilt, RankBuilt, NumbersOf, Centred;
    l := BuildLayout(p.nx, p.ny, procs);
    GridSizes(p, l);
    hs := AssignRanks(l);
    var numbers := NumberRanks(l, hs);
    var xs, ys := PlaceRanks(p, l, hs, numbers);
    ranks := [];
    for q := 0 to procs
      invariant |ranks| == q && forall r :: 0 <= r < q ==> RankBuilt(p, l, r, ranks[r])
    {
      var rank := BuildRank(p, l, q, numbers[q], xs[q], ys[q]);
      ranks := ranks + [rank];
    }
  }

  lemma GridSizes(p: Problem, l: Layout)
    requires IsGrid(l, p.nx, p.ny)
    ensures Setting(l) && l.procs > 0 && |l.owner| == p.nx * p.ny
  {
  }

  method BuildRank(p: Problem, l: Layout, q: nat, n: Numbers, xs: seq<real>, ys: seq<real>) returns (rank: Rank)
    requires UnitSquare(p) && Centred(p, l, q, xs, ys) && p.nx > 0 && p.ny > 0 && Setting(l) && NumbersOf(l, q, n)
    ensures RankBuilt(p, l, q, rank)
  {
    hide UnitSquare, Centred, Setting, Inverse, MeshOf, RowsDistinct, AreasOf, LocalCells;
    var m, qb, area, faceArea := BuildMesh(p, l, q, n.localGlobal, n.globalLocal, n.numSolved, n.numInvolved, xs, ys);
    rank := Rank(m, qb, area, faceArea);
  }

  // ----- compute_time_step -----

  function Least(a: real, b: real): real {
    if a < b then a else b
  }

  /** The rate a rank contributes: nx + ny, or the start value if it owns no cell. */
  function RankRateOf(p: Problem, owned: nat): real {
    if owned == 0 then START else Least((p.nx + p.ny) as real, START)
  }

  /** Every owned cell's area sum. */
  lemma RankAreas(p: Problem, l: Layout, q: nat, r: Rank, k: nat)
    requires UnitSquare(p) && RankBuilt(p, l, q, r) && Shaped(r.mesh) && k < r.mesh.solved
    requires |r.area| == |r.mesh.nbrs| && |r.faceArea| == |r.mesh.faceCell| && k < |r.mesh.volume|
    ensures r.mesh.volume[k] == p.volume > 0.0
    ensures RateOf(AreaSums(r.mesh, r.area, r.faceArea, |r.faceArea|)[k], r.mesh.volume[k]) == (p.nx + p.ny) as real
  {
    hide UnitSquare, RankBuilt, Shaped, RateOf, RowAreas, RowMatches, Width;
    var i, j := RankCell(p, l, q, r, k);
    CellAreas(p, l, q, r.mesh, r.qb, r.area, r.faceArea, k, i, j);
    RateIs(p, 2.0 * Width(p.nx) + 2.0 * Width(p.ny));
  }

  lemma RankCell(p: Problem, l: Layout, q: nat, r: Rank, k: nat) returns (i: int, j: int)
    requires UnitSquare(p) && RankBuilt(p, l, q, r) && k < r.mesh.solved && k < |r.mesh.volume|
    ensures p.nx > 0 && p.ny > 0 && Setting(l) && p.Valid() && |l.owner| == p.nx * p.ny && Shaped(r.mesh)
    ensures |r.faceArea| == |r.mesh.faceCell| == SideStart(l.owner, q, p.nx, p.ny, 4)
    ensures MeshOf(p, l, q, r.mesh, r.qb) && AreasOf(p, l, q, r.mesh, r.area, r.faceArea)
    ensures IsLocal(p, l, q, k, i, j) && RowAreas(p, r.mesh, r.area, k, i, j)
    ensures r.mesh.ends[k + 1] as int - r.mesh.ends[k] as int == |InnerSides(p, i, j)|
    ensures r.mesh.volume[k] == p.volume
  {
    hide InnerSides, EntryMatches, FaceMatches, WholeSide, SideStart, BoundaryArea, LocalCells, Setting,
         GridLayout.RowIs;
    i, j := CellOfLocal(p, l, q, k);
    assert RowMatches(p, l, q, r.mesh, k, i, j);
  }

  method RankRate(ghost p: Problem, ghost l: Layout, ghost q: nat, r: Rank) returns (minValue: real)
    requires UnitSquare(p) && RankBuilt(p, l, q, r) && Shaped(r.mesh) && r.mesh.solved <= |r.mesh.volume|
    requires |r.area| == |r.mesh.nbrs| && |r.faceArea| == |r.mesh.faceCell|
    ensures minValue == RankRateOf(p, r.mesh.solved)
  {
    hide UnitSquare, RankBuilt, Shaped, RateOf;
    var data := SumAreas(r.mesh, r.area, r.faceArea);
    ghost var sums := data[..];
    forall k | 0 <= k < r.mesh.solved
      ensures r.mesh.volume[k] == p.volume > 0.0 && RateOf(sums[k], r.mesh.volume[k]) == (p.nx + p.ny) as real
    {
      RankAreas(p, l, q, r, k);
    }
    minValue := MinimumRate(data, r.mesh.volume);
    if r.mesh.solved > 0 {
      assert RateOf(sums[0], r.mesh.volume[0]) == (p.nx + p.ny) as real;
    }
  }

  /** MPI_Allreduce with MPI_MIN. */
  function AllreduceMin(values: seq<real>): (r: real)
    requires |values| > 0
    ensures r in values && forall k :: 0 <= k < |values| ==> r <= values[k]
  {
    if |values| == 1 then values[0] else Least(AllreduceMin(values[..|values| - 1]), values[|values| - 1])
  }

  /** Some rank owns a cell. */
  lemma SomeRankOwns(p: Problem, l: Layout) returns (q: nat)
    requires p.Valid() && IsGrid(l, p.nx, p.ny)
    ensures q < l.procs && NumOwned(l.owner, q) > 0
  {
    assert p.nx * p.ny > 0;
    q := l.owner[0];
    NumberFindsOwned(l.owner, |l.owner|, 0);
  }

  /** The rates differ only on ranks without cells, which the minimum ignores. */
  lemma LeastRate(p: Problem, l: Layout, rates: seq<real>)
    requires p.Valid() && IsGrid(l, p.nx, p.ny) && |rates| == l.procs > 0
    requires forall q :: 0 <= q < l.procs ==> rates[q] == RankRateOf(p, NumOwned(l.owner, q))
    ensures AllreduceMin(rates) == Least((p.nx + p.ny) as real, START)
  {
    hide IsGrid;
    var q := SomeRankOwns(p, l);
    assert rates[q] == Least((p.nx + p.ny) as real, START);
  }

  /** compute_time_step on all ranks: delta_t does not depend on the partition. */
  method ComputeTimeStep(ghost p: Problem, ghost l: Layout, ranks: seq<Rank>, implicitSolver: bool)
    returns (deltaT: real)
    requires UnitSquare(p) && p.Valid() && IsGrid(l, p.nx, p.ny) && RanksBuilt(p, l, ranks) && |ranks| > 0
    requires (p.nx + p.ny) as real <= START
    ensures deltaT == if implicitSolver then p.dt * 10.0 else p.dt
  {
    hide IsGrid, RankBuilt, UnitSquare;
    var rates := [];
    for q := 0 to |ranks|
      invariant |rates| == q && forall r :: 0 <= r < q ==> rates[r] == RankRateOf(p, NumOwned(l.owner, r))
    {
      RankSizes(p, l, q, ranks[q]);
      var rate := RankRate(p, l, q, ranks[q]);
      rates := rates + [rate];
    }
    LeastRate(p, l, rates);
    var minValue := AllreduceMin(rates);
    StepOf(p, minValue);
    deltaT := 1.0 / (minValue * minValue * 2.0);
    if implicitSolver {
      deltaT := deltaT * 10.0;
    }
  }

  lemma RankSizes(p: Problem, l: Layout, q: nat, r: Rank)
    requires RankBuilt(p, l, q, r)
    ensures Shaped(r.mesh) && r.mesh.solved <= |r.mesh.volume| && |r.area| == |r.mesh.nbrs|
            && |r.faceArea| == |r.mesh.faceCell|
    ensures r.mesh.solved == NumOwned(l.owner, q) && r.mesh.involved == |LocalCells(l, q)|
            && |r.qb| == |r.mesh.faceCell|
  {
  }

  lemma StepOf(p: Problem, rate: real)
    requires UnitSquare(p) && rate == (p.nx + p.ny) as real
    ensures rate * rate * 2.0 != 0.0 && p.dt == 1.0 / (rate * rate * 2.0)
  {
    NonNegative(rate - 1.0, rate - 1.0);
    assert rate >= 1.0;
    assert rate * rate > 0.0;
  }
}
