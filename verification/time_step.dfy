/** compute_time_step: every rank finds the same limit, whatever the partition. */
module TimeStepping {
  import opened RealFacts
  import opened RealSums
  import opened Halo
  import opened GridLayout
  import opened Stencil
  import opened GridGeometry
  import opened BoundaryFaces
  import opened SideSums
  import opened LocalMesh
  import opened RankMesh
  import opened RankBuild
  import opened MeshAssembly

  // ----- the loops -----

  ghost function RowAreaTerms(m: Mesh, area: seq<real>, i: nat): (r: seq<real>)
    requires Shaped(m) && |area| == |m.nbrs| && i < m.solved
    ensures m.ends[i] <= m.ends[i + 1] <= |area| && |r| == m.ends[i + 1] - m.ends[i]
    ensures forall k :: 0 <= k < |r| ==> r[k] == area[m.ends[i] + k]
  {
    assert m.ends[i + 1] <= m.ends[m.solved];
    area[m.ends[i]..m.ends[i + 1]]
  }

  ghost function FaceAreaTerms(m: Mesh, faceArea: seq<real>, i: nat): (r: seq<real>)
    requires |faceArea| == |m.faceCell|
    ensures |r| == |faceArea|
    ensures forall b :: 0 <= b < |r| ==> r[b] == if m.faceCell[b] == i then faceArea[b] else 0.0
  {
    seq(|faceArea|, b requires 0 <= b < |faceArea| => if m.faceCell[b] == i then faceArea[b] else 0.0)
  }

  ghost function AreaSums(m: Mesh, area: seq<real>, faceArea: seq<real>, n: nat): (r: seq<real>)
    requires Shaped(m) && |area| == |m.nbrs| && |faceArea| == |m.faceCell| && n <= |faceArea|
    ensures |r| == m.solved
    ensures forall i :: 0 <= i < |r| ==>
            r[i] == SumOf(RowAreaTerms(m, area, i)) + SumTo(FaceAreaTerms(m, faceArea, i), n)
  {
    seq(m.solved, i requires 0 <= i < m.solved =>
        SumOf(RowAreaTerms(m, area, i)) + SumTo(FaceAreaTerms(m, faceArea, i), n))
  }

  method AddRowAreas(m: Mesh, area: seq<real>, data: array<real>, il: nat)
    requires Shaped(m) && |area| == |m.nbrs| && il < m.solved == data.Length && data[il] == 0.0
    modifies data
    ensures data[..] == old(data[..])[il := SumOf(RowAreaTerms(m, area, il))]
  {
    ghost var terms := RowAreaTerms(m, area, il);
    for jl := m.ends[il] to m.ends[il + 1]
      invariant data[il] == SumTo(terms, jl - m.ends[il])
      invariant forall i :: 0 <= i < data.Length && i != il ==> data[i] == old(data[i])
    {
      data[il] := data[il] + area[jl];
    }
  }

  lemma FaceAreaAdded(m: Mesh, area: seq<real>, faceArea: seq<real>, b: nat)
    requires Shaped(m) && |area| == |m.nbrs| && |faceArea| == |m.faceCell| && b < |faceArea|
    ensures AreaSums(m, area, faceArea, b)[m.faceCell[b] := AreaSums(m, area, faceArea, b)[m.faceCell[b]] + faceArea[b]]
            == AreaSums(m, area, faceArea, b + 1)
  {
  }

  /** The area sums of all owned cells. */
  method SumAreas(m: Mesh, area: seq<real>, faceArea: seq<real>) returns (data: array<real>)
    requires Shaped(m) && |area| == |m.nbrs| && |faceArea| == |m.faceCell|
    ensures fresh(data) && data[..] == AreaSums(m, area, faceArea, |faceArea|)
  {
    hide Shaped;
    data := new real[m.solved](_ => 0.0);
    for il := 0 to m.solved
      invariant forall i :: 0 <= i < il ==> data[i] == SumOf(RowAreaTerms(m, area, i))
      invariant forall i :: il <= i < m.solved ==> data[i] == 0.0
    {
      AddRowAreas(m, area, data, il);
    }
    for b := 0 to |faceArea|
      invariant data[..] == AreaSums(m, area, faceArea, b)
    {
      FaceAreaAdded(m, area, faceArea, b);
      FaceCellInside(m, b);
      var cell := m.faceCell[b];
      ghost var before := data[..];
      data[cell] := data[cell] + faceArea[b];
      assert data[..] == before[cell := before[cell] + faceArea[b]];
    }
  }

  lemma FaceCellInside(m: Mesh, b: nat)
    requires Shaped(m) && b < |m.faceCell|
    ensures 0 <= m.faceCell[b] < m.solved
  {
  }

  const START: real := 1000000000000000000000000000000.0

  function RateOf(areas: real, volume: real): real
    requires volume > 0.0
  {
    areas / (volume * 2.0)
  }

  /** The smallest rate of the owned cells, from the large start value. */
  method MinimumRate(data: array<real>, volume: seq<real>) returns (minValue: real)
    requires data.Length <= |volume| && forall i :: 0 <= i < data.Length ==> volume[i] > 0.0
    modifies data
    ensures minValue <= START
            && (minValue == START || exists i :: 0 <= i < data.Length && minValue == RateOf(old(data[i]), volume[i]))
    ensures forall i :: 0 <= i < data.Length ==> minValue <= RateOf(old(data[i]), volume[i])
  {
    minValue := START;
    for il := 0 to data.Length
      invariant minValue <= START
                && (minValue == START || exists i :: 0 <= i < il && minValue == RateOf(old(data[i]), volume[i]))
      invariant forall i :: 0 <= i < il ==> minValue <= RateOf(old(data[i]), volume[i])
      invariant forall i :: il <= i < data.Length ==> data[i] == old(data[i])
    {
      data[il] := RateOf(data[il], volume[il]);
      if data[il] < minValue {
        minValue := data[il];
      }
    }
  }

  // ----- what they find -----

  lemma BoundaryAreaTerm(p: Problem, l: Layout, q: nat, m: Mesh, qb: seq<real>, faceArea: seq<real>, k: nat, n: nat,
                         t: nat, g: Side -> real)
    requires p.nx > 0 && p.ny > 0 && Setting(l) && p.Valid() && |l.owner| == p.nx * p.ny && |faceArea| == |m.faceCell|
    requires g == ((s: Side) => SideArea(p, s)) && BoundaryArea(p, l.owner, q, faceArea, n, t)
    ensures OuterTerm(p, l, q, m, k, g, FaceAreaTerms(m, faceArea, k), n, t)
  {
    hide Setting, SideStart, SideArea;
    assert g(SideNumber(n)) == SideArea(p, SideNumber(n));
  }

  lemma BoundaryAreasSum(p: Problem, l: Layout, q: nat, m: Mesh, qb: seq<real>, area: seq<real>, faceArea: seq<real>,
                         k: nat, i: int, j: int, g: Side -> real)
    requires p.nx > 0 && p.ny > 0 && Setting(l) && p.Valid() && |l.owner| == p.nx * p.ny && |faceArea| == |m.faceCell|
    requires |faceArea| == SideStart(l.owner, q, p.nx, p.ny, 4)
    requires MeshOf(p, l, q, m, qb) && AreasOf(p, l, q, m, area, faceArea) && IsLocal(p, l, q, k, i, j)
    requires g == ((s: Side) => SideArea(p, s))
    ensures SumOf(FaceAreaTerms(m, faceArea, k)) == OnBoundary(p, i, j, g, Left) + OnBoundary(p, i, j, g, Right)
                                                    + OnBoundary(p, i, j, g, Bottom) + OnBoundary(p, i, j, g, Top)
  {
    hide MeshOf, OnBoundary, Setting, IsLocal, OuterTerm, BoundaryArea, SideNumber, WholeSide, SideStart, RowAreas,
         IsGrid;
    var terms := FaceAreaTerms(m, faceArea, k);
    forall n, t | 0 <= n < 4 && 0 <= t < |WholeSide(l.owner, q, p.nx, p.ny, SideNumber(n))|
      ensures OuterTerm(p, l, q, m, k, g, terms, n, t)
    {
      BoundaryAreaTerm(p, l, q, m, qb, faceArea, k, n, t, g);
    }
    OuterSum(p, l, q, m, qb, k, i, j, g, terms);
  }

  lemma InnerAreasSum(p: Problem, m: Mesh, area: seq<real>, k: nat, i: int, j: int, g: Side -> real)
    requires p.nx > 0 && p.ny > 0 && Shaped(m) && |area| == |m.nbrs| && k < m.solved
    requires m.ends[k + 1] as int - m.ends[k] as int == |InnerSides(p, i, j)|
    requires RowAreas(p, m, area, k, i, j) && g == ((s: Side) => SideArea(p, s))
    ensures SumOf(RowAreaTerms(m, area, k)) == OnInner(p, i, j, g, Left) + OnInner(p, i, j, g, Right)
                                               + OnInner(p, i, j, g, Bottom) + OnInner(p, i, j, g, Top)
  {
    hide OnInner, InnerSides, SideArea;
    var terms := RowAreaTerms(m, area, k);
    forall t | 0 <= t < |InnerSides(p, i, j)|
      ensures terms[t] == g(InnerSides(p, i, j)[t])
    {
      assert EntryArea(p, m, area, k, i, j, t);
    }
    InnerSum(p, i, j, g, terms);
  }

  /** Every cell is surrounded by two faces of each kind. */
  lemma CellAreas(p: Problem, l: Layout, q: nat, m: Mesh, qb: seq<real>, area: seq<real>, faceArea: seq<real>, k: nat,
                  i: int, j: int)
    requires p.nx > 0 && p.ny > 0 && Setting(l) && p.Valid() && |l.owner| == p.nx * p.ny && Shaped(m)
             && |area| == |m.nbrs|
    requires |faceArea| == |m.faceCell| == SideStart(l.owner, q, p.nx, p.ny, 4)
    requires MeshOf(p, l, q, m, qb) && AreasOf(p, l, q, m, area, faceArea) && IsLocal(p, l, q, k, i, j) && k < m.solved
    requires RowAreas(p, m, area, k, i, j) && m.ends[k + 1] as int - m.ends[k] as int == |InnerSides(p, i, j)|
    ensures SumOf(RowAreaTerms(m, area, k)) + SumOf(FaceAreaTerms(m, faceArea, k))
            == 2.0 * Width(p.nx) + 2.0 * Width(p.ny)
  {
    hide MeshOf, AreasOf, Setting, IsLocal, RowAreas, InnerSides, SideStart, Shaped, Width, HasNeighbour;
    var g := (s: Side) => SideArea(p, s);
    BoundaryAreasSum(p, l, q, m, qb, area, faceArea, k, i, j, g);
    InnerAreasSum(p, m, area, k, i, j, g);
    EitherSide(p, i, j, g, Left);
    EitherSide(p, i, j, g, Right);
    EitherSide(p, i, j, g, Bottom);
    EitherSide(p, i, j, g, Top);
  }

  lemma EitherSide(p: Problem, i: int, j: int, g: Side -> real, s: Side)
    ensures OnInner(p, i, j, g, s) + OnBoundary(p, i, j, g, s) == g(s)
  {
  }

  /** So every cell has the same rate: nx + ny. */
  lemma RateIs(p: Problem, areas: real)
    requires UnitSquare(p) && p.nx > 0 && p.ny > 0 && areas == 2.0 * Width(p.nx) + 2.0 * Width(p.ny)
    ensures p.volume > 0.0 && RateOf(areas, p.volume) == (p.nx + p.ny) as real
  {
    WidthTimes(p.nx);
    WidthTimes(p.ny);
    RateAlgebra(Width(p.nx), Width(p.ny), p.nx as real, p.ny as real);
  }

  lemma RateAlgebra(a: real, b: real, x: real, y: real)
    requires a > 0.0 && b > 0.0 && a * x == 1.0 && b * y == 1.0
    ensures a * b > 0.0 && (2.0 * a + 2.0 * b) / (a * b * 2.0) == x + y
  {
    var v := a * b;
    assert v * x == b && v * y == a;
    Quotient(2.0 * a + 2.0 * b, v * 2.0);
    var r := (2.0 * a + 2.0 * b) / (v * 2.0);
    assert (r - (x + y)) * v == 0.0;
  }
}
