/** Building every rank's mesh, from the grid size to the boundary values. */
module MeshAssembly {
  import opened GridTopology
  import opened Renumbering
  import opened Halo
  import opened HaloExchange
  import opened HaloTransfer
  import opened GridLayout
  import opened LocalAdjacency
  import opened Stencil
  import opened GridGeometry
  import opened FaceGeometry
  import opened BoundaryFaces
  import opened SideSums
  import opened LocalMesh
  import opened RankMesh
  import opened RankBuild

  // ----- the boundary of one rank -----

  /** The grid, the sizes and the local numbers a rank's boundary loops work with. */
  ghost predicate Surveyed(p: Problem, l: Layout, q: nat, globalLocal: seq<int>, xs: seq<real>, ys: seq<real>) {
    && p.nx > 0 && p.ny > 0 && Setting(l) && |l.owner| == p.nx * p.ny && Located(l, q, globalLocal)
    && |xs| == |ys| == |LocalCells(l, q)| && NumOwned(l.owner, q) <= |xs|
  }

  lemma SurveyedNumbers(p: Problem, l: Layout, q: nat, globalLocal: seq<int>, xs: seq<real>, ys: seq<real>)
    requires Surveyed(p, l, q, globalLocal, xs, ys)
    ensures AllNumbered(l.owner, q, globalLocal, xs, ys)
  {
  }

  ghost predicate FacesListed(p: Problem, l: Layout, q: nat, globalLocal: seq<int>, xs: seq<real>, ys: seq<real>,
                              faces: seq<Face>) {
    && Surveyed(p, l, q, globalLocal, xs, ys) && AllNumbered(l.owner, q, globalLocal, xs, ys)
    && faces == FirstSides(l.owner, q, p.nx, p.ny, globalLocal, xs, ys, 4)
  }

  /** Position b holds the face of a side at local cell k. */
  ghost predicate FaceAtCell(p: Problem, s: Side, xs: seq<real>, ys: seq<real>, faces: seq<Face>, b: nat, k: int) {
    && p.nx > 0 && p.ny > 0 && b < |faces| && 0 <= k < |xs| == |ys|
    && faces[b] == FaceOn(p.nx, p.ny, s, k, xs[k], ys[k])
  }

  /** The t-th face of side n is at the t-th owned cell of the side. */
  lemma ListedFace(p: Problem, l: Layout, q: nat, globalLocal: seq<int>, xs: seq<real>, ys: seq<real>, faces: seq<Face>,
                   n: nat, t: nat) returns (k: nat)
    requires FacesListed(p, l, q, globalLocal, xs, ys, faces) && Setting(l) && p.nx > 0 && p.ny > 0
             && |l.owner| == p.nx * p.ny
    requires n < 4 && t < |WholeSide(l.owner, q, p.nx, p.ny, SideNumber(n))|
    ensures k < NumOwned(l.owner, q) && k < |LocalCells(l, q)|
    ensures LocalCells(l, q)[k] == WholeSide(l.owner, q, p.nx, p.ny, SideNumber(n))[t]
    ensures FaceAtCell(p, SideNumber(n), xs, ys, faces, SideStart(l.owner, q, p.nx, p.ny, n) + t, k)
  {
    hide FaceOn, SideNumber, SideStart, WholeSide, FirstSides;
    var c := WholeSide(l.owner, q, p.nx, p.ny, SideNumber(n))[t];
    SideOwned(l.owner, q, p.nx, p.ny, SideNumber(n), t);
    FirstSidesAt(l.owner, q, p.nx, p.ny, globalLocal, xs, ys, 4, n, t);
    k := globalLocal[c];
    LocalCellsInRange(l, q, k);
  }

  ghost predicate FaceMeasured(p: Problem, s: Side, xs: seq<real>, ys: seq<real>, faces: seq<Face>, b: nat) {
    && b < |faces| && 0 <= faces[b].cell < |xs| == |ys| && FaceDistance(faces[b], xs, ys) != 0.0
    && FaceRdista(faces[b], xs, ys) == 2.0 * Weight(p, s)
  }

  /** It is half a cell away from the centre. */
  lemma ListedFaceMeasures(p: Problem, l: Layout, q: nat, xs: seq<real>, ys: seq<real>, faces: seq<Face>, n: nat,
                           t: nat, b: nat, k: nat)
    requires UnitSquare(p) && Centred(p, l, q, xs, ys) && Setting(l) && |l.owner| == p.nx * p.ny
    requires n < 4 && t < |WholeSide(l.owner, q, p.nx, p.ny, SideNumber(n))|
    requires k < |LocalCells(l, q)| && LocalCells(l, q)[k] == WholeSide(l.owner, q, p.nx, p.ny, SideNumber(n))[t]
    requires FaceAtCell(p, SideNumber(n), xs, ys, faces, b, k)
    ensures FaceMeasured(p, SideNumber(n), xs, ys, faces, b) && b < |faces| && faces[b].cell == k
  {
    hide FaceOn, SideNumber, WholeSide, AtSide, FaceDistance, FaceRdista, Centred, Setting, LocalCells, Cell, IsCell,
         Centre;
    var s := SideNumber(n);
    var i, j := ListedCell(l.owner, q, p.nx, p.ny, s, t);
    SideInGrid(p, s, i, j);
    CentreOf(p, l, q, xs, ys, k, i, j);
    FaceOnCell(p.nx, p.ny, s, k, xs[k], ys[k]);
    BoundaryFaceIs(p.nx, p.ny, s, faces[b], i, j, xs, ys);
  }

  lemma FaceOnCell(nx: nat, ny: nat, s: Side, cell: int, x: real, y: real)
    requires nx > 0 && ny > 0
    ensures FaceOn(nx, ny, s, cell, x, y).cell == cell
  {
  }

  lemma SideOwned(owner: seq<nat>, q: nat, nx: nat, ny: nat, s: Side, t: nat)
    requires nx > 0 && ny > 0 && |owner| == nx * ny && t < |WholeSide(owner, q, nx, ny, s)|
    ensures WholeSide(owner, q, nx, ny, s)[t] < |owner| && owner[WholeSide(owner, q, nx, ny, s)[t]] == q
  {
  }

  lemma SideInGrid(p: Problem, s: Side, i: int, j: int)
    requires UnitSquare(p) && AtSide(p.nx, p.ny, s, i, j)
    ensures IsCell(p, i, j)
  {
    UnitSquareValid(p);
  }

  lemma AnyFace(p: Problem, l: Layout, q: nat, globalLocal: seq<int>, xs: seq<real>, ys: seq<real>, faces: seq<Face>,
                b: nat)
    requires UnitSquare(p) && Centred(p, l, q, xs, ys) && FacesListed(p, l, q, globalLocal, xs, ys, faces)
    requires Setting(l) && p.nx > 0 && p.ny > 0 && |l.owner| == p.nx * p.ny
    requires b < SideStart(l.owner, q, p.nx, p.ny, 4)
    ensures b < |faces| && 0 <= faces[b].cell < NumOwned(l.owner, q) && faces[b].cell < |xs| == |ys|
    ensures FaceDistance(faces[b], xs, ys) != 0.0
  {
    hide UnitSquare, Centred, FacesListed, Setting, SideStart, WholeSide, FaceDistance, FaceAtCell, Weight, SideNumber;
    var n, t := FaceOfIndex(l.owner, q, p.nx, p.ny, b);
    var k := ListedFace(p, l, q, globalLocal, xs, ys, faces, n, t);
    ListedFaceMeasures(p, l, q, xs, ys, faces, n, t, b, k);
  }

  lemma ListedApart(p: Problem, l: Layout, q: nat, globalLocal: seq<int>, xs: seq<real>, ys: seq<real>,
                    faces: seq<Face>)
    requires UnitSquare(p) && Centred(p, l, q, xs, ys) && FacesListed(p, l, q, globalLocal, xs, ys, faces)
    ensures FacesApart(faces, xs, ys) && forall b :: 0 <= b < |faces| ==> faces[b].cell < NumOwned(l.owner, q)
  {
    assert |faces| == SideStart(l.owner, q, p.nx, p.ny, 4) && |xs| == |ys|;
    forall b | 0 <= b < |faces|
      ensures 0 <= faces[b].cell < NumOwned(l.owner, q) && faces[b].cell < |xs| == |ys|
              && FaceDistance(faces[b], xs, ys) != 0.0
    {
      hide UnitSquare, Centred, SideStart, FaceDistance, Located, AllNumbered, FirstSides;
      AnyFace(p, l, q, globalLocal, xs, ys, faces, b);
    }
  }

  /** The value of every face's side. */
  lemma BoundaryValueOf(p: Problem, owner: seq<nat>, q: nat, starts: seq<nat>, b: nat, n: nat, t: nat)
    requires p.Valid() && |owner| == p.nx * p.ny && n < 4 && t < |WholeSide(owner, q, p.nx, p.ny, SideNumber(n))|
    requires |starts| == 5 && StartsOf(p, owner, q, starts)
    requires b == SideStart(owner, q, p.nx, p.ny, n) + t
    ensures p.Boundary(SideNumber(n)) == SideValueAt(starts, p.left, p.right, p.bottom, p.top, b)
  {
    assert starts[n + 1] == starts[n] + |WholeSide(owner, q, p.nx, p.ny, SideNumber(n))|;
    SideStartGrows(owner, q, p.nx, p.ny, n + 1, 4);
    SideStartGrows(owner, q, p.nx, p.ny, 1, 4);
    SideStartGrows(owner, q, p.nx, p.ny, 2, 4);
    if n >= 1 { SideStartGrows(owner, q, p.nx, p.ny, 1, n); }
    if n >= 2 { SideStartGrows(owner, q, p.nx, p.ny, 2, n); }
    if n >= 3 { SideStartGrows(owner, q, p.nx, p.ny, 3, n); }
    assert b < starts[n + 1] && starts[n] <= b;
    hide WholeSide, SideStart;
  }

  // ----- one rank -----

  /** Every face's rdista and boundary value are what the two loops computed. */
  ghost predicate BoundaryComputed(p: Problem, xs: seq<real>, ys: seq<real>, m: Mesh, qb: seq<real>, faces: seq<Face>,
                                   starts: seq<nat>, b: int) {
    && |starts| == 5 && 0 <= b < |faces| == |m.faceCell| == |m.faceRdista| == |qb|
    && m.faceCell[b] == faces[b].cell
    && (0 <= faces[b].cell < |xs| == |ys| && FaceDistance(faces[b], xs, ys) != 0.0 ==>
          m.faceRdista[b] == FaceRdista(faces[b], xs, ys))
    && qb[b] == SideValueAt(starts, p.left, p.right, p.bottom, p.top, b)
  }

  ghost predicate StartsOf(p: Problem, owner: seq<nat>, q: nat, starts: seq<nat>) {
    && p.nx > 0 && p.ny > 0 && |owner| == p.nx * p.ny
    && |starts| == 5 && forall k: nat :: k <= 4 ==> starts[k] == SideStart(owner, q, p.nx, p.ny, k)
  }

  lemma FaceMatchesFrom(p: Problem, l: Layout, q: nat, m: Mesh, qb: seq<real>, xs: seq<real>, ys: seq<real>,
                        faces: seq<Face>, starts: seq<nat>, n: nat, t: nat, b: nat, k: nat)
    requires Setting(l) && p.Valid() && |l.owner| == p.nx * p.ny && n < 4
             && t < |WholeSide(l.owner, q, p.nx, p.ny, SideNumber(n))|
    requires b == SideStart(l.owner, q, p.nx, p.ny, n) + t
    requires k < |LocalCells(l, q)| && LocalCells(l, q)[k] == WholeSide(l.owner, q, p.nx, p.ny, SideNumber(n))[t]
    requires FaceMeasured(p, SideNumber(n), xs, ys, faces, b) && b < |faces| && faces[b].cell == k
    requires BoundaryComputed(p, xs, ys, m, qb, faces, starts, b)
    requires p.Boundary(SideNumber(n)) == SideValueAt(starts, p.left, p.right, p.bottom, p.top, b)
    ensures FaceMatches(p, l, q, m, qb, n, t)
  {
    hide Setting, LocalCells, WholeSide, SideStart, SideNumber, Weight, FaceDistance, FaceRdista, SideValueAt;
  }

  lemma PieceOfBoundary(p: Problem, l: Layout, q: nat, globalLocal: seq<int>, xs: seq<real>, ys: seq<real>, m: Mesh,
                        qb: seq<real>, faces: seq<Face>, starts: seq<nat>, n: nat, t: nat)
    requires UnitSquare(p) && Centred(p, l, q, xs, ys) && FacesListed(p, l, q, globalLocal, xs, ys, faces)
    requires Setting(l) && p.Valid() && p.nx > 0 && p.ny > 0 && |l.owner| == p.nx * p.ny
    requires StartsOf(p, l.owner, q, starts) && |starts| == 5
    requires n < 4 && t < |WholeSide(l.owner, q, p.nx, p.ny, SideNumber(n))|
    requires BoundaryComputed(p, xs, ys, m, qb, faces, starts, SideStart(l.owner, q, p.nx, p.ny, n) + t)
    ensures FaceMatches(p, l, q, m, qb, n, t)
  {
    hide *;
    var b := SideStart(l.owner, q, p.nx, p.ny, n) + t;
    var k := ListedFace(p, l, q, globalLocal, xs, ys, faces, n, t);
    ListedFaceMeasures(p, l, q, xs, ys, faces, n, t, b, k);
    BoundaryValueOf(p, l.owner, q, starts, b, n, t);
    FaceMatchesFrom(p, l, q, m, qb, xs, ys, faces, starts, n, t, b, k);
  }

  lemma RowsDiffer(p: Problem, l: Layout, q: nat, m: Mesh, a: int, e: int)
    requires p.Valid() && IsGrid(l, p.nx, p.ny) && m.solved == NumOwned(l.owner, q) <= |LocalCells(l, q)|
    requires forall k, i, j :: IsLocal(p, l, q, k, i, j) ==> RowMatches(p, l, q, m, k, i, j)
    requires LocalMesh.InRow(m, a, e) && e < |m.nbrs|
    ensures m.nbrs[e] != a && 0 <= m.nbrs[e] < |LocalCells(l, q)|
    ensures forall f :: LocalMesh.InRow(m, a, f) && e < f < |m.nbrs| ==> m.nbrs[e] != m.nbrs[f]
  {
    var i, j := CellOfLocal(p, l, q, a);
    assert RowMatches(p, l, q, m, a, i, j);
    var t := e - m.ends[a];
    assert EntryMatches(p, l, q, m, a, i, j, t);
    InnerSideIs(p, i, j, t);
    CellSelf(p, i, j, t);
    forall f | LocalMesh.InRow(m, a, f) && e < f < |m.nbrs|
      ensures m.nbrs[e] != m.nbrs[f]
    {
      assert EntryMatches(p, l, q, m, a, i, j, f - m.ends[a]);
      InnerSideIs(p, i, j, f - m.ends[a]);
      NeighboursDistinct(p.nx, p.ny, i, j, t, f - m.ends[a]);
    }
  }

  lemma CellSelf(p: Problem, i: int, j: int, t: nat)
    requires IsCell(p, i, j) && t < Degree(p.nx, p.ny, i, j)
    ensures Neighbours(p.nx, p.ny, i, j)[t] != Cell(p.nx, i, j)
  {
    var at := NeighbourAt(p.nx, p.ny, i, j, t);
    CellInjective(p.nx, p.ny, at.0, at.1, i, j);
  }

  /** The pieces of one rank's mesh, as the loops leave them. */
  ghost predicate Pieces(p: Problem, l: Layout, q: nat, globalLocal: seq<int>, xs: seq<real>, ys: seq<real>, m: Mesh,
                         qb: seq<real>, faces: seq<Face>, starts: seq<nat>) {
    && UnitSquare(p) && Centred(p, l, q, xs, ys) && FacesListed(p, l, q, globalLocal, xs, ys, faces)
    && StartsOf(p, l.owner, q, starts)
    && InnerBuilt(p, l, q, m.ends, m.nbrs, xs, ys, m.rdista) && RowsFit(m.ends, m.nbrs, xs, ys)
    && m.solved == NumOwned(l.owner, q) && m.involved == |LocalCells(l, q)| && |m.volume| == m.involved
    && (forall k :: 0 <= k < m.solved ==> m.volume[k] == p.volume)
    && |faces| == |m.faceCell| == |m.faceRdista| == |qb|
    && (forall b :: 0 <= b < |faces| ==> BoundaryComputed(p, xs, ys, m, qb, faces, starts, b))
  }

  lemma PiecesSized(p: Problem, l: Layout, q: nat, globalLocal: seq<int>, xs: seq<real>, ys: seq<real>, m: Mesh,
                    qb: seq<real>, faces: seq<Face>, starts: seq<nat>)
    requires Pieces(p, l, q, globalLocal, xs, ys, m, qb, faces, starts)
    ensures MeshSized(p, l, q, m, qb)
  {
    hide InnerBuilt, BoundaryComputed, IsGrid, UnitSquare, Located, FirstSides, FaceDistance;
    UnitSquareValid(p);
    ListedApart(p, l, q, globalLocal, xs, ys, faces);
    RowEndsCount(p, l, q, m.ends, m.nbrs, xs, ys, m.rdista);
    forall b | 0 <= b < |m.faceCell|
      ensures m.faceCell[b] == faces[b].cell
    {
      FaceCellOf(p, xs, ys, m, qb, faces, starts, b);
    }
  }

  lemma RowEndsCount(p: Problem, l: Layout, q: nat, ends: seq<nat>, nbrs: seq<int>, xs: seq<real>, ys: seq<real>,
                     rdista: seq<real>)
    requires InnerBuilt(p, l, q, ends, nbrs, xs, ys, rdista)
    ensures Setting(l) && |ends| == NumOwned(l.owner, q) + 1 && ends[0] == 0 && |rdista| == |nbrs|
  {
  }

  lemma FaceCellOf(p: Problem, xs: seq<real>, ys: seq<real>, m: Mesh, qb: seq<real>, faces: seq<Face>, starts: seq<nat>,
                   b: int)
    requires BoundaryComputed(p, xs, ys, m, qb, faces, starts, b)
    ensures 0 <= b < |faces| == |m.faceCell| && m.faceCell[b] == faces[b].cell
  {
  }

  lemma PiecesMatch(p: Problem, l: Layout, q: nat, globalLocal: seq<int>, xs: seq<real>, ys: seq<real>, m: Mesh,
                    qb: seq<real>, faces: seq<Face>, starts: seq<nat>)
    requires Pieces(p, l, q, globalLocal, xs, ys, m, qb, faces, starts) && MeshSized(p, l, q, m, qb)
    requires Setting(l) && p.Valid() && p.nx > 0 && p.ny > 0 && |l.owner| == p.nx * p.ny
    ensures MeshOf(p, l, q, m, qb)
  {
    hide InnerBuilt, BoundaryComputed, IsGrid, UnitSquare, Located, FirstSides, Centred, FacesListed, StartsOf, RowsFit,
         SideNumber, Setting, RowMatches, FaceMatches, Shaped, WholeSide;
    forall k, i, j | IsLocal(p, l, q, k, i, j)
      ensures RowMatches(p, l, q, m, k, i, j)
    {
      InnerRowBuilt(p, l, q, m, xs, ys, k, i, j);
    }
    forall n, t | 0 <= n < 4 && 0 <= t < |WholeSide(l.owner, q, p.nx, p.ny, SideNumber(n))|
      ensures FaceMatches(p, l, q, m, qb, n, t)
    {
      var b := SideStart(l.owner, q, p.nx, p.ny, n) + t;
      var k := ListedFace(p, l, q, globalLocal, xs, ys, faces, n, t);
      FaceAtCellBound(p, SideNumber(n), xs, ys, faces, b, k);
      assert BoundaryComputed(p, xs, ys, m, qb, faces, starts, b);
      StartsCount(p, l.owner, q, starts);
      PieceOfBoundary(p, l, q, globalLocal, xs, ys, m, qb, faces, starts, n, t);
    }
  }

  lemma FaceAtCellBound(p: Problem, s: Side, xs: seq<real>, ys: seq<real>, faces: seq<Face>, b: nat, k: int)
    requires FaceAtCell(p, s, xs, ys, faces, b, k)
    ensures b < |faces|
  {
  }

  lemma StartsCount(p: Problem, owner: seq<nat>, q: nat, starts: seq<nat>)
    requires StartsOf(p, owner, q, starts)
    ensures |starts| == 5
  {
  }

  lemma MeshRowsDistinct(p: Problem, l: Layout, q: nat, m: Mesh, qb: seq<real>)
    requires MeshOf(p, l, q, m, qb)
    ensures RowsDistinct(m)
  {
    assert p.Valid() && IsGrid(l, p.nx, p.ny) && m.solved == NumOwned(l.owner, q) <= |LocalCells(l, q)|;
    forall i, e | LocalMesh.InRow(m, i, e) && e < |m.nbrs|
      ensures m.nbrs[e] != i
      ensures forall f :: LocalMesh.InRow(m, i, f) && e < f < |m.nbrs| ==> m.nbrs[e] != m.nbrs[f]
    {
      RowsDiffer(p, l, q, m, i, e);
    }
  }

  function CellsOf(faces: seq<Face>): (r: seq<int>)
    ensures |r| == |faces| && forall b :: 0 <= b < |r| ==> r[b] == faces[b].cell
  {
    seq(|faces|, b requires 0 <= b < |faces| => faces[b].cell)
  }

  /** The area of every inner face follows from its normal. */
  ghost predicate AreasMeasured(p: Problem, ends: seq<nat>, nbrs: seq<int>, xs: seq<real>, ys: seq<real>,
                                area: seq<real>) {
    forall i, j :: RowEntry(ends, i, j) && 0 <= j < ends[|ends| - 1] ==> AreaMeasured(p, nbrs, xs, ys, area, i, j)
  }

  ghost predicate AreaMeasured(p: Problem, nbrs: seq<int>, xs: seq<real>, ys: seq<real>, area: seq<real>, i: int,
                               j: int) {
    && p.nx > 0 && p.ny > 0 && |area| == |nbrs| && 0 <= i < |xs| == |ys| && 0 <= j < |nbrs| && 0 <= nbrs[j] < |xs|
    && area[j] == FaceArea(Width(p.nx), Width(p.ny), Delta(xs, nbrs, i, j), Delta(ys, nbrs, i, j))
  }

  lemma AreasFromNormals(p: Problem, ends: seq<nat>, nbrs: seq<int>, xs: seq<real>, ys: seq<real>,
                         area: seq<real>, normalX: seq<real>, normalY: seq<real>)
    requires p.nx > 0 && p.ny > 0 && |ends| > 0
    requires NormalsBefore(ends, nbrs, xs, ys, Width(p.nx), Width(p.ny), area, normalX, normalY, ends[|ends| - 1])
    ensures AreasMeasured(p, ends, nbrs, xs, ys, area)
  {
    hide FaceArea, Width;
    forall i, j | RowEntry(ends, i, j) && 0 <= j < ends[|ends| - 1]
      ensures AreaMeasured(p, nbrs, xs, ys, area, i, j)
    {
      assert NormalAt(nbrs, xs, ys, Width(p.nx), Width(p.ny), area, normalX, normalY, i, j);
    }
  }

  /** The areas of a rank's faces, as compute_time_step adds them up. */
  ghost predicate AreasOf(p: Problem, l: Layout, q: nat, m: Mesh, area: seq<real>, faceArea: seq<real>) {
    && p.Valid() && IsGrid(l, p.nx, p.ny) && |l.owner| == p.nx * p.ny
    && (forall k, i, j :: IsLocal(p, l, q, k, i, j) ==> RowAreas(p, m, area, k, i, j))
    && (forall n, t :: 0 <= n < 4 && 0 <= t < |WholeSide(l.owner, q, p.nx, p.ny, SideNumber(n))| ==>
          BoundaryArea(p, l.owner, q, faceArea, n, t))
  }

  ghost predicate RowAreas(p: Problem, m: Mesh, area: seq<real>, k: int, i: int, j: int)
    requires p.nx > 0 && p.ny > 0
  {
    && 0 <= k < |m.ends| && |area| == |m.nbrs|
    && forall t :: 0 <= t < |InnerSides(p, i, j)| ==> EntryArea(p, m, area, k, i, j, t)
  }

  /** The area of the face at the t-th inner side of cell (i, j), local cell k. */
  ghost predicate EntryArea(p: Problem, m: Mesh, area: seq<real>, k: int, i: int, j: int, t: int)
    requires p.nx > 0 && p.ny > 0
  {
    && 0 <= k < |m.ends| && 0 <= t < |InnerSides(p, i, j)| && m.ends[k] + t < |area|
    && area[m.ends[k] + t] == SideArea(p, InnerSides(p, i, j)[t])
  }

  ghost predicate BoundaryArea(p: Problem, owner: seq<nat>, q: nat, faceArea: seq<real>, n: int, t: int)
    requires p.nx > 0 && p.ny > 0 && |owner| == p.nx * p.ny
  {
    && 0 <= n < 4 && 0 <= t && SideStart(owner, q, p.nx, p.ny, n) + t < |faceArea|
    && faceArea[SideStart(owner, q, p.nx, p.ny, n) + t] == SideArea(p, SideNumber(n))
  }

  lemma EntryAreaFrom(p: Problem, l: Layout, q: nat, m: Mesh, xs: seq<real>, ys: seq<real>, area: seq<real>, k: nat,
                      i: int, j: int, t: nat)
    requires UnitSquare(p) && Centred(p, l, q, xs, ys) && IsLocal(p, l, q, k, i, j) && IsCell(p, i, j) && Setting(l)
    requires InnerBuilt(p, l, q, m.ends, m.nbrs, xs, ys, m.rdista) && AreasMeasured(p, m.ends, m.nbrs, xs, ys, area)
             && |area| == |m.nbrs|
    requires p.Valid() && IsGrid(l, p.nx, p.ny) && k < NumOwned(l.owner, q) <= |LocalCells(l, q)|
             && t < |InnerSides(p, i, j)|
    ensures EntryArea(p, m, area, k, i, j, t)
  {
    hide UnitSquare, Centred, IsLocal, IsCell, RowLocal, IsGrid, LocalCells, InnerSides, SideArea, FaceArea, Distance,
         Weight, Delta;
    assert RowLocal(l, q, m.ends, m.nbrs, k);
    LocalRowIs(p, l, q, m.ends, m.nbrs, k, i, j, t);
    EntryGeometry(p, l, q, m.ends, m.nbrs, xs, ys, k, i, j, t);
    EndsInOrder(l, q, m.ends);
    assert RowEntry(m.ends, k, m.ends[k] + t);
    assert AreaMeasured(p, m.nbrs, xs, ys, area, k, m.ends[k] + t);
  }

  lemma RowAreasFrom(p: Problem, l: Layout, q: nat, m: Mesh, xs: seq<real>, ys: seq<real>, area: seq<real>, k: nat,
                     i: int, j: int)
    requires UnitSquare(p) && Centred(p, l, q, xs, ys) && IsLocal(p, l, q, k, i, j) && IsCell(p, i, j) && Setting(l)
    requires InnerBuilt(p, l, q, m.ends, m.nbrs, xs, ys, m.rdista) && AreasMeasured(p, m.ends, m.nbrs, xs, ys, area)
             && |area| == |m.nbrs|
    requires p.Valid() && IsGrid(l, p.nx, p.ny) && k < NumOwned(l.owner, q) <= |LocalCells(l, q)|
    ensures RowAreas(p, m, area, k, i, j)
  {
    hide UnitSquare, Centred, IsLocal, IsCell, RowLocal, IsGrid, LocalCells, InnerSides, AreasMeasured, EntryArea;
    RowEndsCount(p, l, q, m.ends, m.nbrs, xs, ys, m.rdista);
    forall t | 0 <= t < |InnerSides(p, i, j)|
      ensures EntryArea(p, m, area, k, i, j, t)
    {
      EntryAreaFrom(p, l, q, m, xs, ys, area, k, i, j, t);
    }
  }

  lemma BoundaryAreaFrom(p: Problem, l: Layout, q: nat, xs: seq<real>, ys: seq<real>, faces: seq<Face>, n: nat, t: nat,
                         k: nat)
    requires p.nx > 0 && p.ny > 0 && |l.owner| == p.nx * p.ny && n < 4
    requires FaceAtCell(p, SideNumber(n), xs, ys, faces, SideStart(l.owner, q, p.nx, p.ny, n) + t, k)
    ensures BoundaryArea(p, l.owner, q, AreasOn(faces), n, t)
  {
    hide SideStart, Width;
  }

  function AreasOn(faces: seq<Face>): (r: seq<real>)
    ensures |r| == |faces| && forall b :: 0 <= b < |r| ==> r[b] == faces[b].area
  {
    seq(|faces|, b requires 0 <= b < |faces| => faces[b].area)
  }

  lemma AreasBuilt(p: Problem, l: Layout, q: nat, globalLocal: seq<int>, m: Mesh, xs: seq<real>, ys: seq<real>,
                   area: seq<real>, faces: seq<Face>)
    requires UnitSquare(p) && Centred(p, l, q, xs, ys) && p.Valid() && Setting(l) && p.nx > 0 && p.ny > 0
             && |l.owner| == p.nx * p.ny
    requires InnerBuilt(p, l, q, m.ends, m.nbrs, xs, ys, m.rdista) && AreasMeasured(p, m.ends, m.nbrs, xs, ys, area)
             && |area| == |m.nbrs|
    requires FacesListed(p, l, q, globalLocal, xs, ys, faces)
    ensures AreasOf(p, l, q, m, area, AreasOn(faces))
  {
    hide UnitSquare, Centred, InnerBuilt, AreasMeasured, FacesListed, Setting, IsGrid, RowAreas, BoundaryArea,
         SideNumber, SideStart, WholeSide, FaceAtCell, LocalCells;
    CentredGrid(p, l, q, xs, ys);
    forall k, i, j | IsLocal(p, l, q, k, i, j)
      ensures RowAreas(p, m, area, k, i, j)
    {
      RowAreasFrom(p, l, q, m, xs, ys, area, k, i, j);
    }
    forall n, t | 0 <= n < 4 && 0 <= t < |WholeSide(l.owner, q, p.nx, p.ny, SideNumber(n))|
      ensures BoundaryArea(p, l.owner, q, AreasOn(faces), n, t)
    {
      var k := ListedFace(p, l, q, globalLocal, xs, ys, faces, n, t);
      BoundaryAreaFrom(p, l, q, xs, ys, faces, n, t, k);
    }
  }

  /** The inner faces of one rank. */
  method BuildInner(p: Problem, l: Layout, q: nat, localGlobal: seq<int>, globalLocal: seq<int>, numSolved: nat,
                    xs: seq<real>, ys: seq<real>)
    returns (ends: seq<nat>, nbrs: seq<int>, rdista: seq<real>, area: seq<real>)
    requires UnitSquare(p) && Centred(p, l, q, xs, ys) && numSolved == NumOwned(l.owner, q) && Setting(l) && p.nx > 0
             && p.ny > 0
    requires Inverse(localGlobal, globalLocal, LocalCells(l, q), |LocalCells(l, q)|) && |globalLocal| == |l.owner|
    ensures InnerBuilt(p, l, q, ends, nbrs, xs, ys, rdista) && RowsFit(ends, nbrs, xs, ys)
    ensures AreasMeasured(p, ends, nbrs, xs, ys, area) && |area| == |nbrs|
  {
    hide UnitSquare, Centred, IsGrid, RowLocal, Inverse, NormalsBefore, RdistaBefore, CentresApart, RowsFit;
    CentredGrid(p, l, q, xs, ys);
    var endsArray, nbrsArray := BuildLocalAdjacency(l, q, localGlobal, globalLocal, numSolved);
    ends, nbrs := endsArray[..], nbrsArray[..];
    RowsFitLocal(p, l, q, ends, nbrs, xs, ys);
    LocalCentresApart(p, l, q, ends, nbrs, xs, ys);
    var areaArray, normalX, normalY := FacesOf(ends, nbrs, xs, ys, Width(p.nx), Width(p.ny));
    area := areaArray[..];
    var rdistaArray := ComputeRdist(ends, nbrs, xs, ys, Width(p.nx), Width(p.ny), area, normalX[..], normalY[..]);
    rdista := rdistaArray[..];
    AreasFromNormals(p, ends, nbrs, xs, ys, area, normalX[..], normalY[..]);
  }

  /** The boundary faces of one rank, with their rdista and values. */
  method BuildBoundary(p: Problem, l: Layout, q: nat, globalLocal: seq<int>, xs: seq<real>, ys: seq<real>)
    returns (faces: seq<Face>, faceRdista: seq<real>, qb: seq<real>, starts: seq<nat>)
    requires UnitSquare(p) && Centred(p, l, q, xs, ys) && Surveyed(p, l, q, globalLocal, xs, ys)
    requires p.nx > 0 && p.ny > 0 && |l.owner| == p.nx * p.ny && |xs| == |ys|
    ensures FacesListed(p, l, q, globalLocal, xs, ys, faces) && StartsOf(p, l.owner, q, starts) && |starts| == 5
    ensures |faces| == |faceRdista| == |qb| && FacesApart(faces, xs, ys)
    ensures forall b :: 0 <= b < |faces| ==> faceRdista[b] == FaceRdista(faces[b], xs, ys)
    ensures forall b :: 0 <= b < |qb| ==> qb[b] == SideValueAt(starts, p.left, p.right, p.bottom, p.top, b)
  {
    hide UnitSquare, Centred, Located, SideStart, FirstSides, FaceDistance, FaceRdista, SideValueAt, Setting,
         LocalCells, AllNumbered;
    SurveyedNumbers(p, l, q, globalLocal, xs, ys);
    var faceArray, startArray := ListBoundary(l.owner, q, p.nx, p.ny, globalLocal, xs, ys);
    faces, starts := faceArray[..], startArray[..];
    ListedApart(p, l, q, globalLocal, xs, ys, faces);
    var rdistaArray := BoundaryRdist(faces, xs, ys);
    faceRdista := rdistaArray[..];
    StartsOrdered(p, l.owner, q, globalLocal, xs, ys, starts);
    var values := SetBoundaryConditions(starts, |faces|, p.left, p.right, p.bottom, p.top);
    qb := values[..];
  }

  lemma StartsOrdered(p: Problem, owner: seq<nat>, q: nat, globalLocal: seq<int>, xs: seq<real>, ys: seq<real>,
                      starts: seq<nat>)
    requires StartsOf(p, owner, q, starts) && p.nx > 0 && p.ny > 0 && |owner| == p.nx * p.ny && |starts| == 5
    requires AllNumbered(owner, q, globalLocal, xs, ys)
    ensures starts[0] == 0 && starts[0] <= starts[1] <= starts[2] <= starts[3] <= starts[4]
    ensures starts[4] == |FirstSides(owner, q, p.nx, p.ny, globalLocal, xs, ys, 4)|
  {
    SideStartGrows(owner, q, p.nx, p.ny, 0, 1);
    SideStartGrows(owner, q, p.nx, p.ny, 1, 2);
    SideStartGrows(owner, q, p.nx, p.ny, 2, 3);
    SideStartGrows(owner, q, p.nx, p.ny, 3, 4);
  }

  /** generate_grid after the numbering, compute_rdist and set_boundary_conditions on rank q. */
  method BuildMesh(p: Problem, l: Layout, q: nat, localGlobal: seq<int>, globalLocal: seq<int>, numSolved: nat,
                   numInvolved: nat, xs: seq<real>, ys: seq<real>)
    returns (m: Mesh, qb: seq<real>, area: seq<real>, faceArea: seq<real>)
    requires UnitSquare(p) && Centred(p, l, q, xs, ys) && numSolved == NumOwned(l.owner, q)
             && numInvolved == |LocalCells(l, q)|
    requires p.nx > 0 && p.ny > 0 && Setting(l)
    requires Inverse(localGlobal, globalLocal, LocalCells(l, q), |LocalCells(l, q)|) && |globalLocal| == |l.owner|
    ensures MeshOf(p, l, q, m, qb) && RowsDistinct(m) && AreasOf(p, l, q, m, area, faceArea)
    ensures |area| == |m.nbrs| && |faceArea| == |m.faceCell|
  {
    hide UnitSquare, Centred, IsGrid, Setting, AreasOf, AreasMeasured, Located, InnerBuilt, RowsFit, FacesListed,
         StartsOf, Inverse, FaceRdista, SideValueAt, MeshOf, RowsDistinct, LocalCells, FaceDistance, MeshSized;
    CentredGrid(p, l, q, xs, ys);
    InverseIsLocated(l, q, localGlobal, globalLocal);
    var ends, nbrs, rdista, inner := BuildInner(p, l, q, localGlobal, globalLocal, numSolved, xs, ys);
    var faces, faceRdista, values, starts := BuildBoundary(p, l, q, globalLocal, xs, ys);
    var volume := new real[numInvolved](_ => 0.0);
    for il := 0 to numSolved
      invariant forall k :: 0 <= k < il ==> volume[k] == Width(p.nx) * Width(p.ny)
    {
      volume[il] := Width(p.nx) * Width(p.ny) * 1.0;
    }
    VolumeIs(p);
    m := Mesh(numSolved, numInvolved, ends, nbrs, rdista, volume[..], CellsOf(faces), faceRdista);
    qb, area, faceArea := values, inner, AreasOn(faces);
    AreasBuilt(p, l, q, globalLocal, m, xs, ys, area, faces);
    RowEndsCount(p, l, q, ends, nbrs, xs, ys, rdista);
    PiecesSized(p, l, q, globalLocal, xs, ys, m, qb, faces, starts);
    PiecesMatch(p, l, q, globalLocal, xs, ys, m, qb, faces, starts);
    MeshRowsDistinct(p, l, q, m, qb);
  }

  lemma VolumeIs(p: Problem)
    requires UnitSquare(p)
    ensures p.Valid() && p.nx > 0 && p.ny > 0 && Width(p.nx) * Width(p.ny) == p.volume
  {
    UnitSquareValid(p);
  }
}
