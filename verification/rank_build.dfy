/** From the local numbering to a rank's mesh: the rest of generate_grid, compute_rdist and
    set_boundary_conditions on one rank. */
module RankBuild {
  import opened GridTopology
  import opened Renumbering
  import opened Halo
  import opened HaloExchange
  import opened GridLayout
  import opened LocalAdjacency
  import opened Stencil
  import opened GridGeometry
  import opened FaceGeometry
  import opened BoundaryFaces
  import opened SideSums
  import opened LocalMesh
  import opened RankMesh

  // ----- rows -----

  /** Row k of the local adjacency is the sides of its cell, in order. */
  lemma LocalRowIs(p: Problem, l: Layout, q: nat, ends: seq<nat>, nbrs: seq<int>, k: nat, i: int, j: int, t: nat)
    requires p.Valid() && IsGrid(l, p.nx, p.ny) && IsLocal(p, l, q, k, i, j)
    requires RowEnds(l, q, ends) && RowLocal(l, q, ends, nbrs, k)
    ensures k + 1 < |ends| && ends[k + 1] as int - ends[k] as int == |InnerSides(p, i, j)|
    ensures t < |InnerSides(p, i, j)| ==>
              && ends[k] + t < |nbrs| && 0 <= nbrs[ends[k] + t] < |LocalCells(l, q)|
              && LocalCells(l, q)[nbrs[ends[k] + t]] == CellAcross(p, i, j, InnerSides(p, i, j)[t])
  {
    var c := Cell(p.nx, i, j);
    OwnerOfLocal(p, l, q, k, i, j);
    assert GridLayout.RowIs(l, p.nx, p.ny, i, j);
    assert RowLength(l, c) == Degree(p.nx, p.ny, i, j);
    if t < |InnerSides(p, i, j)| {
      InnerSideIs(p, i, j, t);
      assert EntryLocal(l, q, ends, nbrs, k, t);
      assert l.nbrs[l.ends[c]..l.ends[c] + Degree(p.nx, p.ny, i, j)][t] == Neighbours(p.nx, p.ny, i, j)[t];
    }
  }

  lemma EndsInOrder(l: Layout, q: nat, ends: seq<nat>)
    requires Setting(l) && RowEnds(l, q, ends)
    ensures forall i, k :: 0 <= i <= k < |ends| ==> ends[i] <= ends[k]
  {
    forall i, k | 0 <= i <= k < |ends|
      ensures ends[i] <= ends[k]
    {
      RowEndsMonotone(l, q, ends, i, k);
    }
  }

  /** The row of an entry. */
  lemma RowOfEntry(ends: seq<nat>, j: nat) returns (i: nat)
    requires |ends| > 0 && ends[0] == 0 && j < ends[|ends| - 1]
    ensures RowEntry(ends, i, j)
  {
    i := 0;
    while j >= ends[i + 1]
      invariant i + 1 < |ends| && ends[i] <= j
      decreases |ends| - i
    {
      i := i + 1;
    }
  }

  lemma RowsFitLocal(p: Problem, l: Layout, q: nat, ends: seq<nat>, nbrs: seq<int>, xs: seq<real>, ys: seq<real>)
    requires p.Valid() && IsGrid(l, p.nx, p.ny) && RowEnds(l, q, ends) && ends[NumOwned(l.owner, q)] <= |nbrs|
    requires forall k :: 0 <= k < NumOwned(l.owner, q) ==> RowLocal(l, q, ends, nbrs, k)
    requires |xs| == |ys| == |LocalCells(l, q)|
    ensures RowsFit(ends, nbrs, xs, ys)
  {
    EndsInOrder(l, q, ends);
    forall j | 0 <= j < ends[|ends| - 1]
      ensures 0 <= nbrs[j] < |xs|
    {
      var k := RowOfEntry(ends, j);
      var a, b := CellOfLocal(p, l, q, k);
      LocalRowIs(p, l, q, ends, nbrs, k, a, b, j - ends[k]);
    }
  }

  // ----- inner geometry -----

  /** xs and ys are the centres of all local cells, ghosts included. */
  ghost predicate Centred(p: Problem, l: Layout, q: nat, xs: seq<real>, ys: seq<real>) {
    && p.Valid() && IsGrid(l, p.nx, p.ny)
    && xs == View(l, q, CentresX(p.nx, p.ny)) && ys == View(l, q, CentresY(p.nx, p.ny))
  }

  lemma CentreOf(p: Problem, l: Layout, q: nat, xs: seq<real>, ys: seq<real>, k: nat, i: int, j: int)
    requires Centred(p, l, q, xs, ys) && k < |LocalCells(l, q)| && LocalCells(l, q)[k] == Cell(p.nx, i, j)
             && IsCell(p, i, j)
    ensures k < |xs| == |ys| && xs[k] == Centre(p.nx, i) && ys[k] == Centre(p.ny, j)
  {
    NumberParts(p.nx, p.ny, i, j);
    hide Centre;
  }

  ghost function ColumnAcross(i: int, s: Side): int {
    if s.Left? then i - 1 else if s.Right? then i + 1 else i
  }

  ghost function RowAcross(j: int, s: Side): int {
    if s.Bottom? then j - 1 else if s.Top? then j + 1 else j
  }

  lemma AcrossIs(p: Problem, i: int, j: int, s: Side)
    requires IsCell(p, i, j) && HasNeighbour(p, i, j, s)
    ensures IsCell(p, ColumnAcross(i, s), RowAcross(j, s))
    ensures CellAcross(p, i, j, s) == Cell(p.nx, ColumnAcross(i, s), RowAcross(j, s))
    ensures Adjacent(i, j, ColumnAcross(i, s), RowAcross(j, s))
    ensures j == RowAcross(j, s) <==> s.Left? || s.Right?
  {
  }

  /** The area of a face on a side of a cell. */
  function SideArea(p: Problem, s: Side): real
    requires p.nx > 0 && p.ny > 0
  {
    if s.Left? || s.Right? then Width(p.ny) else Width(p.nx)
  }

  ghost predicate Measures(p: Problem, deltaX: real, deltaY: real, s: Side) {
    && p.nx > 0 && p.ny > 0 && Distance(deltaX, deltaY) != 0.0
    && FaceArea(Width(p.nx), Width(p.ny), deltaX, deltaY) == SideArea(p, s)
    && 1.0 / Distance(deltaX, deltaY) * FaceArea(Width(p.nx), Width(p.ny), deltaX, deltaY) == Weight(p, s)
  }

  lemma AcrossMeasures(p: Problem, i: int, j: int, s: Side)
    requires UnitSquare(p) && IsCell(p, i, j) && HasNeighbour(p, i, j, s)
    ensures Measures(p, Centre(p.nx, ColumnAcross(i, s)) - Centre(p.nx, i),
                     Centre(p.ny, RowAcross(j, s)) - Centre(p.ny, j), s)
  {
    hide Centre, Distance, FaceArea, Width, ColumnAcross, RowAcross;
    AcrossIs(p, i, j, s);
    NeighbourFace(p.nx, p.ny, i, j, ColumnAcross(i, s), RowAcross(j, s));
  }

  /** Distance and area across entry t of row k. */
  lemma EntryGeometry(p: Problem, l: Layout, q: nat, ends: seq<nat>, nbrs: seq<int>, xs: seq<real>, ys: seq<real>,
                      k: nat, i: int, j: int, t: nat)
    requires UnitSquare(p) && Centred(p, l, q, xs, ys) && IsLocal(p, l, q, k, i, j) && IsCell(p, i, j)
    requires RowEnds(l, q, ends) && RowLocal(l, q, ends, nbrs, k) && t < |InnerSides(p, i, j)| && k < |LocalCells(l, q)|
    ensures k + 1 < |ends| && ends[k] + t < |nbrs| && k < |xs| == |ys| && 0 <= nbrs[ends[k] + t] < |xs|
    ensures Measures(p, Delta(xs, nbrs, k, ends[k] + t), Delta(ys, nbrs, k, ends[k] + t), InnerSides(p, i, j)[t])
  {
    var s := InnerSides(p, i, j)[t];
    assert p.Valid() && IsGrid(l, p.nx, p.ny) && LocalCells(l, q)[k] == Cell(p.nx, i, j);
    assert |InnerSides(p, i, j)| == Degree(p.nx, p.ny, i, j);
    hide Measures, Centre, IsGrid, Setting, Centred, RowEnds, RowLocal, InnerSides, IsLocal, UnitSquare, IsCell, Cell,
         Weight, HasNeighbour, Degree, Neighbours, LocalCells, ColumnAcross, RowAcross, CellAcross;
    LocalRowIs(p, l, q, ends, nbrs, k, i, j, t);
    InnerSideIs(p, i, j, t);
    AcrossIs(p, i, j, s);
    CentreOf(p, l, q, xs, ys, k, i, j);
    CentreOf(p, l, q, xs, ys, nbrs[ends[k] + t], ColumnAcross(i, s), RowAcross(j, s));
    AcrossMeasures(p, i, j, s);
  }

  lemma LocalCentresApart(p: Problem, l: Layout, q: nat, ends: seq<nat>, nbrs: seq<int>, xs: seq<real>, ys: seq<real>)
    requires UnitSquare(p) && Centred(p, l, q, xs, ys)
    requires RowEnds(l, q, ends) && forall k :: 0 <= k < NumOwned(l.owner, q) ==> RowLocal(l, q, ends, nbrs, k)
    ensures CentresApart(ends, nbrs, xs, ys)
  {
    hide Centred, RowLocal, UnitSquare, Distance, Delta;
    CentredGrid(p, l, q, xs, ys);
    forall k, e | RowEntry(ends, k, e) && 0 <= k < |xs| == |ys| && 0 <= e < |nbrs| && 0 <= nbrs[e] < |xs|
      ensures Distance(Delta(xs, nbrs, k, e), Delta(ys, nbrs, k, e)) != 0.0
    {
      var i, j := CellOfLocal(p, l, q, k);
      LocalRowIs(p, l, q, ends, nbrs, k, i, j, e - ends[k]);
      EntryGeometry(p, l, q, ends, nbrs, xs, ys, k, i, j, e - ends[k]);
    }
  }

  lemma CentredGrid(p: Problem, l: Layout, q: nat, xs: seq<real>, ys: seq<real>)
    requires Centred(p, l, q, xs, ys)
    ensures p.Valid() && IsGrid(l, p.nx, p.ny) && |l.owner| == p.nx * p.ny && |xs| == |ys| == |LocalCells(l, q)|
    ensures NumOwned(l.owner, q) <= |LocalCells(l, q)|
  {
  }

  /** The adjacency, centres and rdista of a rank's inner faces. */
  ghost predicate InnerBuilt(p: Problem, l: Layout, q: nat, ends: seq<nat>, nbrs: seq<int>, xs: seq<real>,
                             ys: seq<real>, rdista: seq<real>) {
    && p.nx > 0 && p.ny > 0 && Setting(l) && RowEnds(l, q, ends) && |rdista| == |nbrs|
    && (forall k :: 0 <= k < NumOwned(l.owner, q) ==> RowLocal(l, q, ends, nbrs, k))
    && RdistaBefore(ends, nbrs, xs, ys, Width(p.nx), Width(p.ny), rdista, ends[|ends| - 1])
  }

  lemma InnerEntryBuilt(p: Problem, l: Layout, q: nat, m: Mesh, xs: seq<real>, ys: seq<real>, k: nat, i: int, j: int,
                        t: nat)
    requires UnitSquare(p) && Centred(p, l, q, xs, ys) && IsLocal(p, l, q, k, i, j) && IsCell(p, i, j)
    requires InnerBuilt(p, l, q, m.ends, m.nbrs, xs, ys, m.rdista) && t < |InnerSides(p, i, j)|
             && k < NumOwned(l.owner, q) <= |LocalCells(l, q)|
    ensures EntryMatches(p, l, q, m, k, i, j, t)
  {
    hide Centred, RowLocal, UnitSquare, Distance, FaceArea, Delta, IsGrid, InnerSides, Weight, LocalCells, IsLocal,
         CellAcross;
    CentredGrid(p, l, q, xs, ys);
    assert RowLocal(l, q, m.ends, m.nbrs, k);
    LocalRowIs(p, l, q, m.ends, m.nbrs, k, i, j, t);
    EntryGeometry(p, l, q, m.ends, m.nbrs, xs, ys, k, i, j, t);
    EndsInOrder(l, q, m.ends);
    assert RowEntry(m.ends, k, m.ends[k] + t);
    assert RdistaAt(m.nbrs, xs, ys, Width(p.nx), Width(p.ny), m.rdista, k, m.ends[k] + t);
  }

  lemma InnerRowBuilt(p: Problem, l: Layout, q: nat, m: Mesh, xs: seq<real>, ys: seq<real>, k: nat, i: int, j: int)
    requires UnitSquare(p) && Centred(p, l, q, xs, ys) && IsLocal(p, l, q, k, i, j)
    requires InnerBuilt(p, l, q, m.ends, m.nbrs, xs, ys, m.rdista)
    ensures RowMatches(p, l, q, m, k, i, j)
  {
    CentredGrid(p, l, q, xs, ys);
    assert IsCell(p, i, j) && k < NumOwned(l.owner, q);
    hide Centred, IsGrid, UnitSquare, EntryMatches, IsLocal, LocalCells;
    LocalRowIs(p, l, q, m.ends, m.nbrs, k, i, j, 0);
    forall t | 0 <= t < |InnerSides(p, i, j)|
      ensures EntryMatches(p, l, q, m, k, i, j, t)
    {
      InnerEntryBuilt(p, l, q, m, xs, ys, k, i, j, t);
    }
  }

  // ----- boundary geometry -----

  lemma {:induction false} OwnedOnAt(owner: seq<nat>, q: nat, nx: nat, ny: nat, s: Side, n: nat, t: nat)
    returns (at: nat)
    requires nx > 0 && ny > 0 && |owner| == nx * ny && n <= SideLength(nx, ny, s)
             && t < |OwnedOn(owner, q, nx, ny, s, n)|
    ensures at < n && OwnedOn(owner, q, nx, ny, s, n)[t] == SideCell(nx, ny, s, at)
  {
    if t < |OwnedOn(owner, q, nx, ny, s, n - 1)| {
      at := OwnedOnAt(owner, q, nx, ny, s, n - 1, t);
    } else {
      at := n - 1;
    }
  }

  /** The cell of a listed face: on its side, and the rank's own. */
  lemma ListedCell(owner: seq<nat>, q: nat, nx: nat, ny: nat, s: Side, t: nat) returns (i: int, j: int)
    requires nx > 0 && ny > 0 && |owner| == nx * ny && t < |WholeSide(owner, q, nx, ny, s)|
    ensures AtSide(nx, ny, s, i, j) && WholeSide(owner, q, nx, ny, s)[t] == Cell(nx, i, j)
  {
    var at := OwnedOnAt(owner, q, nx, ny, s, SideLength(nx, ny, s), t);
    SideCellIs(nx, ny, s, at);
    var c := SideCell(nx, ny, s, at);
    CellOfNumber(nx, ny, c);
    i, j := c % nx, c / nx;
  }

  lemma {:induction false} FirstSidesAt(owner: seq<nat>, q: nat, nx: nat, ny: nat, globalLocal: seq<int>, xs: seq<real>,
                                        ys: seq<real>, k: nat, n: nat, t: nat)
    requires nx > 0 && ny > 0 && |owner| == nx * ny && n < k <= 4 && AllNumbered(owner, q, globalLocal, xs, ys)
    requires t < |WholeSide(owner, q, nx, ny, SideNumber(n))|
    ensures SideStart(owner, q, nx, ny, n) + t < SideStart(owner, q, nx, ny, k)
    ensures var c := WholeSide(owner, q, nx, ny, SideNumber(n))[t];
            && c < |globalLocal| && 0 <= globalLocal[c] < |xs| == |ys|
            && FirstSides(owner, q, nx, ny, globalLocal, xs, ys, k)[SideStart(owner, q, nx, ny, n) + t]
               == FaceOn(nx, ny, SideNumber(n), globalLocal[c], xs[globalLocal[c]], ys[globalLocal[c]])
  {
    hide FaceOn, SideNumber;
    if n < k - 1 {
      FirstSidesAt(owner, q, nx, ny, globalLocal, xs, ys, k - 1, n, t);
    }
  }

  /** Which side and which of its faces a position in the list is. */
  lemma FaceOfIndex(owner: seq<nat>, q: nat, nx: nat, ny: nat, b: nat) returns (n: nat, t: nat)
    requires nx > 0 && ny > 0 && |owner| == nx * ny && b < SideStart(owner, q, nx, ny, 4)
    ensures n < 4 && t < |WholeSide(owner, q, nx, ny, SideNumber(n))| && b == SideStart(owner, q, nx, ny, n) + t
  {
    n := 0;
    while b >= SideStart(owner, q, nx, ny, n + 1)
      invariant n < 4 && SideStart(owner, q, nx, ny, n) <= b
      decreases 4 - n
    {
      n := n + 1;
    }
    t := b - SideStart(owner, q, nx, ny, n);
  }
}
