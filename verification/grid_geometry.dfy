/** Cell centres, face areas and distances as every rank computes them: the end of
    generate_grid and compute_rdist. */
module GridGeometry {
  import opened RealFacts
  import opened RealSums
  import opened GridTopology
  import opened Renumbering
  import opened Halo
  import opened HaloExchange
  import opened HaloTransfer
  import opened GridLayout

  function Width(n: nat): real
    requires n > 0
  {
    1.0 / n as real
  }

  /** loc_x of a column, and loc_y of a row. */
  function Centre(n: nat, i: int): real
    requires n > 0
  {
    Width(n) * 0.5 + i as real * Width(n)
  }

  /** Centres are a cell apart, and lie on the unit interval the same way seen from its ends. */
  lemma CentresSpread(n: nat, i: int)
    requires n > 0
    ensures n as real * (Centre(n, i + 1) - Centre(n, i)) == 1.0 && Centre(n, i) + Centre(n, n - 1 - i) == 1.0
  {
    var w, x := Width(n), i as real;
    assert (i + 1) as real == x + 1.0 && (n - 1 - i) as real == n as real - 1.0 - x;
    assert n as real * w == 1.0;
    assert (x + 1.0) * w == x * w + w;
    assert (n as real - 1.0 - x) * w == n as real * w - w - x * w;
  }

  ghost function CentresX(nx: nat, ny: nat): (r: seq<real>)
    requires nx > 0
    ensures |r| == nx * ny
  {
    seq(nx * ny, c requires 0 <= c < nx * ny => Centre(nx, c % nx))
  }

  ghost function CentresY(nx: nat, ny: nat): (r: seq<real>)
    requires nx > 0 && ny > 0
    ensures |r| == nx * ny
  {
    seq(nx * ny, c requires 0 <= c < nx * ny => Centre(ny, c / nx))
  }

  // ----- cell centres of the owned cells -----

  /** What a rank needs to know to place its cells: its local numbers. */
  ghost predicate Located(l: Layout, q: nat, globalLocal: seq<int>)
    requires Setting(l)
  {
    var cells := LocalCells(l, q);
    && |globalLocal| == |l.owner|
    && (forall k :: 0 <= k < |cells| ==> cells[k] < |globalLocal| && globalLocal[cells[k]] == k)
    && (forall c :: 0 <= c < |globalLocal| && l.owner[c] == q ==>
        0 <= globalLocal[c] < |cells| && cells[globalLocal[c]] == c)
  }

  lemma InverseIsLocated(l: Layout, q: nat, localGlobal: seq<int>, globalLocal: seq<int>)
    requires Setting(l) && Inverse(localGlobal, globalLocal, LocalCells(l, q), |LocalCells(l, q)|)
             && |globalLocal| == |l.owner|
    ensures Located(l, q, globalLocal)
  {
    forall c | 0 <= c < |globalLocal| && l.owner[c] == q
      ensures 0 <= globalLocal[c] < |LocalCells(l, q)| && LocalCells(l, q)[globalLocal[c]] == c
    {
      var k := LocalCellsComplete(l, q, c);
    }
  }

  /** The owned cells before column i, and of column i before row j, have their value. */
  ghost predicate Placed(l: Layout, q: nat, globalLocal: seq<int>, loc: seq<real>, field: seq<real>, nx: nat, i: int,
                         j: int)
    requires Setting(l) && Located(l, q, globalLocal) && nx > 0
  {
    |loc| == |LocalCells(l, q)| && |field| == |l.owner| &&
    forall c :: 0 <= c < |l.owner| && l.owner[c] == q && (c % nx < i || (c % nx == i && c / nx < j)) ==>
      loc[globalLocal[c]] == field[c]
  }

  lemma PlacedNext(l: Layout, q: nat, globalLocal: seq<int>, before: seq<real>, after: seq<real>, field: seq<real>,
                   nx: nat, ny: nat, i: nat, j: nat, cell: nat)
    requires Setting(l) && Located(l, q, globalLocal) && nx > 0 && |l.owner| == nx * ny
    requires i < nx && j < ny && cell == j * nx + i && cell < |l.owner|
    requires Placed(l, q, globalLocal, before, field, nx, i, j)
    requires after == if l.owner[cell] == q then before[globalLocal[cell] := field[cell]] else before
    ensures Placed(l, q, globalLocal, after, field, nx, i, j + 1)
  {
    forall c | 0 <= c < |l.owner| && l.owner[c] == q && (c % nx < i || (c % nx == i && c / nx < j + 1))
      ensures after[globalLocal[c]] == field[c]
    {
      if c != cell {
        CellOfNumber(nx, ny, c);
      }
    }
  }

  method CellCentres(l: Layout, nx: nat, ny: nat, q: nat, globalLocal: seq<int>, numInvolved: nat)
    returns (locX: array<real>, locY: array<real>)
    requires IsGrid(l, nx, ny) && Located(l, q, globalLocal) && numInvolved == |LocalCells(l, q)|
    ensures fresh(locX) && fresh(locY) && locX != locY
    ensures Holds(l, q, locX[..], CentresX(nx, ny)) && Holds(l, q, locY[..], CentresY(nx, ny))
  {
    locX := new real[numInvolved];
    locY := new real[numInvolved];
    NothingPlaced(l, q, globalLocal, locX[..], CentresX(nx, ny), nx, ny);
    NothingPlaced(l, q, globalLocal, locY[..], CentresY(nx, ny), nx, ny);
    hide Placed, IsGrid, Centre, Holds;
    for i := 0 to nx
      invariant Placed(l, q, globalLocal, locX[..], CentresX(nx, ny), nx, i, 0)
      invariant Placed(l, q, globalLocal, locY[..], CentresY(nx, ny), nx, i, 0)
    {
      for j := 0 to ny
        invariant Placed(l, q, globalLocal, locX[..], CentresX(nx, ny), nx, i, j)
        invariant Placed(l, q, globalLocal, locY[..], CentresY(nx, ny), nx, i, j)
      {
        PlaceCell(l, nx, ny, q, globalLocal, i, j, locX, locY);
      }
      ColumnDone(l, q, globalLocal, locX[..], CentresX(nx, ny), nx, ny, i);
      ColumnDone(l, q, globalLocal, locY[..], CentresY(nx, ny), nx, ny, i);
    }
    PlacedHolds(l, q, globalLocal, locX[..], CentresX(nx, ny), nx, ny);
    PlacedHolds(l, q, globalLocal, locY[..], CentresY(nx, ny), nx, ny);
  }

  lemma NothingPlaced(l: Layout, q: nat, globalLocal: seq<int>, loc: seq<real>, field: seq<real>, nx: nat, ny: nat)
    requires IsGrid(l, nx, ny) && Located(l, q, globalLocal) && |loc| == |LocalCells(l, q)| && |field| == |l.owner|
    ensures nx >= 2 && ny >= 2 && Setting(l) && |l.owner| == nx * ny
    ensures Placed(l, q, globalLocal, loc, field, nx, 0, 0)
  {
    forall c | 0 <= c < |l.owner|
      ensures !(c % nx < 0 || (c % nx == 0 && c / nx < 0))
    {
      CellOfNumber(nx, ny, c);
    }
  }

  method PlaceCell(l: Layout, nx: nat, ny: nat, q: nat, globalLocal: seq<int>, i: nat, j: nat, locX: array<real>,
                   locY: array<real>)
    requires IsGrid(l, nx, ny) && Located(l, q, globalLocal) && i < nx && j < ny && locX != locY
    requires Placed(l, q, globalLocal, locX[..], CentresX(nx, ny), nx, i, j)
    requires Placed(l, q, globalLocal, locY[..], CentresY(nx, ny), nx, i, j)
    modifies locX, locY
    ensures Placed(l, q, globalLocal, locX[..], CentresX(nx, ny), nx, i, j + 1)
    ensures Placed(l, q, globalLocal, locY[..], CentresY(nx, ny), nx, i, j + 1)
  {
    hide Placed, IsGrid, Setting, Located, Centre, CentresX, CentresY, Width;
    var cell := j * nx + i;
    CellToPlace(l, nx, ny, q, globalLocal, i, j, cell);
    PlacedLength(l, q, globalLocal, locX[..], CentresX(nx, ny), nx, ny, i, j);
    PlacedLength(l, q, globalLocal, locY[..], CentresY(nx, ny), nx, ny, i, j);
    ghost var beforeX, beforeY := locX[..], locY[..];
    if l.owner[cell] == q {
      var cellLocal := globalLocal[cell];
      locX[cellLocal] := Centre(nx, i);
      locY[cellLocal] := Centre(ny, j);
      assert locX[..] == beforeX[cellLocal := Centre(nx, i)];
      assert locY[..] == beforeY[cellLocal := Centre(ny, j)];
    }
    PlacedNext(l, q, globalLocal, beforeX, locX[..], CentresX(nx, ny), nx, ny, i, j, cell);
    PlacedNext(l, q, globalLocal, beforeY, locY[..], CentresY(nx, ny), nx, ny, i, j, cell);
  }

  lemma CellToPlace(l: Layout, nx: nat, ny: nat, q: nat, globalLocal: seq<int>, i: nat, j: nat, cell: nat)
    requires IsGrid(l, nx, ny) && Located(l, q, globalLocal) && i < nx && j < ny && cell == j * nx + i
    ensures Setting(l) && cell < |l.owner| == |globalLocal|
    ensures l.owner[cell] == q ==> 0 <= globalLocal[cell] < |LocalCells(l, q)|
    ensures CentresX(nx, ny)[cell] == Centre(nx, i) && CentresY(nx, ny)[cell] == Centre(ny, j)
  {
    NumberParts(nx, ny, i, j);
  }

  lemma PlacedLength(l: Layout, q: nat, globalLocal: seq<int>, loc: seq<real>, field: seq<real>, nx: nat, ny: nat,
                     i: nat, j: nat)
    requires IsGrid(l, nx, ny) && Located(l, q, globalLocal) && Placed(l, q, globalLocal, loc, field, nx, i, j)
    ensures nx >= 2 && |loc| == |LocalCells(l, q)| && |l.owner| == nx * ny
  {
  }

  lemma ColumnDone(l: Layout, q: nat, globalLocal: seq<int>, loc: seq<real>, field: seq<real>, nx: nat, ny: nat, i: nat)
    requires Setting(l) && Located(l, q, globalLocal) && nx > 0 && |l.owner| == nx * ny
    requires Placed(l, q, globalLocal, loc, field, nx, i, ny)
    ensures Placed(l, q, globalLocal, loc, field, nx, i + 1, 0)
  {
    forall c | 0 <= c < |l.owner| && l.owner[c] == q && (c % nx < i + 1 || (c % nx == i + 1 && c / nx < 0))
      ensures loc[globalLocal[c]] == field[c]
    {
      CellOfNumber(nx, ny, c);
    }
  }

  lemma PlacedHolds(l: Layout, q: nat, globalLocal: seq<int>, loc: seq<real>, field: seq<real>, nx: nat, ny: nat)
    requires Setting(l) && Located(l, q, globalLocal) && nx > 0 && |l.owner| == nx * ny
    requires Placed(l, q, globalLocal, loc, field, nx, nx, 0)
    ensures |field| == |l.owner| && Holds(l, q, loc, field)
  {
    forall k | 0 <= k < NumOwned(l.owner, q)
      ensures loc[k] == View(l, q, field)[k]
    {
      var c := LocalCells(l, q)[k];
      LocalCellsInRange(l, q, k);
      CellOfNumber(nx, ny, c);
      assert loc[globalLocal[c]] == field[c];
    }
  }

  // ----- inner faces -----

  /** The normal's x part is over one half and its y part below: the area is then dy. The
      normal is kept unnormalised, so both sides of each test are squared. */
  predicate AcrossX(deltaX: real, deltaY: real) {
    4.0 * (deltaX * deltaX) > deltaX * deltaX + deltaY * deltaY
      && 4.0 * (deltaY * deltaY) < deltaX * deltaX + deltaY * deltaY
  }

  /** The normal's x part is over one tenth: the distance is then measured along x. */
  predicate XFace(deltaX: real, deltaY: real) {
    100.0 * (deltaX * deltaX) > deltaX * deltaX + deltaY * deltaY
  }

  function FaceArea(dx: real, dy: real, deltaX: real, deltaY: real): real {
    if AcrossX(deltaX, deltaY) then dy else dx
  }

  function Distance(deltaX: real, deltaY: real): real {
    if XFace(deltaX, deltaY) then Abs(deltaX) else Abs(deltaY)
  }

  /** Area, and area over distance, of the face between two neighbouring cells of the grid. */
  lemma NeighbourFace(nx: nat, ny: nat, i: int, j: int, i': int, j': int)
    requires nx > 0 && ny > 0 && Adjacent(i, j, i', j')
    ensures var deltaX, deltaY := Centre(nx, i') - Centre(nx, i), Centre(ny, j') - Centre(ny, j);
            && Distance(deltaX, deltaY) != 0.0
            && FaceArea(Width(nx), Width(ny), deltaX, deltaY) == (if j == j' then Width(ny) else Width(nx))
            && 1.0 / Distance(deltaX, deltaY) * FaceArea(Width(nx), Width(ny), deltaX, deltaY)
               == if j == j' then nx as real / ny as real else ny as real / nx as real
  {
    var deltaX, deltaY := Centre(nx, i') - Centre(nx, i), Centre(ny, j') - Centre(ny, j);
    WidthTimes(nx);
    WidthTimes(ny);
    CentreStep(nx, i, i');
    CentreStep(ny, j, j');
    hide Centre, Width, Distance, FaceArea;
    if j == j' {
      StraightFace(deltaX, deltaY, Width(nx), Width(ny));
      AreaOverDistance(Width(nx), Width(ny), nx as real, ny as real);
    } else {
      UprightFace(deltaX, deltaY, Width(nx), Width(ny));
      AreaOverDistance(Width(ny), Width(nx), ny as real, nx as real);
    }
  }

  lemma CentreStep(n: nat, i: int, i': int)
    requires n > 0
    ensures i' == i ==> Centre(n, i') - Centre(n, i) == 0.0
    ensures i' == i + 1 ==> Centre(n, i') - Centre(n, i) == Width(n)
    ensures i' == i - 1 ==> Centre(n, i') - Centre(n, i) == -Width(n)
  {
    var w := Width(n);
    assert (i' - i) as real * w == i' as real * w - i as real * w;
  }

  lemma WidthTimes(n: nat)
    requires n > 0
    ensures Width(n) > 0.0 && Width(n) * n as real == 1.0
  {
    Quotient(1.0, n as real);
  }

  lemma StraightFace(deltaX: real, deltaY: real, dx: real, dy: real)
    requires dx > 0.0 && (deltaX == dx || deltaX == -dx) && deltaY == 0.0
    ensures Distance(deltaX, deltaY) == dx && FaceArea(dx, dy, deltaX, deltaY) == dy
  {
    assert deltaX * deltaX == dx * dx > 0.0 && deltaY * deltaY == 0.0;
  }

  lemma UprightFace(deltaX: real, deltaY: real, dx: real, dy: real)
    requires dy > 0.0 && (deltaY == dy || deltaY == -dy) && deltaX == 0.0
    ensures Distance(deltaX, deltaY) == dy && FaceArea(dx, dy, deltaX, deltaY) == dx
  {
    assert deltaY * deltaY == dy * dy > 0.0 && deltaX * deltaX == 0.0;
  }

  lemma AreaOverDistance(d: real, a: real, x: real, y: real)
    requires d > 0.0 && a > 0.0 && x > 0.0 && y > 0.0 && d * x == 1.0 && a * y == 1.0
    ensures 1.0 / d * a == x / y
  {
    Quotient(1.0, d);
    Quotient(x, y);
    assert (1.0 / d - x) * d == 0.0;
    assert (x / y - x * a) * y == 0.0;
  }
}
