/** The cell adjacency of an Nx by Ny grid in CSR form, which generate_grid fills out of
    order from closed-form positions. Cell (i, j) has number j * Nx + i. */
module GridTopology {

  predicate InGrid(nx: int, ny: int, i: int, j: int) {
    0 <= i < nx && 0 <= j < ny
  }

  function Cell(nx: int, i: int, j: int): int {
    j * nx + i
  }

  /** The in-grid cells left, right, below and above, in that order. */
  function Neighbours(nx: int, ny: int, i: int, j: int): (r: seq<int>)
    ensures |r| == Degree(nx, ny, i, j)
  {
    var c := Cell(nx, i, j);
    (if i > 0 then [c - 1] else []) + (if i < nx - 1 then [c + 1] else [])
    + (if j > 0 then [c - nx] else []) + (if j < ny - 1 then [c + nx] else [])
  }

  /** Left comes first, then right, then below, then above, each if it is in the grid. */
  lemma NeighbourOrder(nx: int, ny: int, i: int, j: int)
    requires InGrid(nx, ny, i, j)
    ensures var row, c := Neighbours(nx, ny, i, j), Cell(nx, i, j);
            && (i > 0 ==> row[0] == c - 1)
            && (i < nx - 1 ==> row[if i > 0 then 1 else 0] == c + 1)
            && (j > 0 ==> row[|row| - if j < ny - 1 then 2 else 1] == c - nx)
            && (j < ny - 1 ==> row[|row| - 1] == c + nx)
  {
  }

  function Degree(nx: int, ny: int, i: int, j: int): nat {
    (if i > 0 then 1 else 0) + (if i < nx - 1 then 1 else 0)
    + (if j > 0 then 1 else 0) + (if j < ny - 1 then 1 else 0)
  }

  // ----- row-major prefix sums of the degrees -----

  /** Degrees of the first i cells of row j. */
  function InRow(nx: int, ny: int, i: nat, j: int): nat {
    if i == 0 then 0 else InRow(nx, ny, i - 1, j) + Degree(nx, ny, i - 1, j)
  }

  /** Degrees of all cells of the first j rows. */
  function BeforeRow(nx: int, ny: int, j: nat): nat
    requires nx >= 0
  {
    if j == 0 then 0 else BeforeRow(nx, ny, j - 1) + InRow(nx, ny, nx, j - 1)
  }

  /** Degrees of all cells that come before (i, j) in row-major order. */
  function Offset(nx: int, ny: int, i: nat, j: nat): nat
    requires nx >= 0
  {
    BeforeRow(nx, ny, j) + InRow(nx, ny, i, j)
  }

  function Total(nx: int, ny: int): nat
    requires nx >= 0 && ny >= 0
  {
    BeforeRow(nx, ny, ny)
  }

  lemma {:induction false} InRowClosed(nx: int, ny: int, i: nat, j: nat)
    requires nx >= 2 && ny >= 2 && i <= nx && j < ny
    ensures var edge := if j == 0 || j == ny - 1 then 1 else 0;
            InRow(nx, ny, i, j) == (if i == 0 then 0 else (4 - edge) * i - 1 - (if i == nx then 1 else 0))
  {
    if i > 0 {
      InRowClosed(nx, ny, i - 1, j);
    }
  }

  lemma {:induction false} BeforeRowClosed(nx: int, ny: int, j: nat)
    requires nx >= 2 && ny >= 2 && j <= ny
    ensures BeforeRow(nx, ny, j) ==
            if j == 0 then 0
            else if j < ny then 3 * nx - 2 + (j - 1) * (4 * nx - 2)
            else 2 * (3 * nx - 2) + (ny - 2) * (4 * nx - 2)
  {
    if j > 0 {
      BeforeRowClosed(nx, ny, j - 1);
      InRowClosed(nx, ny, nx, j - 1);
      if j > 1 {
        assert (j - 1) * (4 * nx - 2) == (j - 2) * (4 * nx - 2) + (4 * nx - 2);
      }
    }
  }

  /** The products in the closed forms, all in terms of a * (nx - 2). */
  lemma Expand(a: int, nx: int)
    ensures a * (4 * nx - 2) == 4 * (a * (nx - 2)) + 6 * a
    ensures 4*a*(nx-2) == 4 * (a * (nx - 2))
    ensures 4*(nx-2)*a == 4 * (a * (nx - 2))
    ensures 4*(nx-2)*(a+1) == 4 * (a * (nx - 2)) + 4 * (nx - 2)
  {
    var p := a * (nx - 2);
    assert a * (4 * nx - 2) == a * (4 * (nx - 2)) + a * 6;
    assert a * (4 * (nx - 2)) == 4 * p;
    assert (4 * a) * (nx - 2) == 4 * p;
    assert (4 * (nx - 2)) * a == 4 * p;
    assert (4 * (nx - 2)) * (a + 1) == (4 * (nx - 2)) * a + 4 * (nx - 2);
  }

  /** The closed forms of the source are this one prefix sum: cells between the first and
      last row, of the first row, and of the last row. */
  lemma MiddlePositions(nx: int, ny: int, i: nat, j: nat)
    requires nx >= 2 && ny >= 2 && i < nx && 0 < j < ny - 1
    ensures 0 < i < nx - 1 ==>
              2*2 + 3*(nx-2) + 3*(1+2*(j-1)) + 4*(j-1)*(nx-2) + 4*(i-1) == Offset(nx, ny, i, j)
    ensures i == 0 ==> 2*2 + 3*(nx-2) + 3*2*(j-1) + 4*(j-1)*(nx-2) == Offset(nx, ny, i, j)
    ensures i == nx - 1 ==> 2*2 + 3*(nx-2) + 3*(2*(j-1)+1) + 4*(nx-2)*j == Offset(nx, ny, i, j)
  {
    InRowClosed(nx, ny, i, j);
    BeforeRowClosed(nx, ny, j);
    Expand(j - 1, nx);
  }

  lemma BottomPositions(nx: int, ny: int, i: nat)
    requires nx >= 2 && ny >= 2 && i < nx
    ensures 0 < i < nx - 1 ==> 2*1 + 3*(i-1) == Offset(nx, ny, i, 0)
    ensures i == 0 ==> 0 == Offset(nx, ny, i, 0)
    ensures i == nx - 1 ==> 2 + 3*(nx-2) == Offset(nx, ny, i, 0)
  {
    InRowClosed(nx, ny, i, 0);
  }

  lemma TopPositions(nx: int, ny: int, i: nat)
    requires nx >= 2 && ny >= 2 && i < nx
    ensures 0 < i < nx - 1 ==>
              2*3 + 3*(nx-2) + 4*(nx-2)*(ny-2) + 2*3*(ny-2) + 3*(i-1) == Offset(nx, ny, i, ny - 1)
    ensures i == 0 ==> 2*2 + 3*(nx-2) + 4*(nx-2)*(ny-2) + 3*2*(ny-2) == Offset(nx, ny, i, ny - 1)
    ensures i == nx - 1 ==>
              2*3 + 4*(nx-2)*(ny-2) + 3*2*(ny-2) + 3*2*(nx-2) == Offset(nx, ny, i, ny - 1)
  {
    InRowClosed(nx, ny, i, ny - 1);
    BeforeRowClosed(nx, ny, ny - 1);
    Expand(ny - 2, nx);
  }

  /** The prefix sum of all degrees is the size the source allocates. */
  lemma TotalIsAllocated(nx: int, ny: int)
    requires nx >= 2 && ny >= 2
    ensures Total(nx, ny) == 4*(nx-2)*(ny-2) + 3*(2*(nx-2)+2*(ny-2)) + 2*4
  {
    BeforeRowClosed(nx, ny, ny);
    Expand(ny - 2, nx);
  }

  // ----- slices do not overlap -----

  lemma {:induction false} InRowMonotone(nx: int, ny: int, i: nat, i': nat, j: int)
    requires i <= i'
    ensures InRow(nx, ny, i, j) <= InRow(nx, ny, i', j)
    decreases i'
  {
    if i < i' {
      InRowMonotone(nx, ny, i, i' - 1, j);
    }
  }

  lemma {:induction false} BeforeRowMonotone(nx: int, ny: int, j: nat, j': nat)
    requires nx >= 0 && j <= j'
    ensures BeforeRow(nx, ny, j) <= BeforeRow(nx, ny, j')
    decreases j'
  {
    if j < j' {
      BeforeRowMonotone(nx, ny, j, j' - 1);
    }
  }

  /** The slice of a cell ends where the slices of later cells may begin. */
  lemma SlicesInOrder(nx: int, ny: int, i: nat, j: nat, i': nat, j': nat)
    requires InGrid(nx, ny, i, j) && InGrid(nx, ny, i', j')
    requires j < j' || (j == j' && i < i')
    ensures Offset(nx, ny, i, j) + Degree(nx, ny, i, j) <= Offset(nx, ny, i', j')
  {
    if j == j' {
      InRowMonotone(nx, ny, i + 1, i', j);
    } else {
      InRowMonotone(nx, ny, i + 1, nx, j);
      BeforeRowMonotone(nx, ny, j + 1, j');
    }
  }

  lemma SliceInTotal(nx: int, ny: int, i: nat, j: nat)
    requires InGrid(nx, ny, i, j)
    ensures Offset(nx, ny, i, j) + Degree(nx, ny, i, j) <= Total(nx, ny)
  {
    InRowMonotone(nx, ny, i + 1, nx, j);
    BeforeRowMonotone(nx, ny, j + 1, ny);
  }

  lemma TimesMonotone(a: int, b: int, n: int)
    requires a <= b && n >= 0
    ensures a * n <= b * n
  {
  }

  /** Cell numbers identify cells. */
  lemma CellInjective(nx: int, ny: int, i: int, j: int, i': int, j': int)
    requires InGrid(nx, ny, i, j) && InGrid(nx, ny, i', j')
    ensures Cell(nx, i, j) == Cell(nx, i', j') <==> (i == i' && j == j')
  {
    if j < j' {
      TimesMonotone(j + 1, j', nx);
    } else if j' < j {
      TimesMonotone(j' + 1, j, nx);
    }
  }

  lemma CellInRange(nx: int, ny: int, i: int, j: int)
    requires InGrid(nx, ny, i, j)
    ensures 0 <= Cell(nx, i, j) < nx * ny
  {
    TimesMonotone(0, j, nx);
    TimesMonotone(j + 1, ny, nx);
  }

  // ----- the neighbour relation -----

  predicate Adjacent(i: int, j: int, i': int, j': int) {
    (j == j' && (i' == i - 1 || i' == i + 1)) || (i == i' && (j' == j - 1 || j' == j + 1))
  }

  /** Where the k-th neighbour of a cell is. */
  function NeighbourAt(nx: int, ny: int, i: int, j: int, k: nat): (r: (int, int))
    requires InGrid(nx, ny, i, j) && k < Degree(nx, ny, i, j)
    ensures InGrid(nx, ny, r.0, r.1) && Adjacent(i, j, r.0, r.1)
    ensures Neighbours(nx, ny, i, j)[k] == Cell(nx, r.0, r.1)
  {
    var left := if i > 0 then 1 else 0;
    var right := left + if i < nx - 1 then 1 else 0;
    var below := right + if j > 0 then 1 else 0;
    if k < left then (i - 1, j)
    else if k < right then (i + 1, j)
    else if k < below then (i, j - 1)
    else (i, j + 1)
  }

  /** Its inverse: at which position of the slice an adjacent cell stands. */
  function PositionOf(nx: int, ny: int, i: int, j: int, i': int, j': int): (k: nat)
    requires InGrid(nx, ny, i, j) && InGrid(nx, ny, i', j') && Adjacent(i, j, i', j')
    ensures k < Degree(nx, ny, i, j) && NeighbourAt(nx, ny, i, j, k) == (i', j')
  {
    var left := if i > 0 then 1 else 0;
    var right := left + if i < nx - 1 then 1 else 0;
    var below := right + if j > 0 then 1 else 0;
    if i' < i then 0 else if i' > i then left else if j' < j then right else below
  }

  /** A slice is exactly the in-grid 4-neighbourhood. */
  lemma NeighboursExact(nx: int, ny: int, i: int, j: int, i': int, j': int)
    requires InGrid(nx, ny, i, j) && InGrid(nx, ny, i', j')
    ensures Cell(nx, i', j') in Neighbours(nx, ny, i, j) <==> Adjacent(i, j, i', j')
  {
    if Adjacent(i, j, i', j') {
      var k := PositionOf(nx, ny, i, j, i', j');
      assert Neighbours(nx, ny, i, j)[k] == Cell(nx, i', j');
    }
    if Cell(nx, i', j') in Neighbours(nx, ny, i, j) {
      var k :| 0 <= k < Degree(nx, ny, i, j) && Neighbours(nx, ny, i, j)[k] == Cell(nx, i', j');
      var at := NeighbourAt(nx, ny, i, j, k);
      CellInjective(nx, ny, at.0, at.1, i', j');
    }
  }

  lemma NeighboursDistinct(nx: int, ny: int, i: int, j: int, k: nat, l: nat)
    requires InGrid(nx, ny, i, j) && k < l < Degree(nx, ny, i, j)
    ensures Neighbours(nx, ny, i, j)[k] != Neighbours(nx, ny, i, j)[l]
    ensures Cell(nx, i, j) !in [Neighbours(nx, ny, i, j)[k], Neighbours(nx, ny, i, j)[l]]
  {
    var a, b := NeighbourAt(nx, ny, i, j, k), NeighbourAt(nx, ny, i, j, l);
    CellInjective(nx, ny, a.0, a.1, b.0, b.1);
    CellInjective(nx, ny, a.0, a.1, i, j);
    CellInjective(nx, ny, b.0, b.1, i, j);
  }

  /** The adjacency is symmetric. */
  lemma AdjacencySymmetric(nx: int, ny: int, i: int, j: int, i': int, j': int)
    requires InGrid(nx, ny, i, j) && InGrid(nx, ny, i', j')
    ensures Cell(nx, i', j') in Neighbours(nx, ny, i, j) <==> Cell(nx, i, j) in Neighbours(nx, ny, i', j')
  {
    NeighboursExact(nx, ny, i, j, i', j');
    NeighboursExact(nx, ny, i', j', i, j);
  }

  // ----- generate_grid -----

  /** The adjacency of one cell is stored where it belongs. */
  ghost predicate Stored(nbrs: seq<int>, ends: seq<int>, nx: int, ny: int, i: int, j: int) {
    && InGrid(nx, ny, i, j)
    && 0 <= Cell(nx, i, j) + 1 < |ends|
    && Offset(nx, ny, i, j) + Degree(nx, ny, i, j) <= |nbrs|
    && ends[Cell(nx, i, j) + 1] == Offset(nx, ny, i, j) + Degree(nx, ny, i, j)
    && nbrs[Offset(nx, ny, i, j)..Offset(nx, ny, i, j) + Degree(nx, ny, i, j)] == Neighbours(nx, ny, i, j)
  }

  /** All cells of a rectangle are stored. */
  ghost predicate StoredIn(nbrs: seq<int>, ends: seq<int>, nx: int, ny: int, i0: int, i1: int, j0: int, j1: int) {
    forall i, j :: i0 <= i < i1 && j0 <= j < j1 ==> Stored(nbrs, ends, nx, ny, i, j)
  }

  /** Writing one cell's slice and its end leaves every other stored cell stored. */
  method WriteSlice(nbrs: array<int>, ends: array<int>, nx: int, ny: int, ghost i: int, ghost j: int,
                    index: int, cell: int, values: seq<int>)
    requires nx >= 2 && ny >= 2 && InGrid(nx, ny, i, j)
    requires nbrs.Length == Total(nx, ny) && ends.Length == nx * ny + 1 && nbrs != ends
    requires index == Offset(nx, ny, i, j) && cell == Cell(nx, i, j)
    requires values == Neighbours(nx, ny, i, j)
    modifies nbrs, ends
    ensures Stored(nbrs[..], ends[..], nx, ny, i, j)
    ensures forall i', j' :: old(Stored(nbrs[..], ends[..], nx, ny, i', j')) ==>
            Stored(nbrs[..], ends[..], nx, ny, i', j')
    ensures ends[0] == old(ends[0])
  {
    hide Offset, Total, Neighbours, Degree, Cell;
    CellInRange(nx, ny, i, j);
    SliceInTotal(nx, ny, i, j);
    ghost var nbrs0, ends0 := nbrs[..], ends[..];
    for k := 0 to |values|
      invariant forall m :: 0 <= m < k ==> nbrs[index + m] == values[m]
      invariant forall m :: 0 <= m < nbrs.Length && !(index <= m < index + k) ==> nbrs[m] == nbrs0[m]
      invariant ends[..] == ends0
    {
      nbrs[index + k] := values[k];
    }
    ends[cell + 1] := index + |values|;
    assert nbrs[index..index + |values|] == values;
    forall i', j' | old(Stored(nbrs[..], ends[..], nx, ny, i', j'))
      ensures Stored(nbrs[..], ends[..], nx, ny, i', j')
    {
      if i' != i || j' != j {
        OtherStays(nbrs0, ends0, nbrs[..], ends[..], nx, ny, i, j, i', j');
      }
    }
  }

  lemma OtherStays(nbrs0: seq<int>, ends0: seq<int>, nbrs: seq<int>, ends: seq<int>, nx: int, ny: int, i: int, j: int,
                   i': int, j': int)
    requires InGrid(nx, ny, i, j) && (i' != i || j' != j) && Stored(nbrs0, ends0, nx, ny, i', j')
    requires |nbrs| == |nbrs0| && |ends| == |ends0| && 0 <= Cell(nx, i, j) + 1 < |ends|
    requires forall m ::
               0 <= m < |nbrs| && !(Offset(nx, ny, i, j) <= m < Offset(nx, ny, i, j) + Degree(nx, ny, i, j)) ==>
                 nbrs[m] == nbrs0[m]
    requires forall c :: 0 <= c < |ends| && c != Cell(nx, i, j) + 1 ==> ends[c] == ends0[c]
    ensures Stored(nbrs, ends, nx, ny, i', j')
  {
    hide Offset, Total, Neighbours, Degree, Cell;
    CellInjective(nx, ny, i, j, i', j');
    var lo, hi := Offset(nx, ny, i', j'), Offset(nx, ny, i', j') + Degree(nx, ny, i', j');
    if j' < j || (j' == j && i' < i) {
      SlicesInOrder(nx, ny, i', j', i, j);
    } else {
      SlicesInOrder(nx, ny, i, j, i', j');
    }
    assert nbrs[lo..hi] == nbrs0[lo..hi];
  }

  /** generate_grid up to the partition: interior cells, then bottom and top rows, then left
      and right columns, then the corners, each at its closed-form position. */
  method GenerateAdjacency(nx: int, ny: int) returns (nbrs: array<int>, ends: array<int>)
    requires nx >= 2 && ny >= 2
    ensures nbrs.Length == Total(nx, ny) && ends.Length == nx * ny + 1
    ensures ends[0] == 0
    ensures StoredIn(nbrs[..], ends[..], nx, ny, 0, nx, 0, ny)
    ensures ends[nx * ny] == nbrs.Length
  {
    hide Stored, Total;
    TotalIsAllocated(nx, ny);
    TimesMonotone(0, ny, nx);
    nbrs := new int[4*(nx-2)*(ny-2) + 3*(2*(nx-2)+2*(ny-2)) + 2*4];
    ends := new int[nx * ny + 1];
    ends[0] := 0;
    FillInterior(nbrs, ends, nx, ny);
    FillRows(nbrs, ends, nx, ny);
    FillColumns(nbrs, ends, nx, ny);
    FillCorners(nbrs, ends, nx, ny);
    StoredLast(nbrs[..], ends[..], nx, ny);
  }

  lemma StoredLast(nbrs: seq<int>, ends: seq<int>, nx: int, ny: int)
    requires nx >= 2 && ny >= 2 && |ends| == nx * ny + 1 && Stored(nbrs, ends, nx, ny, nx - 1, ny - 1)
    ensures ends[nx * ny] == Total(nx, ny)
  {
    assert Cell(nx, nx - 1, ny - 1) + 1 == nx * ny;
  }

  ghost predicate Sized(nbrs: array<int>, ends: array<int>, nx: int, ny: int) {
    nx >= 2 && ny >= 2 && nbrs.Length == Total(nx, ny) && ends.Length == nx * ny + 1 && nbrs != ends
  }

  /** Whatever was stored before still is. */
  twostate predicate KeepsStored(nbrs: array<int>, ends: array<int>, nx: int, ny: int)
    reads nbrs, ends
  {
    && (forall i, j :: old(Stored(nbrs[..], ends[..], nx, ny, i, j)) ==> Stored(nbrs[..], ends[..], nx, ny, i, j))
    && (ends.Length > 0 ==> ends[0] == old(ends[0]))
  }

  method FillInterior(nbrs: array<int>, ends: array<int>, nx: int, ny: int)
    requires Sized(nbrs, ends, nx, ny)
    modifies nbrs, ends
    ensures StoredIn(nbrs[..], ends[..], nx, ny, 1, nx - 1, 1, ny - 1)
    ensures KeepsStored(nbrs, ends, nx, ny)
  {
    for i := 1 to nx - 1
      invariant StoredIn(nbrs[..], ends[..], nx, ny, 1, i, 1, ny - 1)
      invariant KeepsStored(nbrs, ends, nx, ny)
    {
      for j := 1 to ny - 1
        invariant StoredIn(nbrs[..], ends[..], nx, ny, 1, i, 1, ny - 1)
        invariant StoredIn(nbrs[..], ends[..], nx, ny, i, i + 1, 1, j)
        invariant KeepsStored(nbrs, ends, nx, ny)
      {
        var index := 2*2 + 3*(nx-2) + 3*(1+2*(j-1)) + 4*(j-1)*(nx-2) + 4*(i-1);
        var cell := (j * nx) + i;
        MiddlePositions(nx, ny, i, j);
        WriteSlice(nbrs, ends, nx, ny, i, j, index, cell, [cell - 1, cell + 1, cell - nx, cell + nx]);
      }
    }
  }

  method FillRows(nbrs: array<int>, ends: array<int>, nx: int, ny: int)
    requires Sized(nbrs, ends, nx, ny)
    modifies nbrs, ends
    ensures StoredIn(nbrs[..], ends[..], nx, ny, 1, nx - 1, 0, 1)
    ensures StoredIn(nbrs[..], ends[..], nx, ny, 1, nx - 1, ny - 1, ny)
    ensures KeepsStored(nbrs, ends, nx, ny)
  {
    for i := 1 to nx - 1
      invariant StoredIn(nbrs[..], ends[..], nx, ny, 1, i, 0, 1)
      invariant StoredIn(nbrs[..], ends[..], nx, ny, 1, i, ny - 1, ny)
      invariant KeepsStored(nbrs, ends, nx, ny)
    {
      BottomPositions(nx, ny, i);
      WriteSlice(nbrs, ends, nx, ny, i, 0, 2*1 + 3*(i-1), i, [i - 1, i + 1, i + nx]);
      var index := 2*3 + 3*(nx-2) + 4*(nx-2)*(ny-2) + 2*3*(ny-2) + 3*(i-1);
      var cell := ((ny - 1) * nx) + i;
      TopPositions(nx, ny, i);
      WriteSlice(nbrs, ends, nx, ny, i, ny - 1, index, cell, [cell - 1, cell + 1, cell - nx]);
    }
  }

  method FillColumns(nbrs: array<int>, ends: array<int>, nx: int, ny: int)
    requires Sized(nbrs, ends, nx, ny)
    modifies nbrs, ends
    ensures StoredIn(nbrs[..], ends[..], nx, ny, 0, 1, 1, ny - 1)
    ensures StoredIn(nbrs[..], ends[..], nx, ny, nx - 1, nx, 1, ny - 1)
    ensures KeepsStored(nbrs, ends, nx, ny)
  {
    for j := 1 to ny - 1
      invariant StoredIn(nbrs[..], ends[..], nx, ny, 0, 1, 1, j)
      invariant StoredIn(nbrs[..], ends[..], nx, ny, nx - 1, nx, 1, j)
      invariant KeepsStored(nbrs, ends, nx, ny)
    {
      var index := 2*2 + 3*(nx-2) + 3*2*(j-1) + 4*(j-1)*(nx-2);
      var cell := j * nx;
      MiddlePositions(nx, ny, 0, j);
      WriteSlice(nbrs, ends, nx, ny, 0, j, index, cell, [cell + 1, cell - nx, cell + nx]);
      index := 2*2 + 3*(nx-2) + 3*(2*(j-1)+1) + 4*(nx-2)*j;
      cell := (j * nx) + (nx - 1);
      MiddlePositions(nx, ny, nx - 1, j);
      WriteSlice(nbrs, ends, nx, ny, nx - 1, j, index, cell, [cell - 1, cell - nx, cell + nx]);
    }
  }

  method FillCorners(nbrs: array<int>, ends: array<int>, nx: int, ny: int)
    requires Sized(nbrs, ends, nx, ny)
    modifies nbrs, ends
    ensures Stored(nbrs[..], ends[..], nx, ny, 0, 0) && Stored(nbrs[..], ends[..], nx, ny, nx - 1, 0)
    ensures Stored(nbrs[..], ends[..], nx, ny, 0, ny - 1) && Stored(nbrs[..], ends[..], nx, ny, nx - 1, ny - 1)
    ensures KeepsStored(nbrs, ends, nx, ny)
  {
    BottomPositions(nx, ny, 0);
    WriteSlice(nbrs, ends, nx, ny, 0, 0, 0, 0, [1, nx]);
    BottomPositions(nx, ny, nx - 1);
    WriteSlice(nbrs, ends, nx, ny, nx - 1, 0, 2 + 3*(nx-2), nx - 1, [nx - 2, nx - 1 + nx]);
    var index := 2*2 + 3*(nx-2) + 4*(nx-2)*(ny-2) + 3*2*(ny-2);
    var cell := (ny - 1) * nx;
    TopPositions(nx, ny, 0);
    WriteSlice(nbrs, ends, nx, ny, 0, ny - 1, index, cell, [cell + 1, cell - nx]);
    index := 2*3 + 4*(nx-2)*(ny-2) + 3*2*(ny-2) + 3*2*(nx-2);
    cell := ((ny - 1) * nx) + (nx - 1);
    TopPositions(nx, ny, nx - 1);
    WriteSlice(nbrs, ends, nx, ny, nx - 1, ny - 1, index, cell, [cell - 1, cell - nx]);
  }
}
