/** The layout that generate_grid and distribute_grid hand to assign_mpi_grid, and what is
    special about it: ranks grow with the columns, so sends and receives balance. */
module GridLayout {
  import opened GridTopology
  import opened Partition
  import opened Halo
  import opened Renumbering

  // ----- cells by number -----

  lemma CellOfNumber(nx: nat, ny: nat, c: nat)
    requires nx > 0 && c < nx * ny
    ensures InGrid(nx, ny, c % nx, c / nx) && Cell(nx, c % nx, c / nx) == c
  {
    assert c == nx * (c / nx) + c % nx;
    if c / nx >= ny {
      TimesMonotone(ny, c / nx, nx);
    }
  }

  /** Column and row of a cell's number. */
  lemma NumberParts(nx: nat, ny: nat, i: int, j: int)
    requires InGrid(nx, ny, i, j)
    ensures 0 <= Cell(nx, i, j) < nx * ny
    ensures Cell(nx, i, j) / nx == j && Cell(nx, i, j) % nx == i
  {
    CellInRange(nx, ny, i, j);
    var c := Cell(nx, i, j);
    var d := c / nx - j;
    assert d * nx == i - c % nx;
    assert d > 0 ==> d * nx >= nx;
    assert d < 0 ==> d * nx + nx <= 0;
  }

  /** The slices leave no gap: every entry of the adjacency belongs to a cell. */
  lemma SliceOfEntry(nx: nat, ny: nat, k: nat) returns (i: nat, j: nat)
    requires nx >= 2 && ny >= 2 && k < Total(nx, ny)
    ensures InGrid(nx, ny, i, j)
    ensures Offset(nx, ny, i, j) <= k < Offset(nx, ny, i, j) + Degree(nx, ny, i, j)
  {
    j := 0;
    while k >= BeforeRow(nx, ny, j + 1)
      invariant j < ny && BeforeRow(nx, ny, j) <= k
      decreases ny - j
    {
      if j + 1 == ny {
        assert false;
      }
      j := j + 1;
    }
    i := 0;
    while k >= BeforeRow(nx, ny, j) + InRow(nx, ny, i + 1, j)
      invariant i < nx && Offset(nx, ny, i, j) <= k
      decreases nx - i
    {
      if i + 1 == nx {
        assert false;
      }
      i := i + 1;
    }
  }

  // ----- the layout -----

  /** The adjacency of cell (i, j) as the layout stores it. */
  ghost predicate RowIs(l: Layout, nx: nat, ny: nat, i: int, j: int) {
    && InGrid(nx, ny, i, j) && 0 <= Cell(nx, i, j) && Cell(nx, i, j) + 1 < |l.ends|
    && l.ends[Cell(nx, i, j)] == Offset(nx, ny, i, j)
    && l.ends[Cell(nx, i, j) + 1] == Offset(nx, ny, i, j) + Degree(nx, ny, i, j) <= |l.nbrs|
    && l.nbrs[Offset(nx, ny, i, j)..Offset(nx, ny, i, j) + Degree(nx, ny, i, j)] == Neighbours(nx, ny, i, j)
  }

  /** Owners grow with the column, whatever the row. */
  ghost predicate ColumnsInOrder(l: Layout, nx: nat, ny: nat) {
    forall c, d :: 0 <= c < |l.owner| && 0 <= d < |l.owner| && nx > 0 && c % nx <= d % nx ==> l.owner[c] <= l.owner[d]
  }

  ghost predicate IsGrid(l: Layout, nx: nat, ny: nat) {
    && nx >= 2 && ny >= 2 && l.procs > 0
    && Setting(l) && |l.owner| == nx * ny
    && (forall i, j :: InGrid(nx, ny, i, j) ==> RowIs(l, nx, ny, i, j))
    && ColumnsInOrder(l, nx, ny)
  }

  lemma EndsFollow(nbrs: seq<int>, ends: seq<int>, nx: nat, ny: nat, i: nat, j: nat)
    requires nx >= 2 && ny >= 2 && InGrid(nx, ny, i, j)
    requires |ends| == nx * ny + 1 && ends[0] == 0 && StoredIn(nbrs, ends, nx, ny, 0, nx, 0, ny)
    ensures 0 <= Cell(nx, i, j) < nx * ny && ends[Cell(nx, i, j)] == Offset(nx, ny, i, j)
  {
    CellInRange(nx, ny, i, j);
    if i > 0 {
      assert Stored(nbrs, ends, nx, ny, i - 1, j);
    } else if j > 0 {
      assert Stored(nbrs, ends, nx, ny, nx - 1, j - 1);
      assert Cell(nx, nx - 1, j - 1) + 1 == Cell(nx, 0, j);
    }
  }

  lemma {:induction false} EndsMonotone(nbrs: seq<int>, ends: seq<int>, nx: nat, ny: nat, c: nat, d: nat)
    requires nx >= 2 && ny >= 2 && c <= d <= nx * ny
    requires |ends| == nx * ny + 1 && ends[0] == 0 && StoredIn(nbrs, ends, nx, ny, 0, nx, 0, ny)
    ensures 0 <= ends[c] <= ends[d]
    decreases d
  {
    if c < d {
      EndsMonotone(nbrs, ends, nx, ny, c, d - 1);
      CellOfNumber(nx, ny, d - 1);
      var i, j := (d - 1) % nx, (d - 1) / nx;
      EndsFollow(nbrs, ends, nx, ny, i, j);
      assert Stored(nbrs, ends, nx, ny, i, j);
    } else if d > 0 {
      CellOfNumber(nx, ny, d - 1);
      assert Stored(nbrs, ends, nx, ny, (d - 1) % nx, (d - 1) / nx);
    }
  }

  lemma EntriesAreCells(nbrs: seq<int>, ends: seq<int>, nx: nat, ny: nat, k: nat)
    requires nx >= 2 && ny >= 2 && k < |nbrs| == Total(nx, ny)
    requires StoredIn(nbrs, ends, nx, ny, 0, nx, 0, ny)
    ensures 0 <= nbrs[k] < nx * ny
  {
    var i, j := SliceOfEntry(nx, ny, k);
    assert Stored(nbrs, ends, nx, ny, i, j);
    var m := k - Offset(nx, ny, i, j);
    var at := NeighbourAt(nx, ny, i, j, m);
    CellInRange(nx, ny, at.0, at.1);
    assert nbrs[k] == nbrs[Offset(nx, ny, i, j)..Offset(nx, ny, i, j) + Degree(nx, ny, i, j)][m];
  }

  function ToNats(s: seq<int>): (r: seq<nat>)
    requires forall k :: 0 <= k < |s| ==> s[k] >= 0
    ensures r == s
  {
    seq(|s|, k requires 0 <= k < |s| => s[k])
  }

  /** Every rank has its share of the columns, all cells of each. */
  ghost predicate FairlyDealt(l: Layout, nx: nat, ny: nat) {
    && l.procs > 0 && |l.owner| == nx * ny
    && forall r :: 0 <= r < l.procs ==>
         |Dealt(l.owner, |l.owner|, r)| == ny * if r < nx % l.procs then nx / l.procs + 1 else nx / l.procs
  }

  lemma {:induction false} OwnedAreDealt(owner: seq<nat>, r: nat, n: nat)
    requires n <= |owner|
    ensures CountOwned(owner, r, n) == |Dealt(owner, n, r)|
  {
    if n > 0 {
      OwnedAreDealt(owner, r, n - 1);
      assert Dealt(owner, n, r) == Dealt(owner, n - 1, r) + if owner[n - 1] == r then {n - 1} else {};
    } else {
      assert Dealt(owner, 0, r) == {};
    }
  }

  /** So a rank solves that many cells, and any two ranks differ by at most one column. */
  lemma FairCounts(l: Layout, nx: nat, ny: nat, r: nat, q: nat)
    requires FairlyDealt(l, nx, ny) && r <= q < l.procs
    ensures NumOwned(l.owner, r) == ny * if r < nx % l.procs then nx / l.procs + 1 else nx / l.procs
    ensures NumOwned(l.owner, q) <= NumOwned(l.owner, r) <= NumOwned(l.owner, q) + ny
  {
    hide Dealt, CountOwned;
    OwnedAreDealt(l.owner, r, |l.owner|);
    OwnedAreDealt(l.owner, q, |l.owner|);
    OneColumnMore(ny, nx / l.procs);
  }

  lemma OneColumnMore(ny: nat, columns: nat)
    ensures ny * (columns + 1) == ny * columns + ny
  {
  }

  /** generate_grid up to assign_mpi_grid, for any number of ranks. */
  method BuildLayout(nx: nat, ny: nat, procs: nat) returns (l: Layout)
    requires nx >= 2 && ny >= 2 && procs > 0
    ensures IsGrid(l, nx, ny) && l.procs == procs && FairlyDealt(l, nx, ny)
  {
    var nbrs, ends := GenerateAdjacency(nx, ny);
    var ranks := DistributeGrid(nx, ny, procs);
    forall k | 0 <= k < nbrs.Length
      ensures 0 <= nbrs[k] < nx * ny
    {
      EntriesAreCells(nbrs[..], ends[..], nx, ny, k);
    }
    forall c, d | 0 <= c <= d <= nx * ny
      ensures 0 <= ends[..][c] <= ends[..][d]
    {
      EndsMonotone(nbrs[..], ends[..], nx, ny, c, d);
    }
    forall c | 0 <= c < nx * ny
      ensures InBlock(nx, procs, ranks[..][c], c % nx)
    {
      CellOfNumber(nx, ny, c);
    }
    l := Layout(ToNats(ranks[..]), ToNats(ends[..]), ToNats(nbrs[..]), procs);
    LayoutIsGrid(l, nx, ny);
  }

  lemma LayoutIsGrid(l: Layout, nx: nat, ny: nat)
    requires nx >= 2 && ny >= 2 && l.procs > 0 && Setting(l) && |l.owner| == nx * ny
    requires l.ends[0] == 0 && StoredIn(l.nbrs, l.ends, nx, ny, 0, nx, 0, ny)
    requires forall c :: 0 <= c < nx * ny ==> InBlock(nx, l.procs, l.owner[c], c % nx)
    ensures IsGrid(l, nx, ny)
  {
    forall i, j | InGrid(nx, ny, i, j)
      ensures RowIs(l, nx, ny, i, j)
    {
      EndsFollow(l.nbrs, l.ends, nx, ny, i, j);
      assert Stored(l.nbrs, l.ends, nx, ny, i, j);
    }
    forall c, d | 0 <= c < |l.owner| && 0 <= d < |l.owner| && c % nx <= d % nx
      ensures l.owner[c] <= l.owner[d]
    {
      BlockOwnersMonotone(nx, l.procs, l.owner[c], c % nx, l.owner[d], d % nx);
    }
  }
}
