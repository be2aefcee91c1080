/** Every rank sends exactly as many values as it receives, which is why a send list sized
    by the number of ghosts is exactly filled. It rests on the column partition. */
module HaloBalance {
  import opened GridTopology
  import opened Collectives
  import opened Renumbering
  import opened Halo
  import opened HaloExchange
  import opened GridLayout

  /** The cells of rank r that are ghosts of rank q. */
  ghost function Border(l: Layout, q: nat, r: nat): set<nat> {
    set c | 0 <= c < |l.owner| && l.owner[c] == r && IsGhost(l, q, c)
  }

  lemma {:induction false} ImageSize(s: set<nat>, image: set<nat>, f: nat -> nat)
    requires image == set x | x in s :: f(x)
    requires forall x, y :: x in s && y in s && x != y ==> f(x) != f(y)
    ensures |image| == |s|
    decreases |s|
  {
    if s == {} {
      assert image == {};
    } else {
      var x :| x in s;
      var rest := image - {f(x)};
      assert rest == set y | y in s - {x} :: f(y);
      ImageSize(s - {x}, rest, f);
      assert image == rest + {f(x)};
    }
  }

  /** What q wants from r is the border between them, renumbered. */
  lemma WantsAreBorder(l: Layout, q: nat, r: nat)
    requires Setting(l)
    ensures |Wants(l, q, r)| == |Border(l, q, r)|
  {
    hide Enumerate, RankStart, NewNumber, EntryOf;
    var lo, hi := RankStart(l.owner, r), RankStart(l.owner, r + 1);
    EnumerateCounts(GhostNumbers(l, q), lo, hi);
    var number := (c: nat) => if c < |l.owner| then NewNumber(l.owner, c) else 0;
    var image := set c | c in Border(l, q, r) :: number(c);
    forall c | c in Border(l, q, r)
      ensures number(c) in Between(GhostNumbers(l, q), lo, hi)
    {
      NewNumberInBlock(l.owner, l.procs, c);
    }
    forall g | g in Between(GhostNumbers(l, q), lo, hi)
      ensures g in image
    {
      var c :| 0 <= c < |l.owner| && IsGhost(l, q, c) && NewNumber(l.owner, c) == g;
      NewNumberInBlock(l.owner, l.procs, c);
      BlocksDisjoint(l.owner, r, l.owner[c], g);
      assert c in Border(l, q, r) && number(c) == g;
    }
    assert image == Between(GhostNumbers(l, q), lo, hi);
    forall c, d | c in Border(l, q, r) && d in Border(l, q, r) && c != d
      ensures number(c) != number(d)
    {
      NewNumberInjective(l.owner, l.procs, c, d);
    }
    ImageSize(Border(l, q, r), image, number);
  }

  // ----- the stored adjacency is the grid's -----

  lemma EntryIsAdjacent(l: Layout, nx: nat, ny: nat, q: nat, c: nat, k: int, d: nat)
    requires IsGrid(l, nx, ny) && EntryOf(l, q, c, k, d)
    ensures d < |l.owner| && Adjacent(c % nx, c / nx, d % nx, d / nx)
  {
    CellOfNumber(nx, ny, c);
    var i, j := c % nx, c / nx;
    assert RowIs(l, nx, ny, i, j);
    var m := k - Offset(nx, ny, i, j);
    var at := NeighbourAt(nx, ny, i, j, m);
    assert l.nbrs[Offset(nx, ny, i, j)..Offset(nx, ny, i, j) + Degree(nx, ny, i, j)][m] == d;
    CellOfNumber(nx, ny, d);
    CellInjective(nx, ny, at.0, at.1, d % nx, d / nx);
  }

  lemma AdjacentIsEntry(l: Layout, nx: nat, ny: nat, c: nat, d: nat) returns (k: nat)
    requires IsGrid(l, nx, ny) && c < |l.owner| && d < |l.owner|
    requires Adjacent(c % nx, c / nx, d % nx, d / nx)
    ensures EntryOf(l, l.owner[c], c, k, d)
  {
    hide Offset, Degree;
    CellOfNumber(nx, ny, c);
    CellOfNumber(nx, ny, d);
    var i, j := c % nx, c / nx;
    assert RowIs(l, nx, ny, i, j);
    var m := PositionOf(nx, ny, i, j, d % nx, d / nx);
    k := Offset(nx, ny, i, j) + m;
    assert l.nbrs[Offset(nx, ny, i, j)..Offset(nx, ny, i, j) + Degree(nx, ny, i, j)][m] == d;
  }

  /** A rank's ghosts are exactly the cells of other ranks next to one of its own. */
  lemma GhostIffAdjacent(l: Layout, nx: nat, ny: nat, q: nat, d: nat)
    requires IsGrid(l, nx, ny) && d < |l.owner|
    ensures NewNumber(l.owner, d) in GhostNumbers(l, q) <==>
            && l.owner[d] != q
            && exists c :: 0 <= c < |l.owner| && l.owner[c] == q && Adjacent(c % nx, c / nx, d % nx, d / nx)
  {
    if NewNumber(l.owner, d) in GhostNumbers(l, q) {
      var i :| 0 <= i < |l.owner| && IsGhost(l, q, i) && NewNumber(l.owner, i) == NewNumber(l.owner, d);
      NewNumberInjective(l.owner, l.procs, i, d);
      var c, k :| EntryOf(l, q, c, k, d);
      EntryIsAdjacent(l, nx, ny, q, c, k, d);
    }
    if l.owner[d] != q
       && exists c :: 0 <= c < |l.owner| && l.owner[c] == q && Adjacent(c % nx, c / nx, d % nx, d / nx) {
      var c :| 0 <= c < |l.owner| && l.owner[c] == q && Adjacent(c % nx, c / nx, d % nx, d / nx);
      var k := AdjacentIsEntry(l, nx, ny, c, d);
      assert IsGhost(l, q, d);
    }
  }

  /** Across a border the cell of the higher rank is the right-hand neighbour. */
  lemma BorderIsVertical(l: Layout, nx: nat, ny: nat, low: nat, high: nat)
    requires IsGrid(l, nx, ny) && low < |l.owner| && high < |l.owner|
    requires Adjacent(low % nx, low / nx, high % nx, high / nx) && l.owner[low] < l.owner[high]
    ensures high == low + 1
  {
    CellOfNumber(nx, ny, low);
    CellOfNumber(nx, ny, high);
    assert low % nx < high % nx;
  }

  lemma RightNeighbourInBorder(l: Layout, nx: nat, ny: nat, q: nat, r: nat, c: nat)
    requires IsGrid(l, nx, ny) && r < q && c in Border(l, q, r)
    ensures c + 1 in Border(l, r, q)
  {
    var d, k :| EntryOf(l, q, d, k, c);
    EntryIsAdjacent(l, nx, ny, q, d, k, c);
    BorderIsVertical(l, nx, ny, c, d);
    var m := AdjacentIsEntry(l, nx, ny, c, d);
  }

  lemma LeftNeighbourInBorder(l: Layout, nx: nat, ny: nat, q: nat, r: nat, d: nat)
    requires IsGrid(l, nx, ny) && r < q && d in Border(l, r, q)
    ensures d > 0 && d - 1 in Border(l, q, r)
  {
    var c, k :| EntryOf(l, r, c, k, d);
    EntryIsAdjacent(l, nx, ny, r, c, k, d);
    BorderIsVertical(l, nx, ny, c, d);
    var m := AdjacentIsEntry(l, nx, ny, d, c);
  }

  /** Between any two ranks as much is sent as received. */
  lemma BordersMatch(l: Layout, nx: nat, ny: nat, q: nat, r: nat)
    requires IsGrid(l, nx, ny)
    ensures |Border(l, q, r)| == |Border(l, r, q)|
    decreases r
  {
    if r < q {
      var right := (c: nat) => c + 1;
      forall c | c in Border(l, q, r)
        ensures right(c) in Border(l, r, q)
      {
        RightNeighbourInBorder(l, nx, ny, q, r, c);
      }
      var image := set c | c in Border(l, q, r) :: right(c);
      forall d | d in Border(l, r, q)
        ensures d in image
      {
        LeftNeighbourInBorder(l, nx, ny, q, r, d);
        assert right(d - 1) == d;
      }
      assert image == Border(l, r, q);
      ImageSize(Border(l, q, r), Border(l, r, q), right);
    } else if q < r {
      BordersMatch(l, nx, ny, r, q);
    }
  }

  /** ssize == rsize on every rank: the send list has exactly one entry per ghost. */
  lemma SendsBalanceReceives(l: Layout, nx: nat, ny: nat, r: nat, h: RankHalo)
    requires IsGrid(l, nx, ny) && r < l.procs && BuiltFor(l, r, h)
    ensures |h.slist| == |h.rlist| == Sum(h.scounts, l.procs) == Sum(h.rcounts, l.procs)
  {
    forall q | 0 <= q < l.procs
      ensures h.scounts[q] == h.rcounts[q]
    {
      assert SendsWanted(l, r, q, h);
      WantsAreBorder(l, q, r);
      WantsAreBorder(l, r, q);
      BordersMatch(l, nx, ny, q, r);
    }
    SumOfEqual(h.scounts, h.rcounts, l.procs);
    WantedIsBlocks(l, r);
    LengthsAre(WantBlocks(l, r, l.procs), WantCounts(l, r), 0);
  }
}
