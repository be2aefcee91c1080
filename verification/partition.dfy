/** distribute_grid: the columns of the grid are dealt to the ranks in contiguous blocks
    whose sizes differ by at most one. */
module Partition {
  import opened GridTopology

  /** First column of a rank: the first nx % procs ranks have one column more. */
  function BlockStart(nx: nat, procs: nat, r: nat): nat
    requires procs > 0
  {
    r * (nx / procs) + (if r < nx % procs then r else nx % procs)
  }

  function BlockSize(nx: nat, procs: nat, r: nat): nat
    requires procs > 0
  {
    nx / procs + (if r < nx % procs then 1 else 0)
  }

  lemma BlocksAdjoin(nx: nat, procs: nat, r: nat)
    requires procs > 0
    ensures BlockStart(nx, procs, r + 1) == BlockStart(nx, procs, r) + BlockSize(nx, procs, r)
  {
    assert (r + 1) * (nx / procs) == r * (nx / procs) + nx / procs;
  }

  lemma {:induction false} BlocksInOrder(nx: nat, procs: nat, r: nat, q: nat)
    requires procs > 0 && r <= q
    ensures BlockStart(nx, procs, r) <= BlockStart(nx, procs, q)
    decreases q
  {
    if r < q {
      BlocksInOrder(nx, procs, r, q - 1);
      BlocksAdjoin(nx, procs, q - 1);
    }
  }

  lemma BlocksCover(nx: nat, procs: nat)
    requires procs > 0
    ensures BlockStart(nx, procs, 0) == 0 && BlockStart(nx, procs, procs) == nx
  {
    assert nx == procs * (nx / procs) + nx % procs;
    assert procs * (nx / procs) == (nx / procs) * procs;
  }

  /** The column belongs to the block of its rank. */
  predicate InBlock(nx: nat, procs: nat, r: int, i: int)
    requires procs > 0
  {
    0 <= r < procs && BlockStart(nx, procs, r) <= i < BlockStart(nx, procs, r + 1)
  }

  /** Every column has at most one rank, and ranks grow with the columns. */
  lemma BlockOwnersMonotone(nx: nat, procs: nat, r: int, i: int, r': int, i': int)
    requires procs > 0 && InBlock(nx, procs, r, i) && InBlock(nx, procs, r', i') && i <= i'
    ensures r <= r'
  {
    if r' < r {
      BlocksInOrder(nx, procs, r' + 1, r);
    }
  }

  // ----- how many columns and cells a rank gets -----

  /** The columns, or cells, of a rank among the first n. */
  ghost function Dealt(assign: seq<int>, n: int, r: int): (s: set<int>)
    requires n <= |assign|
  {
    set i | 0 <= i < n && assign[i] == r
  }

  ghost function Range(lo: int, hi: int): (s: set<int>)
    requires lo <= hi
    ensures (forall i :: i in s <==> lo <= i < hi) && |s| == hi - lo
    decreases hi - lo
  {
    if lo == hi then {} else Range(lo, hi - 1) + {hi - 1}
  }

  /** Columns in blocks are dealt in fair shares. */
  lemma ColumnShare(assign: seq<int>, nx: nat, procs: nat, r: nat)
    requires procs > 0 && |assign| == nx && r < procs && forall i :: 0 <= i < nx ==> InBlock(nx, procs, assign[i], i)
    ensures |Dealt(assign, nx, r)| == BlockSize(nx, procs, r)
  {
    var lo, hi := BlockStart(nx, procs, r), BlockStart(nx, procs, r + 1);
    BlocksAdjoin(nx, procs, r);
    BlocksCover(nx, procs);
    BlocksInOrder(nx, procs, r + 1, procs);
    forall i | 0 <= i < nx
      ensures assign[i] == r <==> lo <= i < hi
    {
      SameBlock(nx, procs, assign[i], r, i);
    }
    assert Dealt(assign, nx, r) == Range(lo, hi);
  }

  lemma SameBlock(nx: nat, procs: nat, r: int, q: int, i: int)
    requires procs > 0 && InBlock(nx, procs, r, i) && 0 <= q < procs
    ensures InBlock(nx, procs, q, i) <==> r == q
  {
    if InBlock(nx, procs, q, i) {
      BlockOwnersMonotone(nx, procs, r, i, q, i);
      BlockOwnersMonotone(nx, procs, q, i, r, i);
    }
  }

  /** Every cell of a grid has the rank of its column. */
  ghost predicate InColumns(ranks: seq<int>, nx: nat, ny: nat, procs: nat)
    requires procs > 0
  {
    |ranks| == nx * ny &&
    forall i, j :: InGrid(nx, ny, i, j) ==>
      0 <= Cell(nx, i, j) < |ranks| && InBlock(nx, procs, ranks[Cell(nx, i, j)], i)
  }

  /** A row, whose first cell has the number first, deals every rank its share. */
  lemma RowShare(ranks: seq<int>, nx: nat, ny: nat, procs: nat, r: nat, j: nat, first: nat)
    requires procs > 0 && nx > 0 && r < procs && j < ny && InColumns(ranks, nx, ny, procs)
    requires first == j * nx && first + nx <= |ranks|
    ensures |Dealt(ranks, first + nx, r)| == |Dealt(ranks, first, r)| + BlockSize(nx, procs, r)
  {
    hide InBlock, BlockStart;
    var lo, hi := BlockStart(nx, procs, r), BlockStart(nx, procs, r + 1);
    BlocksAdjoin(nx, procs, r);
    BlocksCover(nx, procs);
    BlocksInOrder(nx, procs, r + 1, procs);
    forall c | first <= c < first + nx
      ensures ranks[c] == r <==> first + lo <= c < first + hi
    {
      assert InGrid(nx, ny, c - first, j) && Cell(nx, c - first, j) == c;
      SameBlock(nx, procs, ranks[c], r, c - first);
      BlockIs(nx, procs, r, c - first);
    }
    var before, row := Dealt(ranks, first, r), Range(first + lo, first + hi);
    assert Dealt(ranks, first + nx, r) == before + row;
    assert before !! row;
  }

  lemma BlockIs(nx: nat, procs: nat, r: nat, i: int)
    requires procs > 0 && r < procs
    ensures InBlock(nx, procs, r, i) <==> BlockStart(nx, procs, r) <= i < BlockStart(nx, procs, r + 1)
  {
  }

  /** The cells of rank r in the first j rows. */
  lemma {:induction false} RowShares(ranks: seq<int>, nx: nat, ny: nat, procs: nat, r: nat, j: nat)
    requires procs > 0 && nx > 0 && r < procs && j <= ny && InColumns(ranks, nx, ny, procs)
    ensures 0 <= j * nx <= nx * ny && |Dealt(ranks, j * nx, r)| == j * BlockSize(nx, procs, r)
  {
    hide Dealt, BlockSize;
    TimesMonotone(j, ny, nx);
    TimesMonotone(0, j, nx);
    NoneDealt(ranks, r);
    if j > 0 {
      RowShares(ranks, nx, ny, procs, r, j - 1);
      assert (j - 1) * nx + nx == j * nx;
      RowShare(ranks, nx, ny, procs, r, j - 1, (j - 1) * nx);
      assert j * BlockSize(nx, procs, r) == (j - 1) * BlockSize(nx, procs, r) + BlockSize(nx, procs, r);
    }
  }

  lemma NoneDealt(ranks: seq<int>, r: int)
    ensures |Dealt(ranks, 0, r)| == 0
  {
    assert Dealt(ranks, 0, r) == {};
  }

  // ----- the loops -----

  /** The columns go to the ranks in order, in fair shares: contiguous, and no rank has more
      columns than one before it, nor fewer than that by more than one. */
  method DistributeColumns(nx: nat, procs: nat) returns (assign: array<int>)
    requires procs > 0
    ensures assign.Length == nx && fresh(assign)
    ensures forall i :: 0 <= i < nx ==> InBlock(nx, procs, assign[i], i)
    ensures forall i, k :: 0 <= i <= k < nx ==> 0 <= assign[i] <= assign[k] < procs
    ensures forall r :: 0 <= r < procs ==>
              |Dealt(assign[..], nx, r)| == if r < nx % procs then nx / procs + 1 else nx / procs
    ensures forall r, q :: 0 <= r <= q < procs ==>
              |Dealt(assign[..], nx, q)| <= |Dealt(assign[..], nx, r)| <= |Dealt(assign[..], nx, q)| + 1
  {
    var baseSize := nx / procs;
    var remainder := nx % procs;
    assign := new int[nx];
    var sizeRank := new int[procs];
    for ii := 0 to procs
      invariant forall k :: 0 <= k < ii ==> sizeRank[k] == baseSize
    {
      sizeRank[ii] := baseSize;
    }
    for ii := 0 to remainder
      invariant forall k :: 0 <= k < procs ==> sizeRank[k] == if k < ii then baseSize + 1 else baseSize
    {
      sizeRank[ii] := baseSize + 1;
    }
    var count := 0;
    BlocksCover(nx, procs);
    for ii := 0 to procs
      invariant count == BlockStart(nx, procs, ii)
      invariant forall k :: 0 <= k < procs ==> sizeRank[k] == BlockSize(nx, procs, k)
      invariant count <= nx
      invariant forall i :: 0 <= i < count ==> InBlock(nx, procs, assign[i], i)
    {
      BlocksAdjoin(nx, procs, ii);
      BlocksInOrder(nx, procs, ii + 1, procs);
      for jj := 0 to sizeRank[ii]
        invariant count == BlockStart(nx, procs, ii) + jj
        invariant forall k :: 0 <= k < procs ==> sizeRank[k] == BlockSize(nx, procs, k)
        invariant forall i :: 0 <= i < count ==> InBlock(nx, procs, assign[i], i)
      {
        assign[count] := ii;
        count := count + 1;
      }
    }
    forall i, k | 0 <= i <= k < nx
      ensures 0 <= assign[i] <= assign[k] < procs
    {
      BlockOwnersMonotone(nx, procs, assign[i], i, assign[k], k);
    }
    forall r: nat | r < procs
      ensures |Dealt(assign[..], nx, r)| == BlockSize(nx, procs, r)
    {
      ColumnShare(assign[..], nx, procs, r);
    }
  }

  /** The rank of every cell is the rank of its column, so cells too are dealt in fair shares. */
  method DistributeGrid(nx: nat, ny: nat, procs: nat) returns (ranks: array<int>)
    requires nx >= 2 && ny >= 2 && procs > 0
    ensures ranks.Length == nx * ny
    ensures forall i, j :: InGrid(nx, ny, i, j) ==>
              0 <= Cell(nx, i, j) < ranks.Length && InBlock(nx, procs, ranks[Cell(nx, i, j)], i)
    ensures forall r :: 0 <= r < procs ==>
              |Dealt(ranks[..], nx * ny, r)| == ny * if r < nx % procs then nx / procs + 1 else nx / procs
  {
    var assign := DistributeColumns(nx, procs);
    ranks := new int[nx * ny];
    for i := 0 to nx
      invariant assign.Length == nx && ranks.Length == nx * ny
      invariant forall i' :: 0 <= i' < nx ==> InBlock(nx, procs, assign[i'], i')
      invariant forall i', j' :: 0 <= i' < i && 0 <= j' < ny ==> RankIs(ranks[..], nx, i', j', assign[i'])
    {
      for j := 0 to ny
        invariant assign.Length == nx && ranks.Length == nx * ny
        invariant forall i' :: 0 <= i' < nx ==> InBlock(nx, procs, assign[i'], i')
        invariant forall i', j' :: 0 <= i' < i && 0 <= j' < ny ==> RankIs(ranks[..], nx, i', j', assign[i'])
        invariant forall j' :: 0 <= j' < j ==> RankIs(ranks[..], nx, i, j', assign[i])
      {
        CellInRange(nx, ny, i, j);
        SetRank(ranks, nx, ny, i, j, assign[i]);
      }
    }
    forall i, j | InGrid(nx, ny, i, j)
      ensures 0 <= Cell(nx, i, j) < ranks.Length && InBlock(nx, procs, ranks[Cell(nx, i, j)], i)
    {
      assert RankIs(ranks[..], nx, i, j, assign[i]);
    }
    forall r: nat | r < procs
      ensures |Dealt(ranks[..], nx * ny, r)| == ny * BlockSize(nx, procs, r)
    {
      RowShares(ranks[..], nx, ny, procs, r, ny);
      assert ny * nx == nx * ny;
    }
  }

  predicate RankIs(ranks: seq<int>, nx: nat, i: int, j: int, r: int) {
    0 <= Cell(nx, i, j) < |ranks| && ranks[Cell(nx, i, j)] == r
  }

  method SetRank(ranks: array<int>, nx: nat, ny: nat, i: int, j: int, r: int)
    requires InGrid(nx, ny, i, j) && ranks.Length == nx * ny && 0 <= Cell(nx, i, j) < nx * ny
    modifies ranks
    ensures RankIs(ranks[..], nx, i, j, r)
    ensures forall i', j', q ::
              InGrid(nx, ny, i', j') && (i' != i || j' != j) && old(RankIs(ranks[..], nx, i', j', q)) ==>
                RankIs(ranks[..], nx, i', j', q)
  {
    ranks[Cell(nx, i, j)] := r;
    forall i', j' | InGrid(nx, ny, i', j') && (i' != i || j' != j)
      ensures Cell(nx, i', j') != Cell(nx, i, j)
    {
      CellInjective(nx, ny, i, j, i', j');
    }
  }
}
