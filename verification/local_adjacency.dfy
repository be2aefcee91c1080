/** The local adjacency of a rank: the neighbours of its owned cells in local numbers. */
module LocalAdjacency {
  import opened Renumbering
  import opened Halo
  import opened HaloExchange
  import opened HaloTransfer

  function RowLength(l: Layout, c: nat): int
    requires |l.ends| > c + 1
  {
    l.ends[c + 1] as int - l.ends[c] as int
  }

  /** Local row ends: row k has as many entries as its cell has neighbours. */
  ghost predicate RowEnds(l: Layout, q: nat, ends: seq<nat>)
    requires Setting(l)
  {
    var cells, ns := LocalCells(l, q), NumOwned(l.owner, q);
    && |ends| == ns + 1 && ends[0] == 0
    && forall k :: 0 <= k < ns ==> cells[k] < |l.owner| && ends[k + 1] == ends[k] + RowLength(l, cells[k])
  }

  /** Entry m of local row k is the local number of entry m of its cell's row. */
  ghost predicate EntryLocal(l: Layout, q: nat, ends: seq<nat>, nbrs: seq<int>, k: nat, m: int)
    requires Setting(l)
  {
    var cells := LocalCells(l, q);
    && k + 1 < |ends| && k < |cells| && cells[k] < |l.owner|
    && 0 <= m < RowLength(l, cells[k]) && ends[k] + m < |nbrs|
    && 0 <= l.ends[cells[k]] + m < |l.nbrs|
    && 0 <= nbrs[ends[k] + m] < |cells|
    && cells[nbrs[ends[k] + m]] == l.nbrs[l.ends[cells[k]] + m]
  }

  ghost predicate RowLocal(l: Layout, q: nat, ends: seq<nat>, nbrs: seq<int>, k: nat)
    requires Setting(l)
  {
    var cells := LocalCells(l, q);
    k < |cells| && cells[k] < |l.owner| &&
    forall m :: 0 <= m < RowLength(l, cells[k]) ==> EntryLocal(l, q, ends, nbrs, k, m)
  }

  method LocalRowEnds(l: Layout, q: nat, localGlobal: seq<int>, numSolved: nat) returns (ends: array<nat>)
    requires Setting(l) && numSolved == NumOwned(l.owner, q) <= |localGlobal|
    requires forall k :: 0 <= k < numSolved ==> localGlobal[k] == LocalCells(l, q)[k]
    ensures fresh(ends) && RowEnds(l, q, ends[..])
  {
    ends := new nat[numSolved + 1];
    ends[0] := 0;
    for i := 0 to numSolved
      invariant ends[0] == 0
      invariant forall k :: 0 <= k < i ==>
                  LocalCells(l, q)[k] < |l.owner| && ends[k + 1] == ends[k] + RowLength(l, LocalCells(l, q)[k])
    {
      LocalCellsInRange(l, q, i);
      var ig := localGlobal[i];
      ends[i + 1] := ends[i] + l.ends[ig + 1] - l.ends[ig];
    }
  }

  lemma {:induction false} RowEndsMonotone(l: Layout, q: nat, ends: seq<nat>, k: nat, m: nat)
    requires Setting(l) && RowEnds(l, q, ends) && k <= m <= NumOwned(l.owner, q)
    ensures ends[k] <= ends[m]
    decreases m
  {
    if k < m {
      RowEndsMonotone(l, q, ends, k, m - 1);
      assert l.ends[LocalCells(l, q)[m - 1]] <= l.ends[LocalCells(l, q)[m - 1] + 1];
    }
  }

  /** A neighbour of an owned cell is always a local cell, so its local number exists:
      global_local is never the -1000 it was initialised with. */
  lemma NeighbourIsLocal(l: Layout, q: nat, k: nat, m: nat) returns (j: nat)
    requires Setting(l) && k < NumOwned(l.owner, q)
    requires LocalCells(l, q)[k] < |l.owner| && m < RowLength(l, LocalCells(l, q)[k])
    ensures l.ends[LocalCells(l, q)[k]] + m < |l.nbrs|
    ensures j < |LocalCells(l, q)| && LocalCells(l, q)[j] == l.nbrs[l.ends[LocalCells(l, q)[k]] + m]
  {
    var c := LocalCells(l, q)[k];
    LocalCellsInRange(l, q, k);
    assert l.ends[c + 1] <= l.ends[|l.owner|];
    var d := l.nbrs[l.ends[c] + m];
    if l.owner[d] != q {
      assert EntryOf(l, q, c, l.ends[c] + m, d);
    }
    j := LocalCellsComplete(l, q, d);
  }

  method FillRow(l: Layout, q: nat, localGlobal: seq<int>, globalLocal: seq<int>, ends: seq<nat>, nbrs: array<int>,
                 i: nat)
    requires Setting(l) && i < NumOwned(l.owner, q) && RowEnds(l, q, ends)
    requires Inverse(localGlobal, globalLocal, LocalCells(l, q), |LocalCells(l, q)|) && |globalLocal| == |l.owner|
    requires ends[NumOwned(l.owner, q)] <= nbrs.Length
    modifies nbrs
    ensures RowLocal(l, q, ends, nbrs[..], i)
    ensures forall k :: 0 <= k < nbrs.Length && !(ends[i] <= k < ends[i + 1]) ==> nbrs[k] == old(nbrs[k])
  {
    RowEndsMonotone(l, q, ends, i + 1, NumOwned(l.owner, q));
    LocalCellsInRange(l, q, i);
    var startIndex := ends[i];
    var ig := localGlobal[i];
    for j := l.ends[ig] to l.ends[ig + 1]
      invariant forall m :: 0 <= m < j - l.ends[ig] ==> EntryLocal(l, q, ends, nbrs[..], i, m)
      invariant forall k :: 0 <= k < nbrs.Length && !(ends[i] <= k < ends[i + 1]) ==> nbrs[k] == old(nbrs[k])
    {
      ghost var at := NeighbourIsLocal(l, q, i, j - l.ends[ig]);
      assert globalLocal[LocalCells(l, q)[at]] == at;
      ghost var before := nbrs[..];
      nbrs[startIndex + j - l.ends[ig]] := globalLocal[l.nbrs[j]];
      forall m | 0 <= m < j + 1 - l.ends[ig]
        ensures EntryLocal(l, q, ends, nbrs[..], i, m)
      {
        if m < j - l.ends[ig] {
          assert EntryLocal(l, q, ends, before, i, m);
        }
      }
    }
  }

  /** number_of_neighbors_local and cell_neighbors_local. */
  method BuildLocalAdjacency(l: Layout, q: nat, localGlobal: seq<int>, globalLocal: seq<int>, numSolved: nat)
    returns (ends: array<nat>, nbrs: array<int>)
    requires Setting(l) && numSolved == NumOwned(l.owner, q)
    requires Inverse(localGlobal, globalLocal, LocalCells(l, q), |LocalCells(l, q)|) && |globalLocal| == |l.owner|
    ensures RowEnds(l, q, ends[..]) && ends[numSolved] <= nbrs.Length
    ensures forall k :: 0 <= k < numSolved ==> RowLocal(l, q, ends[..], nbrs[..], k)
  {
    ends := LocalRowEnds(l, q, localGlobal, numSolved);
    var starts := ends[..];
    nbrs := new int[|l.nbrs| + ends[numSolved]];
    for i := 0 to numSolved
      invariant ends[..] == starts
      invariant forall k :: 0 <= k < i ==> RowLocal(l, q, starts, nbrs[..], k)
    {
      ghost var before := nbrs[..];
      FillRow(l, q, localGlobal, globalLocal, starts, nbrs, i);
      forall k | 0 <= k < i
        ensures RowLocal(l, q, starts, nbrs[..], k)
      {
        RowEndsMonotone(l, q, starts, k + 1, i);
        RowKept(l, q, starts, before, nbrs[..], k);
      }
    }
  }

  lemma RowKept(l: Layout, q: nat, ends: seq<nat>, before: seq<int>, after: seq<int>, k: nat)
    requires Setting(l) && RowEnds(l, q, ends) && k < NumOwned(l.owner, q) && |before| == |after|
    requires RowLocal(l, q, ends, before, k)
    requires forall at :: ends[k] <= at < ends[k + 1] && at < |after| ==> after[at] == before[at]
    ensures RowLocal(l, q, ends, after, k)
  {
    forall m | 0 <= m < RowLength(l, LocalCells(l, q)[k])
      ensures EntryLocal(l, q, ends, after, k, m)
    {
      assert EntryLocal(l, q, ends, before, k, m);
    }
  }
}
