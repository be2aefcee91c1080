/** mpi_nbnb_transfer on the ranks' arrays, and its first use: completing local_global and
    global_local with the ghost cells. */
module HaloTransfer {
  import opened Renumbering
  import opened Collectives
  import opened Halo
  import opened HaloExchange

  // ----- mpi_nbnb_transfer -----

  method Pack(vec: array<real>, slist: seq<nat>) returns (sbuf: array<real>)
    requires forall ii :: 0 <= ii < |slist| ==> slist[ii] < vec.Length
    ensures fresh(sbuf) && sbuf[..] == Packed(vec[..], slist)
  {
    sbuf := new real[|slist|];
    for ii := 0 to |slist|
      invariant forall k :: 0 <= k < ii ==> sbuf[k] == vec[slist[k]]
    {
      sbuf[ii] := vec[slist[ii]];
    }
  }

  /** Ghost slots are filled in order behind the owned ones. */
  method Unpack(vec: array<real>, rlist: seq<nat>, numSolved: nat, rbuf: seq<real>)
    requires |rlist| == |rbuf| && vec.Length == numSolved + |rlist|
    requires forall ii :: 0 <= ii < |rlist| ==> rlist[ii] == numSolved + ii
    modifies vec
    ensures vec[..] == old(vec[..numSolved]) + rbuf
  {
    for ii := 0 to |rlist|
      invariant forall k :: 0 <= k < numSolved ==> vec[k] == old(vec[k])
      invariant forall k :: numSolved <= k < numSolved + ii ==> vec[k] == rbuf[k - numSolved]
    {
      vec[rlist[ii]] := rbuf[ii];
    }
  }

  ghost function Contents(vecs: seq<array<real>>): (r: seq<seq<real>>)
    reads vecs
    ensures |r| == |vecs| && forall k :: 0 <= k < |vecs| ==> r[k] == vecs[k][..]
  {
    seq(|vecs|, k requires 0 <= k < |vecs| reads vecs => vecs[k][..])
  }

  ghost predicate Separate(vecs: seq<array<real>>) {
    forall k, m :: 0 <= k < m < |vecs| ==> vecs[k] != vecs[m]
  }

  method PackAll(hs: seq<RankHalo>, vecs: seq<array<real>>) returns (sbufs: seq<seq<real>>)
    requires Fits(hs, Contents(vecs))
    ensures sbufs == SendBuffers(hs, Contents(vecs))
  {
    sbufs := [];
    for r := 0 to |hs|
      invariant |sbufs| == r
      invariant forall q :: 0 <= q < r ==> sbufs[q] == Packed(Contents(vecs)[q], hs[q].slist)
    {
      var sbuf := Pack(vecs[r], hs[r].slist);
      sbufs := sbufs + [sbuf[..]];
    }
  }

  method UnpackAll(hs: seq<RankHalo>, vecs: seq<array<real>>, rbufs: seq<seq<real>>)
    requires |hs| == |vecs| == |rbufs| && Separate(vecs)
    requires forall r :: 0 <= r < |hs| ==>
               |hs[r].rlist| == |rbufs[r]| && vecs[r].Length == hs[r].numSolved + |hs[r].rlist|
               && forall ii :: 0 <= ii < |hs[r].rlist| ==> hs[r].rlist[ii] == hs[r].numSolved + ii
    modifies vecs
    ensures forall r :: 0 <= r < |hs| ==> vecs[r][..] == old(vecs[r][..hs[r].numSolved]) + rbufs[r]
  {
    for r := 0 to |hs|
      invariant forall q :: 0 <= q < r ==> vecs[q][..] == old(vecs[q][..hs[q].numSolved]) + rbufs[q]
      invariant forall q :: r <= q < |hs| ==> vecs[q][..] == old(vecs[q][..])
    {
      assert vecs[r][..hs[r].numSolved] == vecs[r][..][..hs[r].numSolved];
      Unpack(vecs[r], hs[r].rlist, hs[r].numSolved, rbufs[r]);
    }
  }

  /** The transfer on all ranks: pack, MPI_Alltoallv, unpack. */
  method NeighbourTransfer(l: Layout, hs: seq<RankHalo>, vecs: seq<array<real>>)
    requires AllBuilt(l, hs) && |vecs| == l.procs && Separate(vecs)
    requires forall r :: 0 <= r < l.procs ==> vecs[r].Length == |LocalCells(l, r)|
    modifies vecs
    ensures Fits(hs, old(Contents(vecs)))
    ensures Matching(SendBuffers(hs, old(Contents(vecs))), SendCounts(hs), SendDispls(hs))
    ensures Contents(vecs) == Exchanged(hs, old(Contents(vecs)))
  {
    ghost var before := Contents(vecs);
    FitsLists(l, hs, before);
    var sbufs := PackAll(hs, vecs);
    var rbufs := Alltoallv(sbufs, SendCounts(hs), SendDispls(hs));
    forall r | 0 <= r < l.procs
      ensures |hs[r].rlist| == |rbufs[r]|
      ensures forall ii :: 0 <= ii < |hs[r].rlist| ==> hs[r].rlist[ii] == hs[r].numSolved + ii
    {
      assert BuiltFor(l, r, hs[r]);
      ReceivedLength(l, hs, before, r);
    }
    UnpackAll(hs, vecs, rbufs);
  }

  lemma ParcelsLength<T>(l: Layout, vs: seq<seq<T>>, q: nat)
    requires Setting(l) && Long(l, vs) && l.procs > 0
    ensures |Concat(Parcels(l, vs, q))| == Sum(WantCounts(l, q), l.procs)
  {
    LengthsAre(Parcels(l, vs, q), WantCounts(l, q), 0);
  }

  lemma WantedLength(l: Layout, q: nat)
    requires Setting(l) && l.procs > 0
    ensures |AllWanted(l, q)| == Sum(WantCounts(l, q), l.procs)
  {
    WantedIsBlocks(l, q);
    LengthsAre(WantBlocks(l, q, l.procs), WantCounts(l, q), 0);
  }

  lemma ReceivedLength<T>(l: Layout, hs: seq<RankHalo>, vs: seq<seq<T>>, q: nat)
    requires AllBuilt(l, hs) && Fits(hs, vs) && q < l.procs
    requires Matching(SendBuffers(hs, vs), SendCounts(hs), SendDispls(hs))
    ensures |Received(hs, vs, q)| == |AllWanted(l, q)|
  {
    ReceivedIsParcels(l, hs, vs, q);
    ParcelsLength(l, vs, q);
    WantedLength(l, q);
  }

  // ----- local cells are distinct -----

  lemma WantedDistinct(l: Layout, q: nat, k: nat, m: nat)
    requires Setting(l) && k < m < |AllWanted(l, q)|
    ensures CellOf(l, AllWanted(l, q)[k]) != CellOf(l, AllWanted(l, q)[m])
  {
    EnumerateAscends(GhostNumbers(l, q), 0, |l.owner|);
    OldThenNew(l.owner, l.procs, AllWanted(l, q)[k]);
    OldThenNew(l.owner, l.procs, AllWanted(l, q)[m]);
  }

  lemma OwnedDistinct(owner: seq<nat>, q: nat, k: nat, m: nat)
    requires k < m < NumOwned(owner, q)
    ensures Owned(owner, q, |owner|)[k] != Owned(owner, q, |owner|)[m]
  {
    OwnedHasNumber(owner, q, |owner|, k);
    OwnedHasNumber(owner, q, |owner|, m);
  }

  /** local_global never names a cell twice. */
  lemma LocalCellsDistinct(l: Layout, q: nat, k: nat, m: nat)
    requires Setting(l) && k < m < |LocalCells(l, q)|
    ensures LocalCells(l, q)[k] != LocalCells(l, q)[m]
  {
    hide Setting, Owned, AllWanted, CellOf, NumOwned;
    var ns := NumOwned(l.owner, q);
    if m < ns {
      OwnedDistinct(l.owner, q, k, m);
    } else if k >= ns {
      WantedDistinct(l, q, k - ns, m - ns);
    } else {
      LocalCellsInRange(l, q, k);
      LocalCellsInRange(l, q, m);
    }
  }

  /** Every owned cell and every ghost of a rank is one of its local cells. */
  lemma LocalCellsComplete(l: Layout, q: nat, c: nat) returns (k: nat)
    requires Setting(l) && c < |l.owner| && (l.owner[c] == q || IsGhost(l, q, c))
    ensures k < |LocalCells(l, q)| && LocalCells(l, q)[k] == c
  {
    var ns := NumOwned(l.owner, q);
    if l.owner[c] == q {
      NumberFindsOwned(l.owner, |l.owner|, c);
      k := CountOwned(l.owner, q, c);
    } else {
      var g := NewNumber(l.owner, c);
      NewThenOld(l.owner, l.procs, c);
      EnumerateAscends(GhostNumbers(l, q), 0, |l.owner|);
      assert g in AllWanted(l, q);
      var ii :| 0 <= ii < |AllWanted(l, q)| && AllWanted(l, q)[ii] == g;
      k := ns + ii;
    }
  }

  lemma {:induction false} DistinctFit(s: seq<nat>, n: nat)
    requires forall k :: 0 <= k < |s| ==> s[k] < n
    requires forall k, m :: 0 <= k < m < |s| ==> s[k] != s[m]
    ensures |s| <= n
  {
    if s != [] {
      assert s[0] < n;
      if exists k :: 0 <= k < |s| && s[k] == n - 1 {
        var k :| 0 <= k < |s| && s[k] == n - 1;
        DistinctFit(s[..k] + s[k + 1..], n - 1);
      } else {
        DistinctFit(s, n - 1);
      }
    }
  }

  ghost predicate DistinctBelow(s: seq<nat>, n: nat) {
    && (forall k :: 0 <= k < |s| ==> s[k] < n)
    && (forall k, m :: 0 <= k < m < |s| ==> s[k] != s[m])
  }

  lemma LocalCellsFit(l: Layout, q: nat)
    requires Setting(l)
    ensures DistinctBelow(LocalCells(l, q), |l.owner|) && |LocalCells(l, q)| <= |l.owner|
  {
    forall k | 0 <= k < |LocalCells(l, q)|
      ensures LocalCells(l, q)[k] < |l.owner|
    {
      LocalCellsInRange(l, q, k);
    }
    forall k, m | 0 <= k < m < |LocalCells(l, q)|
      ensures LocalCells(l, q)[k] != LocalCells(l, q)[m]
    {
      LocalCellsDistinct(l, q, k, m);
    }
    DistinctFit(LocalCells(l, q), |l.owner|);
  }

  // ----- completing local_global and global_local -----

  /** Two maps, mutually inverse on the first n cells of the list and -1000 elsewhere. */
  ghost predicate Inverse(localGlobal: seq<int>, globalLocal: seq<int>, cells: seq<nat>, n: nat) {
    && n <= |cells| <= |localGlobal| == |globalLocal|
    && (forall k :: 0 <= k < n ==> localGlobal[k] == cells[k])
    && (forall k :: n <= k < |localGlobal| ==> localGlobal[k] == -1000)
    && (forall k :: 0 <= k < n ==> cells[k] < |globalLocal| && globalLocal[cells[k]] == k)
    && (forall c :: 0 <= c < |globalLocal| ==>
        globalLocal[c] == -1000 || (0 <= globalLocal[c] < n && cells[globalLocal[c]] == c))
  }

  /** The vector the test transfer sends: gcinvnum of the rank's own block. */
  lemma OwnBlockIsOwned(l: Layout, q: nat, k: nat)
    requires Setting(l) && q < l.procs && k < NumOwned(l.owner, q)
    ensures RankStart(l.owner, q) + k < |l.owner|
    ensures CellOf(l, RankStart(l.owner, q) + k) == Owned(l.owner, q, |l.owner|)[k]
  {
    hide NumOwned, Owned, BlockOf;
    RankStartMonotone(l.owner, q + 1, l.procs);
    BlocksEnd(l.owner, l.procs);
    var g := RankStart(l.owner, q) + k;
    BlocksDisjoint(l.owner, q, BlockOf(l.owner, l.procs, g), g);
  }

  /** The owned part, as the first loop left it. */
  lemma OwnedPartInverse(l: Layout, q: nat, localGlobal: seq<int>, globalLocal: seq<int>)
    requires Setting(l) && |localGlobal| == |globalLocal| == |l.owner|
    requires localGlobal[..NumOwned(l.owner, q)] == Owned(l.owner, q, |l.owner|)
    requires forall k :: NumOwned(l.owner, q) <= k < |l.owner| ==> localGlobal[k] == -1000
    requires forall c :: 0 <= c < |l.owner| ==>
               globalLocal[c] == if l.owner[c] == q then CountOwned(l.owner, q, c) else -1000
    ensures Inverse(localGlobal, globalLocal, LocalCells(l, q), NumOwned(l.owner, q))
  {
    var cells, ns := LocalCells(l, q), NumOwned(l.owner, q);
    LocalCellsFit(l, q);
    forall k | 0 <= k < ns
      ensures cells[k] < |l.owner| && globalLocal[cells[k]] == k
    {
      OwnedHasNumber(l.owner, q, |l.owner|, k);
    }
    forall c | 0 <= c < |l.owner|
      ensures globalLocal[c] == -1000 || (0 <= globalLocal[c] < ns && cells[globalLocal[c]] == c)
    {
      if l.owner[c] == q {
        NumberFindsOwned(l.owner, |l.owner|, c);
      }
    }
  }

  /** The ghost part, read back from the transferred old numbers. */
  method AddGhosts(localGlobal: array<int>, globalLocal: array<int>, numSolved: nat, numInvolved: nat,
                   vec: array<real>, ghost cells: seq<nat>)
    requires localGlobal != globalLocal && numSolved <= numInvolved == |cells| == vec.Length
    requires Inverse(localGlobal[..], globalLocal[..], cells, numSolved) && DistinctBelow(cells, globalLocal.Length)
    requires forall k :: 0 <= k < |cells| ==> vec[k] == cells[k] as real
    modifies localGlobal, globalLocal
    ensures Inverse(localGlobal[..], globalLocal[..], cells, numInvolved)
  {
    for ii := numSolved to numInvolved
      invariant Inverse(localGlobal[..], globalLocal[..], cells, ii)
    {
      var jj := vec[ii].Floor;
      localGlobal[ii] := jj;
      globalLocal[jj] := ii;
    }
  }
}
