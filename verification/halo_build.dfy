/** assign_mpi_grid on all ranks: local numbering, ghost collection, and the exchange of
    the wanted numbers that gives every rank its send list. */
module HaloBuild {
  import opened Renumbering
  import opened Collectives
  import opened Halo
  import opened HaloExchange

  // ----- what the exchange of the receive lists gives every rank -----

  ghost predicate RequestsFor(l: Layout, lists: seq<seq<nat>>, counts: seq<seq<nat>>, displs: seq<seq<nat>>)
  {
    && Setting(l)
    && |lists| == |counts| == |displs| == l.procs
    && forall q :: 0 <= q < l.procs ==>
         lists[q] == AllWanted(l, q) && counts[q] == WantCounts(l, q) && Displacements(counts[q], displs[q])
  }

  lemma RequestsMatch(l: Layout, lists: seq<seq<nat>>, counts: seq<seq<nat>>, displs: seq<seq<nat>>)
    requires RequestsFor(l, lists, counts, displs)
    ensures Matching(lists, counts, displs)
  {
    forall q | 0 <= q < l.procs
      ensures |counts[q]| == l.procs && Displacements(counts[q], displs[q]) && Sum(counts[q], l.procs) == |lists[q]|
    {
      WantedIsBlocks(l, q);
      if l.procs > 0 {
        LengthsAre(WantBlocks(l, q, l.procs), WantCounts(l, q), 0);
      }
    }
  }

  /** The block of its request list that rank q sends to rank r. */
  lemma RequestBlock(l: Layout, lists: seq<seq<nat>>, counts: seq<seq<nat>>, displs: seq<seq<nat>>, q: nat, r: nat)
    requires RequestsFor(l, lists, counts, displs) && Matching(lists, counts, displs) && q < l.procs && r < l.procs
    ensures SendBlock(lists, counts, displs, q, r) == Wants(l, q, r)
  {
    WantedIsBlocks(l, q);
    LengthsAre(WantBlocks(l, q, l.procs), WantCounts(l, q), r);
  }

  /** What all ranks want from rank r, by asking rank. */
  ghost function AskedOf(l: Layout, r: nat): (a: seq<seq<nat>>)
    requires Setting(l)
    ensures |a| == l.procs
    ensures forall q :: 0 <= q < l.procs ==> a[q] == Wants(l, q, r)
  {
    seq(l.procs, q requires 0 <= q < l.procs => Wants(l, q, r))
  }

  lemma RequestsArrive(l: Layout, lists: seq<seq<nat>>, counts: seq<seq<nat>>, displs: seq<seq<nat>>, r: nat)
    requires RequestsFor(l, lists, counts, displs) && Matching(lists, counts, displs) && r < l.procs
    ensures Alltoallv(lists, counts, displs)[r] == Concat(AskedOf(l, r))
  {
    forall q | 0 <= q < l.procs
      ensures RecvBlocks(lists, counts, displs, r)[q] == AskedOf(l, r)[q]
    {
      RequestBlock(l, lists, counts, displs, q, r);
    }
    assert RecvBlocks(lists, counts, displs, r) == AskedOf(l, r);
  }

  // ----- the loops over the received list -----

  method SubtractOffset(list: seq<nat>, offset: nat) returns (slist: array<nat>)
    requires forall ii :: 0 <= ii < |list| ==> list[ii] >= offset
    ensures slist.Length == |list| && fresh(slist)
    ensures forall ii :: 0 <= ii < |list| ==> slist[ii] == list[ii] - offset
  {
    slist := new nat[|list|];
    for ii := 0 to |list|
      invariant forall k :: 0 <= k < ii ==> slist[k] == list[k] - offset
    {
      slist[ii] := list[ii] - offset;
    }
  }

  method GhostSlots(numSolved: nat, rsize: nat) returns (rlist: array<nat>)
    ensures rlist.Length == rsize && fresh(rlist)
    ensures forall ii :: 0 <= ii < rsize ==> rlist[ii] == numSolved + ii
  {
    rlist := new nat[rsize];
    for ii := 0 to rsize
      invariant forall k :: 0 <= k < ii ==> rlist[k] == numSolved + k
    {
      rlist[ii] := numSolved + ii;
    }
  }

  /** The finished lists of one rank, from what it asked for and what it was asked for. */
  method FinishRank(l: Layout, r: nat, numSolved: nat, rcounts: seq<nat>, scounts: seq<nat>, asked: seq<nat>)
    returns (h: RankHalo)
    requires Setting(l) && r < l.procs
    requires numSolved == NumOwned(l.owner, r) && rcounts == WantCounts(l, r)
    requires |scounts| == l.procs && forall q :: 0 <= q < l.procs ==> scounts[q] == |Wants(l, q, r)|
    requires asked == Concat(AskedOf(l, r))
    ensures BuiltFor(l, r, h)
  {
    var rdisp := PrefixSums(rcounts);
    var sdisp := PrefixSums(scounts);
    var ssize := TotalOf(scounts);
    var rsize := TotalOf(rcounts);
    SizesAgree(l, r, scounts, asked);
    var slist := SubtractOffset(asked, RankStart(l.owner, r));
    var rlist := GhostSlots(numSolved, rsize);
    h := RankHalo(numSolved, slist[..], rlist[..], scounts, rcounts, sdisp[..], rdisp[..]);
    forall q | 0 <= q < l.procs
      ensures SendsWanted(l, r, q, h)
    {
      SendsTheWanted(l, r, q, h, asked);
    }
  }

  lemma SizesAgree(l: Layout, r: nat, scounts: seq<nat>, asked: seq<nat>)
    requires Setting(l) && r < l.procs
    requires |scounts| == l.procs && forall q :: 0 <= q < l.procs ==> scounts[q] == |Wants(l, q, r)|
    requires asked == Concat(AskedOf(l, r))
    ensures |asked| == Sum(scounts, l.procs)
    ensures |AllWanted(l, r)| == Sum(WantCounts(l, r), l.procs)
    ensures forall ii :: 0 <= ii < |asked| ==> asked[ii] >= RankStart(l.owner, r)
  {
    WantedIsBlocks(l, r);
    LengthsAre(WantBlocks(l, r, l.procs), WantCounts(l, r), 0);
    LengthsAre(AskedOf(l, r), scounts, 0);
    ConcatAtLeast(AskedOf(l, r), RankStart(l.owner, r), asked);
  }

  lemma {:induction false} ConcatAtLeast(blocks: seq<seq<nat>>, lo: nat, all: seq<nat>)
    requires forall q, k :: 0 <= q < |blocks| && 0 <= k < |blocks[q]| ==> lo <= blocks[q][k]
    requires all == Concat(blocks)
    ensures forall ii :: 0 <= ii < |all| ==> lo <= all[ii]
    decreases |blocks|
  {
    if blocks != [] {
      ConcatAtLeast(blocks[..|blocks| - 1], lo, Concat(blocks[..|blocks| - 1]));
    }
  }

  lemma SendsTheWanted(l: Layout, r: nat, q: nat, h: RankHalo, asked: seq<nat>)
    requires Setting(l) && r < l.procs && q < l.procs && asked == Concat(AskedOf(l, r))
    requires |h.scounts| == l.procs && forall p :: 0 <= p < l.procs ==> h.scounts[p] == |Wants(l, p, r)|
    requires Displacements(h.scounts, h.sdisp)
    requires |h.slist| == |asked| && forall ii :: 0 <= ii < |asked| ==> h.slist[ii] + RankStart(l.owner, r) == asked[ii]
    ensures SendsWanted(l, r, q, h)
  {
    hide Setting, Wants, GhostNumbers, RankStart;
    LengthsAre(AskedOf(l, r), h.scounts, q);
    var start := Sum(h.scounts, q);
    forall k | 0 <= k < |Wants(l, q, r)|
      ensures h.slist[h.sdisp[q] + k] + RankStart(l.owner, r) == Wants(l, q, r)[k]
    {
      assert asked[start..start + h.scounts[q]][k] == asked[start + k];
    }
  }

  // ----- all ranks together -----

  /** assign_mpi_grid: Allgather of the owned counts, ghost collection on every rank,
      Alltoall of the counts, Alltoallv of the wanted numbers. */
  method AssignRanks(l: Layout) returns (hs: seq<RankHalo>)
    requires Setting(l) && l.procs > 0
    ensures AllBuilt(l, hs)
  {
    var numSolved: seq<nat> := [];
    for r := 0 to l.procs
      invariant |numSolved| == r && forall p :: 0 <= p < r ==> numSolved[p] == NumOwned(l.owner, p)
    {
      var localGlobal, globalLocal, owned := NumberOwned(l.owner, r);
      numSolved := numSolved + [owned];
    }
    var lists, counts, displs := [], [], [];
    for r := 0 to l.procs
      invariant |lists| == |counts| == |displs| == r
      invariant forall q :: 0 <= q < r ==>
                  lists[q] == AllWanted(l, q) && counts[q] == WantCounts(l, q) && Displacements(counts[q], displs[q])
    {
      var gcnum, gcinvnum := Renumber(l.owner, l.procs, numSolved);
      forall c | 0 <= c < |l.owner|
        ensures gcnum[..][c] == NewNumber(l.owner, c)
      {
        assert Numbered(l.owner, gcnum[..], gcinvnum[..], c);
      }
      var involved, rcounts := CollectGhosts(l, r, gcnum[..]);
      var rdisp := PrefixSums(rcounts[..]);
      lists := lists + [Enumerate(involved, 0, |l.owner|)];
      counts := counts + [rcounts[..]];
      displs := displs + [rdisp[..]];
    }
    assert RequestsFor(l, lists, counts, displs);
    RequestsMatch(l, lists, counts, displs);
    var scounts := Alltoall(counts);
    var asked := Alltoallv(lists, counts, displs);
    hs := [];
    for r := 0 to l.procs
      invariant |hs| == r && forall p :: 0 <= p < r ==> BuiltFor(l, p, hs[p])
    {
      RequestsArrive(l, lists, counts, displs, r);
      var h := FinishRank(l, r, numSolved[r], counts[r], scounts[r], asked[r]);
      hs := hs + [h];
    }
  }
}
