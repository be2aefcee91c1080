/** Halo exchange between all ranks at once: mpi_nbnb_transfer on the lists that
    assign_mpi_grid builds delivers to every ghost slot the value of the cell's owner. */
module HaloExchange {
  import opened Renumbering
  import opened Collectives
  import opened Halo

  /** One rank's MpiClass fields. */
  datatype RankHalo = RankHalo(numSolved: nat, slist: seq<nat>, rlist: seq<nat>,
                               scounts: seq<nat>, rcounts: seq<nat>, sdisp: seq<nat>, rdisp: seq<nat>)

  /** Rank r's lists: what it sends to rank q is what q wants from it, in local numbers,
      and what it receives fills its ghost slots in order. */
  ghost predicate BuiltFor(l: Layout, r: nat, h: RankHalo)
    requires Setting(l)
  {
    && h.numSolved == NumOwned(l.owner, r)
    && h.rcounts == WantCounts(l, r)
    && |h.scounts| == l.procs
    && Displacements(h.scounts, h.sdisp) && Displacements(h.rcounts, h.rdisp)
    && |h.slist| == Sum(h.scounts, l.procs)
    && |h.rlist| == |AllWanted(l, r)|
    && (forall ii :: 0 <= ii < |h.rlist| ==> h.rlist[ii] == h.numSolved + ii)
    && (forall q :: 0 <= q < l.procs ==> SendsWanted(l, r, q, h))
  }

  ghost predicate SendsWanted(l: Layout, r: nat, q: nat, h: RankHalo)
    requires Setting(l)
  {
    var wants := Wants(l, q, r);
    && q < |h.scounts| && q < |h.sdisp|
    && h.scounts[q] == |wants|
    && h.sdisp[q] + |wants| <= |h.slist|
    && forall k :: 0 <= k < |wants| ==> h.slist[h.sdisp[q] + k] + RankStart(l.owner, r) == wants[k]
  }

  ghost predicate AllBuilt(l: Layout, hs: seq<RankHalo>) {
    Setting(l) && |hs| == l.procs && forall r :: 0 <= r < l.procs ==> BuiltFor(l, r, hs[r])
  }

  // ----- local cells -----

  /** The cell a new number stands for. */
  ghost function CellOf(l: Layout, g: nat): (c: nat)
    requires Setting(l)
    ensures c < |l.owner|
  {
    if g < |l.owner| then OldThenNew(l.owner, l.procs, g); OldNumber(l.owner, l.procs, g) else 0
  }

  /** local_global: the owned cells, then the ghosts in the order of their new numbers. */
  ghost function LocalCells(l: Layout, q: nat): (cells: seq<nat>)
    requires Setting(l)
    ensures |cells| == NumOwned(l.owner, q) + |AllWanted(l, q)|
  {
    Owned(l.owner, q, |l.owner|)
      + seq(|AllWanted(l, q)|, ii requires 0 <= ii < |AllWanted(l, q)| => CellOf(l, AllWanted(l, q)[ii]))
  }

  lemma LocalCellsInRange(l: Layout, q: nat, k: nat)
    requires Setting(l) && k < |LocalCells(l, q)|
    ensures LocalCells(l, q)[k] < |l.owner|
    ensures k < NumOwned(l.owner, q) <==> l.owner[LocalCells(l, q)[k]] == q
    ensures k >= NumOwned(l.owner, q) ==> IsGhost(l, q, LocalCells(l, q)[k])
  {
    var ns := NumOwned(l.owner, q);
    if k < ns {
      OwnedHasNumber(l.owner, q, |l.owner|, k);
    } else {
      GhostNumbersBounded(l, q, AllWanted(l, q)[k - ns]);
    }
  }

  /** The local vector of rank q when every local slot holds its cell's value. */
  ghost function View<T>(l: Layout, q: nat, field: seq<T>): (v: seq<T>)
    requires Setting(l) && |field| == |l.owner|
    ensures |v| == |LocalCells(l, q)|
    ensures forall k :: 0 <= k < |v| ==> LocalCells(l, q)[k] < |field| && v[k] == field[LocalCells(l, q)[k]]
  {
    assert forall k :: 0 <= k < |LocalCells(l, q)| ==> LocalCells(l, q)[k] < |field| by {
      forall k | 0 <= k < |LocalCells(l, q)|
        ensures LocalCells(l, q)[k] < |field|
      {
        LocalCellsInRange(l, q, k);
      }
    }
    seq(|LocalCells(l, q)|, k requires 0 <= k < |LocalCells(l, q)| => field[LocalCells(l, q)[k]])
  }

  /** The owned part of a local vector agrees with a field on all cells. */
  ghost predicate Holds<T>(l: Layout, q: nat, v: seq<T>, field: seq<T>)
    requires Setting(l) && |field| == |l.owner|
  {
    && |v| == |LocalCells(l, q)|
    && v[..NumOwned(l.owner, q)] == View(l, q, field)[..NumOwned(l.owner, q)]
  }

  // ----- the exchange as a function -----

  function Packed<T>(v: seq<T>, slist: seq<nat>): (r: seq<T>)
    requires forall ii :: 0 <= ii < |slist| ==> slist[ii] < |v|
    ensures |r| == |slist|
    ensures forall ii :: 0 <= ii < |r| ==> r[ii] == v[slist[ii]]
  {
    seq(|slist|, ii requires 0 <= ii < |slist| => v[slist[ii]])
  }

  /** The vectors have the right lengths and every send list stays inside its vector. */
  ghost predicate Fits<T>(hs: seq<RankHalo>, vs: seq<seq<T>>) {
    && |vs| == |hs|
    && forall r :: 0 <= r < |hs| ==>
         && |vs[r]| == hs[r].numSolved + |hs[r].rlist|
         && forall ii :: 0 <= ii < |hs[r].slist| ==> hs[r].slist[ii] < |vs[r]|
  }

  function SendBuffers<T>(hs: seq<RankHalo>, vs: seq<seq<T>>): (r: seq<seq<T>>)
    requires Fits(hs, vs)
    ensures |r| == |hs|
    ensures forall q :: 0 <= q < |hs| ==> r[q] == Packed(vs[q], hs[q].slist)
  {
    seq(|hs|, r requires 0 <= r < |hs| => Packed(vs[r], hs[r].slist))
  }

  function SendCounts(hs: seq<RankHalo>): (r: seq<seq<nat>>)
    ensures |r| == |hs| && forall q :: 0 <= q < |hs| ==> r[q] == hs[q].scounts
  {
    seq(|hs|, r requires 0 <= r < |hs| => hs[r].scounts)
  }

  function SendDispls(hs: seq<RankHalo>): (r: seq<seq<nat>>)
    ensures |r| == |hs| && forall q :: 0 <= q < |hs| ==> r[q] == hs[q].sdisp
  {
    seq(|hs|, r requires 0 <= r < |hs| => hs[r].sdisp)
  }

  lemma BuffersMatch<T>(l: Layout, hs: seq<RankHalo>, vs: seq<seq<T>>)
    requires AllBuilt(l, hs) && Fits(hs, vs)
    ensures Matching(SendBuffers(hs, vs), SendCounts(hs), SendDispls(hs))
  {
    forall i | 0 <= i < |hs|
      ensures |hs[i].scounts| == |hs| && Displacements(hs[i].scounts, hs[i].sdisp)
              && Sum(hs[i].scounts, |hs|) == |Packed(vs[i], hs[i].slist)|
    {
      assert BuiltFor(l, i, hs[i]);
    }
  }

  /** What rank q receives. */
  function Received<T>(hs: seq<RankHalo>, vs: seq<seq<T>>, q: nat): seq<T>
    requires Fits(hs, vs) && q < |hs| && Matching(SendBuffers(hs, vs), SendCounts(hs), SendDispls(hs))
  {
    Alltoallv(SendBuffers(hs, vs), SendCounts(hs), SendDispls(hs))[q]
  }

  lemma ListsFit(l: Layout, r: nat, h: RankHalo, ii: nat)
    requires Setting(l) && r < l.procs && BuiltFor(l, r, h) && ii < |h.slist|
    ensures h.slist[ii] < h.numSolved
  {
    var q := BlockAt(h.scounts, l.procs, ii);
    assert SendsWanted(l, r, q, h);
    var wants := Wants(l, q, r);
    var k := ii - Sum(h.scounts, q);
    assert h.slist[h.sdisp[q] + k] + RankStart(l.owner, r) == wants[k] < RankStart(l.owner, r + 1);
  }

  /** The block of back-to-back blocks in which position ii lies. */
  function BlockAt(counts: seq<nat>, n: nat, ii: nat): (q: nat)
    requires n <= |counts| && ii < Sum(counts, n)
    ensures q < n && Sum(counts, q) <= ii < Sum(counts, q) + counts[q]
  {
    if ii >= Sum(counts, n - 1) then n - 1 else BlockAt(counts, n - 1, ii)
  }

  // ----- what travels from rank r to rank q -----

  /** The values of rank r that rank q wants, in the order of their new numbers. */
  ghost function Parcel<T>(l: Layout, v: seq<T>, q: nat, r: nat): (p: seq<T>)
    requires Setting(l) && |v| >= NumOwned(l.owner, r)
    ensures |p| == |Wants(l, q, r)|
    ensures forall k :: 0 <= k < |p| ==>
              var at := Wants(l, q, r)[k] - RankStart(l.owner, r); 0 <= at < |v| && p[k] == v[at]
  {
    var wants := Wants(l, q, r);
    seq(|wants|, k requires 0 <= k < |wants| => v[wants[k] - RankStart(l.owner, r)])
  }

  ghost predicate Long<T>(l: Layout, vs: seq<seq<T>>) {
    |vs| == l.procs && forall r :: 0 <= r < l.procs ==> |vs[r]| >= NumOwned(l.owner, r)
  }

  ghost function Parcels<T>(l: Layout, vs: seq<seq<T>>, q: nat): (ps: seq<seq<T>>)
    requires Setting(l) && Long(l, vs)
    ensures |ps| == l.procs
    ensures forall r :: 0 <= r < l.procs ==> ps[r] == Parcel(l, vs[r], q, r)
  {
    seq(l.procs, r requires 0 <= r < l.procs => Parcel(l, vs[r], q, r))
  }

  /** The block rank r sends to rank q is that parcel. */
  lemma ParcelSent<T>(l: Layout, hs: seq<RankHalo>, vs: seq<seq<T>>, q: nat, r: nat)
    requires AllBuilt(l, hs) && Fits(hs, vs) && q < l.procs && r < l.procs
    requires Matching(SendBuffers(hs, vs), SendCounts(hs), SendDispls(hs))
    ensures |vs[r]| >= NumOwned(l.owner, r)
    ensures SendBlock(SendBuffers(hs, vs), SendCounts(hs), SendDispls(hs), r, q) == Parcel(l, vs[r], q, r)
  {
    assert BuiltFor(l, r, hs[r]) && SendsWanted(l, r, q, hs[r]);
  }

  lemma ReceivedIsParcels<T>(l: Layout, hs: seq<RankHalo>, vs: seq<seq<T>>, q: nat)
    requires AllBuilt(l, hs) && Fits(hs, vs) && q < l.procs
    requires Matching(SendBuffers(hs, vs), SendCounts(hs), SendDispls(hs))
    ensures Long(l, vs)
    ensures Received(hs, vs, q) == Concat(Parcels(l, vs, q))
  {
    forall r | 0 <= r < l.procs
      ensures |vs[r]| >= NumOwned(l.owner, r)
      ensures SendBlock(SendBuffers(hs, vs), SendCounts(hs), SendDispls(hs), r, q) == Parcel(l, vs[r], q, r)
    {
      ParcelSent(l, hs, vs, q, r);
    }
    assert RecvBlocks(SendBuffers(hs, vs), SendCounts(hs), SendDispls(hs), q) == Parcels(l, vs, q);
  }

  /** The owner of new number g keeps its value at local number g - RankStart. */
  lemma OwnerHolds<T>(l: Layout, v: seq<T>, field: seq<T>, r: nat, g: nat)
    requires Setting(l) && r < l.procs && |field| == |l.owner| && Holds(l, r, v, field)
    requires RankStart(l.owner, r) <= g < RankStart(l.owner, r + 1)
    ensures CellOf(l, g) < |field| && v[g - RankStart(l.owner, r)] == field[CellOf(l, g)]
  {
    RankStartMonotone(l.owner, r + 1, l.procs);
    BlocksEnd(l.owner, l.procs);
    BlocksDisjoint(l.owner, r, BlockOf(l.owner, l.procs, g), g);
    var k := g - RankStart(l.owner, r);
    assert LocalCells(l, r)[k] == Owned(l.owner, r, |l.owner|)[k] == CellOf(l, g);
    assert v[k] == v[..NumOwned(l.owner, r)][k] == View(l, r, field)[..NumOwned(l.owner, r)][k] == View(l, r, field)[k];
  }

  ghost predicate AllHold<T>(l: Layout, vs: seq<seq<T>>, field: seq<T>)
    requires Setting(l) && |field| == |l.owner|
  {
    |vs| == l.procs && forall r :: 0 <= r < l.procs ==> Holds(l, r, vs[r], field)
  }

  /** The value of the cell a new number stands for. */
  ghost function ValueAt<T>(l: Layout, field: seq<T>): nat -> T
    requires Setting(l) && |field| == |l.owner|
  {
    (g: nat) => field[CellOf(l, g)]
  }

  lemma ParcelHolds<T>(l: Layout, v: seq<T>, field: seq<T>, q: nat, r: nat, k: nat)
    requires Setting(l) && |field| == |l.owner| && r < l.procs
    requires Holds(l, r, v, field) && |v| >= NumOwned(l.owner, r) && k < |Wants(l, q, r)|
    ensures Parcel(l, v, q, r)[k] == ValueAt(l, field)(Wants(l, q, r)[k])
  {
    OwnerHolds(l, v, field, r, Wants(l, q, r)[k]);
  }

  /** The parcels back to back are the values of the wanted cells, in their order. */
  lemma ParcelsDeliver<T>(l: Layout, vs: seq<seq<T>>, field: seq<T>, q: nat)
    requires Setting(l) && |field| == |l.owner|
    requires AllHold(l, vs, field) && Long(l, vs)
    ensures Concat(Parcels(l, vs, q)) == Map(ValueAt(l, field), Concat(WantBlocks(l, q, l.procs)))
  {
    var blocks, parcels := WantBlocks(l, q, l.procs), Parcels(l, vs, q);
    forall r, k | 0 <= r < |blocks| && 0 <= k < |blocks[r]|
      ensures parcels[r][k] == ValueAt(l, field)(blocks[r][k])
    {
      ParcelHolds(l, vs[r], field, q, r, k);
    }
    ConcatMap(blocks, parcels, ValueAt(l, field));
  }

  /** The ghost slots of the full local view are those values too. */
  lemma GhostView<T>(l: Layout, field: seq<T>, q: nat)
    requires Setting(l) && |field| == |l.owner|
    ensures View(l, q, field)[NumOwned(l.owner, q)..] == Map(ValueAt(l, field), AllWanted(l, q))
  {
    forall ii | 0 <= ii < |AllWanted(l, q)|
      ensures LocalCells(l, q)[NumOwned(l.owner, q) + ii] == CellOf(l, AllWanted(l, q)[ii])
    {
    }
  }

  lemma ParcelsAreGhosts<T>(l: Layout, vs: seq<seq<T>>, field: seq<T>, q: nat)
    requires Setting(l) && |field| == |l.owner|
    requires AllHold(l, vs, field) && Long(l, vs)
    ensures Concat(Parcels(l, vs, q)) == View(l, q, field)[NumOwned(l.owner, q)..]
  {
    ParcelsDeliver(l, vs, field, q);
    WantedIsBlocks(l, q);
    GhostView(l, field, q);
  }

  // ----- the theorem -----

  function Exchanged<T>(hs: seq<RankHalo>, vs: seq<seq<T>>): (r: seq<seq<T>>)
    requires Fits(hs, vs) && Matching(SendBuffers(hs, vs), SendCounts(hs), SendDispls(hs))
    ensures |r| == |hs|
    ensures forall q :: 0 <= q < |hs| ==> r[q] == vs[q][..hs[q].numSolved] + Received(hs, vs, q)
  {
    seq(|hs|, q requires 0 <= q < |hs| => vs[q][..hs[q].numSolved] + Received(hs, vs, q))
  }

  lemma FitsLists<T>(l: Layout, hs: seq<RankHalo>, vs: seq<seq<T>>)
    requires AllBuilt(l, hs) && |vs| == l.procs
    requires forall r :: 0 <= r < l.procs ==> |vs[r]| == |LocalCells(l, r)|
    ensures Fits(hs, vs) && Matching(SendBuffers(hs, vs), SendCounts(hs), SendDispls(hs))
  {
    forall r | 0 <= r < l.procs
      ensures |vs[r]| == hs[r].numSolved + |hs[r].rlist|
      ensures forall ii :: 0 <= ii < |hs[r].slist| ==> hs[r].slist[ii] < |vs[r]|
    {
      assert BuiltFor(l, r, hs[r]);
      forall ii | 0 <= ii < |hs[r].slist|
        ensures hs[r].slist[ii] < |vs[r]|
      {
        ListsFit(l, r, hs[r], ii);
      }
    }
    BuffersMatch(l, hs, vs);
  }

  /** One exchange sets every slot of every rank, ghosts included, to the value its cell's
      owner holds, and leaves the owned slots alone. */
  lemma ExchangeDelivers<T>(l: Layout, hs: seq<RankHalo>, vs: seq<seq<T>>, field: seq<T>)
    requires AllBuilt(l, hs) && |field| == |l.owner| && AllHold(l, vs, field)
    ensures Fits(hs, vs) && Matching(SendBuffers(hs, vs), SendCounts(hs), SendDispls(hs))
    ensures forall q :: 0 <= q < l.procs ==> Exchanged(hs, vs)[q] == View(l, q, field)
  {
    FitsLists(l, hs, vs);
    forall q | 0 <= q < l.procs
      ensures Exchanged(hs, vs)[q] == View(l, q, field)
    {
      ReceivedIsParcels(l, hs, vs, q);
      ParcelsAreGhosts(l, vs, field, q);
      OwnedKept(l, hs, vs, field, q);
    }
  }

  lemma OwnedKept<T>(l: Layout, hs: seq<RankHalo>, vs: seq<seq<T>>, field: seq<T>, q: nat)
    requires AllBuilt(l, hs) && |vs| == l.procs && |field| == |l.owner| && q < l.procs
    requires Holds(l, q, vs[q], field)
    ensures hs[q].numSolved == NumOwned(l.owner, q) <= |vs[q]|
    ensures vs[q][..hs[q].numSolved] + View(l, q, field)[NumOwned(l.owner, q)..] == View(l, q, field)
  {
    assert BuiltFor(l, q, hs[q]);
  }
}
