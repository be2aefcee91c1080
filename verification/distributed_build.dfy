/** All ranks build their grids together: each phase runs on every rank between two
    collective transfers. */
module DistributedBuild {
  import opened Renumbering
  import opened Halo
  import opened HaloExchange
  import opened HaloTransfer

  // ----- exchanging a field -----

  /** The transfer turns owned values into the full local view on every rank. */
  method ExchangeField(l: Layout, hs: seq<RankHalo>, vecs: seq<array<real>>, ghost field: seq<real>)
    requires AllBuilt(l, hs) && |vecs| == l.procs && Separate(vecs) && Setting(l) && |field| == |l.owner|
    requires forall r :: 0 <= r < l.procs ==> vecs[r].Length == |LocalCells(l, r)|
    requires AllHold(l, Contents(vecs), field)
    modifies vecs
    ensures forall q :: 0 <= q < l.procs ==> vecs[q][..] == View(l, q, field)
  {
    hide *;
    ghost var before := Contents(vecs);
    ExchangeDelivers(l, hs, before, field);
    NeighbourTransfer(l, hs, vecs);
    ContentsAre(vecs);
  }

  lemma ContentsAre(vecs: seq<array<real>>)
    ensures forall q :: 0 <= q < |vecs| ==> Contents(vecs)[q] == vecs[q][..]
  {
  }

  lemma AllHoldFrom(l: Layout, vecs: seq<array<real>>, field: seq<real>)
    requires Setting(l) && |field| == |l.owner| && |vecs| == l.procs
    requires forall r :: 0 <= r < l.procs ==> Holds(l, r, vecs[r][..], field)
    ensures AllHold(l, Contents(vecs), field)
  {
    hide Holds, Setting;
  }

  // ----- completing the local numbers -----

  /** local_global and global_local of one rank. */
  datatype Numbers = Numbers(localGlobal: seq<int>, globalLocal: seq<int>, numSolved: nat, numInvolved: nat)

  ghost predicate NumbersOf(l: Layout, q: nat, n: Numbers)
    requires Setting(l)
  {
    && n.numSolved == NumOwned(l.owner, q) && n.numInvolved == |LocalCells(l, q)|
    && Inverse(n.localGlobal, n.globalLocal, LocalCells(l, q), |LocalCells(l, q)|) && |n.globalLocal| == |l.owner|
  }

  ghost function CellIds(l: Layout): (r: seq<real>)
    ensures |r| == |l.owner| && forall c :: 0 <= c < |r| ==> r[c] == c as real
  {
    seq(|l.owner|, c => c as real)
  }

  /** The vector of the test transfer: the old numbers of the rank's own block. */
  method OldNumbers(l: Layout, q: nat, numSolved: seq<nat>, numInvolved: nat) returns (vec: array<real>)
    requires Setting(l) && q < l.procs && |numSolved| == l.procs && numInvolved == |LocalCells(l, q)|
    requires forall r :: 0 <= r < l.procs ==> numSolved[r] == NumOwned(l.owner, r)
    ensures fresh(vec) && vec.Length == numInvolved && Holds(l, q, vec[..], CellIds(l))
  {
    var gcnum, gcinvnum := Renumber(l.owner, l.procs, numSolved);
    var oldNumbers := gcinvnum[..];
    InverseIsComplete(l.owner, l.procs, gcnum[..], oldNumbers);
    var offset := 0;
    for ii := 0 to q
      invariant offset == RankStart(l.owner, ii)
    {
      offset := offset + numSolved[ii];
    }
    vec := new real[numInvolved](_ => 0.0);
    for ii := 0 to numSolved[q]
      invariant forall k :: 0 <= k < ii ==> vec[k] == LocalCells(l, q)[k] as real
    {
      OwnBlockIsOwned(l, q, ii);
      vec[ii] := oldNumbers[ii + offset] as real;
    }
  }

  method AllOldNumbers(l: Layout, hs: seq<RankHalo>) returns (vecs: seq<array<real>>)
    requires AllBuilt(l, hs) && Setting(l)
    ensures |vecs| == l.procs && Separate(vecs) && fresh(vecs)
    ensures forall r :: 0 <= r < l.procs ==>
            vecs[r].Length == |LocalCells(l, r)| && Holds(l, r, vecs[r][..], CellIds(l))
  {
    hide Setting, Holds, BuiltFor;
    var numSolved := seq(l.procs, r requires 0 <= r < l.procs => hs[r].numSolved);
    forall r | 0 <= r < l.procs
      ensures numSolved[r] == NumOwned(l.owner, r)
    {
      HaloSizes(l, hs, r);
    }
    vecs := [];
    for q := 0 to l.procs
      invariant |vecs| == q && Separate(vecs) && fresh(vecs)
      invariant forall r :: 0 <= r < q ==> vecs[r].Length == |LocalCells(l, r)| && Holds(l, r, vecs[r][..], CellIds(l))
    {
      HaloSizes(l, hs, q);
      var vec := OldNumbers(l, q, numSolved, hs[q].numSolved + |hs[q].rlist|);
      vecs := vecs + [vec];
    }
  }

  lemma HaloSizes(l: Layout, hs: seq<RankHalo>, q: nat)
    requires AllBuilt(l, hs) && q < l.procs && Setting(l)
    ensures q < |hs| && hs[q].numSolved == NumOwned(l.owner, q) && hs[q].numSolved + |hs[q].rlist| == |LocalCells(l, q)|
  {
    assert BuiltFor(l, q, hs[q]);
  }

  method CompleteNumbers(l: Layout, q: nat, vec: array<real>) returns (n: Numbers)
    requires Setting(l) && vec[..] == View(l, q, CellIds(l))
    ensures NumbersOf(l, q, n)
  {
    LocalCellsFit(l, q);
    var localGlobal, globalLocal, numSolved := NumberOwned(l.owner, q);
    OwnedPartInverse(l, q, localGlobal[..], globalLocal[..]);
    var numInvolved := vec.Length;
    forall k | 0 <= k < numInvolved
      ensures vec[k] == LocalCells(l, q)[k] as real
    {
      assert vec[k] == vec[..][k] == View(l, q, CellIds(l))[k];
    }
    AddGhosts(localGlobal, globalLocal, numSolved, numInvolved, vec, LocalCells(l, q));
    n := Numbers(localGlobal[..], globalLocal[..], numSolved, numInvolved);
  }

  /** gcinvnum sent round once gives every rank the cells behind its ghost slots. */
  method NumberRanks(l: Layout, hs: seq<RankHalo>) returns (numbers: seq<Numbers>)
    requires AllBuilt(l, hs) && Setting(l)
    ensures |numbers| == l.procs && forall q :: 0 <= q < l.procs ==> NumbersOf(l, q, numbers[q])
  {
    hide Setting, AllBuilt, Holds, AllHold, NumbersOf;
    var vecs := AllOldNumbers(l, hs);
    AllHoldFrom(l, vecs, CellIds(l));
    ExchangeField(l, hs, vecs, CellIds(l));
    numbers := [];
    for q := 0 to l.procs
      invariant |numbers| == q && forall r :: 0 <= r < q ==> NumbersOf(l, r, numbers[r])
      invariant forall r :: 0 <= r < l.procs ==> vecs[r][..] == View(l, r, CellIds(l))
    {
      var n := CompleteNumbers(l, q, vecs[q]);
      numbers := numbers + [n];
    }
  }
}
