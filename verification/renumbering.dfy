/** The per-rank numbering of assign_mpi_grid: local numbers of the owned cells, and the
    global renumbering gcnum, in which the cells of each rank are contiguous, with its
    inverse gcinvnum. `owner[c]` is the rank of cell c. */
module Renumbering {

  ghost predicate Owners(owner: seq<nat>, procs: nat) {
    forall c :: 0 <= c < |owner| ==> owner[c] < procs
  }

  /** How many of the first n cells a rank owns. */
  function CountOwned(owner: seq<nat>, r: nat, n: nat): (k: nat)
    requires n <= |owner|
    ensures k <= n
  {
    if n == 0 then 0 else CountOwned(owner, r, n - 1) + (if owner[n - 1] == r then 1 else 0)
  }

  /** The cells among the first n that a rank owns, in order: local_global. */
  function Owned(owner: seq<nat>, r: nat, n: nat): (cells: seq<nat>)
    requires n <= |owner|
    ensures |cells| == CountOwned(owner, r, n)
  {
    if n == 0 then [] else Owned(owner, r, n - 1) + (if owner[n - 1] == r then [n - 1] else [])
  }

  function NumOwned(owner: seq<nat>, r: nat): nat {
    CountOwned(owner, r, |owner|)
  }

  /** First new number of a rank's block: offsets_array. */
  function RankStart(owner: seq<nat>, r: nat): nat {
    if r == 0 then 0 else RankStart(owner, r - 1) + NumOwned(owner, r - 1)
  }

  /** gcnum */
  function NewNumber(owner: seq<nat>, c: nat): nat
    requires c < |owner|
  {
    RankStart(owner, owner[c]) + CountOwned(owner, owner[c], c)
  }

  // ----- local numbering is a bijection onto the owned cells -----

  lemma {:induction false} CountMonotone(owner: seq<nat>, r: nat, m: nat, n: nat)
    requires m <= n <= |owner|
    ensures CountOwned(owner, r, m) <= CountOwned(owner, r, n)
    decreases n
  {
    if m < n {
      CountMonotone(owner, r, m, n - 1);
    }
  }

  /** The k-th owned cell is owned and has local number k. */
  lemma {:induction false} OwnedHasNumber(owner: seq<nat>, r: nat, n: nat, k: nat)
    requires n <= |owner| && k < CountOwned(owner, r, n)
    ensures var c := Owned(owner, r, n)[k]; c < n && owner[c] == r && CountOwned(owner, r, c) == k
  {
    if k < CountOwned(owner, r, n - 1) {
      OwnedHasNumber(owner, r, n - 1, k);
    }
  }

  /** An owned cell stands at its local number. */
  lemma {:induction false} NumberFindsOwned(owner: seq<nat>, n: nat, c: nat)
    requires c < n <= |owner|
    ensures CountOwned(owner, owner[c], c) < CountOwned(owner, owner[c], n)
    ensures Owned(owner, owner[c], n)[CountOwned(owner, owner[c], c)] == c
    decreases n
  {
    if c < n - 1 {
      NumberFindsOwned(owner, n - 1, c);
    }
  }

  // ----- the rank blocks partition the new numbers -----

  function SumCounts(owner: seq<nat>, p: nat, n: nat): nat
    requires n <= |owner|
  {
    if p == 0 then 0 else SumCounts(owner, p - 1, n) + CountOwned(owner, p - 1, n)
  }

  lemma {:induction false} SumCountsStep(owner: seq<nat>, p: nat, n: nat)
    requires n < |owner|
    ensures SumCounts(owner, p, n + 1) == SumCounts(owner, p, n) + (if owner[n] < p then 1 else 0)
  {
    if p > 0 {
      SumCountsStep(owner, p - 1, n);
    }
  }

  lemma {:induction false} SumCountsAll(owner: seq<nat>, procs: nat, n: nat)
    requires Owners(owner, procs) && n <= |owner|
    ensures SumCounts(owner, procs, n) == n
  {
    if n == 0 {
      SumCountsNone(owner, procs);
    } else {
      SumCountsAll(owner, procs, n - 1);
      SumCountsStep(owner, procs, n - 1);
    }
  }

  lemma {:induction false} SumCountsNone(owner: seq<nat>, p: nat)
    ensures SumCounts(owner, p, 0) == 0
  {
    if p > 0 {
      SumCountsNone(owner, p - 1);
    }
  }

  lemma {:induction false} RankStartIsSum(owner: seq<nat>, p: nat)
    ensures RankStart(owner, p) == SumCounts(owner, p, |owner|)
  {
    if p > 0 {
      RankStartIsSum(owner, p - 1);
    }
  }

  /** The blocks end exactly at the number of cells. */
  lemma BlocksEnd(owner: seq<nat>, procs: nat)
    requires Owners(owner, procs)
    ensures RankStart(owner, procs) == |owner|
  {
    RankStartIsSum(owner, procs);
    SumCountsAll(owner, procs, |owner|);
  }

  lemma {:induction false} RankStartMonotone(owner: seq<nat>, r: nat, q: nat)
    requires r <= q
    ensures RankStart(owner, r) <= RankStart(owner, q)
    decreases q
  {
    if r < q {
      RankStartMonotone(owner, r, q - 1);
    }
  }

  lemma BlocksDisjoint(owner: seq<nat>, r: nat, q: nat, g: nat)
    requires RankStart(owner, r) <= g < RankStart(owner, r + 1)
    requires RankStart(owner, q) <= g < RankStart(owner, q + 1)
    ensures r == q
  {
    if r < q {
      RankStartMonotone(owner, r + 1, q);
    } else if q < r {
      RankStartMonotone(owner, q + 1, r);
    }
  }

  /** A new number lies in its own rank's block. */
  lemma NewNumberInBlock(owner: seq<nat>, procs: nat, c: nat)
    requires Owners(owner, procs) && c < |owner|
    ensures RankStart(owner, owner[c]) <= NewNumber(owner, c) < RankStart(owner, owner[c] + 1) <= |owner|
  {
    NumberFindsOwned(owner, |owner|, c);
    BlocksEnd(owner, procs);
    RankStartMonotone(owner, owner[c] + 1, procs);
  }

  lemma NewNumberInjective(owner: seq<nat>, procs: nat, c: nat, d: nat)
    requires Owners(owner, procs) && c < |owner| && d < |owner|
    ensures NewNumber(owner, c) == NewNumber(owner, d) <==> c == d
  {
    if NewNumber(owner, c) == NewNumber(owner, d) {
      NewNumberInBlock(owner, procs, c);
      NewNumberInBlock(owner, procs, d);
      BlocksDisjoint(owner, owner[c], owner[d], NewNumber(owner, c));
      NumberFindsOwned(owner, |owner|, c);
      NumberFindsOwned(owner, |owner|, d);
    }
  }

  /** New numbers go rank by rank, and within a rank in the order of the old ones. With
      NewNumberInBlock this leaves no other numbering. */
  lemma NewNumberOrder(owner: seq<nat>, procs: nat, c: nat, d: nat)
    requires Owners(owner, procs) && c < |owner| && d < |owner|
    ensures NewNumber(owner, c) < NewNumber(owner, d) <==> owner[c] < owner[d] || (owner[c] == owner[d] && c < d)
  {
    NewNumberInjective(owner, procs, c, d);
    if owner[c] < owner[d] {
      LowerRankFirst(owner, procs, c, d);
    } else if owner[d] < owner[c] {
      LowerRankFirst(owner, procs, d, c);
    } else if c < d {
      CountMonotone(owner, owner[c], c, d);
    } else {
      CountMonotone(owner, owner[c], d, c);
    }
  }

  lemma LowerRankFirst(owner: seq<nat>, procs: nat, c: nat, d: nat)
    requires Owners(owner, procs) && c < |owner| && d < |owner| && owner[c] < owner[d]
    ensures NewNumber(owner, c) < NewNumber(owner, d)
  {
    NewNumberInBlock(owner, procs, c);
    NewNumberInBlock(owner, procs, d);
    RankStartMonotone(owner, owner[c] + 1, owner[d]);
  }

  /** The rank whose block contains a new number. */
  function BlockOf(owner: seq<nat>, procs: nat, g: nat): (r: nat)
    requires g < RankStart(owner, procs)
    ensures r < procs && RankStart(owner, r) <= g < RankStart(owner, r + 1)
  {
    if g < RankStart(owner, procs - 1) then BlockOf(owner, procs - 1, g) else procs - 1
  }

  /** gcinvnum */
  function OldNumber(owner: seq<nat>, procs: nat, g: nat): nat
    requires g < RankStart(owner, procs)
  {
    var r := BlockOf(owner, procs, g);
    Owned(owner, r, |owner|)[g - RankStart(owner, r)]
  }

  /** gcnum is a permutation with inverse gcinvnum. */
  lemma OldThenNew(owner: seq<nat>, procs: nat, g: nat)
    requires Owners(owner, procs) && g < |owner|
    ensures g < RankStart(owner, procs)
    ensures OldNumber(owner, procs, g) < |owner|
    ensures NewNumber(owner, OldNumber(owner, procs, g)) == g
    ensures owner[OldNumber(owner, procs, g)] == BlockOf(owner, procs, g)
  {
    BlocksEnd(owner, procs);
    var r := BlockOf(owner, procs, g);
    OwnedHasNumber(owner, r, |owner|, g - RankStart(owner, r));
  }

  lemma NewThenOld(owner: seq<nat>, procs: nat, c: nat)
    requires Owners(owner, procs) && c < |owner|
    ensures NewNumber(owner, c) < |owner|
    ensures NewNumber(owner, c) < RankStart(owner, procs)
    ensures OldNumber(owner, procs, NewNumber(owner, c)) == c
  {
    BlocksEnd(owner, procs);
    NewNumberInBlock(owner, procs, c);
    BlocksDisjoint(owner, owner[c], BlockOf(owner, procs, NewNumber(owner, c)), NewNumber(owner, c));
    NumberFindsOwned(owner, |owner|, c);
  }

  // ----- the loops of assign_mpi_grid -----

  /** Counting and numbering the cells of one rank. Unnumbered entries stay -1000. */
  method NumberOwned(owner: seq<nat>, rank: nat)
    returns (localGlobal: array<int>, globalLocal: array<int>, numSolved: nat)
    ensures fresh(localGlobal) && fresh(globalLocal) && localGlobal != globalLocal
    ensures localGlobal.Length == globalLocal.Length == |owner|
    ensures numSolved == NumOwned(owner, rank)
    ensures localGlobal[..numSolved] == Owned(owner, rank, |owner|)
    ensures forall k :: numSolved <= k < |owner| ==> localGlobal[k] == -1000
    ensures forall c :: 0 <= c < |owner| ==>
              globalLocal[c] == if owner[c] == rank then CountOwned(owner, rank, c) else -1000
  {
    var neq := |owner|;
    localGlobal := new int[neq](_ => -1000);
    globalLocal := new int[neq](_ => -1000);
    numSolved := 0;
    for ii := 0 to neq
      invariant numSolved == CountOwned(owner, rank, ii)
      invariant localGlobal[..numSolved] == Owned(owner, rank, ii)
      invariant forall k :: numSolved <= k < neq ==> localGlobal[k] == -1000
      invariant forall c :: 0 <= c < ii ==> globalLocal[c] == if owner[c] == rank then CountOwned(owner, rank, c)
                else -1000
      invariant forall c :: ii <= c < neq ==> globalLocal[c] == -1000
    {
      ghost var before := localGlobal[..numSolved];
      if owner[ii] == rank {
        localGlobal[numSolved] := ii;
        globalLocal[ii] := numSolved;
        numSolved := numSolved + 1;
        assert localGlobal[..numSolved] == before + [ii];
      }
    }
  }

  ghost predicate StartsAt(owner: seq<nat>, offsets: seq<nat>, n: nat) {
    n <= |offsets| && forall r: nat :: r < n ==> offsets[r] == RankStart(owner, r)
  }

  /** offsets_array from the gathered counts. */
  method RankOffsets(owner: seq<nat>, procs: nat, numSolved: seq<nat>) returns (offsets: array<nat>)
    requires |numSolved| == procs && forall r :: 0 <= r < procs ==> numSolved[r] == NumOwned(owner, r)
    ensures offsets.Length == procs + 1 && fresh(offsets)
    ensures forall r :: 0 <= r <= procs ==> offsets[r] == RankStart(owner, r)
  {
    offsets := new nat[procs + 1];
    offsets[0] := 0;
    for ii := 0 to procs
      invariant StartsAt(owner, offsets[..], ii + 1)
    {
      offsets[ii + 1] := offsets[ii] + numSolved[ii];
    }
    assert StartsAt(owner, offsets[..], procs + 1);
  }

  /** Cell c has its new number, and that number leads back to it. */
  ghost predicate Numbered(owner: seq<nat>, gcnum: seq<nat>, gcinvnum: seq<nat>, c: nat)
    requires |gcnum| == |gcinvnum| == |owner|
  {
    c < |owner| && gcnum[c] == NewNumber(owner, c) < |owner| && gcinvnum[NewNumber(owner, c)] == c
  }

  /** gcnum and gcinvnum, filled in one pass over the old numbers. */
  method Renumber(owner: seq<nat>, procs: nat, numSolved: seq<nat>) returns (gcnum: array<nat>, gcinvnum: array<nat>)
    requires Owners(owner, procs)
    requires |numSolved| == procs && forall r :: 0 <= r < procs ==> numSolved[r] == NumOwned(owner, r)
    ensures gcnum.Length == gcinvnum.Length == |owner|
    ensures forall c :: 0 <= c < |owner| ==> Numbered(owner, gcnum[..], gcinvnum[..], c)
    ensures forall g :: 0 <= g < |owner| ==> gcinvnum[g] < |owner| && gcnum[gcinvnum[g]] == g
  {
    var neq := |owner|;
    var offsets := RankOffsets(owner, procs, numSolved);
    ghost var starts := offsets[..];
    var involved := new nat[procs](_ => 0);
    gcnum := new nat[neq];
    gcinvnum := new nat[neq];
    for ii := 0 to neq
      invariant forall r :: 0 <= r < procs ==> involved[r] == CountOwned(owner, r, ii)
      invariant offsets[..] == starts
      invariant forall c :: 0 <= c < ii ==> Numbered(owner, gcnum[..], gcinvnum[..], c)
    {
      var lr := owner[ii];
      assert offsets[lr] == starts[lr] == RankStart(owner, lr);
      PlaceCell(owner, procs, gcnum, gcinvnum, ii, offsets[lr] + involved[lr]);
      involved[lr] := involved[lr] + 1;
    }
    InverseIsComplete(owner, procs, gcnum[..], gcinvnum[..]);
  }

  method PlaceCell(owner: seq<nat>, procs: nat, gcnum: array<nat>, gcinvnum: array<nat>, ii: nat, jj: nat)
    requires Owners(owner, procs) && ii < |owner| && gcnum != gcinvnum
    requires gcnum.Length == gcinvnum.Length == |owner| && jj == NewNumber(owner, ii)
    modifies gcnum, gcinvnum
    ensures Numbered(owner, gcnum[..], gcinvnum[..], ii)
    ensures forall c :: 0 <= c < ii && old(Numbered(owner, gcnum[..], gcinvnum[..], c)) ==>
              Numbered(owner, gcnum[..], gcinvnum[..], c)
  {
    NewThenOld(owner, procs, ii);
    forall c | 0 <= c < ii
      ensures NewNumber(owner, c) != jj
    {
      NewNumberInjective(owner, procs, c, ii);
    }
    gcnum[ii] := jj;
    gcinvnum[jj] := ii;
  }

  lemma InverseIsComplete(owner: seq<nat>, procs: nat, gcnum: seq<nat>, gcinvnum: seq<nat>)
    requires Owners(owner, procs) && |gcnum| == |gcinvnum| == |owner|
    requires forall c :: 0 <= c < |owner| ==> Numbered(owner, gcnum, gcinvnum, c)
    ensures forall g :: 0 <= g < |owner| ==> gcinvnum[g] < |owner| && gcnum[gcinvnum[g]] == g
    ensures forall g :: 0 <= g < |owner| ==> g < RankStart(owner, procs) && gcinvnum[g] == OldNumber(owner, procs, g)
  {
    BlocksEnd(owner, procs);
    forall g | 0 <= g < |owner|
      ensures gcinvnum[g] == OldNumber(owner, procs, g) < |owner| && gcnum[gcinvnum[g]] == g
    {
      OldThenNew(owner, procs, g);
      assert Numbered(owner, gcnum, gcinvnum, OldNumber(owner, procs, g));
    }
  }
}
