/** The ghost cells of every rank and the send and receive lists of assign_mpi_grid. */
module Halo {
  import opened Renumbering
  import opened Collectives

  /** The grid as every rank sees it: the owner of each cell, the adjacency (the neighbours
      of cell c are nbrs[ends[c]..ends[c + 1]]), and the number of ranks. */
  datatype Layout = Layout(owner: seq<nat>, ends: seq<nat>, nbrs: seq<nat>, procs: nat)

  ghost predicate Setting(l: Layout) {
    && Owners(l.owner, l.procs) && |l.owner| > 0
    && |l.ends| == |l.owner| + 1
    && (forall c, d :: 0 <= c <= d <= |l.owner| ==> l.ends[c] <= l.ends[d])
    && l.ends[|l.owner|] <= |l.nbrs|
    && (forall k :: 0 <= k < |l.nbrs| ==> l.nbrs[k] < |l.owner|)
  }

  /** Entry k of the adjacency names neighbour i of a cell c of rank q. */
  ghost predicate EntryOf(l: Layout, q: nat, c: int, k: int, i: int) {
    && 0 <= c < |l.owner| && c + 1 < |l.ends| && l.owner[c] == q
    && l.ends[c] <= k < l.ends[c + 1] && k < |l.nbrs| && l.nbrs[k] == i
  }

  /** Cell i is an off-rank neighbour of a cell of rank q. */
  ghost predicate IsGhost(l: Layout, q: nat, i: nat) {
    i < |l.owner| && l.owner[i] != q && exists c, k :: EntryOf(l, q, c, k, i)
  }

  /** The new numbers of a rank's ghost cells: involved_nodes_set. */
  ghost function GhostNumbers(l: Layout, q: nat): set<nat>
    requires Setting(l)
  {
    set i | 0 <= i < |l.owner| && IsGhost(l, q, i) :: NewNumber(l.owner, i)
  }

  lemma GhostNumbersBounded(l: Layout, q: nat, g: nat)
    requires Setting(l) && g in GhostNumbers(l, q)
    ensures g < |l.owner| && g < RankStart(l.owner, l.procs)
    ensures IsGhost(l, q, OldNumber(l.owner, l.procs, g))
  {
    var i :| 0 <= i < |l.owner| && IsGhost(l, q, i) && NewNumber(l.owner, i) == g;
    NewThenOld(l.owner, l.procs, i);
  }

  // ----- ascending enumeration of a set, as std::set iterates -----

  function Enumerate(s: set<nat>, lo: nat, hi: nat): (r: seq<nat>)
    ensures forall k :: 0 <= k < |r| ==> r[k] in s && lo <= r[k] < hi
    decreases hi
  {
    if hi <= lo then [] else Enumerate(s, lo, hi - 1) + (if hi - 1 in s then [hi - 1] else [])
  }

  lemma {:induction false} EnumerateSplits(s: set<nat>, a: nat, b: nat, c: nat)
    requires a <= b <= c
    ensures Enumerate(s, a, c) == Enumerate(s, a, b) + Enumerate(s, b, c)
    decreases c
  {
    if b < c {
      EnumerateSplits(s, a, b, c - 1);
    }
  }

  /** Ascending, and every element of the set in range appears. */
  lemma {:induction false} EnumerateAscends(s: set<nat>, lo: nat, hi: nat)
    ensures forall k, l :: 0 <= k < l < |Enumerate(s, lo, hi)| ==> Enumerate(s, lo, hi)[k] < Enumerate(s, lo, hi)[l]
    ensures forall g :: g in s && lo <= g < hi ==> g in Enumerate(s, lo, hi)
    decreases hi
  {
    if lo < hi {
      EnumerateAscends(s, lo, hi - 1);
    }
  }

  ghost function Between(s: set<nat>, lo: nat, hi: nat): set<nat> {
    set g | g in s && lo <= g < hi
  }

  lemma {:induction false} EnumerateCounts(s: set<nat>, lo: nat, hi: nat)
    ensures |Enumerate(s, lo, hi)| == |Between(s, lo, hi)|
    decreases hi
  {
    if lo < hi {
      EnumerateCounts(s, lo, hi - 1);
      if hi - 1 in s {
        assert Between(s, lo, hi) == Between(s, lo, hi - 1) + {hi - 1};
      } else {
        assert Between(s, lo, hi) == Between(s, lo, hi - 1);
      }
    } else {
      assert Between(s, lo, hi) == {};
    }
  }

  /** The new numbers rank q wants from rank r, in order: one block of rlist. */
  ghost function Wants(l: Layout, q: nat, r: nat): seq<nat>
    requires Setting(l)
  {
    Enumerate(GhostNumbers(l, q), RankStart(l.owner, r), RankStart(l.owner, r + 1))
  }

  ghost function WantCounts(l: Layout, q: nat): (r: seq<nat>)
    requires Setting(l)
    ensures |r| == l.procs
    ensures forall p :: 0 <= p < l.procs ==> r[p] == |Wants(l, q, p)|
  {
    seq(l.procs, p requires 0 <= p < l.procs => |Wants(l, q, p)|)
  }

  ghost function AllWanted(l: Layout, q: nat): seq<nat>
    requires Setting(l)
  {
    Enumerate(GhostNumbers(l, q), 0, |l.owner|)
  }

  ghost function WantBlocks(l: Layout, q: nat, p: nat): (r: seq<seq<nat>>)
    requires Setting(l) && p <= l.procs
    ensures |r| == p
    ensures forall k :: 0 <= k < p ==> r[k] == Wants(l, q, k)
  {
    seq(p, k requires 0 <= k < p => Wants(l, q, k))
  }

  lemma {:induction false} WantedPrefix(l: Layout, q: nat, p: nat)
    requires Setting(l) && p <= l.procs
    ensures Concat(WantBlocks(l, q, p)) == Enumerate(GhostNumbers(l, q), 0, RankStart(l.owner, p))
  {
    if p > 0 {
      WantedPrefix(l, q, p - 1);
      assert WantBlocks(l, q, p)[..p - 1] == WantBlocks(l, q, p - 1);
      EnumerateSplits(GhostNumbers(l, q), 0, RankStart(l.owner, p - 1), RankStart(l.owner, p));
    }
  }

  /** The ordered list of all wanted numbers is the blocks, by owner, back to back. */
  lemma WantedIsBlocks(l: Layout, q: nat)
    requires Setting(l)
    ensures AllWanted(l, q) == Concat(WantBlocks(l, q, l.procs))
  {
    WantedPrefix(l, q, l.procs);
    BlocksEnd(l.owner, l.procs);
  }

  // ----- collecting the ghosts of one rank -----

  ghost predicate CountsOf(l: Layout, involved: set<nat>, rcounts: seq<nat>) {
    |rcounts| == l.procs && forall r: nat :: r < l.procs ==>
      rcounts[r] == |Between(involved, RankStart(l.owner, r), RankStart(l.owner, r + 1))|
  }

  lemma CountsAfterInsert(l: Layout, involved: set<nat>, rcounts: seq<nat>, i: nat)
    requires Setting(l) && i < |l.owner| && CountsOf(l, involved, rcounts)
    requires NewNumber(l.owner, i) !in involved
    ensures CountsOf(l, involved + {NewNumber(l.owner, i)}, rcounts[l.owner[i] := rcounts[l.owner[i]] + 1])
  {
    hide RankStart, NewNumber;
    var g := NewNumber(l.owner, i);
    NewNumberInBlock(l.owner, l.procs, i);
    forall r: nat | r < l.procs
      ensures |Between(involved + {g}, RankStart(l.owner, r), RankStart(l.owner, r + 1))|
              == rcounts[r] + if r == l.owner[i] then 1 else 0
    {
      var lo, hi := RankStart(l.owner, r), RankStart(l.owner, r + 1);
      if lo <= g < hi {
        BlocksDisjoint(l.owner, r, l.owner[i], g);
        assert Between(involved + {g}, lo, hi) == Between(involved, lo, hi) + {g};
      } else {
        assert Between(involved + {g}, lo, hi) == Between(involved, lo, hi);
      }
    }
  }

  /** Every ghost met in the rows before nn, and in row nn before entry j, is recorded. */
  ghost predicate Recorded(l: Layout, rank: nat, involved: set<nat>, nn: int, j: int) {
    forall c, k, i ::
      EntryOf(l, rank, c, k, i) && (c < nn || (c == nn && k < j)) && 0 <= i < |l.owner| && l.owner[i] != rank ==>
        NewNumber(l.owner, i) in involved
  }

  method CollectGhosts(l: Layout, rank: nat, gcnum: seq<nat>) returns (involved: set<nat>, rcounts: array<nat>)
    requires Setting(l) && |gcnum| == |l.owner|
    requires forall c :: 0 <= c < |gcnum| ==> gcnum[c] == NewNumber(l.owner, c)
    ensures involved == GhostNumbers(l, rank)
    ensures rcounts[..] == WantCounts(l, rank) && fresh(rcounts)
  {
    rcounts := new nat[l.procs](_ => 0);
    involved := {};
    assert CountsOf(l, involved, rcounts[..]) by {
      forall r: nat | r < l.procs
        ensures Between({}, RankStart(l.owner, r), RankStart(l.owner, r + 1)) == {}
      {
      }
    }
    for nn := 0 to |l.owner|
      invariant involved <= GhostNumbers(l, rank)
      invariant Recorded(l, rank, involved, nn, 0)
      invariant CountsOf(l, involved, rcounts[..])
    {
      if l.owner[nn] == rank {
        involved := CollectRow(l, rank, gcnum, nn, involved, rcounts);
      }
    }
    forall g | g in GhostNumbers(l, rank)
      ensures g in involved
    {
      var i :| 0 <= i < |l.owner| && IsGhost(l, rank, i) && NewNumber(l.owner, i) == g;
      var c, k :| EntryOf(l, rank, c, k, i);
    }
    assert involved == GhostNumbers(l, rank);
    forall r: nat | r < l.procs
      ensures rcounts[r] == |Wants(l, rank, r)|
    {
      EnumerateCounts(involved, RankStart(l.owner, r), RankStart(l.owner, r + 1));
    }
    assert rcounts[..] == WantCounts(l, rank);
  }

  method CollectRow(l: Layout, rank: nat, gcnum: seq<nat>, nn: nat, involvedSoFar: set<nat>, rcounts: array<nat>)
    returns (involved: set<nat>)
    requires Setting(l) && |gcnum| == |l.owner| && nn < |l.owner| && l.owner[nn] == rank
    requires forall c :: 0 <= c < |gcnum| ==> gcnum[c] == NewNumber(l.owner, c)
    requires involvedSoFar <= GhostNumbers(l, rank) && Recorded(l, rank, involvedSoFar, nn, 0)
    requires CountsOf(l, involvedSoFar, rcounts[..])
    modifies rcounts
    ensures involved <= GhostNumbers(l, rank) && Recorded(l, rank, involved, nn + 1, 0)
    ensures CountsOf(l, involved, rcounts[..])
  {
    involved := involvedSoFar;
    for j := l.ends[nn] to l.ends[nn + 1]
      invariant involved <= GhostNumbers(l, rank)
      invariant Recorded(l, rank, involved, nn, j)
      invariant CountsOf(l, involved, rcounts[..])
    {
      assert l.ends[nn + 1] <= l.ends[|l.owner|];
      var i := l.nbrs[j];
      if l.owner[i] != rank {
        var ng := gcnum[i];
        assert EntryOf(l, rank, nn, j, i);
        assert ng in GhostNumbers(l, rank);
        if ng !in involved {
          CountsAfterInsert(l, involved, rcounts[..], i);
          involved := involved + {ng};
          rcounts[l.owner[i]] := rcounts[l.owner[i]] + 1;
        }
      }
    }
  }
}
