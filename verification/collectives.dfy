/** The MPI collectives the solver uses, as functions on the buffers of all ranks
    (sections 5.7, 5.8 and 5.9 of MPI 3.1), and the prefix sums used as displacements. */
module Collectives {

  function Sum(counts: seq<nat>, n: nat): nat
    requires n <= |counts|
  {
    if n == 0 then 0 else Sum(counts, n - 1) + counts[n - 1]
  }

  lemma {:induction false} SumMonotone(counts: seq<nat>, m: nat, n: nat)
    requires m <= n <= |counts|
    ensures Sum(counts, m) <= Sum(counts, n)
    decreases n
  {
    if m < n {
      SumMonotone(counts, m, n - 1);
    }
  }

  lemma {:induction false} SumOfEqual(a: seq<nat>, b: seq<nat>, n: nat)
    requires n <= |a| && n <= |b| && forall i :: 0 <= i < n ==> a[i] == b[i]
    ensures Sum(a, n) == Sum(b, n)
  {
    if n > 0 {
      SumOfEqual(a, b, n - 1);
    }
  }

  /** Displacements that place blocks of the given counts back to back. */
  ghost predicate Displacements(counts: seq<nat>, displs: seq<nat>) {
    |displs| == |counts| + 1 && forall i :: 0 <= i < |displs| ==> displs[i] == Sum(counts, i)
  }

  ghost predicate SumsUpTo(counts: seq<nat>, displs: seq<nat>, n: nat) {
    n <= |displs| == |counts| + 1 && forall i :: 0 <= i < n ==> displs[i] == Sum(counts, i)
  }

  method PrefixSums(counts: seq<nat>) returns (displs: array<nat>)
    ensures Displacements(counts, displs[..]) && fresh(displs)
  {
    displs := new nat[|counts| + 1];
    displs[0] := 0;
    for ii := 0 to |counts|
      invariant SumsUpTo(counts, displs[..], ii + 1)
    {
      displs[ii + 1] := displs[ii] + counts[ii];
    }
    assert SumsUpTo(counts, displs[..], |counts| + 1);
  }

  method TotalOf(counts: seq<nat>) returns (total: nat)
    ensures total == Sum(counts, |counts|)
  {
    total := 0;
    for ii := 0 to |counts|
      invariant total == Sum(counts, ii)
    {
      total := total + counts[ii];
    }
  }

  /** MPI_Alltoall of one integer per pair. */
  function Alltoall(send: seq<seq<nat>>): (recv: seq<seq<nat>>)
    requires forall i :: 0 <= i < |send| ==> |send[i]| == |send|
    ensures |recv| == |send|
    ensures forall j :: 0 <= j < |recv| ==> |recv[j]| == |send|
    ensures forall i, j :: 0 <= i < |send| && 0 <= j < |send| ==> recv[j][i] == send[i][j]
  {
    seq(|send|, j requires 0 <= j < |send| => seq(|send|, i requires 0 <= i < |send| => send[i][j]))
  }

  // ----- MPI_Alltoallv with back-to-back displacements -----

  function Concat<T>(blocks: seq<seq<T>>): seq<T> {
    if blocks == [] then [] else Concat(blocks[..|blocks| - 1]) + blocks[|blocks| - 1]
  }

  function Map<S, T>(f: S -> T, s: seq<S>): (r: seq<T>)
    ensures |r| == |s| && forall k :: 0 <= k < |s| ==> r[k] == f(s[k])
  {
    seq(|s|, k requires 0 <= k < |s| => f(s[k]))
  }

  /** Concatenation commutes with mapping a function over all elements. */
  lemma {:induction false} ConcatMap<S, T>(blocks: seq<seq<S>>, images: seq<seq<T>>, f: S -> T)
    requires |blocks| == |images|
    requires forall r :: 0 <= r < |blocks| ==> |images[r]| == |blocks[r]|
    requires forall r, k :: 0 <= r < |blocks| && 0 <= k < |blocks[r]| ==> images[r][k] == f(blocks[r][k])
    ensures Concat(images) == Map(f, Concat(blocks))
    decreases |blocks|
  {
    if blocks != [] {
      var n := |blocks| - 1;
      ConcatMap(blocks[..n], images[..n], f);
    }
  }

  function Lengths<T>(blocks: seq<seq<T>>): (r: seq<nat>)
    ensures |r| == |blocks|
    ensures forall i :: 0 <= i < |r| ==> r[i] == |blocks[i]|
  {
    seq(|blocks|, i requires 0 <= i < |blocks| => |blocks[i]|)
  }

  lemma {:induction false} ConcatAt<T>(blocks: seq<seq<T>>, i: nat)
    requires i < |blocks|
    ensures |Concat(blocks)| == Sum(Lengths(blocks), |blocks|)
    ensures Sum(Lengths(blocks), i) + |blocks[i]| <= |Concat(blocks)|
    ensures Concat(blocks)[Sum(Lengths(blocks), i)..Sum(Lengths(blocks), i) + |blocks[i]|] == blocks[i]
    decreases |blocks|
  {
    var n := |blocks| - 1;
    var front := blocks[..n];
    SumOfEqual(Lengths(front), Lengths(blocks), n);
    if i < n {
      ConcatAt(front, i);
      SumOfEqual(Lengths(front), Lengths(blocks), i);
    } else if n > 0 {
      ConcatAt(front, n - 1);
    }
  }

  /** Back-to-back send displacements and matching counts, as the standard requires. */
  ghost predicate Matching<T>(send: seq<seq<T>>, scounts: seq<seq<nat>>, sdispls: seq<seq<nat>>) {
    && |scounts| == |sdispls| == |send|
    && forall i :: 0 <= i < |send| ==>
         && |scounts[i]| == |send|
         && Displacements(scounts[i], sdispls[i])
         && Sum(scounts[i], |send|) == |send[i]|
  }

  lemma BlockInSend<T>(send: seq<seq<T>>, scounts: seq<seq<nat>>, sdispls: seq<seq<nat>>, i: nat, j: nat)
    requires Matching(send, scounts, sdispls) && i < |send| && j < |send|
    ensures sdispls[i][j] + scounts[i][j] <= |send[i]|
  {
    SumMonotone(scounts[i], j + 1, |send|);
  }

  /** The block that rank i sends to rank j. */
  function SendBlock<T>(send: seq<seq<T>>, scounts: seq<seq<nat>>, sdispls: seq<seq<nat>>, i: nat, j: nat): (r: seq<T>)
    requires Matching(send, scounts, sdispls) && i < |send| && j < |send|
    ensures |r| == scounts[i][j]
  {
    BlockInSend(send, scounts, sdispls, i, j);
    send[i][sdispls[i][j]..sdispls[i][j] + scounts[i][j]]
  }

  /** The blocks rank j receives, by sender. */
  function RecvBlocks<T>(send: seq<seq<T>>, scounts: seq<seq<nat>>, sdispls: seq<seq<nat>>, j: nat): (r: seq<seq<T>>)
    requires Matching(send, scounts, sdispls) && j < |send|
    ensures |r| == |send|
    ensures forall i :: 0 <= i < |r| ==> |r[i]| == scounts[i][j]
  {
    seq(|send|, i requires 0 <= i < |send| => SendBlock(send, scounts, sdispls, i, j))
  }

  function Alltoallv<T>(send: seq<seq<T>>, scounts: seq<seq<nat>>, sdispls: seq<seq<nat>>): (recv: seq<seq<T>>)
    requires Matching(send, scounts, sdispls)
    ensures |recv| == |send|
  {
    seq(|send|, j requires 0 <= j < |send| => Concat(RecvBlocks(send, scounts, sdispls, j)))
  }

  lemma LengthsAre<T>(blocks: seq<seq<T>>, counts: seq<nat>, i: nat)
    requires |blocks| == |counts| && i < |blocks|
    requires forall k :: 0 <= k < |blocks| ==> |blocks[k]| == counts[k]
    ensures |Concat(blocks)| == Sum(counts, |counts|)
    ensures Sum(counts, i) + counts[i] <= |Concat(blocks)|
    ensures Concat(blocks)[Sum(counts, i)..Sum(counts, i) + counts[i]] == blocks[i]
  {
    ConcatAt(blocks, i);
    SumOfEqual(Lengths(blocks), counts, i);
    SumOfEqual(Lengths(blocks), counts, |counts|);
  }

  /** Section 5.8 of MPI 3.1: the block that rank i sends to rank j is received by rank j
      in its i-th place, at the displacement of back-to-back blocks. */
  lemma AlltoallvDelivers<T>(send: seq<seq<T>>, scounts: seq<seq<nat>>, sdispls: seq<seq<nat>>,
                             rcounts: seq<nat>, i: nat, j: nat)
    requires Matching(send, scounts, sdispls) && i < |send| && j < |send|
    requires |rcounts| == |send| && forall k :: 0 <= k < |send| ==> rcounts[k] == scounts[k][j]
    ensures var got := Alltoallv(send, scounts, sdispls)[j];
            && |got| == Sum(rcounts, |rcounts|)
            && Sum(rcounts, i) + rcounts[i] <= |got|
            && got[Sum(rcounts, i)..Sum(rcounts, i) + rcounts[i]] == SendBlock(send, scounts, sdispls, i, j)
  {
    LengthsAre(RecvBlocks(send, scounts, sdispls, j), rcounts, i);
  }
}
