/** bicgstab_linear_solver on all ranks, on the CPU and on the GPU: whatever the partition, the
    owned parts of the ranks' vectors are those of the iterates for the whole grid. */
module DistributedBicgstab {
  import opened Renumbering
  import opened Halo
  import opened HaloExchange
  import opened HaloTransfer
  import opened GridLayout
  import opened Stencil
  import opened Csr
  import opened DistributedMesh
  import opened DistributedSolver
  import opened DistributedJacobi
  import opened GridOperator
  import opened DistributedProduct
  import opened Bicgstab
  import opened Vectors
  import opened BicgstabLoops

  // ----- vectors on all ranks -----

  /** The owned parts of the ranks' vectors make up x. */
  ghost predicate Held(l: Layout, vecs: seq<array<real>>, x: seq<real>)
    requires Setting(l)
    reads vecs
  {
    && Fitting(l, vecs) && |vecs| == l.procs && |x| == |l.owner|
    && forall q :: 0 <= q < l.procs ==> Holds(l, q, vecs[q][..], x)
  }

  lemma HeldFits(l: Layout, vecs: seq<array<real>>, x: seq<real>)
    requires Setting(l) && Held(l, vecs, x)
    ensures |vecs| == l.procs && Separate(vecs) && |x| == |l.owner|
    ensures forall q :: 0 <= q < l.procs ==> vecs[q].Length == |LocalCells(l, q)| && Holds(l, q, vecs[q][..], x)
  {
  }

  lemma HeldFrom(l: Layout, vecs: seq<array<real>>, x: seq<real>)
    requires Setting(l) && |vecs| == l.procs && Fitting(l, vecs) && |x| == |l.owner|
    requires forall q :: 0 <= q < l.procs ==> Holds(l, q, vecs[q][..], x)
    ensures Held(l, vecs, x)
  {
  }

  /** No rank's vector in a is another rank's in b; the same rank's it may be. */
  ghost predicate RankWise(a: seq<array<real>>, b: seq<array<real>>) {
    forall q, r :: 0 <= q < |a| && 0 <= r < |b| && q != r ==> a[q] != b[r]
  }

  lemma OthersApart(a: seq<array<real>>, b: seq<array<real>>, q: nat)
    requires RankWise(a, b) && q < |a|
    ensures forall r :: 0 <= r < |b| && q != r ==> a[q] != b[r]
  {
  }

  /** No vector of the one is a vector of the other. */
  ghost predicate Clear(a: seq<array<real>>, b: seq<array<real>>) {
    forall q, r :: 0 <= q < |a| && 0 <= r < |b| ==> a[q] != b[r]
  }

  ghost function Own(l: Layout, q: nat, x: seq<real>): (r: seq<real>)
    requires Setting(l) && |x| == |l.owner|
    ensures |r| == NumOwned(l.owner, q)
  {
    View(l, q, x)[..NumOwned(l.owner, q)]
  }

  lemma HoldsOwn(l: Layout, q: nat, v: seq<real>, x: seq<real>)
    requires Setting(l) && |x| == |l.owner| && |v| == |LocalCells(l, q)|
    ensures NumOwned(l.owner, q) <= |v|
    ensures Holds(l, q, v, x) <==> v[..NumOwned(l.owner, q)] == Own(l, q, x)
  {
  }

  lemma HeldLengths(l: Layout, q: nat, v: seq<real>, x: seq<real>)
    requires Setting(l) && |x| == |l.owner| && Holds(l, q, v, x)
    ensures |v| == |LocalCells(l, q)|
  {
  }

  lemma OwnAxpy(l: Layout, q: nat, x: seq<real>, b: real, y: seq<real>)
    requires Setting(l) && |x| == |y| == |l.owner|
    ensures Own(l, q, Axpy(x, b, y)) == Axpy(Own(l, q, x), b, Own(l, q, y))
  {
    hide Setting;
    forall k | 0 <= k < NumOwned(l.owner, q)
      ensures Own(l, q, Axpy(x, b, y))[k] == Axpy(Own(l, q, x), b, Own(l, q, y))[k]
    {
      LocalCellsInRange(l, q, k);
    }
  }

  // ----- local loops on every rank -----

  method XpbyRank(ghost l: Layout, ghost q: nat, n: nat, v: array<real>, b: real, w: array<real>, result: array<real>,
                  ghost x: seq<real>, ghost y: seq<real>)
    requires Setting(l) && n == NumOwned(l.owner, q) && |x| == |y| == |l.owner| && result.Length == |LocalCells(l, q)|
    requires Holds(l, q, v[..], x) && Holds(l, q, w[..], y)
    modifies result
    ensures Holds(l, q, result[..], Axpy(x, b, y))
  {
    hide Setting, Holds, Own, LocalCells, Axpy;
    HeldLengths(l, q, v[..], x);
    HeldLengths(l, q, w[..], y);
    HoldsOwn(l, q, v[..], x);
    HoldsOwn(l, q, w[..], y);
    OwnAxpy(l, q, x, b, y);
    assert v[..][..n] == v[..n] && w[..][..n] == w[..n];
    Xpby(v, b, w, result, n);
    HoldsOwn(l, q, result[..], Axpy(x, b, y));
    assert result[..][..n] == result[..n];
  }

  /** kg_bicgstab_xpby on every rank; with b negative also the CPU's s = r - alpha Ap. */
  method XpbyAll(l: Layout, hs: seq<RankHalo>, vs: seq<array<real>>, b: real, ws: seq<array<real>>,
                 results: seq<array<real>>, ghost x: seq<real>, ghost y: seq<real>)
    requires Setting(l) && AllBuilt(l, hs) && Held(l, vs, x) && Held(l, ws, y) && Fitting(l, results)
             && |results| == l.procs
    requires RankWise(results, vs) && RankWise(results, ws)
    modifies results
    ensures Held(l, results, Axpy(x, b, y))
  {
    hide Setting, Holds, LocalCells, Axpy, AllBuilt, Held, RankWise;
    HeldFits(l, vs, x);
    HeldFits(l, ws, y);
    for q := 0 to l.procs
      invariant forall r :: 0 <= r < q ==> Holds(l, r, results[r][..], Axpy(x, b, y))
      invariant forall r :: q <= r < l.procs ==> Holds(l, r, vs[r][..], x) && Holds(l, r, ws[r][..], y)
    {
      OwnedCount(l, hs, q);
      OthersApart(results, vs, q);
      OthersApart(results, ws, q);
      XpbyRank(l, q, hs[q].numSolved, vs[q], b, ws[q], results[q], x, y);
    }
    HeldFrom(l, results, Axpy(x, b, y));
  }

  lemma OwnedCount(l: Layout, hs: seq<RankHalo>, q: nat)
    requires Setting(l) && AllBuilt(l, hs) && q < l.procs
    ensures q < |hs| && hs[q].numSolved == NumOwned(l.owner, q) <= |LocalCells(l, q)|
  {
  }

  method CopyAll(l: Layout, hs: seq<RankHalo>, vs: seq<array<real>>, ghost x: seq<real>)
    returns (copies: seq<array<real>>)
    requires Setting(l) && AllBuilt(l, hs) && Held(l, vs, x)
    ensures fresh(copies) && Held(l, copies, x)
  {
    hide Setting, Holds, LocalCells, BuiltFor, Own;
    copies := [];
    for q := 0 to l.procs
      invariant |copies| == q && fresh(copies) && Separate(copies)
      invariant forall r :: 0 <= r < q ==> copies[r].Length == |LocalCells(l, r)| && Holds(l, r, copies[r][..], x)
    {
      OwnedCount(l, hs, q);
      var n := hs[q].numSolved;
      var copy := CopyOwned(vs[q], n);
      HoldsOwn(l, q, vs[q][..], x);
      HoldsOwn(l, q, copy[..], x);
      assert vs[q][..][..n] == vs[q][..n] && copy[..][..n] == copy[..n];
      copies := copies + [copy];
    }
  }

  // ----- the solver's state on all ranks -----

  /** Everything set up: grid, send and receive lists, meshes, and the implicit matrices. */
  ghost predicate Ready(p: Problem, l: Layout, hs: seq<RankHalo>, ranks: seq<Rank>, matrices: seq<Matrix>)
    requires Setting(l)
  {
    && p.StepChosen() && p.Valid() && IsGrid(l, p.nx, p.ny) && AllBuilt(l, hs) && |l.owner| == p.nx * p.ny
    && RanksBuilt(p, l, ranks) && MatricesBuilt(p, l, ranks, matrices) && |ranks| == |matrices| == l.procs
  }

  /** The matrix of the whole grid, as an operator on vectors over all cells. */
  ghost predicate GridMatrix(p: Problem, l: Layout, a: seq<real> -> seq<real>) {
    p.Valid() && a == Times(p) && Linear(a, |l.owner|)
  }

  /** matrix_vector_multiply, in terms of the vectors the ranks make up. */
  method MultiplyHeld(p: Problem, l: Layout, hs: seq<RankHalo>, ranks: seq<Rank>, matrices: seq<Matrix>,
                      vecIn: seq<array<real>>, ghost a: seq<real> -> seq<real>, ghost x: seq<real>)
    returns (vecOut: seq<array<real>>)
    requires Setting(l) && Ready(p, l, hs, ranks, matrices) && GridMatrix(p, l, a) && Held(l, vecIn, x)
    modifies vecIn
    ensures |x| == |l.owner| && Linear(a, |x|)
    ensures fresh(vecOut) && Held(l, vecIn, x) && Held(l, vecOut, Apply(a, x))
  {
    hide Setting, Holds, LocalCells, AllBuilt, IsGrid, RanksBuilt, MatricesBuilt, Linear, Times;
    vecOut := MultiplyAll(p, l, hs, ranks, matrices, vecIn, x);
    forall q | 0 <= q < l.procs
      ensures Holds(l, q, vecIn[q][..], x)
    {
      ViewHolds(l, q, x);
    }
  }

  lemma ViewHolds(l: Layout, q: nat, x: seq<real>)
    requires Setting(l) && |x| == |l.owner|
    ensures Holds(l, q, View(l, q, x), x)
  {
  }

  method DotHeld(l: Layout, hs: seq<RankHalo>, vs: seq<array<real>>, ws: seq<array<real>>, ghost x: seq<real>,
                 ghost y: seq<real>)
    returns (result: real)
    requires Setting(l) && AllBuilt(l, hs) && Held(l, vs, x) && Held(l, ws, y)
    ensures |x| == |y| && result == Dot(x, y)
  {
    hide Setting, Holds, AllBuilt;
    result := DotAll(l, hs, vs, ws, x, y);
  }

  /** A vector on every rank, its contents still open. */
  method NewVectors(l: Layout, hs: seq<RankHalo>) returns (vs: seq<array<real>>)
    requires Setting(l) && AllBuilt(l, hs)
    ensures fresh(vs) && |vs| == l.procs && Fitting(l, vs)
  {
    hide Setting, LocalCells, BuiltFor;
    vs := [];
    for q := 0 to l.procs
      invariant |vs| == q && fresh(vs) && Separate(vs)
      invariant forall r :: 0 <= r < q ==> vs[r].Length == |LocalCells(l, r)|
    {
      HaloSizesOf(l, hs, q);
      var v := new real[hs[q].numSolved + |hs[q].rlist|];
      vs := vs + [v];
    }
  }

  lemma HaloSizesOf(l: Layout, hs: seq<RankHalo>, q: nat)
    requires Setting(l) && AllBuilt(l, hs) && q < l.procs
    ensures q < |hs| && hs[q].numSolved + |hs[q].rlist| == |LocalCells(l, q)|
  {
  }

  lemma ReadyIsBuilt(p: Problem, l: Layout, hs: seq<RankHalo>, ranks: seq<Rank>, matrices: seq<Matrix>)
    requires Setting(l) && Ready(p, l, hs, ranks, matrices)
    ensures AllBuilt(l, hs)
  {
  }

  /** s = r - alpha Ap, a copy s1 of it, As = A s1, and the two dot products of omega. */
  method SecondProduct(p: Problem, l: Layout, hs: seq<RankHalo>, ranks: seq<Rank>, matrices: seq<Matrix>,
                       rs: seq<array<real>>, alpha: real, aps: seq<array<real>>,
                       ghost a: seq<real> -> seq<real>, ghost r: seq<real>, ghost ap: seq<real>)
    returns (ss: seq<array<real>>, s1s: seq<array<real>>, sas: seq<array<real>>, up: real, size: real)
    requires Setting(l) && Ready(p, l, hs, ranks, matrices) && GridMatrix(p, l, a) && |r| == |ap| == |l.owner|
    requires Held(l, rs, r) && Held(l, aps, ap)
    ensures Linear(a, |r|) && fresh(ss) && fresh(s1s) && fresh(sas)
    ensures var s := Axpy(r, -alpha, ap);
            && Held(l, ss, s) && Held(l, s1s, s) && Held(l, sas, Apply(a, s))
            && up == Dot(Apply(a, s), s) && size == Dot(Apply(a, s), Apply(a, s))
  {
    hide Setting, Held, Ready, AllBuilt, Linear, Times, Dot, Axpy, Fitting, RankWise, GridMatrix;
    ReadyIsBuilt(p, l, hs, ranks, matrices);
    ghost var s := Axpy(r, -alpha, ap);
    ss := NewVectors(l, hs);
    ClearIsRankWise(ss, rs);
    ClearIsRankWise(ss, aps);
    XpbyAll(l, hs, rs, -alpha, aps, ss, r, ap);
    s1s := CopyAll(l, hs, ss, s);
    sas := MultiplyHeld(p, l, hs, ranks, matrices, s1s, a, s);
    up := DotHeld(l, hs, sas, ss, Apply(a, s), s);
    size := DotHeld(l, hs, sas, sas, Apply(a, s), Apply(a, s));
  }

  /** The vectors a pass along v meets on the way. */
  ghost predicate Met(l: Layout, a: seq<real> -> seq<real>, r: seq<real>, v: seq<real>, alpha: real,
                      p1s: seq<array<real>>, aps: seq<array<real>>, ss: seq<array<real>>, s1s: seq<array<real>>,
                      sas: seq<array<real>>)
    requires Setting(l) && Linear(a, |r|) && |v| == |r|
    reads p1s, aps, ss, s1s, sas
  {
    var s := HalfResidual(a, r, v, alpha);
    && Held(l, p1s, v) && Held(l, aps, Apply(a, v))
    && Held(l, ss, s) && Held(l, s1s, s) && Held(l, sas, Apply(a, s))
  }

  /** The part of a pass up to omega; both versions make it. The dot products are the same on
      all ranks, and so is whether their quotients exist. */
  method StepLengths(p: Problem, l: Layout, hs: seq<RankHalo>, ranks: seq<Rank>, matrices: seq<Matrix>,
                     r0s: seq<array<real>>, rs: seq<array<real>>, ps: seq<array<real>>,
                     ghost a: seq<real> -> seq<real>, ghost r0: seq<real>, ghost r: seq<real>, ghost v: seq<real>)
    returns (ok: bool, alpha1: real, alpha: real, omega: real, p1s: seq<array<real>>, aps: seq<array<real>>,
             ss: seq<array<real>>, s1s: seq<array<real>>, sas: seq<array<real>>)
    requires Setting(l) && Ready(p, l, hs, ranks, matrices) && GridMatrix(p, l, a) && |r0| == |r| == |v| == |l.owner|
    requires Held(l, r0s, r0) && Held(l, rs, r) && Held(l, ps, v)
    ensures fresh(p1s) && fresh(aps) && fresh(ss) && fresh(s1s) && fresh(sas)
    ensures Linear(a, |r0|) && LengthsOf(a, r0, r, v) == if ok then Steps(alpha1, alpha, omega) else Broken
    ensures ok ==> Met(l, a, r, v, alpha, p1s, aps, ss, s1s, sas)
  {
    hide Setting, Held, Ready, AllBuilt, Linear, Times, Dot, Axpy, Fitting, GridMatrix;
    ReadyIsBuilt(p, l, hs, ranks, matrices);
    ok, alpha, omega, ss, s1s, sas := false, 0.0, 0.0, [], [], [];
    p1s := CopyAll(l, hs, ps, v);
    alpha1 := DotHeld(l, hs, rs, r0s, r, r0);
    aps := MultiplyHeld(p, l, hs, ranks, matrices, p1s, a, v);
    var down := DotHeld(l, hs, aps, r0s, Apply(a, v), r0);
    if down != 0.0 {
      alpha := alpha1 / down;
      var up, size;
      ss, s1s, sas, up, size := SecondProduct(p, l, hs, ranks, matrices, rs, alpha, aps, a, r, Apply(a, v));
      if size != 0.0 {
        omega := up / size;
        ok := true;
      }
    }
  }

  lemma ClearIsRankWise(a: seq<array<real>>, b: seq<array<real>>)
    requires Clear(a, b)
    ensures RankWise(a, b) && RankWise(b, a)
  {
  }

  lemma SelfIsRankWise(l: Layout, a: seq<array<real>>, x: seq<real>)
    requires Setting(l) && Held(l, a, x)
    ensures RankWise(a, a)
  {
  }

  // ----- one iteration on the CPU -----

  method MoveRank(ghost l: Layout, ghost q: nat, n: nat, v: array<real>, u: array<real>, alpha: real, p1: array<real>,
                  omega: real, s1: array<real>, s: array<real>, sa: array<real>,
                  ghost x: seq<real>, ghost p: seq<real>, ghost sx: seq<real>, ghost ax: seq<real>)
    requires Setting(l) && n == NumOwned(l.owner, q) && |x| == |p| == |sx| == |ax| == |l.owner|
             && u.Length == |LocalCells(l, q)|
    requires v != u && v != p1 && v != s1 && v != s && v != sa && u != p1 && u != s1 && u != s && u != sa
    requires Holds(l, q, v[..], x) && Holds(l, q, p1[..], p) && Holds(l, q, s1[..], sx) && Holds(l, q, s[..], sx)
             && Holds(l, q, sa[..], ax)
    modifies v, u
    ensures Holds(l, q, v[..], Axpy(Axpy(x, alpha, p), omega, sx)) && Holds(l, q, u[..], Axpy(sx, -omega, ax))
  {
    hide Setting, Holds, Own, LocalCells, Axpy;
    OwnPart(l, q, v, n, x);
    OwnPart(l, q, p1, n, p);
    OwnPart(l, q, s1, n, sx);
    OwnPart(l, q, s, n, sx);
    OwnPart(l, q, sa, n, ax);
    OwnAxpy(l, q, x, alpha, p);
    OwnAxpy(l, q, Axpy(x, alpha, p), omega, sx);
    OwnAxpy(l, q, sx, -omega, ax);
    MoveBoth(v, u, alpha, p1, omega, s1, s, sa, n);
    PartIsOwn(l, q, v, n, Axpy(Axpy(x, alpha, p), omega, sx));
    PartIsOwn(l, q, u, n, Axpy(sx, -omega, ax));
  }

  lemma OwnPart(l: Layout, q: nat, v: array<real>, n: nat, x: seq<real>)
    requires Setting(l) && n == NumOwned(l.owner, q) && |x| == |l.owner| && Holds(l, q, v[..], x)
    ensures n <= v.Length == |LocalCells(l, q)| && v[..n] == Own(l, q, x)
  {
    hide Setting, Own;
    HoldsOwn(l, q, v[..], x);
    assert v[..][..n] == v[..n];
  }

  lemma PartIsOwn(l: Layout, q: nat, v: array<real>, n: nat, x: seq<real>)
    requires Setting(l) && n == NumOwned(l.owner, q) && |x| == |l.owner| && v.Length == |LocalCells(l, q)|
    requires n <= v.Length && v[..n] == Own(l, q, x)
    ensures Holds(l, q, v[..], x)
  {
    hide Setting, Own, Holds;
    HoldsOwn(l, q, v[..], x);
    assert v[..][..n] == v[..n];
  }

  method TurnRank(ghost l: Layout, ghost q: nat, n: nat, v: array<real>, r: array<real>, beta: real, omega: real,
                  ap: array<real>, ghost p: seq<real>, ghost x: seq<real>, ghost ax: seq<real>)
    requires Setting(l) && n == NumOwned(l.owner, q) && |p| == |x| == |ax| == |l.owner| && v != r && v != ap
    requires Holds(l, q, v[..], p) && Holds(l, q, r[..], x) && Holds(l, q, ap[..], ax)
    modifies v
    ensures Holds(l, q, v[..], Axpy(x, beta, Axpy(p, -omega, ax)))
  {
    hide Setting, Holds, Own, LocalCells, Axpy;
    OwnPart(l, q, v, n, p);
    OwnPart(l, q, r, n, x);
    OwnPart(l, q, ap, n, ax);
    OwnAxpy(l, q, p, -omega, ax);
    OwnAxpy(l, q, x, beta, Axpy(p, -omega, ax));
    MoveDirection(v, r, beta, omega, ap, n);
    PartIsOwn(l, q, v, n, Axpy(x, beta, Axpy(p, -omega, ax)));
  }

  /** dQ and r on every rank. */
  method MoveAll(l: Layout, hs: seq<RankHalo>, xs: seq<array<real>>, rs: seq<array<real>>, alpha: real,
                 p1s: seq<array<real>>, omega: real, s1s: seq<array<real>>, ss: seq<array<real>>, sas: seq<array<real>>,
                 ghost x: seq<real>, ghost r: seq<real>, ghost p: seq<real>, ghost s: seq<real>, ghost sa: seq<real>)
    requires Setting(l) && AllBuilt(l, hs) && Held(l, xs, x) && Held(l, rs, r)
    requires Held(l, p1s, p) && Held(l, s1s, s) && Held(l, ss, s) && Held(l, sas, sa)
    requires Clear(xs, rs) && Clear(xs, p1s) && Clear(xs, s1s) && Clear(xs, ss) && Clear(xs, sas)
    requires Clear(rs, p1s) && Clear(rs, s1s) && Clear(rs, ss) && Clear(rs, sas)
    modifies xs, rs
    ensures |x| == |p| == |s| == |sa|
    ensures Held(l, xs, Axpy(Axpy(x, alpha, p), omega, s)) && Held(l, rs, Axpy(s, -omega, sa))
  {
    hide Setting, Holds, LocalCells, Axpy, AllBuilt, Held;
    HeldFits(l, xs, x);
    HeldFits(l, rs, r);
    HeldFits(l, p1s, p);
    HeldFits(l, s1s, s);
    HeldFits(l, ss, s);
    HeldFits(l, sas, sa);
    for q := 0 to l.procs
      invariant forall k :: 0 <= k < q ==>
                Holds(l, k, xs[k][..], Axpy(Axpy(x, alpha, p), omega, s)) && Holds(l, k, rs[k][..], Axpy(s, -omega, sa))
      invariant forall k :: q <= k < l.procs ==> Holds(l, k, xs[k][..], x)
      invariant forall k :: 0 <= k < l.procs ==> Holds(l, k, p1s[k][..], p) && Holds(l, k, s1s[k][..], s)
      invariant forall k :: 0 <= k < l.procs ==> Holds(l, k, ss[k][..], s) && Holds(l, k, sas[k][..], sa)
    {
      OwnedCount(l, hs, q);
      MoveRank(l, q, hs[q].numSolved, xs[q], rs[q], alpha, p1s[q], omega, s1s[q], ss[q], sas[q], x, p, s, sa);
    }
    HeldFrom(l, xs, Axpy(Axpy(x, alpha, p), omega, s));
    HeldFrom(l, rs, Axpy(s, -omega, sa));
  }

  /** p on every rank. */
  method TurnAll(l: Layout, hs: seq<RankHalo>, ps: seq<array<real>>, rs: seq<array<real>>, beta: real, omega: real,
                 aps: seq<array<real>>, ghost p: seq<real>, ghost r: seq<real>, ghost ap: seq<real>)
    requires Setting(l) && AllBuilt(l, hs) && Held(l, ps, p) && Held(l, rs, r) && Held(l, aps, ap) && Clear(ps, rs)
             && Clear(ps, aps)
    modifies ps
    ensures |p| == |r| == |ap| && Held(l, ps, Axpy(r, beta, Axpy(p, -omega, ap)))
  {
    hide Setting, Holds, LocalCells, Axpy, AllBuilt, Held;
    HeldFits(l, ps, p);
    HeldFits(l, rs, r);
    HeldFits(l, aps, ap);
    for q := 0 to l.procs
      invariant forall k :: 0 <= k < q ==> Holds(l, k, ps[k][..], Axpy(r, beta, Axpy(p, -omega, ap)))
      invariant forall k :: q <= k < l.procs ==> Holds(l, k, ps[k][..], p)
      invariant forall k :: 0 <= k < l.procs ==> Holds(l, k, rs[k][..], r) && Holds(l, k, aps[k][..], ap)
    {
      OwnedCount(l, hs, q);
      TurnRank(l, q, hs[q].numSolved, ps[q], rs[q], beta, omega, aps[q], p, r, ap);
    }
    HeldFrom(l, ps, Axpy(r, beta, Axpy(p, -omega, ap)));
  }

  /** p on all ranks; once lost, nothing is said of its values. */
  ghost predicate HeldDirection(l: Layout, ps: seq<array<real>>, d: Direction)
    requires Setting(l)
    reads ps
  {
    Fitting(l, ps) && |ps| == l.procs && (d.Along? ==> Held(l, ps, d.v))
  }

  /** dQ, r and p on all ranks are those of the state. */
  ghost predicate AtState(l: Layout, xs: seq<array<real>>, rs: seq<array<real>>, ps: seq<array<real>>, st: State)
    requires Setting(l)
    reads xs, rs, ps
  {
    && Held(l, xs, st.x) && Held(l, rs, st.r) && HeldDirection(l, ps, st.p)
    && Clear(xs, rs) && Clear(xs, ps) && Clear(rs, ps)
  }

  /** One pass of the CPU loop on all ranks. ok says that alpha and omega exist, and lost that
      beta then does not. */
  method CpuIteration(p: Problem, l: Layout, hs: seq<RankHalo>, ranks: seq<Rank>, matrices: seq<Matrix>,
                      r0s: seq<array<real>>, xs: seq<array<real>>, rs: seq<array<real>>, ps: seq<array<real>>,
                      ghost a: seq<real> -> seq<real>, ghost r0: seq<real>, ghost st: State)
    returns (ok: bool, lost: bool, ghost next: State)
    requires Setting(l) && Ready(p, l, hs, ranks, matrices) && GridMatrix(p, l, a) && |r0| == |l.owner|
             && Shaped(st, |r0|)
    requires Held(l, r0s, r0) && AtState(l, xs, rs, ps, st) && Clear(xs, r0s) && Clear(rs, r0s) && Clear(ps, r0s)
             && st.p.Along?
    modifies xs, rs, ps
    ensures Linear(a, |r0|) && Iterate(a, r0, st) == if ok then Reached(next) else Undefined
    ensures Held(l, r0s, r0) && AtState(l, xs, rs, ps, next) && Shaped(next, |r0|)
    ensures (lost <==> next.p.Lost?) && (!ok ==> next == st)
  {
    hide Setting, Held, Ready, AllBuilt, Linear, Times, Dot, Axpy, Fitting, GridMatrix, LengthsOf;
    ReadyIsBuilt(p, l, hs, ranks, matrices);
    ghost var v := st.p.v;
    var alpha1, alpha, omega, p1s, aps, ss, s1s, sas;
    ok, alpha1, alpha, omega, p1s, aps, ss, s1s, sas :=
      StepLengths(p, l, hs, ranks, matrices, r0s, rs, ps, a, r0, st.r, v);
    lost, next := false, st;
    if ok {
      ghost var s := HalfResidual(a, st.r, v, alpha);
      MoveAll(l, hs, xs, rs, alpha, p1s, omega, s1s, ss, sas, st.x, st.r, v, s, Apply(a, s));
      next := Moved(a, r0, st, Steps(alpha1, alpha, omega));
      lost := alpha1 == 0.0 || omega == 0.0;
      if !lost {
        var beta := DotHeld(l, hs, rs, r0s, next.r, r0);
        ghost var d := beta;
        beta := beta / alpha1;
        beta := beta * (alpha / omega);
        assert beta == Beta(d, alpha1, alpha, omega);
        TurnAll(l, hs, ps, rs, beta, omega, aps, v, next.r, Apply(a, v));
        AlongHeld(l, ps, next.p.v);
      }
    }
  }

  lemma AlongHeld(l: Layout, ps: seq<array<real>>, v: seq<real>)
    requires Setting(l) && Held(l, ps, v)
    ensures HeldDirection(l, ps, Along(v))
  {
  }

  // ----- one iteration on the GPU -----

  /** v := v + b w on every rank. */
  method AddAll(l: Layout, hs: seq<RankHalo>, vs: seq<array<real>>, b: real, ws: seq<array<real>>, ghost x: seq<real>,
                ghost y: seq<real>)
    requires Setting(l) && AllBuilt(l, hs) && Held(l, vs, x) && Held(l, ws, y) && Clear(vs, ws)
    modifies vs
    ensures |x| == |y| && Held(l, vs, Axpy(x, b, y))
  {
    hide Setting, AllBuilt, Axpy, Fitting;
    SelfIsRankWise(l, vs, x);
    ClearIsRankWise(vs, ws);
    XpbyAll(l, hs, vs, b, ws, vs, x, y);
  }

  /** w := v + b w on every rank. */
  method AddOntoAll(l: Layout, hs: seq<RankHalo>, vs: seq<array<real>>, b: real, ws: seq<array<real>>,
                    ghost x: seq<real>, ghost y: seq<real>)
    requires Setting(l) && AllBuilt(l, hs) && Held(l, vs, x) && Held(l, ws, y) && Clear(ws, vs)
    modifies ws
    ensures |x| == |y| && Held(l, ws, Axpy(x, b, y))
  {
    hide Setting, AllBuilt, Axpy, Fitting;
    SelfIsRankWise(l, ws, y);
    ClearIsRankWise(ws, vs);
    XpbyAll(l, hs, vs, b, ws, ws, x, y);
  }

  /** result := v + b w on every rank. */
  method SetAll(l: Layout, hs: seq<RankHalo>, vs: seq<array<real>>, b: real, ws: seq<array<real>>,
                results: seq<array<real>>, ghost x: seq<real>, ghost y: seq<real>, ghost was: seq<real>)
    requires Setting(l) && AllBuilt(l, hs) && Held(l, vs, x) && Held(l, ws, y) && Held(l, results, was)
    requires Clear(results, vs) && Clear(results, ws)
    modifies results
    ensures |x| == |y| && Held(l, results, Axpy(x, b, y))
  {
    hide Setting, AllBuilt, Axpy, Fitting;
    ClearIsRankWise(results, vs);
    ClearIsRankWise(results, ws);
    XpbyAll(l, hs, vs, b, ws, results, x, y);
  }

  /** dQ by two in-place kernels, r by a third. */
  method MoveSplit(l: Layout, hs: seq<RankHalo>, xs: seq<array<real>>, rs: seq<array<real>>, alpha: real,
                   p1s: seq<array<real>>, omega: real, s1s: seq<array<real>>, ss: seq<array<real>>,
                   sas: seq<array<real>>, ghost x: seq<real>, ghost r: seq<real>, ghost p: seq<real>,
                   ghost s: seq<real>, ghost sa: seq<real>)
    requires Setting(l) && AllBuilt(l, hs) && Held(l, xs, x) && Held(l, rs, r)
    requires Held(l, p1s, p) && Held(l, s1s, s) && Held(l, ss, s) && Held(l, sas, sa)
    requires Clear(xs, rs) && Clear(xs, p1s) && Clear(xs, s1s) && Clear(xs, ss) && Clear(xs, sas)
    requires Clear(rs, p1s) && Clear(rs, s1s) && Clear(rs, ss) && Clear(rs, sas)
    modifies xs, rs
    ensures |x| == |p| == |s| == |sa|
    ensures Held(l, xs, Axpy(Axpy(x, alpha, p), omega, s)) && Held(l, rs, Axpy(s, -omega, sa))
  {
    hide Setting, AllBuilt, Axpy, Held;
    AddAll(l, hs, xs, alpha, p1s, x, p);
    AddAll(l, hs, xs, omega, s1s, Axpy(x, alpha, p), s);
    SetAll(l, hs, ss, -omega, sas, rs, s, sa, r);
  }

  /** p by two in-place kernels. */
  method TurnSplit(l: Layout, hs: seq<RankHalo>, ps: seq<array<real>>, rs: seq<array<real>>, beta: real, omega: real,
                   aps: seq<array<real>>, ghost p: seq<real>, ghost r: seq<real>, ghost ap: seq<real>)
    requires Setting(l) && AllBuilt(l, hs) && Held(l, ps, p) && Held(l, rs, r) && Held(l, aps, ap) && Clear(ps, rs)
             && Clear(ps, aps)
    modifies ps
    ensures |p| == |r| == |ap| && Held(l, ps, Axpy(r, beta, Axpy(p, -omega, ap)))
  {
    hide Setting, AllBuilt, Axpy, Held;
    AddOntoAll(l, hs, rs, beta, ps, r, p);
    AddAll(l, hs, ps, -(beta * omega), aps, Axpy(r, beta, p), ap);
    SplitDirection(r, beta, p, omega, ap);
  }

  /** One pass of the GPU loop: the same step in split, in-place kernels, with beta computed in
      another order. */
  method GpuIteration(p: Problem, l: Layout, hs: seq<RankHalo>, ranks: seq<Rank>, matrices: seq<Matrix>,
                      r0s: seq<array<real>>, xs: seq<array<real>>, rs: seq<array<real>>, ps: seq<array<real>>,
                      ghost a: seq<real> -> seq<real>, ghost r0: seq<real>, ghost st: State)
    returns (ok: bool, lost: bool, ghost next: State)
    requires Setting(l) && Ready(p, l, hs, ranks, matrices) && GridMatrix(p, l, a) && |r0| == |l.owner|
             && Shaped(st, |r0|)
    requires Held(l, r0s, r0) && AtState(l, xs, rs, ps, st) && Clear(xs, r0s) && Clear(rs, r0s) && Clear(ps, r0s)
             && st.p.Along?
    modifies xs, rs, ps
    ensures Linear(a, |r0|) && Iterate(a, r0, st) == if ok then Reached(next) else Undefined
    ensures Held(l, r0s, r0) && AtState(l, xs, rs, ps, next) && Shaped(next, |r0|)
    ensures (lost <==> next.p.Lost?) && (!ok ==> next == st)
  {
    hide Setting, Held, Ready, AllBuilt, Linear, Times, Dot, Axpy, Fitting, GridMatrix, LengthsOf;
    ReadyIsBuilt(p, l, hs, ranks, matrices);
    ghost var v := st.p.v;
    var alpha1, alpha, omega, p1s, aps, ss, s1s, sas;
    ok, alpha1, alpha, omega, p1s, aps, ss, s1s, sas :=
      StepLengths(p, l, hs, ranks, matrices, r0s, rs, ps, a, r0, st.r, v);
    lost, next := false, st;
    if ok {
      ghost var s := HalfResidual(a, st.r, v, alpha);
      MoveSplit(l, hs, xs, rs, alpha, p1s, omega, s1s, ss, sas, st.x, st.r, v, s, Apply(a, s));
      next := Moved(a, r0, st, Steps(alpha1, alpha, omega));
      lost := alpha1 == 0.0 || omega == 0.0;
      if !lost {
        var beta := DotHeld(l, hs, rs, r0s, next.r, r0);
        BetaAlgebra(beta, alpha1, alpha, omega);
        beta := beta * (alpha / alpha1 / omega);
        TurnSplit(l, hs, ps, rs, beta, omega, aps, v, next.r, Apply(a, v));
        AlongHeld(l, ps, next.p.v);
      }
    }
  }

  // ----- the solver -----

  ghost predicate RhsOwned(l: Layout, rhs: seq<seq<real>>, b: seq<real>)
    requires Setting(l)
  {
    |rhs| == l.procs && |b| == |l.owner| && forall q :: 0 <= q < l.procs ==> rhs[q] == Own(l, q, b)
  }

  method ZeroVectors(l: Layout, hs: seq<RankHalo>) returns (xs: seq<array<real>>)
    requires Setting(l) && AllBuilt(l, hs)
    ensures fresh(xs) && Held(l, xs, Zeros(|l.owner|))
  {
    hide Setting, LocalCells, BuiltFor;
    xs := NewVectors(l, hs);
    for q := 0 to l.procs
      invariant forall k :: 0 <= k < q ==> Holds(l, k, xs[k][..], Zeros(|l.owner|))
    {
      OwnedCount(l, hs, q);
      var n := hs[q].numSolved;
      for i := 0 to n
        invariant forall k :: 0 <= k < i ==> xs[q][k] == 0.0
        invariant forall k :: 0 <= k < q ==> Holds(l, k, xs[k][..], Zeros(|l.owner|))
      {
        xs[q][i] := 0.0;
      }
    }
  }

  /** r0 = rhs - A dQ with dQ zero; r and p start as copies. */
  method Begin(p: Problem, l: Layout, hs: seq<RankHalo>, ranks: seq<Rank>, matrices: seq<Matrix>, rhs: seq<seq<real>>,
               ghost a: seq<real> -> seq<real>, ghost b: seq<real>)
    returns (r0s: seq<array<real>>, xs: seq<array<real>>, rs: seq<array<real>>, ps: seq<array<real>>)
    requires Setting(l) && Ready(p, l, hs, ranks, matrices) && GridMatrix(p, l, a) && RhsOwned(l, rhs, b)
    ensures Linear(a, |b|) && fresh(r0s) && fresh(xs) && fresh(rs) && fresh(ps)
    ensures Held(l, r0s, Start(a, b).r) && AtState(l, xs, rs, ps, Start(a, b))
    ensures Clear(xs, r0s) && Clear(rs, r0s) && Clear(ps, r0s)
  {
    hide Setting, Held, Ready, AllBuilt, Linear, Times, Axpy, Fitting, GridMatrix, Own;
    ReadyIsBuilt(p, l, hs, ranks, matrices);
    xs := ZeroVectors(l, hs);
    var axs := MultiplyHeld(p, l, hs, ranks, matrices, xs, a, Zeros(|l.owner|));
    r0s := FirstResiduals(l, rhs, axs, b, Apply(a, Zeros(|l.owner|)));
    rs := CopyAll(l, hs, r0s, Start(a, b).r);
    ps := CopyAll(l, hs, r0s, Start(a, b).r);
    AlongHeld(l, ps, Start(a, b).r);
  }

  method FirstResiduals(l: Layout, rhs: seq<seq<real>>, axs: seq<array<real>>, ghost b: seq<real>, ghost ax: seq<real>)
    returns (r0s: seq<array<real>>)
    requires Setting(l) && RhsOwned(l, rhs, b) && Held(l, axs, ax)
    ensures |b| == |ax| && fresh(r0s) && Held(l, r0s, Axpy(b, -1.0, ax))
  {
    hide Setting, LocalCells, Holds, Own, Axpy;
    r0s := [];
    for q := 0 to l.procs
      invariant |r0s| == q && fresh(r0s) && Separate(r0s)
      invariant forall k :: 0 <= k < q ==>
                r0s[k].Length == |LocalCells(l, k)| && Holds(l, k, r0s[k][..], Axpy(b, -1.0, ax))
    {
      OwnPart(l, q, axs[q], |rhs[q]|, ax);
      OwnAxpy(l, q, b, -1.0, ax);
      var r0 := FirstResidual(rhs[q], axs[q]);
      PartIsOwn(l, q, r0, |rhs[q]|, Axpy(b, -1.0, ax));
      r0s := r0s + [r0];
    }
  }

  /** bicgstab_linear_solver on all ranks, of either solver: num_iter passes, when all of them
      have their quotients. The code makes the divisions that have none as well; ok says that
      there was no such division. */
  method Solve(p: Problem, l: Layout, hs: seq<RankHalo>, ranks: seq<Rank>, matrices: seq<Matrix>, rhs: seq<seq<real>>,
               numIter: nat, gpuSolver: bool, ghost a: seq<real> -> seq<real>, ghost b: seq<real>)
    returns (ok: bool, xs: seq<array<real>>, rs: seq<array<real>>, ps: seq<array<real>>)
    requires Setting(l) && Ready(p, l, hs, ranks, matrices) && GridMatrix(p, l, a) && RhsOwned(l, rhs, b)
    ensures fresh(xs) && fresh(rs) && fresh(ps)
    ensures Linear(a, |b|) && (ok <==> Iterates(a, b, numIter).Reached?)
    ensures ok ==> AtState(l, xs, rs, ps, Iterates(a, b, numIter).value)
  {
    hide Setting, Held, Ready, Linear, Times, GridMatrix, Iterate, Start, Fitting;
    var r0s;
    r0s, xs, rs, ps := Begin(p, l, hs, ranks, matrices, rhs, a, b);
    var iter, lost := 0, false;
    ok := true;
    ghost var st := Start(a, b);
    while iter < numIter && ok
      invariant iter <= numIter && fresh(r0s) && fresh(xs) && fresh(rs) && fresh(ps)
      invariant Held(l, r0s, Start(a, b).r) && AtState(l, xs, rs, ps, st) && Clear(xs, r0s) && Clear(rs, r0s)
                && Clear(ps, r0s)
      invariant Iterates(a, b, iter) == Reached(st) && (lost <==> st.p.Lost?)
      invariant !ok ==> iter < numIter && Iterates(a, b, iter + 1).Undefined?
      decreases numIter - iter, ok
    {
      if lost {
        ok := false;
        LostBreaksDown(a, b, iter);
      } else {
        ghost var next;
        if gpuSolver {
          ok, lost, next := GpuIteration(p, l, hs, ranks, matrices, r0s, xs, rs, ps, a, Start(a, b).r, st);
        } else {
          ok, lost, next := CpuIteration(p, l, hs, ranks, matrices, r0s, xs, rs, ps, a, Start(a, b).r, st);
        }
        if ok {
          st := next;
          iter := iter + 1;
        }
      }
    }
    if !ok {
      UndefinedStays(a, b, iter + 1, numIter);
    }
  }
}
