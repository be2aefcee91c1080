/** compute_system on the GPU: three launches after clearing the values, the last two with
    atomic additions. Whatever their thread counts and schedules they assemble the matrix that
    the CPU loops assemble. */
module GpuAssembly {
  import opened GpuKernels
  import opened GpuOperations
  import opened LocalMesh
  import opened RealSums
  import opened SparseMatrix
  import opened SystemAssembly
  import opened Vectors

  // ----- the three kernels -----

  /** kg_compute_system_time_term writes to the diagonal of each row. */
  ghost function DiagonalCells(m: Mesh, diag: seq<int>, idx: seq<int>): (r: seq<nat>)
    requires Shaped(m) && Indexed(m, diag, idx)
    ensures |r| == m.solved && forall i :: 0 <= i < |r| ==> r[i] == diag[i]
  {
    seq(m.solved, i requires 0 <= i < m.solved => diag[i])
  }

  /** kg_compute_system_boundary_diffusion adds to the diagonal of each face's cell. */
  ghost function FaceDiagonals(m: Mesh, diag: seq<int>, idx: seq<int>): (r: seq<nat>)
    requires Shaped(m) && Indexed(m, diag, idx)
    ensures |r| == |m.faceCell| && forall b :: 0 <= b < |r| ==> r[b] == diag[m.faceCell[b]]
  {
    seq(|m.faceCell|, b requires 0 <= b < |m.faceCell| => diag[m.faceCell[b]])
  }

  /** Row i of kg_compute_system_interior_diffusion: for each face an addition to the diagonal
      and a subtraction from the slot of the face. */
  ghost function FaceOps(m: Mesh, diag: seq<int>, idx: seq<int>, i: nat): (ops: seq<Op>)
    requires Shaped(m) && Indexed(m, diag, idx) && i < m.solved
    ensures |ops| == 2 * |RowWeights(m, i)|
  {
    var w := RowWeights(m, i);
    seq(2 * |w|, k requires 0 <= k < 2 * |w| =>
          assert InRow(m, i, m.ends[i] + k / 2);
          if k % 2 == 0 then Add(diag[i], w[k / 2]) else Add(idx[m.ends[i] + k / 2], -w[k / 2]))
  }

  lemma FaceOpsAt(m: Mesh, diag: seq<int>, idx: seq<int>, i: nat, n: nat)
    requires Shaped(m) && Indexed(m, diag, idx) && i < m.solved && n < |RowWeights(m, i)|
    ensures InRow(m, i, m.ends[i] + n)
    ensures FaceOps(m, diag, idx, i)[2 * n] == Add(m.ends[i] + i, RowWeights(m, i)[n])
    ensures FaceOps(m, diag, idx, i)[2 * n + 1] == Add(i + 1 + (m.ends[i] + n), -RowWeights(m, i)[n])
  {
    assert InRow(m, i, m.ends[i] + n);
  }

  ghost function InteriorOps(m: Mesh, diag: seq<int>, idx: seq<int>): (ops: seq<seq<Op>>)
    requires Shaped(m) && Indexed(m, diag, idx)
    ensures |ops| == m.solved && forall i :: 0 <= i < |ops| ==> ops[i] == FaceOps(m, diag, idx, i)
  {
    seq(m.solved, i requires 0 <= i < m.solved => FaceOps(m, diag, idx, i))
  }

  // ----- what one row of the interior kernel does -----

  lemma NothingMade(ops: seq<Op>, c: nat, x: real)
    ensures After(ops, 0, c, x) == x
  {
  }

  lemma {:induction false} DiagonalGains(m: Mesh, diag: seq<int>, idx: seq<int>, i: nat, n: nat, x: real)
    requires Shaped(m) && Indexed(m, diag, idx) && i < m.solved && n <= |RowWeights(m, i)|
    ensures After(FaceOps(m, diag, idx, i), 2 * n, m.ends[i] + i, x) == x + SumTo(RowWeights(m, i), n)
  {
    hide FaceOps, Indexed, After;
    NothingMade(FaceOps(m, diag, idx, i), m.ends[i] + i, x);
    if n > 0 {
      DiagonalGains(m, diag, idx, i, n - 1, x);
      TwoOps(m, diag, idx, i, n - 1, m.ends[i] + i, x);
      DiagonalApart(m, i, i, m.ends[i] + (n - 1));
    }
  }

  lemma TwoOps(m: Mesh, diag: seq<int>, idx: seq<int>, i: nat, n: nat, c: nat, x: real)
    requires Shaped(m) && Indexed(m, diag, idx) && i < m.solved && n < |RowWeights(m, i)|
    ensures InRow(m, i, m.ends[i] + n)
    ensures After(FaceOps(m, diag, idx, i), 2 * n + 2, c, x)
            == After(FaceOps(m, diag, idx, i), 2 * n, c, x)
               + (if c == m.ends[i] + i then RowWeights(m, i)[n] else 0.0)
               + (if c == i + 1 + (m.ends[i] + n) then -RowWeights(m, i)[n] else 0.0)
  {
    hide FaceOps, InRow, Shaped, Indexed;
    FaceOpsAt(m, diag, idx, i, n);
    assert After(FaceOps(m, diag, idx, i), 2 * n + 1, c, x)
           == After(FaceOps(m, diag, idx, i), 2 * n, c, x) + if c == m.ends[i] + i then RowWeights(m, i)[n] else 0.0;
  }

  lemma {:induction false} SlotLoses(m: Mesh, diag: seq<int>, idx: seq<int>, i: nat, j: nat, n: nat, x: real)
    requires Shaped(m) && Indexed(m, diag, idx) && InRow(m, i, j) && n <= |RowWeights(m, i)|
    ensures j < |m.rdista|
    ensures After(FaceOps(m, diag, idx, i), 2 * n, i + 1 + j, x) == x - if j < m.ends[i] + n then m.rdista[j] else 0.0
  {
    hide FaceOps, Indexed, After;
    RowInside(m, i, j);
    NothingMade(FaceOps(m, diag, idx, i), i + 1 + j, x);
    if n > 0 {
      SlotLoses(m, diag, idx, i, j, n - 1, x);
      TwoOps(m, diag, idx, i, n - 1, i + 1 + j, x);
      DiagonalApart(m, i, i, j);
    }
  }

  /** A row touches its own diagonal and its own slots only. */
  lemma RowTouches(m: Mesh, diag: seq<int>, idx: seq<int>, i: nat, k: nat)
    requires Shaped(m) && Indexed(m, diag, idx) && i < m.solved && k < |FaceOps(m, diag, idx, i)|
    ensures FaceOps(m, diag, idx, i)[k].Add?
    ensures var c := FaceOps(m, diag, idx, i)[k].cell;
            c == m.ends[i] + i || (InRow(m, i, m.ends[i] + k / 2) && c == i + 1 + (m.ends[i] + k / 2))
  {
    FaceOpsAt(m, diag, idx, i, k / 2);
  }

  lemma OthersMissDiagonal(m: Mesh, diag: seq<int>, idx: seq<int>, i: nat, r: nat)
    requires Shaped(m) && Indexed(m, diag, idx) && i < m.solved && r < m.solved && r != i
    ensures !Touches(FaceOps(m, diag, idx, r), m.ends[i] + i)
  {
    hide FaceOps;
    forall k | 0 <= k < |FaceOps(m, diag, idx, r)|
      ensures FaceOps(m, diag, idx, r)[k].cell != m.ends[i] + i
    {
      RowTouches(m, diag, idx, r, k);
      if i < r { DiagonalsApart(m, i, r); } else { DiagonalsApart(m, r, i); }
      if InRow(m, r, m.ends[r] + k / 2) {
        DiagonalApart(m, i, r, m.ends[r] + k / 2);
      }
    }
  }

  lemma OthersMissSlot(m: Mesh, diag: seq<int>, idx: seq<int>, i: nat, j: nat, r: nat)
    requires Shaped(m) && Indexed(m, diag, idx) && InRow(m, i, j) && r < m.solved && r != i
    ensures !Touches(FaceOps(m, diag, idx, r), i + 1 + j)
  {
    hide FaceOps;
    forall k | 0 <= k < |FaceOps(m, diag, idx, r)|
      ensures FaceOps(m, diag, idx, r)[k].cell != i + 1 + j
    {
      RowTouches(m, diag, idx, r, k);
      DiagonalApart(m, r, i, j);
      if InRow(m, r, m.ends[r] + k / 2) {
        SlotsApart(m, i, j, r, m.ends[r] + k / 2);
      }
    }
  }

  lemma InteriorFits(m: Mesh, diag: seq<int>, idx: seq<int>)
    requires Shaped(m) && Indexed(m, diag, idx)
    ensures Fits(InteriorOps(m, diag, idx), m.ends[m.solved] + m.solved) && ClearsOwn(InteriorOps(m, diag, idx))
  {
    hide FaceOps;
    var ops: seq<seq<Op>> := InteriorOps(m, diag, idx);
    forall i: int, k: int | 0 <= i < |ops| && 0 <= k < |ops[i]|
      ensures ops[i][k].Add? && ops[i][k].cell < m.ends[m.solved] + m.solved
    {
      RowTouches(m, diag, idx, i, k);
      DiagonalsApart(m, i, m.solved);
      if InRow(m, i, m.ends[i] + k / 2) {
        RowInside(m, i, m.ends[i] + k / 2);
      }
    }
  }

  // ----- the launches -----

  lemma DiagonalEnds(m: Mesh, diag: seq<int>, idx: seq<int>, i: nat, x: real)
    requires Shaped(m) && Indexed(m, diag, idx) && i < m.solved
    ensures x + SumOf(Totals(InteriorOps(m, diag, idx), m.ends[i] + i, x)) == x + SumOf(RowWeights(m, i))
  {
    hide FaceOps, Touches, After, Indexed;
    forall r | 0 <= r < m.solved && r != i
      ensures !Touches(InteriorOps(m, diag, idx)[r], m.ends[i] + i)
    {
      OthersMissDiagonal(m, diag, idx, i, r);
    }
    OwnCell(InteriorOps(m, diag, idx), m.ends[i] + i, x, i);
    DiagonalGains(m, diag, idx, i, |RowWeights(m, i)|, x);
  }

  lemma SlotEnds(m: Mesh, diag: seq<int>, idx: seq<int>, i: nat, j: nat, x: real)
    requires Shaped(m) && Indexed(m, diag, idx) && InRow(m, i, j)
    ensures j < |m.rdista| && x + SumOf(Totals(InteriorOps(m, diag, idx), i + 1 + j, x)) == x - m.rdista[j]
  {
    hide FaceOps, Touches, After, Indexed;
    forall r | 0 <= r < m.solved && r != i
      ensures !Touches(InteriorOps(m, diag, idx)[r], i + 1 + j)
    {
      OthersMissSlot(m, diag, idx, i, j, r);
    }
    OwnCell(InteriorOps(m, diag, idx), i + 1 + j, x, i);
    SlotLoses(m, diag, idx, i, j, |RowWeights(m, i)|, x);
  }

  lemma StoredDiagonal(m: Mesh, data: seq<real>, diagonal: seq<real>, off: seq<real>, i: nat)
    requires Shaped(m) && Stores(m, data, diagonal, off) && i < m.solved
    ensures m.ends[i] + i < |data| && i < |diagonal| && data[m.ends[i] + i] == diagonal[i]
  {
    DiagonalsApart(m, i, m.solved);
  }

  lemma StoredSlot(m: Mesh, data: seq<real>, diagonal: seq<real>, off: seq<real>, i: nat, j: nat)
    requires Shaped(m) && Stores(m, data, diagonal, off) && InRow(m, i, j)
    ensures i + 1 + j < |data| && j < |off| == m.ends[m.solved] <= |m.rdista| && data[i + 1 + j] == off[j]
  {
  }

  lemma InteriorCell(m: Mesh, diag: seq<int>, idx: seq<int>, data: seq<real>, threads: nat, schedule: seq<nat>, c: nat)
    requires Shaped(m) && Indexed(m, diag, idx) && threads > 0 && c < |data| == m.ends[m.solved] + m.solved
    requires Completes(InteriorOps(m, diag, idx), data, threads, schedule)
    ensures Result(InteriorOps(m, diag, idx), data, threads, schedule)[c]
            == data[c] + SumOf(Totals(InteriorOps(m, diag, idx), c, data[c]))
  {
    hide Completes, Result, InteriorOps, Totals, Indexed;
    InteriorFits(m, diag, idx);
    EveryScheduleAdds(InteriorOps(m, diag, idx), data, threads, schedule);
  }

  lemma InteriorDiagonal(m: Mesh, diag: seq<int>, idx: seq<int>, data: seq<real>, diagonal: seq<real>, off: seq<real>,
                         threads: nat, schedule: seq<nat>, i: nat)
    requires Shaped(m) && Indexed(m, diag, idx) && Stores(m, data, diagonal, off) && threads > 0 && i < m.solved
    requires Completes(InteriorOps(m, diag, idx), data, threads, schedule)
    ensures m.ends[i] + i < |data| && i < |diagonal|
    ensures Result(InteriorOps(m, diag, idx), data, threads, schedule)[m.ends[i] + i]
            == diagonal[i] + SumOf(RowWeights(m, i))
  {
    hide Completes, Result, InteriorOps, Totals, Indexed, RowWeights;
    var c := m.ends[i] + i;
    StoredDiagonal(m, data, diagonal, off, i);
    InteriorCell(m, diag, idx, data, threads, schedule, c);
    DiagonalEnds(m, diag, idx, i, data[c]);
  }

  lemma InteriorSlot(m: Mesh, diag: seq<int>, idx: seq<int>, data: seq<real>, diagonal: seq<real>, off: seq<real>,
                     threads: nat, schedule: seq<nat>, i: nat, j: nat)
    requires Shaped(m) && Indexed(m, diag, idx) && Stores(m, data, diagonal, off) && threads > 0 && InRow(m, i, j)
    requires Completes(InteriorOps(m, diag, idx), data, threads, schedule)
    ensures i + 1 + j < |data| && j < |off| <= |m.rdista|
    ensures Result(InteriorOps(m, diag, idx), data, threads, schedule)[i + 1 + j] == off[j] - m.rdista[j]
  {
    hide Completes, Result, InteriorOps, Totals, Indexed;
    var c := i + 1 + j;
    StoredSlot(m, data, diagonal, off, i, j);
    InteriorCell(m, diag, idx, data, threads, schedule, c);
    SlotEnds(m, diag, idx, i, j, data[c]);
  }

  /** The values are stored if each diagonal and each slot is right. */
  lemma StoresEach(m: Mesh, data: seq<real>, diagonal: seq<real>, off: seq<real>)
    requires Shaped(m) && |data| == m.ends[m.solved] + m.solved && |diagonal| == m.solved && |off| == m.ends[m.solved]
    requires forall i :: 0 <= i < m.solved ==> m.ends[i] + i < |data| && data[m.ends[i] + i] == diagonal[i]
    requires forall i, j :: InRow(m, i, j) ==>
               0 <= i + 1 + j < |data| && 0 <= j < |off| && data[i + 1 + j] == off[j]
    ensures Stores(m, data, diagonal, off)
  {
  }

  lemma StoredSizes(m: Mesh, data: seq<real>, diagonal: seq<real>, off: seq<real>)
    requires Shaped(m) && Stores(m, data, diagonal, off)
    ensures |data| == m.ends[m.solved] + m.solved && |diagonal| == m.solved && |off| == m.ends[m.solved]
  {
  }

  /** The interior kernel adds the row's weights to the diagonals and takes each from its slot. */
  lemma InteriorLaunch(m: Mesh, diag: seq<int>, idx: seq<int>, data: seq<real>, diagonal: seq<real>, off: seq<real>,
                       next: seq<real>, left: seq<real>, threads: nat, schedule: seq<nat>)
    requires Shaped(m) && Indexed(m, diag, idx) && Stores(m, data, diagonal, off) && threads > 0
    requires |next| == m.solved && |diagonal| == m.solved && |left| == m.ends[m.solved] == |off| <= |m.rdista|
    requires forall i :: 0 <= i < m.solved ==> next[i] == diagonal[i] + SumOf(RowWeights(m, i))
    requires forall j :: 0 <= j < |left| ==> left[j] == off[j] - m.rdista[j]
    requires Completes(InteriorOps(m, diag, idx), data, threads, schedule)
    ensures Stores(m, Result(InteriorOps(m, diag, idx), data, threads, schedule), next, left)
  {
    hide Completes, Result, InteriorOps, Indexed, RowWeights, Stores;
    var out := Result(InteriorOps(m, diag, idx), data, threads, schedule);
    StoredSizes(m, data, diagonal, off);
    forall i | 0 <= i < m.solved
      ensures m.ends[i] + i < |out| && out[m.ends[i] + i] == next[i]
    {
      InteriorDiagonal(m, diag, idx, data, diagonal, off, threads, schedule, i);
    }
    forall i, j | InRow(m, i, j)
      ensures 0 <= i + 1 + j < |out| && 0 <= j < |left| && out[i + 1 + j] == left[j]
    {
      InteriorSlot(m, diag, idx, data, diagonal, off, threads, schedule, i, j);
    }
    StoresEach(m, out, next, left);
  }

  // ----- additions to diagonals -----

  lemma CellsApart(m: Mesh, i: nat, r: nat)
    requires Shaped(m) && i < m.solved && r < m.solved
    ensures m.ends[i] + i == m.ends[r] + r <==> i == r
  {
    if i < r {
      DiagonalsApart(m, i, r);
    } else if r < i {
      DiagonalsApart(m, r, i);
    }
  }

  /** The cells of a kernel are the diagonals of these rows. */
  ghost predicate OnDiagonals(m: Mesh, rows: seq<nat>, cells: seq<nat>, data: seq<real>)
    requires Shaped(m)
  {
    |rows| == |cells| && forall b :: 0 <= b < |rows| ==>
      rows[b] < m.solved && cells[b] == m.ends[rows[b]] + rows[b] < |data|
  }

  lemma DiagonalShare(m: Mesh, data: seq<real>, rows: seq<nat>, cells: seq<nat>, v: seq<real>, i: nat)
    requires Shaped(m) && OnDiagonals(m, rows, cells, data) && |v| == |rows| && i < m.solved
    ensures Share(cells, v, m.ends[i] + i) == Share(rows, v, i)
  {
    forall b | 0 <= b < |rows|
      ensures cells[b] == m.ends[i] + i <==> rows[b] == i
    {
      CellsApart(m, i, rows[b]);
    }
  }

  lemma SlotShare(m: Mesh, data: seq<real>, rows: seq<nat>, cells: seq<nat>, v: seq<real>, i: nat, j: nat)
    requires Shaped(m) && OnDiagonals(m, rows, cells, data) && |v| == |rows| && InRow(m, i, j)
    ensures SumOf(Share(cells, v, i + 1 + j)) == 0.0
  {
    forall b | 0 <= b < |rows|
      ensures cells[b] != i + 1 + j
    {
      DiagonalApart(m, rows[b], i, j);
    }
    SumZero(Share(cells, v, i + 1 + j), |v|);
  }

  /** A kernel that adds v[b] to the diagonal of row rows[b]. */
  lemma DiagonalLaunch(m: Mesh, data: seq<real>, diagonal: seq<real>, off: seq<real>, next: seq<real>, rows: seq<nat>,
                       cells: seq<nat>, v: seq<real>, threads: nat, schedule: seq<nat>)
    requires Shaped(m) && Stores(m, data, diagonal, off) && threads > 0 && |rows| == |v|
             && OnDiagonals(m, rows, cells, data)
    requires |next| == m.solved && |diagonal| == m.solved
    requires forall i :: 0 <= i < m.solved ==> next[i] == diagonal[i] + SumOf(Share(rows, v, i))
    requires Completes(Scatter(cells, v), data, threads, schedule)
    ensures Stores(m, Result(Scatter(cells, v), data, threads, schedule), next, off)
  {
    hide Completes, Result, Share, Stores, Scatter;
    var out := Result(Scatter(cells, v), data, threads, schedule);
    StoredSizes(m, data, diagonal, off);
    EveryScheduleScatters(cells, v, data, threads, schedule);
    forall i | 0 <= i < m.solved
      ensures m.ends[i] + i < |out| && out[m.ends[i] + i] == next[i]
    {
      StoredDiagonal(m, data, diagonal, off, i);
      DiagonalShare(m, data, rows, cells, v, i);
    }
    forall i, j | InRow(m, i, j)
      ensures 0 <= i + 1 + j < |out| && 0 <= j < |off| && out[i + 1 + j] == off[j]
    {
      StoredSlot(m, data, diagonal, off, i, j);
      SlotShare(m, data, rows, cells, v, i, j);
    }
    StoresEach(m, out, next, off);
  }

  // ----- compute_system -----

  /** The values after the memset and the first launch, and after the second. */
  ghost function Timed(m: Mesh, dt: real, diag: seq<int>, idx: seq<int>, threads: nat,
                       schedule: seq<nat>): (r: seq<real>)
    requires Shaped(m) && Indexed(m, diag, idx) && dt != 0.0
    ensures |r| == m.ends[m.solved] + m.solved
  {
    Result(Scatter(DiagonalCells(m, diag, idx), TimeTerms(m, dt)), Zeros(m.ends[m.solved] + m.solved), threads,
           schedule)
  }

  ghost function Diffused(m: Mesh, diag: seq<int>, idx: seq<int>, timed: seq<real>, threads: nat, schedule: seq<nat>):
    (r: seq<real>)
    requires Shaped(m) && Indexed(m, diag, idx)
    ensures |r| == |timed|
  {
    Result(InteriorOps(m, diag, idx), timed, threads, schedule)
  }

  lemma ZerosStore(m: Mesh)
    requires Shaped(m)
    ensures Stores(m, Zeros(m.ends[m.solved] + m.solved), Zeros(m.solved), OffDone(m, 0))
  {
    forall i | 0 <= i < m.solved
      ensures m.ends[i] + i < m.ends[m.solved] + m.solved
    {
      DiagonalsApart(m, i, m.solved);
    }
    forall i, j | InRow(m, i, j)
      ensures 0 <= i + 1 + j < m.ends[m.solved] + m.solved && 0 <= j < m.ends[m.solved]
    {
      RowInside(m, i, j);
    }
  }

  ghost function Rows(m: Mesh): (r: seq<nat>)
    ensures |r| == m.solved && forall i :: 0 <= i < |r| ==> r[i] == i
  {
    seq(m.solved, i requires 0 <= i < m.solved => i)
  }

  lemma AreOnDiagonals(m: Mesh, diag: seq<int>, idx: seq<int>, data: seq<real>)
    requires Shaped(m) && Indexed(m, diag, idx) && |data| == m.ends[m.solved] + m.solved
    ensures OnDiagonals(m, Rows(m), DiagonalCells(m, diag, idx), data)
    ensures OnDiagonals(m, BoundaryCells(m), FaceDiagonals(m, diag, idx), data)
  {
    forall i | 0 <= i < m.solved
      ensures m.ends[i] + i < |data|
    {
      DiagonalsApart(m, i, m.solved);
    }
  }

  lemma RowShare(m: Mesh, v: seq<real>, i: nat)
    requires |v| == m.solved && i < m.solved
    ensures SumOf(Share(Rows(m), v, i)) == v[i]
  {
    SumSingle(Share(Rows(m), v, i), i);
  }

  lemma FaceShare(m: Mesh, i: nat)
    requires Shaped(m)
    ensures Share(BoundaryCells(m), m.faceRdista, i) == FaceWeights(m, i)
  {
  }

  lemma TimedStores(m: Mesh, dt: real, diag: seq<int>, idx: seq<int>, threads: nat, schedule: seq<nat>)
    requires Shaped(m) && Indexed(m, diag, idx) && dt != 0.0 && threads > 0
    requires Completes(Scatter(DiagonalCells(m, diag, idx), TimeTerms(m, dt)), Zeros(m.ends[m.solved] + m.solved),
                       threads,
                       schedule)
    ensures Stores(m, Timed(m, dt, diag, idx, threads, schedule), TimeTerms(m, dt), OffDone(m, 0))
  {
    hide Completes, Result, Stores, Scatter, OnDiagonals, Share, Rows, Indexed;
    var start := Zeros(m.ends[m.solved] + m.solved);
    AreOnDiagonals(m, diag, idx, start);
    ZerosStore(m);
    forall i | 0 <= i < m.solved
      ensures TimeTerms(m, dt)[i] == Zeros(m.solved)[i] + SumOf(Share(Rows(m), TimeTerms(m, dt), i))
    {
      RowShare(m, TimeTerms(m, dt), i);
    }
    DiagonalLaunch(m, start, Zeros(m.solved), OffDone(m, 0), TimeTerms(m, dt), Rows(m), DiagonalCells(m, diag, idx),
                   TimeTerms(m, dt), threads, schedule);
  }

  /** Under every thread count and schedule of its three launches compute_system on the GPU
      leaves the values that the CPU loops leave. */
  lemma GpuSystemIsCpuSystem(m: Mesh, dt: real, diag: seq<int>, idx: seq<int>, timeThreads: nat, timeSchedule: seq<nat>,
                             threads: nat, schedule: seq<nat>, boundaryThreads: nat, boundarySchedule: seq<nat>)
    requires Shaped(m) && Indexed(m, diag, idx) && dt != 0.0 && timeThreads > 0 && threads > 0 && boundaryThreads > 0
    requires Completes(Scatter(DiagonalCells(m, diag, idx), TimeTerms(m, dt)), Zeros(m.ends[m.solved] + m.solved),
                       timeThreads, timeSchedule)
    requires Completes(InteriorOps(m, diag, idx), Timed(m, dt, diag, idx, timeThreads, timeSchedule), threads, schedule)
    requires var timed := Timed(m, dt, diag, idx, timeThreads, timeSchedule);
             Completes(Scatter(FaceDiagonals(m, diag, idx), m.faceRdista),
                       Diffused(m, diag, idx, timed, threads, schedule), boundaryThreads, boundarySchedule)
    ensures var timed := Timed(m, dt, diag, idx, timeThreads, timeSchedule);
            Assembled(m, dt, Result(Scatter(FaceDiagonals(m, diag, idx), m.faceRdista),
                                    Diffused(m, diag, idx, timed, threads, schedule), boundaryThreads,
                                    boundarySchedule))
  {
    hide Completes, Result, Stores, Scatter, InteriorOps, OnDiagonals, Share, BoundaryCells, Indexed;
    var time, all := TimeTerms(m, dt), m.ends[m.solved];
    var timed := Timed(m, dt, diag, idx, timeThreads, timeSchedule);
    var diffused := Diffused(m, diag, idx, timed, threads, schedule);
    TimedStores(m, dt, diag, idx, timeThreads, timeSchedule);
    InteriorLaunch(m, diag, idx, timed, time, OffDone(m, 0), RowsDone(m, time, m.solved), OffDone(m, all), threads,
                   schedule);
    AreOnDiagonals(m, diag, idx, diffused);
    forall i | 0 <= i < m.solved
      ensures Diagonals(m, time)[i] == RowsDone(m, time, m.solved)[i] + SumOf(Share(BoundaryCells(m), m.faceRdista, i))
    {
      FaceShare(m, i);
    }
    DiagonalLaunch(m, diffused, RowsDone(m, time, m.solved), OffDone(m, all), Diagonals(m, time), BoundaryCells(m),
                   FaceDiagonals(m, diag, idx), m.faceRdista, boundaryThreads, boundarySchedule);
  }
}
