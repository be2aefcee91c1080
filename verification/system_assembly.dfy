/** compute_system: the values of the implicit matrix, and why they are the Jacobian of the
    residual loop. */
module SystemAssembly {
  import opened RealSums
  import opened LocalMesh
  import opened SparseMatrix

  function RowWeights(m: Mesh, i: nat): (r: seq<real>)
    requires Shaped(m) && i < m.solved
    ensures m.ends[i] <= m.ends[i + 1] <= m.ends[m.solved] && |r| == m.ends[i + 1] - m.ends[i]
    ensures forall k :: 0 <= k < |r| ==> r[k] == m.rdista[m.ends[i] + k]
  {
    assert m.ends[i + 1] <= m.ends[m.solved];
    m.rdista[m.ends[i]..m.ends[i + 1]]
  }

  function FaceWeights(m: Mesh, i: nat): (r: seq<real>)
    requires Shaped(m)
    ensures |r| == |m.faceCell|
    ensures forall b :: 0 <= b < |r| ==> r[b] == if m.faceCell[b] == i then m.faceRdista[b] else 0.0
  {
    seq(|m.faceCell|, b requires 0 <= b < |m.faceCell| => if m.faceCell[b] == i then m.faceRdista[b] else 0.0)
  }

  function TimeTerms(m: Mesh, dt: real): (r: seq<real>)
    requires Shaped(m) && dt != 0.0
    ensures |r| == m.solved && forall i :: 0 <= i < |r| ==> r[i] == m.volume[i] / dt
  {
    seq(m.solved, i requires 0 <= i < m.solved => m.volume[i] / dt)
  }

  // ----- the values of a matrix, by meaning -----

  /** The diagonal slots hold diagonal, the slots of the inner faces hold off. */
  ghost predicate Stores(m: Mesh, data: seq<real>, diagonal: seq<real>, off: seq<real>)
    requires Shaped(m)
  {
    && |data| == m.ends[m.solved] + m.solved && |diagonal| == m.solved && |off| == m.ends[m.solved]
    && (forall i {:trigger diagonal[i]} :: 0 <= i < m.solved ==> data[m.ends[i] + i] == diagonal[i])
    && (forall i, j :: InRow(m, i, j) ==> 0 <= i + 1 + j < |data| && 0 <= j < |off| && data[i + 1 + j] == off[j])
  }

  lemma DiagonalWritten(m: Mesh, data: seq<real>, diagonal: seq<real>, off: seq<real>, i: nat, at: int, v: real)
    requires Shaped(m) && Stores(m, data, diagonal, off) && i < m.solved && at == m.ends[i] + i
    ensures at < |data| && data[at] == diagonal[i]
    ensures Stores(m, data[at := v], diagonal[i := v], off)
  {
    DiagonalsApart(m, i, m.solved);
    var after := data[at := v];
    forall k | 0 <= k < m.solved && k != i
      ensures m.ends[k] + k < |after| && after[m.ends[k] + k] == data[m.ends[k] + k]
    {
      DiagonalsApart(m, k, m.solved);
      if k < i { DiagonalsApart(m, k, i); } else { DiagonalsApart(m, i, k); }
    }
    forall k, l | InRow(m, k, l)
      ensures 0 <= k + 1 + l < |after| && after[k + 1 + l] == data[k + 1 + l]
    {
      DiagonalApart(m, i, k, l);
    }
  }

  lemma SlotWritten(m: Mesh, data: seq<real>, diagonal: seq<real>, off: seq<real>, i: nat, j: nat, at: int, v: real)
    requires Shaped(m) && Stores(m, data, diagonal, off) && InRow(m, i, j) && at == i + 1 + j
    ensures at < |data| && j < |off| && data[at] == off[j]
    ensures Stores(m, data[at := v], diagonal, off[j := v])
  {
    var after := data[at := v];
    forall k | 0 <= k < m.solved
      ensures m.ends[k] + k < |after| && after[m.ends[k] + k] == data[m.ends[k] + k]
    {
      DiagonalsApart(m, k, m.solved);
      DiagonalApart(m, k, i, j);
    }
    forall k, l | InRow(m, k, l) && (k != i || l != j)
      ensures 0 <= k + 1 + l < |after| && after[k + 1 + l] == data[k + 1 + l] && l != j
    {
      SlotsApart(m, i, j, k, l);
    }
  }

  /** The diagonal when the first n rows carry their inner faces, the others only time. */
  ghost function RowsDone(m: Mesh, time: seq<real>, n: nat): (r: seq<real>)
    requires Shaped(m) && |time| == m.solved
    ensures |r| == m.solved
    ensures forall i :: 0 <= i < |r| ==> r[i] == time[i] + if i < n then SumOf(RowWeights(m, i)) else 0.0
  {
    seq(m.solved, i requires 0 <= i < m.solved => time[i] + if i < n then SumOf(RowWeights(m, i)) else 0.0)
  }

  /** The diagonal when the first n boundary faces have been added too. */
  ghost function BoundaryDone(m: Mesh, inner: seq<real>, n: nat): (r: seq<real>)
    requires Shaped(m) && |inner| == m.solved && n <= |m.faceCell|
    ensures |r| == m.solved
    ensures forall i :: 0 <= i < |r| ==> r[i] == inner[i] + SumTo(FaceWeights(m, i), n)
  {
    seq(m.solved, i requires 0 <= i < m.solved => inner[i] + SumTo(FaceWeights(m, i), n))
  }

  /** The off-diagonals when the entries before n have been subtracted. */
  ghost function OffDone(m: Mesh, n: nat): (r: seq<real>)
    requires Shaped(m)
    ensures |r| == m.ends[m.solved]
    ensures forall j :: 0 <= j < |r| ==> r[j] == if j < n then -m.rdista[j] else 0.0
  {
    seq(m.ends[m.solved], j requires 0 <= j < m.ends[m.solved] => if j < n then -m.rdista[j] else 0.0)
  }

  /** The whole diagonal: the time term and every face of the cell. */
  ghost function Diagonals(m: Mesh, time: seq<real>): (r: seq<real>)
    requires Shaped(m) && |time| == m.solved
    ensures |r| == m.solved
    ensures forall i :: 0 <= i < |r| ==> r[i] == time[i] + SumOf(RowWeights(m, i)) + SumOf(FaceWeights(m, i))
  {
    seq(m.solved, i requires 0 <= i < m.solved => time[i] + SumOf(RowWeights(m, i)) + SumOf(FaceWeights(m, i)))
  }

  /** Diagonals in the diagonal slots, minus rdista in the others. */
  ghost predicate Assembled(m: Mesh, dt: real, data: seq<real>)
    requires Shaped(m) && dt != 0.0
  {
    Stores(m, data, Diagonals(m, TimeTerms(m, dt)), OffDone(m, m.ends[m.solved]))
  }

  // ----- compute_system -----

  /** Zero everything, then volume / delta_t on the diagonal. */
  method AddTimeTerms(m: Mesh, dt: real, diag: seq<int>, idx: seq<int>, data: array<real>)
    requires Shaped(m) && dt != 0.0 && Indexed(m, diag, idx) && data.Length == m.ends[m.solved] + m.solved
    modifies data
    ensures Stores(m, data[..], RowsDone(m, TimeTerms(m, dt), 0), OffDone(m, 0))
  {
    for i := 0 to data.Length
      invariant forall k :: 0 <= k < i ==> data[k] == 0.0
    {
      data[i] := 0.0;
    }
    ghost var time, diagonal := TimeTerms(m, dt), seq(m.solved, _ => 0.0);
    assert Stores(m, data[..], diagonal, OffDone(m, 0)) by {
      forall i | 0 <= i < m.solved
        ensures m.ends[i] + i < data.Length
      {
        DiagonalsApart(m, i, m.solved);
      }
      forall i, j | InRow(m, i, j)
        ensures 0 <= i + 1 + j < data.Length && 0 <= j < m.ends[m.solved]
      {
        RowInside(m, i, j);
      }
    }
    for i := 0 to m.solved
      invariant |diagonal| == m.solved && Stores(m, data[..], diagonal, OffDone(m, 0))
      invariant forall k :: 0 <= k < m.solved ==> diagonal[k] == if k < i then time[k] else 0.0
    {
      ghost var before := data[..];
      var crsIndex := diag[i];
      DiagonalWritten(m, before, diagonal, OffDone(m, 0), i, crsIndex, time[i]);
      data[crsIndex] := data[crsIndex] + m.volume[i] / dt;
      assert data[..] == before[crsIndex := time[i]];
      diagonal := diagonal[i := time[i]];
    }
    assert diagonal == RowsDone(m, time, 0);
  }

  /** Inner face jl of row il: its rdista goes to the diagonal, its negation to its slot. */
  method AddFace(m: Mesh, diag: seq<int>, idx: seq<int>, data: array<real>, il: nat, jl: nat,
                 ghost diagonal: seq<real>, ghost next: seq<real>)
    requires Shaped(m) && Indexed(m, diag, idx) && InRow(m, il, jl) && jl < |m.rdista|
    requires |diagonal| == m.solved && Stores(m, data[..], diagonal, OffDone(m, jl))
    requires next == diagonal[il := diagonal[il] + m.rdista[jl]]
    modifies data
    ensures Stores(m, data[..], next, OffDone(m, jl + 1))
  {
    hide Stores, OffDone;
    ghost var before := data[..];
    var temp := m.rdista[jl];
    var crsIndex := diag[il];
    DiagonalWritten(m, before, diagonal, OffDone(m, jl), il, crsIndex, diagonal[il] + temp);
    data[crsIndex] := data[crsIndex] + temp;
    ghost var between := data[..];
    assert between == before[crsIndex := diagonal[il] + temp];
    crsIndex := idx[jl];
    SlotWritten(m, between, diagonal[il := diagonal[il] + temp], OffDone(m, jl), il, jl, crsIndex, -temp);
    data[crsIndex] := data[crsIndex] - temp;
    assert data[..] == between[crsIndex := -temp];
    assert OffDone(m, jl)[jl := -temp] == OffDone(m, jl + 1);
  }

  /** Row il's inner faces: the diagonal gains them all, each slot loses its own. */
  method AddRow(m: Mesh, diag: seq<int>, idx: seq<int>, data: array<real>, il: nat,
                ghost diagonal: seq<real>, ghost next: seq<real>)
    requires Shaped(m) && Indexed(m, diag, idx) && il < m.solved
    requires il + 1 < |m.ends| && m.ends[il] <= m.ends[il + 1] <= |m.rdista|
    requires |diagonal| == m.solved && Stores(m, data[..], diagonal, OffDone(m, m.ends[il]))
    requires next == diagonal[il := diagonal[il] + SumOf(RowWeights(m, il))]
    modifies data
    ensures Stores(m, data[..], next, OffDone(m, m.ends[il + 1]))
  {
    hide Shaped, Stores, Indexed, AfterFaces;
    AfterEnds(m, diagonal, il);
    for jl := m.ends[il] to m.ends[il + 1]
      invariant Stores(m, data[..], AfterFaces(m, diagonal, il, jl), OffDone(m, jl))
    {
      AfterOneMore(m, diagonal, il, jl);
      AddFace(m, diag, idx, data, il, jl, AfterFaces(m, diagonal, il, jl), AfterFaces(m, diagonal, il, jl + 1));
    }
  }

  /** The diagonal after row il's faces before jl. */
  ghost function AfterFaces(m: Mesh, diagonal: seq<real>, il: nat, jl: nat): (r: seq<real>)
    requires Shaped(m) && il < m.solved == |diagonal|
    requires il + 1 < |m.ends| && m.ends[il] <= jl <= m.ends[il + 1]
    ensures |r| == |diagonal|
  {
    diagonal[il := diagonal[il] + SumTo(RowWeights(m, il), jl - m.ends[il])]
  }

  lemma AfterOneMore(m: Mesh, diagonal: seq<real>, il: nat, jl: nat)
    requires Shaped(m) && il < m.solved == |diagonal| && InRow(m, il, jl)
    ensures AfterFaces(m, diagonal, il, jl + 1)
            == AfterFaces(m, diagonal, il, jl)[il := AfterFaces(m, diagonal, il, jl)[il] + m.rdista[jl]]
  {
  }

  lemma AfterEnds(m: Mesh, diagonal: seq<real>, il: nat)
    requires Shaped(m) && il < m.solved == |diagonal| && il + 1 < |m.ends| && m.ends[il] <= m.ends[il + 1]
    ensures AfterFaces(m, diagonal, il, m.ends[il]) == diagonal
    ensures AfterFaces(m, diagonal, il, m.ends[il + 1])
            == diagonal[il := diagonal[il] + SumOf(RowWeights(m, il))]
  {
  }

  lemma RowCounted(m: Mesh, time: seq<real>, il: nat)
    requires Shaped(m) && |time| == m.solved && il < m.solved
    ensures RowsDone(m, time, il)[il := RowsDone(m, time, il)[il] + SumOf(RowWeights(m, il))]
            == RowsDone(m, time, il + 1)
  {
  }

  method AddRows(m: Mesh, ghost time: seq<real>, diag: seq<int>, idx: seq<int>, data: array<real>)
    requires Shaped(m) && |time| == m.solved && Indexed(m, diag, idx)
    requires Stores(m, data[..], RowsDone(m, time, 0), OffDone(m, 0))
    modifies data
    ensures Stores(m, data[..], RowsDone(m, time, m.solved), OffDone(m, m.ends[m.solved]))
  {
    hide Stores, Indexed;
    for il := 0 to m.solved
      invariant Stores(m, data[..], RowsDone(m, time, il), OffDone(m, m.ends[il]))
    {
      RowCounted(m, time, il);
      assert m.ends[il + 1] <= m.ends[m.solved];
      AddRow(m, diag, idx, data, il, RowsDone(m, time, il), RowsDone(m, time, il + 1));
    }
  }

  /** Boundary face b: its rdista goes to its cell's diagonal. */
  method AddBoundaryFace(m: Mesh, diag: seq<int>, idx: seq<int>, data: array<real>, ghost diagonal: seq<real>, b: nat)
    requires Shaped(m) && Indexed(m, diag, idx) && b < |m.faceCell|
    requires Stores(m, data[..], diagonal, OffDone(m, m.ends[m.solved]))
    modifies data
    ensures Stores(m, data[..], diagonal[m.faceCell[b] := diagonal[m.faceCell[b]] + m.faceRdista[b]],
                   OffDone(m, m.ends[m.solved]))
  {
    ghost var before := data[..];
    var cell := m.faceCell[b];
    var temp := m.faceRdista[b];
    var crsIndex := diag[cell];
    DiagonalWritten(m, before, diagonal, OffDone(m, m.ends[m.solved]), cell, crsIndex, diagonal[cell] + temp);
    data[crsIndex] := data[crsIndex] + temp;
    assert data[..] == before[crsIndex := diagonal[cell] + temp];
  }

  lemma FaceCounted(m: Mesh, inner: seq<real>, b: nat)
    requires Shaped(m) && |inner| == m.solved && b < |m.faceCell|
    ensures BoundaryDone(m, inner, b)[m.faceCell[b] := BoundaryDone(m, inner, b)[m.faceCell[b]] + m.faceRdista[b]]
            == BoundaryDone(m, inner, b + 1)
  {
  }

  method AddFaces(m: Mesh, ghost inner: seq<real>, diag: seq<int>, idx: seq<int>, data: array<real>)
    requires Shaped(m) && |inner| == m.solved && Indexed(m, diag, idx)
    requires Stores(m, data[..], BoundaryDone(m, inner, 0), OffDone(m, m.ends[m.solved]))
    modifies data
    ensures Stores(m, data[..], BoundaryDone(m, inner, |m.faceCell|), OffDone(m, m.ends[m.solved]))
  {
    for b := 0 to |m.faceCell|
      invariant Stores(m, data[..], BoundaryDone(m, inner, b), OffDone(m, m.ends[m.solved]))
    {
      AddBoundaryFace(m, diag, idx, data, BoundaryDone(m, inner, b), b);
      FaceCounted(m, inner, b);
    }
  }

  method ComputeSystem(m: Mesh, dt: real, diag: seq<int>, idx: seq<int>, data: array<real>)
    requires Shaped(m) && dt != 0.0 && Indexed(m, diag, idx) && data.Length == m.ends[m.solved] + m.solved
    modifies data
    ensures Assembled(m, dt, data[..])
  {
    ghost var time := TimeTerms(m, dt);
    AddTimeTerms(m, dt, diag, idx, data);
    AddRows(m, time, diag, idx, data);
    RowsThenFaces(m, time);
    AddFaces(m, RowsDone(m, time, m.solved), diag, idx, data);
  }

  lemma RowsThenFaces(m: Mesh, time: seq<real>)
    requires Shaped(m) && |time| == m.solved
    ensures RowsDone(m, time, m.solved) == BoundaryDone(m, RowsDone(m, time, m.solved), 0)
    ensures BoundaryDone(m, RowsDone(m, time, m.solved), |m.faceCell|) == Diagonals(m, time)
  {
  }
}
