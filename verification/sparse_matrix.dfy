/** The CSR matrix of the implicit solver: its structure, its assembly, and the theorem that
    it is the Jacobian of the residual. */
module SparseMatrix {
  import opened LocalMesh

  /** Row i starts with the diagonal at ends[i] + i; the entry of inner face j of row i
      follows at i + 1 + j. */
  ghost predicate RowPointers(m: Mesh, ia: seq<int>)
    requires Shaped(m)
  {
    |ia| == m.solved + 1 && forall i :: 0 <= i <= m.solved ==> ia[i] == m.ends[i] + i
  }

  ghost predicate DiagonalsFilled(m: Mesh, ja: seq<int>, n: int)
    requires Shaped(m)
  {
    |ja| == m.ends[m.solved] + m.solved &&
    forall i {:trigger m.ends[i]} :: 0 <= i < n <= m.solved ==> ja[m.ends[i] + i] == i
  }

  ghost predicate RowsFilled(m: Mesh, ja: seq<int>, n: int, stop: int)
    requires Shaped(m)
  {
    |ja| == m.ends[m.solved] + m.solved &&
    forall i, j :: InRow(m, i, j) && (i < n || (i == n && j < stop)) ==>
      0 <= i + 1 + j < |ja| && ja[i + 1 + j] == m.nbrs[j]
  }

  ghost predicate Structure(m: Mesh, ia: seq<int>, ja: seq<int>)
    requires Shaped(m)
  {
    RowPointers(m, ia) && DiagonalsFilled(m, ja, m.solved) && RowsFilled(m, ja, m.solved, 0)
  }

  /** Different entries have different slots. */
  lemma SlotsApart(m: Mesh, i: int, j: int, k: int, l: int)
    requires Shaped(m) && InRow(m, i, j) && InRow(m, k, l) && (i != k || j != l)
    ensures i + 1 + j != k + 1 + l && j != l
  {
    if i < k {
      assert m.ends[i + 1] <= m.ends[k];
    } else if k < i {
      assert m.ends[k + 1] <= m.ends[i];
    }
  }

  lemma DiagonalApart(m: Mesh, i: int, k: int, l: int)
    requires Shaped(m) && 0 <= i < m.solved && InRow(m, k, l)
    ensures m.ends[i] + i != k + 1 + l
  {
    if i <= k {
      assert m.ends[i] <= m.ends[k];
    } else {
      assert m.ends[k + 1] <= m.ends[i];
    }
  }

  lemma DiagonalsApart(m: Mesh, i: int, k: int)
    requires Shaped(m) && 0 <= i < k <= m.solved
    ensures m.ends[i] + i < m.ends[k] + k
  {
  }

  // ----- setup_matrix_struct -----

  /** Row lengths, then their running sum; entry 0 is zero because a fresh mapping is. */
  method BuildRowPointers(m: Mesh) returns (ia: array<int>)
    requires Shaped(m)
    ensures fresh(ia) && RowPointers(m, ia[..])
  {
    ia := new int[m.solved + 1](_ => 0);
    for i := 0 to m.solved
      invariant ia[0] == 0
      invariant forall k {:trigger ia[k]} :: 1 <= k <= i ==> ia[k] == m.ends[k] - m.ends[k - 1] + 1
    {
      ia[i + 1] := m.ends[i + 1] - m.ends[i] + 1;
    }
    for i := 1 to m.solved + 1
      invariant forall k {:trigger ia[k]} :: 0 <= k < i ==> ia[k] == m.ends[k] + k
      invariant forall k {:trigger ia[k]} :: i <= k <= m.solved ==> ia[k] == m.ends[k] - m.ends[k - 1] + 1
    {
      ia[i] := ia[i] + ia[i - 1];
    }
  }

  method FillDiagonals(m: Mesh, ia: seq<int>, ja: array<int>, temp: array<int>)
    requires Shaped(m) && RowPointers(m, ia) && ja.Length == ia[m.solved] && temp.Length == m.solved && ja != temp
    requires forall i :: 0 <= i < m.solved ==> temp[i] == 0
    modifies ja, temp
    ensures DiagonalsFilled(m, ja[..], m.solved)
    ensures forall i :: 0 <= i < m.solved ==> temp[i] == 1
  {
    for i := 0 to m.solved
      invariant DiagonalsFilled(m, ja[..], i)
      invariant forall k :: 0 <= k < i ==> temp[k] == 1
      invariant forall k :: i <= k < m.solved ==> temp[k] == 0
    {
      DiagonalsApart(m, i, m.solved);
      var leftIndex := ia[i] + temp[i];
      temp[i] := temp[i] + 1;
      ja[leftIndex] := i;
      assert forall k :: 0 <= k < i ==> m.ends[k] + k < m.ends[i] + i;
    }
  }

  lemma RowSlotFilled(m: Mesh, before: seq<int>, i: nat, j: nat)
    requires Shaped(m) && InRow(m, i, j) && RowsFilled(m, before, i, j) && DiagonalsFilled(m, before, m.solved)
    ensures i + 1 + j < |before| && m.ends[i] + i < i + 1 + j < m.ends[i + 1] + i + 1
    ensures RowsFilled(m, before[i + 1 + j := m.nbrs[j]], i, j + 1)
    ensures DiagonalsFilled(m, before[i + 1 + j := m.nbrs[j]], m.solved)
  {
    RowInside(m, i, j);
    var after := before[i + 1 + j := m.nbrs[j]];
    forall k, l | InRow(m, k, l) && (k < i || (k == i && l < j + 1))
      ensures 0 <= k + 1 + l < |after| && after[k + 1 + l] == m.nbrs[l]
    {
      if k != i || l != j {
        SlotsApart(m, i, j, k, l);
      }
    }
    forall k | 0 <= k < m.solved
      ensures m.ends[k] + k < |after| && after[m.ends[k] + k] == k
    {
      DiagonalApart(m, k, i, j);
      DiagonalsApart(m, k, m.solved);
    }
  }

  /** The off-diagonals of row i; problem reports the branch that prints "Problem in filling
      the ja array". */
  method FillRow(m: Mesh, ia: seq<int>, ja: array<int>, temp: array<int>, i: nat) returns (problem: bool)
    requires Shaped(m) && RowPointers(m, ia) && i < m.solved == temp.Length && ja != temp && temp[i] == 1
    requires RowsFilled(m, ja[..], i, m.ends[i]) && DiagonalsFilled(m, ja[..], m.solved)
    modifies ja, temp
    ensures !problem
    ensures RowsFilled(m, ja[..], i, m.ends[i + 1]) && DiagonalsFilled(m, ja[..], m.solved)
    ensures forall k :: 0 <= k < m.solved && k != i ==> temp[k] == old(temp[k])
  {
    problem := false;
    for j := m.ends[i] to m.ends[i + 1]
      invariant !problem && temp[i] == 1 + j - m.ends[i]
      invariant RowsFilled(m, ja[..], i, j) && DiagonalsFilled(m, ja[..], m.solved)
      invariant forall k :: 0 <= k < m.solved && k != i ==> temp[k] == old(temp[k])
    {
      RowSlotFilled(m, ja[..], i, j);
      ghost var before := ja[..];
      var right := m.nbrs[j];
      var leftIndex := ia[i] + temp[i];
      temp[i] := temp[i] + 1;
      ja[leftIndex] := right;
      assert ja[..] == before[i + 1 + j := m.nbrs[j]];
      if leftIndex >= ia[i + 1] {
        problem := true;
      }
    }
  }

  lemma NextRow(m: Mesh, ja: seq<int>, i: nat)
    requires Shaped(m) && i < m.solved && RowsFilled(m, ja, i, m.ends[i + 1])
    ensures RowsFilled(m, ja, i + 1, m.ends[i + 1])
  {
  }

  method FillColumns(m: Mesh, ia: seq<int>) returns (ja: array<int>, problem: bool)
    requires Shaped(m) && RowPointers(m, ia)
    ensures fresh(ja) && Structure(m, ia, ja[..]) && !problem
  {
    ja := new int[ia[m.solved]];
    var temp := new int[m.solved](_ => 0);
    FillDiagonals(m, ia, ja, temp);
    problem := false;
    for i := 0 to m.solved
      invariant !problem
      invariant RowsFilled(m, ja[..], i, m.ends[i]) && DiagonalsFilled(m, ja[..], m.solved)
      invariant forall k :: i <= k < m.solved ==> temp[k] == 1
    {
      var bad := FillRow(m, ia, ja, temp, i);
      problem := problem || bad;
      NextRow(m, ja[..], i);
    }
  }

  /** A row names each neighbour in exactly one slot. */
  lemma UniqueSlot(m: Mesh, ia: seq<int>, ja: seq<int>, i: nat, j: nat, nn: nat)
    requires Shaped(m) && RowsDistinct(m) && Structure(m, ia, ja) && InRow(m, i, j)
    requires ia[i] < nn < ia[i + 1]
    ensures nn < |ja| && (ja[nn] == m.nbrs[j] <==> nn == i + 1 + j)
  {
    RowInside(m, i, j);
    var l := nn - i - 1;
    assert InRow(m, i, l) && ja[i + 1 + l] == m.nbrs[l];
  }

  /** csr_idx_local of a face is its slot, csr_diag_idx_local of a cell its diagonal. */
  ghost predicate Indexed(m: Mesh, diag: seq<int>, idx: seq<int>)
    requires Shaped(m)
  {
    && |diag| >= m.solved && |idx| == |m.nbrs|
    && (forall i :: 0 <= i < m.solved ==> diag[i] == m.ends[i] + i)
    && (forall i, j :: InRow(m, i, j) ==> 0 <= j < |idx| && idx[j] == i + 1 + j)
  }

  method FindSlot(m: Mesh, ia: seq<int>, ja: seq<int>, idx: array<int>, i: nat, j: nat)
    requires Shaped(m) && RowsDistinct(m) && Structure(m, ia, ja) && InRow(m, i, j) && j < idx.Length
    modifies idx
    ensures idx[..] == old(idx[..])[j := i + 1 + j]
  {
    RowInside(m, i, j);
    var nbrLocal := m.nbrs[j];
    for nn := ia[i] + 1 to ia[i + 1]
      invariant nn > i + 1 + j ==> idx[j] == i + 1 + j
      invariant forall k :: 0 <= k < idx.Length && k != j ==> idx[k] == old(idx[k])
    {
      UniqueSlot(m, ia, ja, i, j, nn);
      if ja[nn] == nbrLocal {
        idx[j] := nn;
      }
    }
  }

  method IndexEntries(m: Mesh, ia: seq<int>, ja: seq<int>) returns (diag: array<int>, idx: array<int>)
    requires Shaped(m) && RowsDistinct(m) && Structure(m, ia, ja)
    ensures fresh(diag) && fresh(idx) && Indexed(m, diag[..], idx[..])
  {
    diag := new int[m.involved];
    idx := new int[|m.nbrs|];
    for i := 0 to m.solved
      invariant forall k :: 0 <= k < i ==> diag[k] == m.ends[k] + k
      invariant forall k, l :: InRow(m, k, l) && k < i ==> 0 <= l < idx.Length && idx[l] == k + 1 + l
    {
      diag[i] := ia[i];
      for j := m.ends[i] to m.ends[i + 1]
        invariant forall k :: 0 <= k <= i ==> diag[k] == m.ends[k] + k
        invariant forall k, l :: InRow(m, k, l) && (k < i || (k == i && l < j)) ==>
                  0 <= l < idx.Length && idx[l] == k + 1 + l
      {
        RowInside(m, i, j);
        FindSlot(m, ia, ja, idx, i, j);
        assert forall k, l :: InRow(m, k, l) && k < i ==> l < m.ends[k + 1] <= m.ends[i] <= j;
      }
    }
  }

  method SetupMatrixStruct(m: Mesh)
    returns (ia: array<int>, ja: array<int>, diag: array<int>, idx: array<int>, problem: bool)
    requires Shaped(m) && RowsDistinct(m)
    ensures Structure(m, ia[..], ja[..]) && Indexed(m, diag[..], idx[..]) && !problem
  {
    ia := BuildRowPointers(m);
    ja, problem := FillColumns(m, ia[..]);
    diag, idx := IndexEntries(m, ia[..], ja[..]);
  }
}
