// ComputeSYMGS_ref: one symmetric Gauss-Seidel step on x in place, a forward
// sweep over the owned rows 0..rows-1 and then a backward sweep over
// rows-1..0. Each row update sums the whole row, diagonal included, and then
// adds the diagonal term back before dividing by the diagonal.
module ComputeSymgs {
  import opened Sums
  import opened Rvv
  import opened Sparse

  /** What the kernel needs of its arguments: a well-formed matrix with
      non-zero diagonals, a right-hand side covering the owned rows and an
      x with exactly one slot per local column (owned rows and halo). */
  predicate Fits(A: SparseMatrix, r: seq<real>, x: seq<real>)
  {
    A.WellFormed() && A.HasDiagonal() && |r| >= A.rows && |x| == A.columns
  }

  /** The new value of x[i]: (r[i] - full row sum + x[i] * diagonal) / diagonal. */
  function RowUpdate(A: SparseMatrix, r: seq<real>, x: seq<real>, i: nat): real
    requires Fits(A, r, x) && i < A.rows
  {
    (r[i] - RowSum(A, i, x) + x[i] * A.DiagonalValue(i)) / A.DiagonalValue(i)
  }

  /** x after the forward sweep has updated rows 0..k-1, in increasing order,
      each row reading the values its predecessors have just written. */
  function Forward(A: SparseMatrix, r: seq<real>, x: seq<real>, k: nat): (x': seq<real>)
    requires Fits(A, r, x) && k <= A.rows
    ensures |x'| == |x|
  {
    if k == 0 then x
    else
      var p := Forward(A, r, x, k - 1);
      p[k - 1 := RowUpdate(A, r, p, k - 1)]
  }

  /** x after the backward sweep has updated rows rows-1 down to k. */
  function Backward(A: SparseMatrix, r: seq<real>, x: seq<real>, k: nat): (x': seq<real>)
    requires Fits(A, r, x) && k <= A.rows
    ensures |x'| == |x|
    decreases A.rows - k
  {
    if k == A.rows then x
    else
      var p := Backward(A, r, x, k + 1);
      p[k := RowUpdate(A, r, p, k)]
  }

  /** One symmetric Gauss-Seidel step: the forward sweep, then the backward sweep. */
  function Symgs(A: SparseMatrix, r: seq<real>, x: seq<real>): (x': seq<real>)
    requires Fits(A, r, x)
    ensures |x'| == |x|
  {
    Backward(A, r, Forward(A, r, x, A.rows), 0)
  }

  // ---------------------------------------------------------------------
  // The kernel.

  /** Scalar inner loop: sum = r[i] - values[j] * x[col[j]] for every entry. */
  method ResidualScalar(A: SparseMatrix, i: nat, r: array<real>, x: array<real>) returns (sum: real)
    requires A.WellFormed() && i < A.rows && i < r.Length && x.Length >= A.columns
    ensures sum == r[i] - RowSum(A, i, x[..])
  {
    ghost var terms := RowTerms(A, i, x[..]);
    var values, cols := A.values[i], A.colIndices[i];
    sum := r[i];
    for j := 0 to A.nonzeros[i]
      invariant sum == r[i] - Sum(terms[..j])
    {
      SumPrefixStep(terms, j);
      sum := sum - values[j] * x[cols[j]];
    }
    assert terms[..A.nonzeros[i]] == terms;
  }

  /** Strip-mined inner loop: sum = r[i] minus the ordered reduction of each
      chunk of gathered products. */
  method ResidualVector(u: VectorUnit, A: SparseMatrix, i: nat, r: array<real>, x: array<real>)
    returns (sum: real)
    requires Conforms(u) && A.WellFormed() && i < A.rows && i < r.Length && x.Length >= A.columns
    ensures sum == r[i] - RowSum(ScaledColumns(A, ADDR32), i, x[..])
  {
    ghost var xs := x[..];
    var nnz := A.nonzeros[i];
    ScaledPrefixSumEnds(A, i, xs);
    sum := r[i];
    var j := 0;
    while j < nnz
      invariant j <= nnz
      invariant sum == r[i] - ScaledPrefixSum(A, i, xs, j)
    {
      var vl := u.setvl(nnz - j);
      VlBounds(u, nnz - j);
      assert x[..] == xs;
      var product := ChunkProducts(A, i, x[..], j, vl);
      ChunkExtendsPrefix(A, i, xs, j, vl);
      sum := sum - Vfredsum(product, 0.0);
      j := j + vl;
    }
  }

  /** Adding x[i] times the diagonal to the residual r[i] - row sum and
      dividing by the diagonal is the row update. */
  lemma RowUpdateFromResidual(A: SparseMatrix, r: seq<real>, x: seq<real>, i: nat, sum: real, d: real)
    requires Fits(A, r, x) && i < A.rows && d == A.values[i][A.diagonal[i]]
    requires sum == r[i] - RowSum(A, i, x) + x[i] * d
    ensures sum / d == RowUpdate(A, r, x, i)
  {
  }

  /** The update of one row, shared by both sweeps of the scalar path. */
  method UpdateRowScalar(A: SparseMatrix, r: array<real>, x: array<real>, i: nat)
    requires Fits(A, r[..], x[..]) && i < A.rows && r != x
    modifies x
    ensures x[..] == old(x[..])[i := RowUpdate(A, r[..], old(x[..]), i)]
  {
    ghost var x0 := x[..];
    var diagonal := A.values[i][A.diagonal[i]];
    var sum := ResidualScalar(A, i, r, x);
    ghost var target := RowUpdate(A, r[..], x0, i);
    assert x[i] == x0[i];
    sum := sum + x[i] * diagonal;
    RowUpdateFromResidual(A, r[..], x0, i, sum, diagonal);
    x[i] := sum / diagonal;
    assert x[..] == x0[i := target];
  }

  /** The update of one row, shared by both sweeps of the RVV path. */
  method UpdateRowVector(u: VectorUnit, A: SparseMatrix, r: array<real>, x: array<real>, i: nat)
    requires Conforms(u) && Fits(A, r[..], x[..]) && i < A.rows && r != x
    modifies x
    ensures x[..] == old(x[..])[i := RowUpdate(ScaledColumns(A, ADDR32), r[..], old(x[..]), i)]
  {
    ghost var x0 := x[..];
    var diagonal := A.values[i][A.diagonal[i]];
    var sum := ResidualVector(u, A, i, r, x);
    ghost var target := RowUpdate(ScaledColumns(A, ADDR32), r[..], x0, i);
    assert x[i] == x0[i];
    sum := sum + x[i] * diagonal;
    RowUpdateFromResidual(ScaledColumns(A, ADDR32), r[..], x0, i, sum, diagonal);
    x[i] := sum / diagonal;
    assert x[..] == x0[i := target];
  }

  /** ComputeSYMGS_ref, scalar path. Requires x to hold exactly the local
      columns (owned rows and halo slots); writes only x. */
  method SymgsScalar(A: SparseMatrix, r: array<real>, x: array<real>) returns (status: int)
    requires A.WellFormed() && A.HasDiagonal()
    requires x.Length == A.columns && r.Length >= A.rows && r != x
    modifies x
    ensures status == 0
    ensures x[..] == Symgs(A, r[..], old(x[..]))
  {
    ghost var x0 := x[..];
    for i := 0 to A.rows
      invariant x[..] == Forward(A, r[..], x0, i)
    {
      UpdateRowScalar(A, r, x, i);
    }
    ghost var x1 := x[..];
    var i: nat := A.rows;
    while i > 0
      invariant i <= A.rows
      invariant x[..] == Backward(A, r[..], x1, i)
    {
      i := i - 1;
      UpdateRowScalar(A, r, x, i);
    }
    return 0;
  }

  /** ComputeSYMGS_ref, RVV path: the sweep of the matrix whose column
      indices went through the 32-bit byte-offset shift, which is the scalar
      result whenever every column index is below 2^29. */
  method SymgsVector(u: VectorUnit, A: SparseMatrix, r: array<real>, x: array<real>) returns (status: int)
    requires Conforms(u) && A.WellFormed() && A.HasDiagonal()
    requires x.Length == A.columns && r.Length >= A.rows && r != x
    modifies x
    ensures status == 0
    ensures x[..] == Symgs(ScaledColumns(A, ADDR32), r[..], old(x[..]))
    ensures A.ColumnsBelow(ADDR32 / 8) ==> x[..] == Symgs(A, r[..], old(x[..]))
  {
    ghost var B := ScaledColumns(A, ADDR32);
    ghost var x0 := x[..];
    for i := 0 to A.rows
      invariant x[..] == Forward(B, r[..], x0, i)
    {
      UpdateRowVector(u, A, r, x, i);
    }
    ghost var x1 := x[..];
    var i: nat := A.rows;
    while i > 0
      invariant i <= A.rows
      invariant x[..] == Backward(B, r[..], x1, i)
    {
      i := i - 1;
      UpdateRowVector(u, A, r, x, i);
    }
    if A.ColumnsBelow(ADDR32 / 8) {
      ScaledColumnsIdentity(A, ADDR32);
      SymgsAgree(B, A, r[..], x0);
    }
    return 0;
  }

  // ---------------------------------------------------------------------
  // Properties of the sweep.

  /** The forward sweep up to row k leaves rows k.. and the halo untouched. */
  lemma {:induction false} ForwardUntouched(A: SparseMatrix, r: seq<real>, x: seq<real>, k: nat)
    requires Fits(A, r, x) && k <= A.rows
    ensures forall j :: k <= j < |x| ==> Forward(A, r, x, k)[j] == x[j]
  {
    if k > 0 {
      ForwardUntouched(A, r, x, k - 1);
    }
  }

  /** Once the forward sweep has passed row j, x[j] keeps its value for the
      rest of the sweep: every row is visited exactly once. */
  lemma {:induction false} ForwardSettled(A: SparseMatrix, r: seq<real>, x: seq<real>, k: nat, m: nat)
    requires Fits(A, r, x) && k <= m <= A.rows
    ensures forall j :: 0 <= j < k ==> Forward(A, r, x, m)[j] == Forward(A, r, x, k)[j]
    decreases m - k
  {
    if k < m {
      ForwardSettled(A, r, x, k, m - 1);
    }
  }

  /** Gauss-Seidel, not Jacobi: the forward sweep computes row k from a
      vector whose rows below k already hold their final forward-sweep
      values and whose rows from k on still hold the input. */
  lemma ForwardUsesUpdatedRows(A: SparseMatrix, r: seq<real>, x: seq<real>, k: nat)
    requires Fits(A, r, x) && k < A.rows
    ensures var y := Forward(A, r, x, k);
      && Forward(A, r, x, A.rows)[k] == RowUpdate(A, r, y, k)
      && (forall j :: 0 <= j < k ==> y[j] == Forward(A, r, x, A.rows)[j])
      && (forall j :: k <= j < |x| ==> y[j] == x[j])
  {
    ForwardUntouched(A, r, x, k);
    ForwardSettled(A, r, x, k, A.rows);
    ForwardSettled(A, r, x, k + 1, A.rows);
  }

  /** The backward sweep down to row k leaves rows below k and the halo untouched. */
  lemma {:induction false} BackwardUntouched(A: SparseMatrix, r: seq<real>, x: seq<real>, k: nat)
    requires Fits(A, r, x) && k <= A.rows
    ensures forall j :: 0 <= j < |x| && (j < k || A.rows <= j) ==> Backward(A, r, x, k)[j] == x[j]
    decreases A.rows - k
  {
    if k < A.rows {
      BackwardUntouched(A, r, x, k + 1);
    }
  }

  /** Once the backward sweep has passed row j, x[j] keeps its value. */
  lemma {:induction false} BackwardSettled(A: SparseMatrix, r: seq<real>, x: seq<real>, k: nat, m: nat)
    requires Fits(A, r, x) && m <= k <= A.rows
    ensures forall j :: k <= j < A.rows ==> Backward(A, r, x, m)[j] == Backward(A, r, x, k)[j]
    decreases k - m
  {
    if m < k {
      BackwardSettled(A, r, x, k, m + 1);
    }
  }

  /** The backward sweep computes row k from a vector whose rows above k
      already hold their final backward-sweep values and whose rows up to k
      still hold the forward sweep's output. */
  lemma BackwardUsesUpdatedRows(A: SparseMatrix, r: seq<real>, x: seq<real>, k: nat)
    requires Fits(A, r, x) && k < A.rows
    ensures var y := Backward(A, r, x, k + 1);
      && Backward(A, r, x, 0)[k] == RowUpdate(A, r, y, k)
      && (forall j :: k < j < A.rows ==> y[j] == Backward(A, r, x, 0)[j])
      && (forall j :: 0 <= j <= k ==> y[j] == x[j])
  {
    BackwardUntouched(A, r, x, k + 1);
    BackwardSettled(A, r, x, k, 0);
    BackwardSettled(A, r, x, k + 1, 0);
  }

  /** SYMGS writes only the owned rows: the halo slots keep their values. */
  lemma SymgsLeavesHalo(A: SparseMatrix, r: seq<real>, x: seq<real>)
    requires Fits(A, r, x)
    ensures forall j :: A.rows <= j < |x| ==> Symgs(A, r, x)[j] == x[j]
  {
    ForwardUntouched(A, r, x, A.rows);
    BackwardUntouched(A, r, Forward(A, r, x, A.rows), 0);
  }

  /** The terms of row i with the diagonal entry's term replaced by zero. */
  function OffDiagonalTerms(A: SparseMatrix, i: nat, x: seq<real>): (t: seq<real>)
    requires A.WellFormed() && i < A.rows && |x| >= A.columns
    ensures |t| == A.nonzeros[i]
  {
    seq(A.nonzeros[i], j requires 0 <= j < A.nonzeros[i] =>
      if A.colIndices[i][j] == i then 0.0 else A.values[i][j] * x[A.colIndices[i][j]])
  }

  /** The sum over row i without its diagonal entry. */
  function OffDiagonalSum(A: SparseMatrix, i: nat, x: seq<real>): real
    requires A.WellFormed() && i < A.rows && |x| >= A.columns
  {
    Sum(OffDiagonalTerms(A, i, x))
  }

  /** With the diagonal stored once, the full row sum is the off-diagonal sum
      plus the diagonal term. */
  lemma RowSumSplitsDiagonal(A: SparseMatrix, i: nat, x: seq<real>)
    requires A.WellFormed() && A.HasDiagonal() && i < A.rows && |x| >= A.columns && A.DiagonalOnce(i)
    ensures RowSum(A, i, x) == OffDiagonalSum(A, i, x) + A.DiagonalValue(i) * x[i]
  {
    var n := A.nonzeros[i];
    var off := OffDiagonalTerms(A, i, x);
    var diag := seq(n, j requires 0 <= j < n =>
      if A.colIndices[i][j] == i then A.values[i][j] * x[A.colIndices[i][j]] else 0.0);
    SumPointwise(RowTerms(A, i, x), off, diag);
    SumSingle(diag, A.diagonal[i]);
    assert diag[A.diagonal[i]] == A.DiagonalValue(i) * x[i];
  }

  /** Adding the diagonal term back after the full row sum is the textbook
      update that skips the diagonal entry (in exact arithmetic). */
  lemma RowUpdateSkipsDiagonal(A: SparseMatrix, r: seq<real>, x: seq<real>, i: nat)
    requires Fits(A, r, x) && i < A.rows && A.DiagonalOnce(i)
    ensures RowUpdate(A, r, x, i) == (r[i] - OffDiagonalSum(A, i, x)) / A.DiagonalValue(i)
  {
    RowSumSplitsDiagonal(A, i, x);
  }

  /** Right after row i is updated, row i's equation holds for the current x. */
  lemma RowUpdateSolvesRow(A: SparseMatrix, r: seq<real>, x: seq<real>, i: nat)
    requires Fits(A, r, x) && i < A.rows && A.DiagonalOnce(i)
    ensures RowSum(A, i, x[i := RowUpdate(A, r, x, i)]) == r[i]
  {
    var x' := x[i := RowUpdate(A, r, x, i)];
    RowSumSplitsDiagonal(A, i, x);
    RowSumSplitsDiagonal(A, i, x');
    var t, t' := OffDiagonalTerms(A, i, x), OffDiagonalTerms(A, i, x');
    forall j | 0 <= j < A.nonzeros[i] ensures t'[j] == t[j] {
    }
    assert t' == t;
  }

  /** In the forward sweep, row k's equation holds as soon as row k is updated. */
  lemma ForwardSolvesRow(A: SparseMatrix, r: seq<real>, x: seq<real>, k: nat)
    requires Fits(A, r, x) && k < A.rows && A.DiagonalOnce(k)
    ensures RowSum(A, k, Forward(A, r, x, k + 1)) == r[k]
  {
    RowUpdateSolvesRow(A, r, Forward(A, r, x, k), k);
  }

  /** In the backward sweep, row k's equation holds as soon as row k is updated. */
  lemma BackwardSolvesRow(A: SparseMatrix, r: seq<real>, x: seq<real>, k: nat)
    requires Fits(A, r, x) && k < A.rows && A.DiagonalOnce(k)
    ensures RowSum(A, k, Backward(A, r, x, k)) == r[k]
  {
    RowUpdateSolvesRow(A, r, Backward(A, r, x, k + 1), k);
  }

  /** Zero is a fixed point: with r = 0 on the owned rows and x = 0, x stays 0. */
  lemma SymgsZeroFixedPoint(A: SparseMatrix, r: seq<real>, x: seq<real>)
    requires Fits(A, r, x)
    requires forall i :: 0 <= i < A.rows ==> r[i] == 0.0
    requires forall j :: 0 <= j < |x| ==> x[j] == 0.0
    ensures Symgs(A, r, x) == x
  {
    ForwardZero(A, r, x, A.rows);
    BackwardZero(A, r, x, 0);
  }

  lemma {:induction false} ForwardZero(A: SparseMatrix, r: seq<real>, x: seq<real>, k: nat)
    requires Fits(A, r, x) && k <= A.rows
    requires forall i :: 0 <= i < A.rows ==> r[i] == 0.0
    requires forall j :: 0 <= j < |x| ==> x[j] == 0.0
    ensures Forward(A, r, x, k) == x
  {
    if k > 0 {
      ForwardZero(A, r, x, k - 1);
      ZeroRowUpdate(A, r, x, k - 1);
    }
  }

  lemma {:induction false} BackwardZero(A: SparseMatrix, r: seq<real>, x: seq<real>, k: nat)
    requires Fits(A, r, x) && k <= A.rows
    requires forall i :: 0 <= i < A.rows ==> r[i] == 0.0
    requires forall j :: 0 <= j < |x| ==> x[j] == 0.0
    ensures Backward(A, r, x, k) == x
    decreases A.rows - k
  {
    if k < A.rows {
      BackwardZero(A, r, x, k + 1);
      ZeroRowUpdate(A, r, x, k);
    }
  }

  lemma ZeroRowUpdate(A: SparseMatrix, r: seq<real>, x: seq<real>, i: nat)
    requires Fits(A, r, x) && i < A.rows && r[i] == 0.0
    requires forall j :: 0 <= j < |x| ==> x[j] == 0.0
    ensures RowUpdate(A, r, x, i) == 0.0
  {
    SumZeros(RowTerms(A, i, x));
  }

  /** Matrices that agree on every entry the sweep reads give the same sweep. */
  lemma SymgsAgree(A: SparseMatrix, B: SparseMatrix, r: seq<real>, x: seq<real>)
    requires Fits(A, r, x) && Fits(B, r, x) && RowsAgree(A, B)
    ensures Symgs(A, r, x) == Symgs(B, r, x)
  {
    ForwardAgree(A, B, r, x, A.rows);
    BackwardAgree(A, B, r, Forward(A, r, x, A.rows), 0);
  }

  /** Row i is updated alike by matrices that agree on row i. */
  lemma RowUpdateAgree(A: SparseMatrix, B: SparseMatrix, r: seq<real>, x: seq<real>, i: nat)
    requires Fits(A, r, x) && Fits(B, r, x) && RowsAgree(A, B) && i < A.rows
    ensures RowUpdate(A, r, x, i) == RowUpdate(B, r, x, i)
  {
    assert SameRow(A, B, i);
    RowSumLocal(A, B, i, x, x);
    var d := A.DiagonalValue(i);
    assert B.DiagonalValue(i) == d;
    var num := r[i] - RowSum(A, i, x) + x[i] * d;
    assert RowUpdate(A, r, x, i) == num / d;
    assert RowUpdate(B, r, x, i) == num / d;
  }

  lemma {:induction false} ForwardAgree(A: SparseMatrix, B: SparseMatrix, r: seq<real>, x: seq<real>, k: nat)
    requires Fits(A, r, x) && Fits(B, r, x) && RowsAgree(A, B) && k <= A.rows
    ensures Forward(A, r, x, k) == Forward(B, r, x, k)
  {
    if k > 0 {
      ForwardAgree(A, B, r, x, k - 1);
      RowUpdateAgree(A, B, r, Forward(A, r, x, k - 1), k - 1);
    }
  }

  lemma {:induction false} BackwardAgree(A: SparseMatrix, B: SparseMatrix, r: seq<real>, x: seq<real>, k: nat)
    requires Fits(A, r, x) && Fits(B, r, x) && RowsAgree(A, B) && k <= A.rows
    ensures Backward(A, r, x, k) == Backward(B, r, x, k)
    decreases A.rows - k
  {
    if k < A.rows {
      BackwardAgree(A, B, r, x, k + 1);
      RowUpdateAgree(A, B, r, Backward(A, r, x, k + 1), k);
    }
  }

  /** The 1-by-1 identity with r = [3.0] and x = [0.0]: the forward sweep
      gives [3.0] and the backward sweep keeps it. */
  lemma SymgsExample()
    ensures var I := SparseMatrix(1, 1, [1], [[1.0]], [[0]], [0]);
      && Fits(I, [3.0], [0.0])
      && Forward(I, [3.0], [0.0], 1) == [3.0]
      && Symgs(I, [3.0], [0.0]) == [3.0]
  {
    var I := SparseMatrix(1, 1, [1], [[1.0]], [[0]], [0]);
    assert RowTerms(I, 0, [0.0]) == [0.0];
    assert RowTerms(I, 0, [3.0]) == [3.0];
    SumSingle([0.0], 0);
    SumSingle([3.0], 0);
  }
}
