// ComputeSPMV_ref: y = A x on the locally owned rows, by a scalar loop or by
// a strip-mined RVV loop that gathers x through the row's column indices.
module ComputeSpmv {
  import opened Sums
  import opened Rvv
  import opened Sparse

  /** The product A x restricted to the owned rows: one full row sum per row. */
  function MatVec(A: SparseMatrix, x: seq<real>): (y: seq<real>)
    requires A.WellFormed() && |x| >= A.columns
    ensures |y| == A.rows
  {
    seq(A.rows, i requires 0 <= i < A.rows => RowSum(A, i, x))
  }

  /** Scalar inner loop: sum += values[j] * x[col[j]] over the row's entries. */
  method RowSumScalar(A: SparseMatrix, i: nat, x: array<real>) returns (sum: real)
    requires A.WellFormed() && i < A.rows && x.Length >= A.columns
    ensures sum == RowSum(A, i, x[..])
  {
    ghost var terms := RowTerms(A, i, x[..]);
    var values, cols := A.values[i], A.colIndices[i];
    sum := 0.0;
    for j := 0 to A.nonzeros[i]
      invariant sum == Sum(terms[..j])
    {
      SumPrefixStep(terms, j);
      sum := sum + values[j] * x[cols[j]];
    }
    assert terms[..A.nonzeros[i]] == terms;
  }

  /** Strip-mined inner loop: per chunk, load vl column indices, shift them
      to byte offsets in 32-bit lanes, gather x, multiply by the loaded
      coefficients and add the ordered reduction of the chunk to sum. */
  method RowSumVector(u: VectorUnit, A: SparseMatrix, i: nat, x: array<real>) returns (sum: real)
    requires Conforms(u) && A.WellFormed() && i < A.rows && x.Length >= A.columns
    ensures sum == RowSum(ScaledColumns(A, ADDR32), i, x[..])
  {
    ghost var xs := x[..];
    var nnz := A.nonzeros[i];
    ScaledPrefixSumEnds(A, i, xs);
    sum := 0.0;
    var j := 0;
    while j < nnz
      invariant j <= nnz
      invariant sum == ScaledPrefixSum(A, i, xs, j)
    {
      var vl := u.setvl(nnz - j);
      VlBounds(u, nnz - j);
      assert x[..] == xs;
      var product := ChunkProducts(A, i, x[..], j, vl);
      ChunkExtendsPrefix(A, i, xs, j, vl);
      sum := sum + Vfredsum(product, 0.0);
      j := j + vl;
    }
  }

  /** ComputeSPMV_ref, scalar path. Only y[0..rows) is written. */
  method SpmvScalar(A: SparseMatrix, x: array<real>, y: array<real>) returns (status: int)
    requires A.WellFormed() && x.Length >= A.columns && y.Length >= A.rows && x != y
    modifies y
    ensures status == 0
    ensures y[..A.rows] == MatVec(A, x[..])
    ensures y[A.rows..] == old(y[A.rows..])
  {
    for i := 0 to A.rows
      invariant y[..i] == MatVec(A, x[..])[..i]
      invariant y[A.rows..] == old(y[A.rows..])
    {
      var sum := RowSumScalar(A, i, x);
      y[i] := sum;
    }
    return 0;
  }

  /** ComputeSPMV_ref, RVV path: the product of the matrix whose column
      indices went through the 32-bit byte-offset shift, which is A itself
      whenever every column index is below 2^29. */
  method SpmvVector(u: VectorUnit, A: SparseMatrix, x: array<real>, y: array<real>) returns (status: int)
    requires Conforms(u)
    requires A.WellFormed() && x.Length >= A.columns && y.Length >= A.rows && x != y
    modifies y
    ensures status == 0
    ensures y[..A.rows] == MatVec(ScaledColumns(A, ADDR32), x[..])
    ensures A.ColumnsBelow(ADDR32 / 8) ==> y[..A.rows] == MatVec(A, x[..])
    ensures y[A.rows..] == old(y[A.rows..])
  {
    for i := 0 to A.rows
      invariant y[..i] == MatVec(ScaledColumns(A, ADDR32), x[..])[..i]
      invariant y[A.rows..] == old(y[A.rows..])
    {
      var sum := RowSumVector(u, A, i, x);
      y[i] := sum;
    }
    if A.ColumnsBelow(ADDR32 / 8) {
      ScaledColumnsIdentity(A, ADDR32);
      MatVecAgree(ScaledColumns(A, ADDR32), A, x[..]);
    }
    return 0;
  }

  /** Matrices that agree on every row read by the kernel have the same product. */
  lemma MatVecAgree(A: SparseMatrix, B: SparseMatrix, x: seq<real>)
    requires A.WellFormed() && B.WellFormed() && RowsAgree(A, B) && |x| >= A.columns
    ensures MatVec(A, x) == MatVec(B, x)
  {
    forall i | 0 <= i < A.rows ensures MatVec(A, x)[i] == MatVec(B, x)[i] {
      RowSumLocal(A, B, i, x, x);
    }
  }

  /** y[i] depends only on row i and on the entries of x that row i names:
      never on other rows and never on y. */
  lemma MatVecRowLocal(A: SparseMatrix, B: SparseMatrix, i: nat, x: seq<real>, x': seq<real>)
    requires A.WellFormed() && B.WellFormed() && |x| >= A.columns && |x'| >= B.columns
    requires i < A.rows && i < B.rows && SameRow(A, B, i)
    requires forall j :: 0 <= j < A.nonzeros[i] ==> x[A.colIndices[i][j]] == x'[A.colIndices[i][j]]
    ensures MatVec(A, x)[i] == MatVec(B, x')[i]
  {
    RowSumLocal(A, B, i, x, x');
  }

  /** A row without stored entries yields 0. */
  lemma MatVecEmptyRow(A: SparseMatrix, x: seq<real>, i: nat)
    requires A.WellFormed() && |x| >= A.columns && i < A.rows && A.nonzeros[i] == 0
    ensures MatVec(A, x)[i] == 0.0
  {
  }

  /** The n-by-n identity in the per-row storage: one entry 1.0 at column i. */
  function Identity(n: nat): (I: SparseMatrix)
    ensures I.rows == n && I.columns == n
    ensures I.WellFormed() && I.HasDiagonal()
    ensures forall i :: 0 <= i < n ==> I.DiagonalOnce(i)
  {
    SparseMatrix(n, n, seq(n, _ => 1), seq(n, _ => [1.0]), seq(n, i => [i]), seq(n, _ => 0))
  }

  /** The identity maps x to its owned part. */
  lemma MatVecIdentity(n: nat, x: seq<real>)
    requires |x| >= n
    ensures MatVec(Identity(n), x) == x[..n]
  {
    var I := Identity(n);
    forall i | 0 <= i < n ensures MatVec(I, x)[i] == x[i] {
      assert RowTerms(I, i, x) == [1.0 * x[i]];
      SumSingle(RowTerms(I, i, x), 0);
    }
  }

  /** The 1-by-1 identity applied to x = [3.0] gives [3.0]. */
  lemma MatVecExample()
    ensures MatVec(Identity(1), [3.0]) == [3.0]
  {
    MatVecIdentity(1, [3.0]);
  }
}
