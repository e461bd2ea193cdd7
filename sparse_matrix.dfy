// The process-local part of HPCG's distributed sparse matrix, in the
// per-row storage the kernels read: for each owned row its nonzero count,
// its coefficients and their local column indices. Columns at or above
// `rows` are halo columns owned by other processes.
module Sparse {
  import opened Sums
  import opened Rvv

  datatype SparseMatrix = SparseMatrix(
    rows: nat,                  // localNumberOfRows
    columns: nat,               // localNumberOfColumns: owned rows, then halo slots
    nonzeros: seq<nat>,         // nonzerosInRow
    values: seq<seq<real>>,     // matrixValues: at least nonzeros[i] coefficients per row
    colIndices: seq<seq<nat>>,  // mtxIndL: local column index of each coefficient
    diagonal: seq<nat>)         // matrixDiagonal, as the position of the diagonal in its row
  {
    /** Every stored entry the kernels read exists and names a local column. */
    predicate WellFormed()
    {
      && rows <= columns
      && |nonzeros| == rows && |values| == rows && |colIndices| == rows && |diagonal| == rows
      && (forall i :: 0 <= i < rows ==> nonzeros[i] <= |values[i]| && nonzeros[i] <= |colIndices[i]|)
      && (forall i, j :: 0 <= i < rows && 0 <= j < nonzeros[i] ==> colIndices[i][j] < columns)
    }

    /** Every row has a stored, non-zero diagonal coefficient. */
    predicate HasDiagonal()
      requires WellFormed()
    {
      forall i :: 0 <= i < rows ==> diagonal[i] < |values[i]| && values[i][diagonal[i]] != 0.0
    }

    function DiagonalValue(i: nat): real
      requires WellFormed() && HasDiagonal() && i < rows
    {
      values[i][diagonal[i]]
    }

    /** Row i stores its diagonal once: column i occurs at the diagonal
        position and nowhere else in the row. */
    predicate DiagonalOnce(i: nat)
      requires WellFormed() && i < rows
    {
      && diagonal[i] < nonzeros[i]
      && colIndices[i][diagonal[i]] == i
      && forall j :: 0 <= j < nonzeros[i] && colIndices[i][j] == i ==> j == diagonal[i]
    }

    /** Every column index read by the kernels is below `bound`. */
    predicate ColumnsBelow(bound: nat)
      requires WellFormed()
    {
      forall i, j :: 0 <= i < rows && 0 <= j < nonzeros[i] ==> colIndices[i][j] < bound
    }
  }

  /** The matrix as the indexed loads of the vector kernels see it: every
      column index shifted to a byte offset modulo `modulus`. */
  function ScaledColumns(A: SparseMatrix, modulus: nat): (B: SparseMatrix)
    requires A.WellFormed() && modulus > 0 && modulus % 8 == 0
    ensures B.WellFormed() && B.rows == A.rows && B.columns == A.columns
    ensures B.nonzeros == A.nonzeros && B.values == A.values && B.diagonal == A.diagonal
    ensures forall i :: 0 <= i < A.rows ==> |B.colIndices[i]| == |A.colIndices[i]|
    ensures forall i, j :: 0 <= i < A.rows && 0 <= j < |A.colIndices[i]| ==>
              B.colIndices[i][j] == ScaledIndex(A.colIndices[i][j], modulus)
  {
    var B := A.(colIndices := seq(A.rows, i requires 0 <= i < A.rows => ScaleAll(A.colIndices[i], modulus)));
    assert forall i, j :: 0 <= i < A.rows && 0 <= j < |A.colIndices[i]| ==>
        ScaledIndex(A.colIndices[i][j], modulus) <= A.colIndices[i][j] by {
      forall i, j | 0 <= i < A.rows && 0 <= j < |A.colIndices[i]| {
        ScaledIndexExact(A.colIndices[i][j], modulus);
      }
    }
    B
  }

  /** Scaling changes nothing when no column index reaches modulus / 8. */
  lemma ScaledColumnsIdentity(A: SparseMatrix, modulus: nat)
    requires A.WellFormed() && modulus > 0 && modulus % 8 == 0
    requires A.ColumnsBelow(modulus / 8)
    ensures RowsAgree(ScaledColumns(A, modulus), A)
  {
    var B := ScaledColumns(A, modulus);
    forall i | 0 <= i < A.rows ensures SameRow(B, A, i) {
      forall j | 0 <= j < A.nonzeros[i] ensures B.colIndices[i][j] == A.colIndices[i][j] {
        ScaledIndexExact(A.colIndices[i][j], modulus);
      }
    }
  }

  /** Row i of A and row i of B hold the same entries, in the same order,
      with the diagonal at the same position. */
  predicate SameRow(A: SparseMatrix, B: SparseMatrix, i: nat)
    requires A.WellFormed() && B.WellFormed() && i < A.rows && i < B.rows
  {
    && A.nonzeros[i] == B.nonzeros[i] && A.diagonal[i] == B.diagonal[i]
    && (forall j :: 0 <= j < A.nonzeros[i] ==>
          A.values[i][j] == B.values[i][j] && A.colIndices[i][j] == B.colIndices[i][j])
    && (A.diagonal[i] < |A.values[i]| ==>
          A.diagonal[i] < |B.values[i]| && A.values[i][A.diagonal[i]] == B.values[i][A.diagonal[i]])
  }

  /** Two matrices of the same shape whose kernels read the same entries. */
  predicate RowsAgree(A: SparseMatrix, B: SparseMatrix)
    requires A.WellFormed() && B.WellFormed()
  {
    && A.rows == B.rows && A.columns == B.columns
    && forall i :: 0 <= i < A.rows ==> SameRow(A, B, i)
  }

  /** The products values[i][j] * x[col] of row i, in storage order. */
  function RowTerms(A: SparseMatrix, i: nat, x: seq<real>): (t: seq<real>)
    requires A.WellFormed() && i < A.rows && |x| >= A.columns
    ensures |t| == A.nonzeros[i]
  {
    seq(A.nonzeros[i], j requires 0 <= j < A.nonzeros[i] => A.values[i][j] * x[A.colIndices[i][j]])
  }

  /** Row i of A times x: the full sum over the row's stored entries. */
  function RowSum(A: SparseMatrix, i: nat, x: seq<real>): real
    requires A.WellFormed() && i < A.rows && |x| >= A.columns
  {
    Sum(RowTerms(A, i, x))
  }

  /** A row reads x only at its own column indices. */
  lemma RowSumLocal(A: SparseMatrix, B: SparseMatrix, i: nat, x: seq<real>, x': seq<real>)
    requires A.WellFormed() && B.WellFormed() && i < A.rows && i < B.rows && SameRow(A, B, i)
    requires |x| >= A.columns && |x'| >= B.columns
    requires forall j :: 0 <= j < A.nonzeros[i] ==> x[A.colIndices[i][j]] == x'[A.colIndices[i][j]]
    ensures RowSum(A, i, x) == RowSum(B, i, x')
  {
    var t, t' := RowTerms(A, i, x), RowTerms(B, i, x');
    assert |t| == |t'|;
    forall j | 0 <= j < |t| ensures t[j] == t'[j] {
      assert A.values[i][j] == B.values[i][j] && A.colIndices[i][j] == B.colIndices[i][j];
    }
    assert t == t';
  }

  /** One chunk of a strip-mined row as the vector kernels compute it: load
      vl column indices (vle32), shift them to byte offsets in 32-bit lanes
      (vsll), gather x (vluxei32), load vl coefficients (vle64), multiply
      (vfmul). */
  function ChunkProducts(A: SparseMatrix, i: nat, x: seq<real>, j: nat, vl: nat): (p: seq<real>)
    requires A.WellFormed() && i < A.rows && |x| >= A.columns && j + vl <= A.nonzeros[i]
    ensures |p| == vl
  {
    var B := ScaledColumns(A, ADDR32);
    var offsets := Vsll3(Vle(A.colIndices[i], j, vl), ADDR32);
    assert forall l :: 0 <= l < vl ==> offsets[l] / 8 == B.colIndices[i][j + l];
    Vfmul(Vle(A.values[i], j, vl), Vluxei(x, offsets))
  }

  /** A chunk's products are exactly the row's terms j..j+vl-1, each read
      through its shifted column index. */
  lemma ChunkProductsAreTerms(A: SparseMatrix, i: nat, x: seq<real>, j: nat, vl: nat)
    requires A.WellFormed() && i < A.rows && |x| >= A.columns && j + vl <= A.nonzeros[i]
    ensures ChunkProducts(A, i, x, j, vl) == RowTerms(ScaledColumns(A, ADDR32), i, x)[j..j + vl]
  {
    var B := ScaledColumns(A, ADDR32);
    var p, t := ChunkProducts(A, i, x, j, vl), RowTerms(B, i, x);
    forall l | 0 <= l < vl ensures p[l] == t[j + l] {
      assert B.colIndices[i][j + l] == ScaledIndex(A.colIndices[i][j + l], ADDR32);
    }
  }

  /** The sum of the first j terms of row i as the vector kernels read it. */
  ghost function ScaledPrefixSum(A: SparseMatrix, i: nat, x: seq<real>, j: nat): real
    requires A.WellFormed() && i < A.rows && |x| >= A.columns && j <= A.nonzeros[i]
  {
    Sum(RowTerms(ScaledColumns(A, ADDR32), i, x)[..j])
  }

  /** Reducing one more chunk extends the prefix by the chunk. */
  lemma ChunkExtendsPrefix(A: SparseMatrix, i: nat, x: seq<real>, j: nat, vl: nat)
    requires A.WellFormed() && i < A.rows && |x| >= A.columns && j + vl <= A.nonzeros[i]
    ensures ScaledPrefixSum(A, i, x, j + vl) == ScaledPrefixSum(A, i, x, j) + Vfredsum(ChunkProducts(A, i, x, j, vl), 0.0)
  {
    ChunkProductsAreTerms(A, i, x, j, vl);
    SumSplit(RowTerms(ScaledColumns(A, ADDR32), i, x), j, j + vl);
  }

  /** The empty prefix sums to zero and the full prefix is the row sum. */
  lemma ScaledPrefixSumEnds(A: SparseMatrix, i: nat, x: seq<real>)
    requires A.WellFormed() && i < A.rows && |x| >= A.columns
    ensures ScaledPrefixSum(A, i, x, 0) == 0.0
    ensures ScaledPrefixSum(A, i, x, A.nonzeros[i]) == RowSum(ScaledColumns(A, ADDR32), i, x)
  {
    var t := RowTerms(ScaledColumns(A, ADDR32), i, x);
    assert t[..A.nonzeros[i]] == t;
    assert t[..0] == [];
  }
}
