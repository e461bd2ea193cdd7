// spmv_m8.c: y = A * x for a matrix in compressed sparse row (CSR) form.
// Row r's entries are a[ia[r] .. ia[r+1]) with column indices ja[...].
// spmv_serial sums each row with a scalar loop; spmv_intrinsics strip-mines
// each non-empty row, gathering x through 64-bit byte offsets.
module CsrSpmv {
  import opened Sums
  import opened Rvv
  import opened Sparse

  /** The CSR arrays describe nrows rows: ia has nrows + 1 nondecreasing
      entries, every entry they delimit exists in a and ja, and every column
      index names an element of x. */
  predicate CsrWellFormed(nrows: nat, a: seq<real>, ia: seq<nat>, ja: seq<nat>, xlen: nat)
  {
    && nrows < |ia|
    && (forall r, s :: 0 <= r <= s <= nrows ==> ia[r] <= ia[s])
    && ia[nrows] <= |a| && ia[nrows] <= |ja|
    && (forall k :: ia[0] <= k < ia[nrows] ==> ja[k] < xlen)
  }

  /** Row r's slice lies within the slice of all rows. */
  lemma RowBounds(nrows: nat, a: seq<real>, ia: seq<nat>, ja: seq<nat>, xlen: nat, row: nat)
    requires CsrWellFormed(nrows, a, ia, ja, xlen) && row < nrows
    ensures ia[0] <= ia[row] <= ia[row + 1] <= ia[nrows]
  {
  }

  /** Every column index in ja[base .. base+len) names an element of x. */
  predicate IndicesIn(ja: seq<nat>, base: nat, len: nat, xlen: nat)
    requires base + len <= |ja|
  {
    forall k :: base <= k < base + len ==> ja[k] < xlen
  }

  /** The products a[k] * x[ja[k]] for k in [base, base + len), in order. */
  function SliceTerms(a: seq<real>, ja: seq<nat>, x: seq<real>, base: nat, len: nat): (t: seq<real>)
    requires base + len <= |a| && base + len <= |ja| && IndicesIn(ja, base, len, |x|)
    ensures |t| == len
  {
    seq(len, k requires 0 <= k < len => a[base + k] * x[ja[base + k]])
  }

  /** Row r's slice is in range. */
  lemma RowSliceInRange(nrows: nat, a: seq<real>, ia: seq<nat>, ja: seq<nat>, xlen: nat, row: nat)
    requires CsrWellFormed(nrows, a, ia, ja, xlen) && row < nrows
    ensures ia[row] <= ia[row + 1] && ia[row + 1] <= |a| && ia[row + 1] <= |ja|
    ensures IndicesIn(ja, ia[row], ia[row + 1] - ia[row], xlen)
  {
    RowBounds(nrows, a, ia, ja, xlen, row);
  }

  /** The products a[k] * x[ja[k]] of row r, in storage order. */
  function CsrRowTerms(a: seq<real>, ia: seq<nat>, ja: seq<nat>, x: seq<real>, nrows: nat, row: nat): (t: seq<real>)
    requires CsrWellFormed(nrows, a, ia, ja, |x|) && row < nrows
    ensures |t| == ia[row + 1] - ia[row]
  {
    RowSliceInRange(nrows, a, ia, ja, |x|, row);
    SliceTerms(a, ja, x, ia[row], ia[row + 1] - ia[row])
  }

  /** y[row] as both kernels define it: the sum of row r's products. */
  function CsrRowSum(a: seq<real>, ia: seq<nat>, ja: seq<nat>, x: seq<real>, nrows: nat, row: nat): real
    requires CsrWellFormed(nrows, a, ia, ja, |x|) && row < nrows
  {
    Sum(CsrRowTerms(a, ia, ja, x, nrows, row))
  }

  /** The product A * x, one entry per row. */
  function CsrMatVec(a: seq<real>, ia: seq<nat>, ja: seq<nat>, x: seq<real>, nrows: nat): (y: seq<real>)
    requires CsrWellFormed(nrows, a, ia, ja, |x|)
    ensures |y| == nrows
  {
    seq(nrows, row requires 0 <= row < nrows => CsrRowSum(a, ia, ja, x, nrows, row))
  }

  /** The inner loop of spmv_serial: sum += a[idx] * x[ja[idx]]. */
  method RowSerial(nrows: nat, a: array<real>, ia: array<nat>, ja: array<nat>, x: array<real>, row: nat)
    returns (sum: real)
    requires CsrWellFormed(nrows, a[..], ia[..], ja[..], x.Length) && row < nrows
    ensures sum == CsrRowSum(a[..], ia[..], ja[..], x[..], nrows, row)
  {
    ghost var terms := CsrRowTerms(a[..], ia[..], ja[..], x[..], nrows, row);
    var lo, hi := ia[row], ia[row + 1];
    sum := 0.0;
    for idx := lo to hi
      invariant sum == Sum(terms[..idx - lo])
    {
      SumPrefixStep(terms, idx - lo);
      sum := sum + a[idx] * x[ja[idx]];
    }
    assert terms[..hi - lo] == terms;
  }

  /** spmv_serial: y[row] for every row; nothing else is written. */
  method SpmvSerial(nrows: nat, a: array<real>, ia: array<nat>, ja: array<nat>, x: array<real>, y: array<real>)
    requires CsrWellFormed(nrows, a[..], ia[..], ja[..], x.Length)
    requires y.Length >= nrows && y != a && y != x
    modifies y
    ensures y[..nrows] == CsrMatVec(a[..], ia[..], ja[..], x[..], nrows)
    ensures y[nrows..] == old(y[nrows..])
  {
    ghost var Y := CsrMatVec(a[..], ia[..], ja[..], x[..], nrows);
    for row := 0 to nrows
      invariant forall k :: 0 <= k < row ==> y[k] == Y[k]
      invariant y[nrows..] == old(y[nrows..])
    {
      var sum := RowSerial(nrows, a, ia, ja, x, row);
      y[row] := sum;
    }
  }

  /** One chunk of spmv_intrinsics: load gvl coefficients and column indices
      at idx + colid (vle64), shift the indices to byte offsets in 64-bit
      lanes (vsll), gather x (vluxei64) and multiply (vfmul). */
  function CsrChunkProducts(a: seq<real>, ja: seq<nat>, x: seq<real>, base: nat, vl: nat): (p: seq<real>)
    requires base + vl <= |a| && base + vl <= |ja| && IndicesIn(ja, base, vl, |x|)
    ensures |p| == vl
  {
    var offsets := Vsll3(Vle(ja, base, vl), ADDR64);
    assert forall l :: 0 <= l < vl ==> offsets[l] / 8 < |x| by {
      forall l | 0 <= l < vl ensures offsets[l] / 8 < |x| {
        assert Vle(ja, base, vl)[l] == ja[base + l];
        ScaledIndexExact(ja[base + l], ADDR64);
      }
    }
    Vfmul(Vle(a, base, vl), Vluxei(x, offsets))
  }

  /** Scaling keeps every index of a slice in range. */
  lemma ScaledIndicesIn(ja: seq<nat>, base: nat, len: nat, xlen: nat)
    requires base + len <= |ja| && IndicesIn(ja, base, len, xlen)
    ensures IndicesIn(ScaleAll(ja, ADDR64), base, len, xlen)
  {
    forall k | base <= k < base + len ensures ScaleAll(ja, ADDR64)[k] < xlen {
      ScaledIndexExact(ja[k], ADDR64);
    }
  }

  /** The column indices as the 64-bit gather sees them. */
  lemma ScaledCsrWellFormed(nrows: nat, a: seq<real>, ia: seq<nat>, ja: seq<nat>, xlen: nat)
    requires CsrWellFormed(nrows, a, ia, ja, xlen)
    ensures CsrWellFormed(nrows, a, ia, ScaleAll(ja, ADDR64), xlen)
  {
    forall k | ia[0] <= k < ia[nrows] ensures ScaleAll(ja, ADDR64)[k] < xlen {
      ScaledIndexExact(ja[k], ADDR64);
    }
  }

  /** The sum of the first c terms of a slice as the 64-bit gather reads them. */
  ghost function ScaledSlicePrefix(a: seq<real>, ja: seq<nat>, x: seq<real>, base: nat, len: nat, c: nat): real
    requires base + len <= |a| && base + len <= |ja| && IndicesIn(ja, base, len, |x|) && c <= len
  {
    ScaledIndicesIn(ja, base, len, |x|);
    Sum(SliceTerms(a, ScaleAll(ja, ADDR64), x, base, len)[..c])
  }

  /** A chunk's products are the slice's terms c..c+vl-1, each read through
      its 64-bit-scaled column index. */
  lemma CsrChunkIsSlice(a: seq<real>, ja: seq<nat>, x: seq<real>, base: nat, len: nat, c: nat, vl: nat)
    requires base + len <= |a| && base + len <= |ja| && IndicesIn(ja, base, len, |x|) && c + vl <= len
    ensures IndicesIn(ja, base + c, vl, |x|) && IndicesIn(ScaleAll(ja, ADDR64), base, len, |x|)
    ensures CsrChunkProducts(a, ja, x, base + c, vl) == SliceTerms(a, ScaleAll(ja, ADDR64), x, base, len)[c..c + vl]
  {
    ScaledIndicesIn(ja, base, len, |x|);
    var t := SliceTerms(a, ScaleAll(ja, ADDR64), x, base, len);
    var p := CsrChunkProducts(a, ja, x, base + c, vl);
    forall l | 0 <= l < vl ensures p[l] == t[c + l] {
      assert Vle(ja, base + c, vl)[l] == ja[base + c + l];
    }
  }

  /** Reducing one more chunk extends the prefix by that chunk. */
  lemma ChunkExtendsSlicePrefix(a: seq<real>, ja: seq<nat>, x: seq<real>, base: nat, len: nat, c: nat, vl: nat)
    requires base + len <= |a| && base + len <= |ja| && IndicesIn(ja, base, len, |x|) && c + vl <= len
    ensures IndicesIn(ja, base + c, vl, |x|)
    ensures ScaledSlicePrefix(a, ja, x, base, len, c + vl)
         == ScaledSlicePrefix(a, ja, x, base, len, c) + Vfredsum(CsrChunkProducts(a, ja, x, base + c, vl), 0.0)
  {
    CsrChunkIsSlice(a, ja, x, base, len, c, vl);
    var t := SliceTerms(a, ScaleAll(ja, ADDR64), x, base, len);
    assert ScaledSlicePrefix(a, ja, x, base, len, c + vl) == Sum(t[..c + vl]);
    assert ScaledSlicePrefix(a, ja, x, base, len, c) == Sum(t[..c]);
    SumSplit(t, c, c + vl);
  }

  /** The strip-mined loop over one non-empty row of spmv_intrinsics:
      sum += the ordered reduction of each chunk of products. */
  method SliceSumIntrinsics(u: VectorUnit, a: array<real>, ja: array<nat>, x: array<real>, idx: nat, nnzRow: nat)
    returns (sum: real)
    requires Conforms(u) && idx + nnzRow <= a.Length && idx + nnzRow <= ja.Length
    requires IndicesIn(ja[..], idx, nnzRow, x.Length)
    ensures IndicesIn(ScaleAll(ja[..], ADDR64), idx, nnzRow, x.Length)
    ensures sum == Sum(SliceTerms(a[..], ScaleAll(ja[..], ADDR64), x[..], idx, nnzRow))
  {
    ghost var as_, jas, xs := a[..], ja[..], x[..];
    ScaledIndicesIn(jas, idx, nnzRow, x.Length);
    ghost var t := SliceTerms(as_, ScaleAll(jas, ADDR64), xs, idx, nnzRow);
    assert t[..0] == [] && t[..nnzRow] == t;
    sum := 0.0;
    var colid := 0;
    while colid < nnzRow
      invariant colid <= nnzRow
      invariant sum == ScaledSlicePrefix(as_, jas, xs, idx, nnzRow, colid)
    {
      var gvl := u.setvl(nnzRow - colid);
      VlBounds(u, nnzRow - colid);
      ChunkExtendsSlicePrefix(as_, jas, xs, idx, nnzRow, colid, gvl);
      assert a[..] == as_ && ja[..] == jas && x[..] == xs;
      var product := CsrChunkProducts(a[..], ja[..], x[..], idx + colid, gvl);
      sum := sum + Vfredsum(product, 0.0);
      colid := colid + gvl;
    }
  }

  /** The row loop body of spmv_intrinsics: zero for an empty row, otherwise
      the strip-mined sum of the row's products. */
  method RowIntrinsics(u: VectorUnit, nrows: nat, a: array<real>, ia: array<nat>, ja: array<nat>, x: array<real>, row: nat)
    returns (sum: real)
    requires Conforms(u) && CsrWellFormed(nrows, a[..], ia[..], ja[..], x.Length) && row < nrows
    ensures CsrWellFormed(nrows, a[..], ia[..], ScaleAll(ja[..], ADDR64), x.Length)
    ensures sum == CsrRowSum(a[..], ia[..], ScaleAll(ja[..], ADDR64), x[..], nrows, row)
  {
    ScaledCsrWellFormed(nrows, a[..], ia[..], ja[..], x.Length);
    RowSliceInRange(nrows, a[..], ia[..], ja[..], x.Length, row);
    var nnzRow := ia[row + 1] - ia[row];
    var idx := ia[row];
    if nnzRow == 0 {
      sum := 0.0;
    } else {
      sum := SliceSumIntrinsics(u, a, ja, x, idx, nnzRow);
    }
  }

  /** Below 2^61 the 64-bit byte offsets do not wrap. */
  lemma CsrScaledIdentity(nrows: nat, a: seq<real>, ia: seq<nat>, ja: seq<nat>, x: seq<real>)
    requires CsrWellFormed(nrows, a, ia, ja, |x|) && |x| <= ADDR64 / 8
    ensures CsrWellFormed(nrows, a, ia, ScaleAll(ja, ADDR64), |x|)
    ensures CsrMatVec(a, ia, ScaleAll(ja, ADDR64), x, nrows) == CsrMatVec(a, ia, ja, x, nrows)
  {
    ScaledCsrWellFormed(nrows, a, ia, ja, |x|);
    var ja' := ScaleAll(ja, ADDR64);
    forall row | 0 <= row < nrows
      ensures CsrRowTerms(a, ia, ja', x, nrows, row) == CsrRowTerms(a, ia, ja, x, nrows, row)
    {
      RowBounds(nrows, a, ia, ja, |x|, row);
      var t, t' := CsrRowTerms(a, ia, ja', x, nrows, row), CsrRowTerms(a, ia, ja, x, nrows, row);
      forall k | 0 <= k < |t| ensures t[k] == t'[k] {
        ScaledIndexExact(ja[ia[row] + k], ADDR64);
      }
    }
  }

  /** spmv_intrinsics: the product through the 64-bit-scaled column indices,
      which is spmv_serial's result whenever x has fewer than 2^61 elements
      (so no byte offset wraps). */
  method SpmvIntrinsics(u: VectorUnit, nrows: nat, a: array<real>, ia: array<nat>, ja: array<nat>, x: array<real>, y: array<real>)
    requires Conforms(u) && CsrWellFormed(nrows, a[..], ia[..], ja[..], x.Length)
    requires y.Length >= nrows && y != a && y != x
    modifies y
    ensures CsrWellFormed(nrows, a[..], ia[..], ScaleAll(ja[..], ADDR64), x.Length)
    ensures y[..nrows] == CsrMatVec(a[..], ia[..], ScaleAll(ja[..], ADDR64), x[..], nrows)
    ensures x.Length <= ADDR64 / 8 ==> y[..nrows] == CsrMatVec(a[..], ia[..], ja[..], x[..], nrows)
    ensures y[nrows..] == old(y[nrows..])
  {
    ScaledCsrWellFormed(nrows, a[..], ia[..], ja[..], x.Length);
    ghost var Y := CsrMatVec(a[..], ia[..], ScaleAll(ja[..], ADDR64), x[..], nrows);
    for row := 0 to nrows
      invariant forall k :: 0 <= k < row ==> y[k] == Y[k]
      invariant y[nrows..] == old(y[nrows..])
    {
      var sum := RowIntrinsics(u, nrows, a, ia, ja, x, row);
      y[row] := sum;
    }
    if x.Length <= ADDR64 / 8 {
      CsrScaledIdentity(nrows, a[..], ia[..], ja[..], x[..]);
    }
  }

  // ---------------------------------------------------------------------
  // Properties.

  /** The CSR arrays cut into row slices: the per-row storage of the HPCG
      kernels (the diagonal position is not used here). */
  function CsrToRows(a: seq<real>, ia: seq<nat>, ja: seq<nat>, nrows: nat, ncols: nat): (A: SparseMatrix)
    requires CsrWellFormed(nrows, a, ia, ja, ncols)
  {
    assert forall r :: 0 <= r < nrows ==> SliceWithin(ia, r, ia[nrows]) by {
      forall r | 0 <= r < nrows ensures SliceWithin(ia, r, ia[nrows]) {
        RowBounds(nrows, a, ia, ja, ncols, r);
      }
    }
    SparseMatrix(nrows, ncols,
      seq(nrows, r requires 0 <= r < nrows => ia[r + 1] - ia[r]),
      seq(nrows, r requires 0 <= r < nrows => a[ia[r]..ia[r + 1]]),
      seq(nrows, r requires 0 <= r < nrows => ja[ia[r]..ia[r + 1]]),
      seq(nrows, r => 0))
  }

  /** ia[r] <= ia[r + 1] <= bound. */
  predicate SliceWithin(ia: seq<nat>, r: nat, bound: nat)
    requires r + 1 < |ia|
  {
    ia[r] <= ia[r + 1] <= bound
  }

  /** Row r of A stores row r's CSR coefficients and column indices. */
  predicate RowSlice(A: SparseMatrix, a: seq<real>, ia: seq<nat>, ja: seq<nat>, ncols: nat, r: nat)
    requires r + 1 < |ia| && ia[r] <= ia[r + 1] <= |a| && ia[r + 1] <= |ja|
  {
    && r < |A.nonzeros| && r < |A.values| && r < |A.colIndices|
    && A.nonzeros[r] == ia[r + 1] - ia[r] <= |A.values[r]| && A.nonzeros[r] <= |A.colIndices[r]|
    && forall k :: 0 <= k < A.nonzeros[r] ==>
         A.values[r][k] == a[ia[r] + k] && A.colIndices[r][k] == ja[ia[r] + k] < ncols
  }

  /** Row r of the sliced matrix holds row r's coefficients and indices. */
  lemma CsrToRowsRow(a: seq<real>, ia: seq<nat>, ja: seq<nat>, nrows: nat, ncols: nat, r: nat)
    requires CsrWellFormed(nrows, a, ia, ja, ncols) && r < nrows
    ensures RowSlice(CsrToRows(a, ia, ja, nrows, ncols), a, ia, ja, ncols, r)
  {
    RowBounds(nrows, a, ia, ja, ncols, r);
  }

  /** With at least as many columns as rows, the sliced matrix is well formed. */
  lemma CsrToRowsWellFormed(a: seq<real>, ia: seq<nat>, ja: seq<nat>, nrows: nat, ncols: nat)
    requires CsrWellFormed(nrows, a, ia, ja, ncols) && nrows <= ncols
    ensures CsrToRows(a, ia, ja, nrows, ncols).WellFormed()
  {
    forall r | 0 <= r < nrows ensures RowSlice(CsrToRows(a, ia, ja, nrows, ncols), a, ia, ja, ncols, r) {
      CsrToRowsRow(a, ia, ja, nrows, ncols, r);
    }
  }

  /** Row r has the same products in both storages. */
  lemma CsrRowTermsAgree(a: seq<real>, ia: seq<nat>, ja: seq<nat>, x: seq<real>, nrows: nat, r: nat)
    requires CsrWellFormed(nrows, a, ia, ja, |x|) && nrows <= |x| && r < nrows
    ensures CsrToRows(a, ia, ja, nrows, |x|).WellFormed()
    ensures CsrRowTerms(a, ia, ja, x, nrows, r) == RowTerms(CsrToRows(a, ia, ja, nrows, |x|), r, x)
  {
    CsrToRowsWellFormed(a, ia, ja, nrows, |x|);
    CsrToRowsRow(a, ia, ja, nrows, |x|, r);
    RowBounds(nrows, a, ia, ja, |x|, r);
    var A := CsrToRows(a, ia, ja, nrows, |x|);
    var t, t' := CsrRowTerms(a, ia, ja, x, nrows, r), RowTerms(A, r, x);
    forall k | 0 <= k < |t| ensures t[k] == t'[k] {
    }
  }

  /** With at least as many columns as rows, the sliced matrix is well formed
      and both SpMV definitions agree row by row. */
  lemma CsrAgreesWithRowStorage(a: seq<real>, ia: seq<nat>, ja: seq<nat>, x: seq<real>, nrows: nat)
    requires CsrWellFormed(nrows, a, ia, ja, |x|) && nrows <= |x|
    ensures CsrToRows(a, ia, ja, nrows, |x|).WellFormed()
    ensures forall r :: 0 <= r < nrows ==>
      CsrRowSum(a, ia, ja, x, nrows, r) == RowSum(CsrToRows(a, ia, ja, nrows, |x|), r, x)
  {
    CsrToRowsWellFormed(a, ia, ja, nrows, |x|);
    forall r | 0 <= r < nrows
      ensures CsrRowSum(a, ia, ja, x, nrows, r) == RowSum(CsrToRows(a, ia, ja, nrows, |x|), r, x)
    {
      CsrRowTermsAgree(a, ia, ja, x, nrows, r);
    }
  }

  /** y[row] reads only row r's slice of a and ja, and x at its column indices. */
  lemma CsrRowLocal(a: seq<real>, ia: seq<nat>, ja: seq<nat>, x: seq<real>, a': seq<real>, ja': seq<nat>, x': seq<real>, nrows: nat, row: nat)
    requires CsrWellFormed(nrows, a, ia, ja, |x|) && CsrWellFormed(nrows, a', ia, ja', |x'|) && row < nrows
    requires forall k :: ia[row] <= k < ia[row + 1] ==> a[k] == a'[k] && ja[k] == ja'[k] && x[ja[k]] == x'[ja[k]]
    ensures CsrRowSum(a, ia, ja, x, nrows, row) == CsrRowSum(a', ia, ja', x', nrows, row)
  {
    var t, t' := CsrRowTerms(a, ia, ja, x, nrows, row), CsrRowTerms(a', ia, ja', x', nrows, row);
    RowBounds(nrows, a, ia, ja, |x|, row);
    forall k | 0 <= k < |t| ensures t[k] == t'[k] {
    }
    assert t == t';
  }

  /** An empty row gives 0 on both paths. */
  lemma CsrEmptyRow(a: seq<real>, ia: seq<nat>, ja: seq<nat>, x: seq<real>, nrows: nat, row: nat)
    requires CsrWellFormed(nrows, a, ia, ja, |x|) && row < nrows && ia[row + 1] == ia[row]
    ensures CsrRowSum(a, ia, ja, x, nrows, row) == 0.0
    ensures CsrWellFormed(nrows, a, ia, ScaleAll(ja, ADDR64), |x|)
    ensures CsrRowSum(a, ia, ScaleAll(ja, ADDR64), x, nrows, row) == 0.0
  {
    ScaledCsrWellFormed(nrows, a, ia, ja, |x|);
  }

  /** The 2-by-2 matrix [[2, 0], [1, 3]] times [1, 1] is [2, 4]. */
  lemma CsrExample()
    ensures CsrWellFormed(2, [2.0, 1.0, 3.0], [0, 1, 3], [0, 0, 1], 2)
    ensures CsrMatVec([2.0, 1.0, 3.0], [0, 1, 3], [0, 0, 1], [1.0, 1.0], 2) == [2.0, 4.0]
  {
    var a, ia, ja, x := [2.0, 1.0, 3.0], [0, 1, 3], [0, 0, 1], [1.0, 1.0];
    assert CsrRowTerms(a, ia, ja, x, 2, 0) == [2.0];
    assert CsrRowTerms(a, ia, ja, x, 2, 1) == [1.0, 3.0];
    SumSingle([2.0], 0);
    SumSingle([1.0, 0.0], 0);
    assert Sum([1.0, 3.0]) == Sum([1.0]) + 3.0;
    SumSingle([1.0], 0);
  }
}
