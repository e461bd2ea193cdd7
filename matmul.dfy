// matmul_m8_T.c: C = A * B for row-major matrices, A of m x p, B of p x n
// and C of m x n. matmul_serial accumulates each entry of C in place;
// matrixmul_intrinsics first transposes B into b_T (n x p) so that both
// operands of each dot product are read with unit stride, then strip-mines
// each dot product into vector lanes and reduces them. compare reports
// whether two m x n matrices differ anywhere.
module Matmul {
  import opened Sums
  import opened Rvv
  import opened ComputeDotProduct

  // ---------------------------------------------------------------------
  // Row-major positions.

  /** The position i * cols + j of element (i, j) of a row-major matrix with
      `cols` columns, built up row by row so that the verifier reasons about
      positions through the lemmas below rather than through products. */
  function Flat(i: nat, j: nat, cols: nat): nat
    decreases i
  {
    if i == 0 then j else Flat(i - 1, j, cols) + cols
  }

  /** The number of elements of a rows x cols matrix. */
  function Cells(rows: nat, cols: nat): nat
  {
    Flat(rows, 0, cols)
  }

  lemma {:induction false} FlatIsProduct(i: nat, j: nat, cols: nat)
    ensures Flat(i, j, cols) == i * cols + j
    ensures Cells(i, cols) == i * cols
  {
    if i > 0 {
      FlatIsProduct(i - 1, j, cols);
      FlatIsProduct(i - 1, 0, cols);
    }
  }

  /** Element (i, j) lies j positions after the start of row i. */
  lemma {:induction false} FlatShift(i: nat, j: nat, cols: nat)
    ensures Flat(i, j, cols) == Flat(i, 0, cols) + j
  {
    if i > 0 {
      FlatShift(i - 1, j, cols);
    }
  }

  /** One past the end of row i is the start of row i + 1. */
  lemma FlatNextRow(i: nat, cols: nat)
    ensures Flat(i, cols, cols) == Flat(i + 1, 0, cols)
  {
    FlatShift(i, cols, cols);
  }

  /** Later rows start at later positions. */
  lemma {:induction false} FlatMono(i: nat, i': nat, cols: nat)
    requires i <= i'
    ensures Flat(i, 0, cols) <= Flat(i', 0, cols)
    decreases i'
  {
    if i < i' {
      FlatMono(i, i' - 1, cols);
    }
  }

  /** Row-major order: earlier (row, column) pairs come at smaller positions. */
  lemma FlatOrder(i: nat, j: nat, i': nat, j': nat, cols: nat)
    requires (i < i' && j < cols) || (i == i' && j < j')
    ensures Flat(i, j, cols) < Flat(i', j', cols)
  {
    FlatShift(i, j, cols);
    FlatShift(i', j', cols);
    if i < i' {
      FlatNextRow(i, cols);
      FlatMono(i + 1, i', cols);
    }
  }

  /** Element (i, j) of a rows x cols matrix lies below Cells(rows, cols). */
  lemma FlatBound(i: nat, j: nat, rows: nat, cols: nat)
    requires i < rows && j < cols
    ensures Flat(i, j, cols) < Cells(rows, cols)
  {
    FlatOrder(i, j, rows, 0, cols);
  }

  /** Distinct (row, column) pairs have distinct positions. */
  lemma FlatInjective(i: nat, j: nat, i': nat, j': nat, cols: nat)
    requires j < cols && j' < cols && (i != i' || j != j')
    ensures Flat(i, j, cols) != Flat(i', j', cols)
  {
    if i < i' || (i == i' && j < j') {
      FlatOrder(i, j, i', j', cols);
    } else {
      FlatOrder(i', j', i, j, cols);
    }
  }

  // ---------------------------------------------------------------------
  // The product.

  /** Every element entry (i, j) of the product reads exists. */
  predicate EntryInRange(la: nat, lb: nat, i: nat, j: nat, n: nat, p: nat)
  {
    forall k: nat :: k < p ==> TermInRange(la, lb, i, j, k, n, p)
  }

  /** Both factors of the k-th term of entry (i, j) exist. */
  predicate TermInRange(la: nat, lb: nat, i: nat, j: nat, k: nat, n: nat, p: nat)
  {
    Flat(i, k, p) < la && Flat(k, j, n) < lb
  }

  lemma DimsInRange(la: nat, lb: nat, m: nat, n: nat, p: nat, i: nat, j: nat)
    requires i < m && j < n && la >= Cells(m, p) && lb >= Cells(p, n)
    ensures EntryInRange(la, lb, i, j, n, p)
  {
    forall k: nat | k < p ensures TermInRange(la, lb, i, j, k, n, p) {
      FlatBound(i, k, m, p);
      FlatBound(k, j, p, n);
    }
  }

  /** The products a[i][k] * b[k][j] for k < p. */
  function EntryTerms(a: seq<real>, b: seq<real>, i: nat, j: nat, n: nat, p: nat): (t: seq<real>)
    requires EntryInRange(|a|, |b|, i, j, n, p)
    ensures |t| == p
  {
    seq(p, k requires 0 <= k < p => assert TermInRange(|a|, |b|, i, j, k, n, p); a[Flat(i, k, p)] * b[Flat(k, j, n)])
  }

  /** Entry (i, j) of A * B. */
  function Entry(a: seq<real>, b: seq<real>, i: nat, j: nat, n: nat, p: nat): real
    requires EntryInRange(|a|, |b|, i, j, n, p)
  {
    Sum(EntryTerms(a, b, i, j, n, p))
  }

  /** Entry (i, j) of c is entry (i, j) of A * B. */
  predicate EntryDone(c: seq<real>, a: seq<real>, b: seq<real>, i: nat, j: nat, n: nat, p: nat)
  {
    Flat(i, j, n) < |c| && EntryInRange(|a|, |b|, i, j, n, p) && c[Flat(i, j, n)] == Entry(a, b, i, j, n, p)
  }

  /** Every entry before (i, j) in row-major order is done. */
  ghost predicate ProductUpTo(c: seq<real>, a: seq<real>, b: seq<real>, i: nat, j: nat, n: nat, p: nat)
  {
    forall i': nat, j': nat :: 0 <= j' < n && (i' < i || (i' == i && j' < j)) ==> EntryDone(c, a, b, i', j', n, p)
  }

  /** c holds the m x n product A * B. */
  predicate IsProduct(c: seq<real>, a: seq<real>, b: seq<real>, m: nat, n: nat, p: nat)
  {
    forall i, j :: 0 <= i < m && 0 <= j < n ==> EntryDone(c, a, b, i, j, n, p)
  }

  /** Writing entry (i, j) keeps every earlier entry and completes (i, j). */
  lemma ProductStep(c: seq<real>, a: seq<real>, b: seq<real>, i: nat, j: nat, n: nat, p: nat)
    requires j < n && Flat(i, j, n) < |c| && EntryInRange(|a|, |b|, i, j, n, p)
    requires ProductUpTo(c, a, b, i, j, n, p)
    ensures ProductUpTo(c[Flat(i, j, n) := Entry(a, b, i, j, n, p)], a, b, i, j + 1, n, p)
  {
    var c' := c[Flat(i, j, n) := Entry(a, b, i, j, n, p)];
    forall i': nat, j': nat | 0 <= j' < n && (i' < i || (i' == i && j' < j + 1))
      ensures EntryDone(c', a, b, i', j', n, p)
    {
      if i' != i || j' != j {
        FlatInjective(i', j', i, j, n);
        assert EntryDone(c, a, b, i', j', n, p);
      }
    }
  }

  /** The inner loop of matmul_serial: c[i*n+j] = 0, then += a[i][k] * b[k][j]. */
  method AccumulateEntry(a: array<real>, b: array<real>, c: array<real>, i: nat, j: nat, n: nat, p: nat)
    requires c != a && c != b && Flat(i, j, n) < c.Length && EntryInRange(a.Length, b.Length, i, j, n, p)
    modifies c
    ensures c[..] == old(c[..])[Flat(i, j, n) := Entry(a[..], b[..], i, j, n, p)]
  {
    ghost var terms := EntryTerms(a[..], b[..], i, j, n, p);
    var idx := Flat(i, j, n);
    c[idx] := 0.0;
    for k := 0 to p
      invariant c[..] == old(c[..])[idx := Sum(terms[..k])]
    {
      SumPrefixStep(terms, k);
      assert TermInRange(a.Length, b.Length, i, j, k, n, p);
      assert terms[k] == a[Flat(i, k, p)] * b[Flat(k, j, n)];
      c[idx] := c[idx] + a[Flat(i, k, p)] * b[Flat(k, j, n)];
    }
    assert terms[..p] == terms;
  }

  /** matmul_serial: C = A * B; only c[0 .. m*n) is written. */
  method MatmulSerial(a: array<real>, b: array<real>, c: array<real>, n: nat, m: nat, p: nat)
    requires a.Length >= Cells(m, p) && b.Length >= Cells(p, n) && c.Length >= Cells(m, n) && c != a && c != b
    modifies c
    ensures IsProduct(c[..], a[..], b[..], m, n, p)
    ensures forall q :: Cells(m, n) <= q < c.Length ==> c[q] == old(c[q])
  {
    for i := 0 to m
      invariant ProductUpTo(c[..], a[..], b[..], i, 0, n, p)
      invariant forall q :: Flat(i, 0, n) <= q < c.Length ==> c[q] == old(c[q])
    {
      for j := 0 to n
        invariant ProductUpTo(c[..], a[..], b[..], i, j, n, p)
        invariant forall q :: Flat(i, j, n) <= q < c.Length ==> c[q] == old(c[q])
      {
        FlatBound(i, j, m, n);
        DimsInRange(a.Length, b.Length, m, n, p, i, j);
        ProductStep(c[..], a[..], b[..], i, j, n, p);
        FlatShift(i, j, n);
        FlatShift(i, j + 1, n);
        AccumulateEntry(a, b, c, i, j, n, p);
      }
      FlatNextRow(i, n);
    }
  }

  // ---------------------------------------------------------------------
  // The vector path.

  /** b_T is the n x p transpose of the p x n matrix b. */
  predicate Transposed(bT: seq<real>, b: seq<real>, n: nat, p: nat)
  {
    forall i: nat, j: nat :: i < p && j < n ==> TransposedAt(bT, b, i, j, n, p)
  }

  /** Element (j, i) of b_T is element (i, j) of b. */
  predicate TransposedAt(bT: seq<real>, b: seq<real>, i: nat, j: nat, n: nat, p: nat)
  {
    Flat(j, i, p) < |bT| && Flat(i, j, n) < |b| && bT[Flat(j, i, p)] == b[Flat(i, j, n)]
  }

  /** Every (i', j') before (i, j) in row-major order of b is transposed. */
  ghost predicate TransposedUpTo(bT: seq<real>, b: seq<real>, i: nat, j: nat, n: nat, p: nat)
  {
    forall i': nat, j': nat :: j' < n && (i' < i || (i' == i && j' < j)) ==> TransposedAt(bT, b, i', j', n, p)
  }

  /** Writing b_T[j*p+i] keeps the earlier transposed elements. */
  lemma TransposeStep(bT: seq<real>, b: seq<real>, i: nat, j: nat, n: nat, p: nat)
    requires i < p && j < n && Flat(j, i, p) < |bT| && Flat(i, j, n) < |b|
    requires TransposedUpTo(bT, b, i, j, n, p)
    ensures TransposedUpTo(bT[Flat(j, i, p) := b[Flat(i, j, n)]], b, i, j + 1, n, p)
  {
    var bT' := bT[Flat(j, i, p) := b[Flat(i, j, n)]];
    forall i': nat, j': nat | j' < n && (i' < i || (i' == i && j' < j + 1))
      ensures TransposedAt(bT', b, i', j', n, p)
    {
      if i' != i || j' != j {
        FlatInjective(j', i', j, i, p);
        assert TransposedAt(bT, b, i', j', n, p);
      }
    }
  }

  /** Step 1 of matrixmul_intrinsics: b_T[j*p+i] = b[i*n+j]; only
      b_T[0 .. n*p) is written. */
  method Transpose(b: array<real>, bT: array<real>, n: nat, p: nat)
    requires b.Length >= Cells(p, n) && bT.Length >= Cells(n, p) && b != bT
    modifies bT
    ensures Transposed(bT[..], b[..], n, p)
    ensures forall q :: Cells(n, p) <= q < bT.Length ==> bT[q] == old(bT[q])
  {
    for i := 0 to p
      invariant TransposedUpTo(bT[..], b[..], i, 0, n, p)
      invariant forall q :: Cells(n, p) <= q < bT.Length ==> bT[q] == old(bT[q])
    {
      for j := 0 to n
        invariant TransposedUpTo(bT[..], b[..], i, j, n, p)
        invariant forall q :: Cells(n, p) <= q < bT.Length ==> bT[q] == old(bT[q])
      {
        FlatBound(j, i, n, p);
        FlatBound(i, j, p, n);
        TransposeStep(bT[..], b[..], i, j, n, p);
        bT[Flat(j, i, p)] := b[Flat(i, j, n)];
      }
    }
  }

  /** With a conforming vsetvl, every chunk after the first fits in the
      lanes that vfmv.v.f cleared with vl = vsetvl(p). */
  lemma LaterChunksFit(u: VectorUnit, p: nat, k: nat)
    requires Conforms(u) && k < p && (k == 0 || k >= u.setvl(p))
    ensures u.setvl(p - k) <= u.setvl(p)
  {
    assert VlConstraints(p, u.vlmax, u.setvl(p));
    assert VlConstraints(p - k, u.vlmax, u.setvl(p - k));
  }

  /** Row i of the row-major matrix with p columns. */
  function RowOf(s: seq<real>, i: nat, p: nat): (r: seq<real>)
    requires Flat(i, p, p) <= |s|
    ensures |r| == p
  {
    FlatShift(i, p, p);
    s[Flat(i, 0, p)..Flat(i, p, p)]
  }

  /** vle64 at a[i*p+k] loads elements k.. of row i. */
  lemma RowChunk(s: seq<real>, i: nat, k: nat, p: nat, vl: nat)
    requires Flat(i, p, p) <= |s| && k + vl <= p
    ensures Flat(i, k, p) + vl <= |s|
    ensures Vle(s, Flat(i, k, p), vl) == Vle(RowOf(s, i, p), k, vl)
  {
    FlatShift(i, k, p);
    FlatShift(i, p, p);
    var row := RowOf(s, i, p);
    assert row == s[Flat(i, 0, p)..Flat(i, p, p)];
    var v, w := Vle(s, Flat(i, k, p), vl), Vle(row, k, vl);
    forall l | 0 <= l < vl ensures v[l] == w[l] {
      assert v[l] == s[Flat(i, 0, p) + k + l];
      assert w[l] == row[k + l];
    }
  }

  /** Row i of a matrix with p columns ends inside a buffer of Cells(m, p). */
  lemma RowInside(la: nat, i: nat, m: nat, p: nat)
    requires i < m && la >= Cells(m, p)
    ensures Flat(i, p, p) <= la
  {
    FlatNextRow(i, p);
    FlatMono(i + 1, m, p);
  }

  /** One chunk of step 2: load vl elements of row i of a at a[i*p+k] and
      of row j of b_T at b_T[j*p+k] (vle64), multiply-accumulate them into
      the lanes (vfmacc). */
  function TransposedChunk(lanes: seq<real>, a: seq<real>, bT: seq<real>, i: nat, j: nat, k: nat, p: nat, vl: nat)
    : (l: seq<real>)
    requires Flat(i, k, p) + vl <= |a| && Flat(j, k, p) + vl <= |bT| && vl <= |lanes|
    ensures |l| == |lanes|
  {
    Vfmacc(lanes, Vle(a, Flat(i, k, p), vl), Vle(bT, Flat(j, k, p), vl))
  }

  /** With a conforming vsetvl, the chunk at k fits both the rest of the
      row and the cleared lanes, and the next chunk starts at or after
      vsetvl(p). */
  lemma ChunkFits(u: VectorUnit, p: nat, k: nat)
    requires Conforms(u) && k < p && (k == 0 || k >= u.setvl(p))
    ensures 1 <= u.setvl(p - k) <= p - k && u.setvl(p - k) <= u.setvl(p) && k + u.setvl(p - k) >= u.setvl(p)
  {
    LaterChunksFit(u, p, k);
    VlBounds(u, p - k);
  }

  /** Loading at a[i*p+k] and b_T[j*p+k] is the chunk step on the two rows. */
  lemma TransposedChunkOnRows(lanes: seq<real>, a: seq<real>, bT: seq<real>, i: nat, j: nat, k: nat, p: nat, vl: nat)
    requires k + vl <= p && Flat(i, p, p) <= |a| && Flat(j, p, p) <= |bT| && vl <= |lanes|
    ensures Flat(i, k, p) + vl <= |a| && Flat(j, k, p) + vl <= |bT|
    ensures TransposedChunk(lanes, a, bT, i, j, k, p, vl) == ChunkStep(lanes, RowOf(a, i, p), RowOf(bT, j, p), k, vl)
  {
    RowChunk(a, i, k, p, vl);
    RowChunk(bT, j, k, p, vl);
  }

  /** The sum of the first k products of row i of a and row j of b_T. */
  ghost function RowPrefix(a: seq<real>, bT: seq<real>, i: nat, j: nat, p: nat, k: nat): real
    requires k <= p && Flat(i, p, p) <= |a| && Flat(j, p, p) <= |bT|
  {
    Sum(Products(RowOf(a, i, p), RowOf(bT, j, p), p)[..k])
  }

  /** One turn of the loop over row i of a and row j of b_T adds exactly
      the products k..k+vl-1 of the two rows to the sum of the lanes. */
  lemma DotChunk(lanes: seq<real>, a: seq<real>, bT: seq<real>, i: nat, j: nat, k: nat, p: nat, vl: nat)
    requires k + vl <= p && Flat(i, p, p) <= |a| && Flat(j, p, p) <= |bT| && vl <= |lanes|
    requires Sum(lanes) == RowPrefix(a, bT, i, j, p, k)
    ensures Flat(i, k, p) + vl <= |a| && Flat(j, k, p) + vl <= |bT|
    ensures Sum(TransposedChunk(lanes, a, bT, i, j, k, p, vl)) == RowPrefix(a, bT, i, j, p, k + vl)
  {
    TransposedChunkOnRows(lanes, a, bT, i, j, k, p, vl);
    ChunkExtendsRowPrefix(lanes, RowOf(a, i, p), RowOf(bT, j, p), k, p, vl);
  }

  /** The same step stated on the two rows alone. */
  lemma ChunkExtendsRowPrefix(lanes: seq<real>, ra: seq<real>, rb: seq<real>, k: nat, p: nat, vl: nat)
    requires k + vl <= p == |ra| == |rb| && vl <= |lanes|
    requires Sum(lanes) == Sum(Products(ra, rb, p)[..k])
    ensures Sum(ChunkStep(lanes, ra, rb, k, vl)) == Sum(Products(ra, rb, p)[..k + vl])
  {
    ChunkStepSum(lanes, ra, rb, k, vl, p);
    SumSplit(Products(ra, rb, p), k, k + vl);
  }

  /** The chunk loop of step 2 for one entry: from vsetvl(p) lanes that sum
      to zero (the empty prefix) to lanes that sum to all p products of the
      two rows. */
  method AccumulateRows(u: VectorUnit, a: array<real>, bT: array<real>, i: nat, j: nat, p: nat, lanes0: seq<real>)
    returns (vprod: seq<real>)
    requires Conforms(u) && Flat(i, p, p) <= a.Length && Flat(j, p, p) <= bT.Length
    requires |lanes0| == u.setvl(p) && Sum(lanes0) == RowPrefix(a[..], bT[..], i, j, p, 0)
    ensures Sum(vprod) == RowPrefix(a[..], bT[..], i, j, p, p)
  {
    vprod := lanes0;
    var k := 0;
    while k < p
      invariant k <= p && (k == 0 || k >= u.setvl(p)) && |vprod| == u.setvl(p)
      invariant Sum(vprod) == RowPrefix(a[..], bT[..], i, j, p, k)
    {
      var gvl;
      gvl, vprod := AccumulateChunk(u, a, bT, i, j, p, k, vprod);
      k := k + gvl;
    }
  }

  /** One turn of the chunk loop: gvl = vsetvl(p - k), then load gvl
      elements of both rows at k and multiply-accumulate them into the lanes. */
  method AccumulateChunk(u: VectorUnit, a: array<real>, bT: array<real>, i: nat, j: nat, p: nat, k: nat, vprod: seq<real>)
    returns (gvl: nat, next: seq<real>)
    requires Conforms(u) && Flat(i, p, p) <= a.Length && Flat(j, p, p) <= bT.Length
    requires k < p && (k == 0 || k >= u.setvl(p)) && |vprod| == u.setvl(p)
    requires Sum(vprod) == RowPrefix(a[..], bT[..], i, j, p, k)
    ensures 1 <= gvl <= p - k && k + gvl >= u.setvl(p) && |next| == u.setvl(p)
    ensures Sum(next) == RowPrefix(a[..], bT[..], i, j, p, k + gvl)
  {
    gvl := u.setvl(p - k);
    ChunkFits(u, p, k);
    DotChunk(vprod, a[..], bT[..], i, j, k, p, gvl);
    next := TransposedChunk(vprod, a[..], bT[..], i, j, k, p, gvl);
  }

  /** Step 2 for one entry: clear vsetvl(p) lanes, multiply-accumulate row i
      of a and row j of b_T chunk by chunk, reduce the vsetvl(p) lanes. */
  method DotTransposed(u: VectorUnit, a: array<real>, bT: array<real>, i: nat, j: nat, p: nat) returns (r: real)
    requires Conforms(u) && p >= 1 && Flat(i, p, p) <= a.Length && Flat(j, p, p) <= bT.Length
    ensures r == Sum(Products(RowOf(a[..], i, p), RowOf(bT[..], j, p), p))
  {
    var gvl := u.setvl(p);
    var vprod := Zeros(gvl);
    SumZeros(vprod);
    RowPrefixEnds(a[..], bT[..], i, j, p);
    vprod := AccumulateRows(u, a, bT, i, j, p, vprod);
    gvl := u.setvl(p);
    r := Vfredsum(vprod, 0.0);
  }

  /** The empty prefix sums to zero and the full prefix is the dot product. */
  lemma RowPrefixEnds(a: seq<real>, bT: seq<real>, i: nat, j: nat, p: nat)
    requires Flat(i, p, p) <= |a| && Flat(j, p, p) <= |bT|
    ensures RowPrefix(a, bT, i, j, p, 0) == 0.0
    ensures RowPrefix(a, bT, i, j, p, p) == Sum(Products(RowOf(a, i, p), RowOf(bT, j, p), p))
  {
    var q := Products(RowOf(a, i, p), RowOf(bT, j, p), p);
    assert q[..0] == [];
    assert q[..p] == q;
  }

  /** The k-th element of row i of a and of row j of b_T are a[i][k] and b[k][j]. */
  lemma TransposedFactors(a: seq<real>, b: seq<real>, bT: seq<real>, i: nat, j: nat, k: nat, n: nat, p: nat)
    requires k < p && Flat(i, p, p) <= |a| && Flat(j, p, p) <= |bT|
    requires TransposedAt(bT, b, k, j, n, p) && TermInRange(|a|, |b|, i, j, k, n, p)
    ensures RowOf(a, i, p)[k] == a[Flat(i, k, p)] && RowOf(bT, j, p)[k] == b[Flat(k, j, n)]
  {
    RowChunk(a, i, k, p, 1);
    RowChunk(bT, j, k, p, 1);
    assert RowOf(a, i, p)[k] == Vle(RowOf(a, i, p), k, 1)[0];
    assert RowOf(bT, j, p)[k] == Vle(RowOf(bT, j, p), k, 1)[0];
  }

  /** The k-th product of row i of a and row j of b_T is the k-th term of
      entry (i, j). */
  lemma TransposedTerm(a: seq<real>, b: seq<real>, bT: seq<real>, i: nat, j: nat, k: nat, n: nat, p: nat)
    requires k < p && Flat(i, p, p) <= |a| && Flat(j, p, p) <= |bT|
    requires TransposedAt(bT, b, k, j, n, p) && EntryInRange(|a|, |b|, i, j, n, p)
    ensures Products(RowOf(a, i, p), RowOf(bT, j, p), p)[k] == EntryTerms(a, b, i, j, n, p)[k]
  {
    EntryTermAt(a, b, i, j, k, n, p);
    TransposedFactors(a, b, bT, i, j, k, n, p);
    ProductAt(RowOf(a, i, p), RowOf(bT, j, p), k, p, EntryTerms(a, b, i, j, n, p));
  }

  /** The k-th term of entry (i, j) is a[i][k] * b[k][j]. */
  lemma EntryTermAt(a: seq<real>, b: seq<real>, i: nat, j: nat, k: nat, n: nat, p: nat)
    requires k < p && EntryInRange(|a|, |b|, i, j, n, p)
    ensures TermInRange(|a|, |b|, i, j, k, n, p)
    ensures EntryTerms(a, b, i, j, n, p)[k] == a[Flat(i, k, p)] * b[Flat(k, j, n)]
  {
    assert TermInRange(|a|, |b|, i, j, k, n, p);
  }

  /** A product sequence agrees at k with any sequence holding the product of the k-th elements there. */
  lemma ProductAt(ra: seq<real>, rb: seq<real>, k: nat, p: nat, t: seq<real>)
    requires k < p == |ra| == |rb| == |t| && t[k] == ra[k] * rb[k]
    ensures Products(ra, rb, p)[k] == t[k]
  {
  }

  /** Rows i of a and j of b_T, and every factor of entry (i, j), lie inside their buffers. */
  lemma TransposedRowsInRange(la: nat, lb: nat, lbT: nat, i: nat, j: nat, m: nat, n: nat, p: nat)
    requires i < m && j < n && la >= Cells(m, p) && lb >= Cells(p, n) && lbT >= Cells(n, p)
    ensures Flat(i, p, p) <= la && Flat(j, p, p) <= lbT && EntryInRange(la, lb, i, j, n, p)
  {
    RowInside(la, i, m, p);
    RowInside(lbT, j, n, p);
    DimsInRange(la, lb, m, n, p, i, j);
  }

  /** With b_T the transpose of b, the dot product of row i of a and row j
      of b_T is entry (i, j) of A * B. */
  lemma TransposedRowsGiveEntry(a: seq<real>, b: seq<real>, bT: seq<real>, i: nat, j: nat, m: nat, n: nat, p: nat)
    requires i < m && j < n && |a| >= Cells(m, p) && |b| >= Cells(p, n) && |bT| >= Cells(n, p) && Transposed(bT, b, n, p)
    ensures Flat(i, p, p) <= |a| && Flat(j, p, p) <= |bT| && EntryInRange(|a|, |b|, i, j, n, p)
    ensures Sum(Products(RowOf(a, i, p), RowOf(bT, j, p), p)) == Entry(a, b, i, j, n, p)
  {
    TransposedRowsInRange(|a|, |b|, |bT|, i, j, m, n, p);
    var q, t := Products(RowOf(a, i, p), RowOf(bT, j, p), p), EntryTerms(a, b, i, j, n, p);
    forall k: nat | k < p ensures q[k] == t[k] {
      assert TransposedAt(bT, b, k, j, n, p);
      TransposedTerm(a, b, bT, i, j, k, n, p);
    }
    assert q == t;
  }

  /** matrixmul_intrinsics: transposes b into b_T, then computes C = A * B
      with unit-stride strip-mined dot products. Needs p >= 1: with p = 0
      the final reduction runs with vl = 0 and leaves the result undefined. */
  method MatrixmulIntrinsics(u: VectorUnit, a: array<real>, b: array<real>, c: array<real>, bT: array<real>, n: nat, m: nat, p: nat)
    requires Conforms(u) && p >= 1
    requires a.Length >= Cells(m, p) && b.Length >= Cells(p, n) && c.Length >= Cells(m, n) && bT.Length >= Cells(n, p)
    requires c != a && c != b && c != bT && bT != a && bT != b
    modifies c, bT
    ensures Transposed(bT[..], b[..], n, p)
    ensures forall q :: Cells(n, p) <= q < bT.Length ==> bT[q] == old(bT[q])
    ensures IsProduct(c[..], a[..], b[..], m, n, p)
    ensures forall q :: Cells(m, n) <= q < c.Length ==> c[q] == old(c[q])
  {
    Transpose(b, bT, n, p);
    ghost var bT1 := bT[..];
    for i := 0 to m
      invariant bT[..] == bT1
      invariant ProductUpTo(c[..], a[..], b[..], i, 0, n, p)
      invariant forall q :: Flat(i, 0, n) <= q < c.Length ==> c[q] == old(c[q])
    {
      for j := 0 to n
        invariant bT[..] == bT1
        invariant ProductUpTo(c[..], a[..], b[..], i, j, n, p)
        invariant forall q :: Flat(i, j, n) <= q < c.Length ==> c[q] == old(c[q])
      {
        FlatBound(i, j, m, n);
        TransposedRowsGiveEntry(a[..], b[..], bT[..], i, j, m, n, p);
        var sum := DotTransposed(u, a, bT, i, j, p);
        ProductStep(c[..], a[..], b[..], i, j, n, p);
        FlatShift(i, j, n);
        FlatShift(i, j + 1, n);
        c[Flat(i, j, n)] := sum;
      }
      FlatNextRow(i, n);
    }
  }

  /** Every position below Cells(rows, cols) is some element (i, j). */
  lemma {:induction false} FlatCovers(q: nat, rows: nat, cols: nat) returns (i: nat, j: nat)
    requires q < Cells(rows, cols)
    ensures i < rows && j < cols && Flat(i, j, cols) == q
    decreases rows
  {
    assert rows > 0;
    if q < Cells(rows - 1, cols) {
      i, j := FlatCovers(q, rows - 1, cols);
    } else {
      i, j := rows - 1, q - Cells(rows - 1, cols);
      FlatShift(i, j, cols);
    }
  }

  /** The product is unique: two buffers that both hold A * B agree on all
      of c[0 .. m*n), so matmul_serial and matrixmul_intrinsics, which leave
      the rest of c alone, produce the same array. */
  lemma ProductUnique(c: seq<real>, c': seq<real>, a: seq<real>, b: seq<real>, m: nat, n: nat, p: nat)
    requires |c| >= Cells(m, n) && |c'| >= Cells(m, n)
    requires IsProduct(c, a, b, m, n, p) && IsProduct(c', a, b, m, n, p)
    ensures c[..Cells(m, n)] == c'[..Cells(m, n)]
  {
    forall q | 0 <= q < Cells(m, n) ensures c[q] == c'[q] {
      var i, j := FlatCovers(q, m, n);
      assert EntryDone(c, a, b, i, j, n, p) && EntryDone(c', a, b, i, j, n, p);
    }
  }

  /** [[1, 2], [3, 4]] * [[5, 6], [7, 8]] == [[19, 22], [43, 50]]. */
  lemma MatmulExample()
    ensures EntryInRange(4, 4, 0, 0, 2, 2) && EntryInRange(4, 4, 1, 1, 2, 2)
    ensures Entry([1.0, 2.0, 3.0, 4.0], [5.0, 6.0, 7.0, 8.0], 0, 0, 2, 2) == 19.0
    ensures Entry([1.0, 2.0, 3.0, 4.0], [5.0, 6.0, 7.0, 8.0], 1, 1, 2, 2) == 50.0
  {
    DimsInRange(4, 4, 2, 2, 2, 0, 0);
    DimsInRange(4, 4, 2, 2, 2, 1, 1);
    var a, b := [1.0, 2.0, 3.0, 4.0], [5.0, 6.0, 7.0, 8.0];
    assert Flat(1, 0, 2) == 2 && Flat(1, 1, 2) == 3;
    assert EntryTerms(a, b, 0, 0, 2, 2) == [5.0, 14.0];
    assert EntryTerms(a, b, 1, 1, 2, 2) == [18.0, 32.0];
    SumPrefixStep([5.0, 14.0], 0);
    SumPrefixStep([5.0, 14.0], 1);
    assert [5.0, 14.0][..2] == [5.0, 14.0];
    SumPrefixStep([18.0, 32.0], 0);
    SumPrefixStep([18.0, 32.0], 1);
    assert [18.0, 32.0][..2] == [18.0, 32.0];
  }

  // ---------------------------------------------------------------------
  // compare.

  /** Some element (i, j) with i < dm and j < dn differs between a and b. */
  ghost predicate Mismatch(a: seq<real>, b: seq<real>, dm: nat, dn: nat)
  {
    exists i: nat :: i < dm && RowMismatch(a, b, i, dn, dn)
  }

  /** Element (i, j) differs between a and b. */
  predicate Differs(a: seq<real>, b: seq<real>, i: nat, j: nat, dn: nat)
  {
    Flat(i, j, dn) < |a| && Flat(i, j, dn) < |b| && a[Flat(i, j, dn)] != b[Flat(i, j, dn)]
  }

  /** Some element (i, j') with j' < j differs between a and b. */
  ghost predicate RowMismatch(a: seq<real>, b: seq<real>, i: nat, j: nat, dn: nat)
  {
    exists j': nat :: j' < j && Differs(a, b, i, j', dn)
  }

  /** compare: true exactly when the leading dm x dn blocks differ somewhere. */
  method Compare(dm: nat, dn: nat, a: array<real>, b: array<real>) returns (result: bool)
    requires a.Length >= Cells(dm, dn) && b.Length >= Cells(dm, dn)
    ensures result <==> Mismatch(a[..], b[..], dm, dn)
  {
    result := false;
    for i := 0 to dm
      invariant result <==> Mismatch(a[..], b[..], i, dn)
    {
      for j := 0 to dn
        invariant result <==> Mismatch(a[..], b[..], i, dn) || RowMismatch(a[..], b[..], i, j, dn)
      {
        FlatBound(i, j, dm, dn);
        if a[Flat(i, j, dn)] != b[Flat(i, j, dn)] {
          result := true;
          assert Differs(a[..], b[..], i, j, dn);
        }
      }
      MismatchNextRow(a[..], b[..], i, dn);
    }
  }

  lemma MismatchNextRow(a: seq<real>, b: seq<real>, i: nat, dn: nat)
    ensures Mismatch(a, b, i + 1, dn) <==> Mismatch(a, b, i, dn) || RowMismatch(a, b, i, dn, dn)
  {
    if Mismatch(a, b, i + 1, dn) {
      var i': nat :| i' < i + 1 && RowMismatch(a, b, i', dn, dn);
      if i' < i {
        assert Mismatch(a, b, i, dn);
      }
    }
  }

  /** A matrix never differs from itself, so compare(a, a) is false. */
  lemma NoSelfMismatch(a: seq<real>, dm: nat, dn: nat)
    ensures !Mismatch(a, a, dm, dn)
  {
  }
}
