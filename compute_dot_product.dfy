// ComputeDotProduct_ref: the dot product of the first n entries of x and y,
// on one process (no MPI reduction). The scalar path has a separate loop
// for x and y being the same vector; so has the RVV path, which accumulates
// lane-wise products with vfmacc and reduces the lanes once at the end.
module ComputeDotProduct {
  import opened Sums
  import opened Rvv

  /** The number of iterations of `for (i = 0; i < n; ...)` for a signed n. */
  function Count(n: int): (c: nat)
    ensures n <= 0 ==> c == 0
    ensures n > 0 ==> c == n
  {
    if n < 0 then 0 else n
  }

  /** The products x[i] * y[i] for i < m. */
  function Products(x: seq<real>, y: seq<real>, m: nat): (p: seq<real>)
    requires m <= |x| && m <= |y|
    ensures |p| == m && forall i :: 0 <= i < m ==> p[i] == x[i] * y[i]
  {
    seq(m, i requires 0 <= i < m => x[i] * y[i])
  }

  /** The dot product of the first n entries (zero when n <= 0). */
  function Dot(x: seq<real>, y: seq<real>, n: int): real
    requires n <= |x| && n <= |y|
  {
    Sum(Products(x, y, Count(n)))
  }

  /** ComputeDotProduct_ref, scalar path. On a single process the reduction
      is the identity and the communication time grows by 0.0. */
  method DotProductScalar(n: int, x: array<real>, y: array<real>, timeAllreduce: real)
    returns (status: int, result: real, time: real)
    requires n <= x.Length && n <= y.Length
    ensures status == 0 && time == timeAllreduce
    ensures result == Dot(x[..], y[..], n)
  {
    ghost var p := Products(x[..], y[..], Count(n));
    var localResult := 0.0;
    if x == y {
      for i := 0 to Count(n)
        invariant localResult == Sum(p[..i])
      {
        SumPrefixStep(p, i);
        localResult := localResult + x[i] * x[i];
      }
    } else {
      for i := 0 to Count(n)
        invariant localResult == Sum(p[..i])
      {
        SumPrefixStep(p, i);
        localResult := localResult + x[i] * y[i];
      }
    }
    assert p[..Count(n)] == p;
    time := timeAllreduce + 0.0;
    result := localResult;
    status := 0;
  }

  /** One chunk of the RVV loop: load vl entries of x and y at i (vle64) and
      multiply-accumulate them into lanes 0..vl-1 (vfmacc). */
  function ChunkStep(lanes: seq<real>, x: seq<real>, y: seq<real>, i: nat, vl: nat): (l: seq<real>)
    requires i + vl <= |x| && i + vl <= |y| && vl <= |lanes|
    ensures |l| == |lanes|
  {
    Vfmacc(lanes, Vle(x, i, vl), Vle(y, i, vl))
  }

  /** A chunk's lane-wise products are the products i..i+vl-1. */
  lemma ChunkProductsAreProducts(x: seq<real>, y: seq<real>, i: nat, vl: nat, m: nat)
    requires i + vl <= m <= |x| && m <= |y|
    ensures Vfmul(Vle(x, i, vl), Vle(y, i, vl)) == Products(x, y, m)[i..i + vl]
  {
    var v, p := Vfmul(Vle(x, i, vl), Vle(y, i, vl)), Products(x, y, m)[i..i + vl];
    forall l | 0 <= l < vl ensures v[l] == p[l] {
    }
  }

  /** A chunk adds exactly the products i..i+vl-1 to the sum of the lanes. */
  lemma ChunkStepSum(lanes: seq<real>, x: seq<real>, y: seq<real>, i: nat, vl: nat, m: nat)
    requires i + vl <= m <= |x| && m <= |y| && vl <= |lanes|
    ensures Sum(ChunkStep(lanes, x, y, i, vl)) == Sum(lanes) + Sum(Products(x, y, m)[i..i + vl])
  {
    VfmaccSum(lanes, Vle(x, i, vl), Vle(y, i, vl));
    ChunkProductsAreProducts(x, y, i, vl, m);
  }

  /** The accumulator lanes once the strip-mined loop has run from i to m. */
  ghost function LanesAfter(u: VectorUnit, lanes: seq<real>, x: seq<real>, y: seq<real>, i: nat, m: nat)
    : (l: seq<real>)
    requires Conforms(u) && |lanes| == u.vlmax && m <= |x| && m <= |y|
    ensures |l| == u.vlmax
    decreases m - i
  {
    if i >= m then lanes
    else
      var vl := u.setvl(m - i);
      VlBounds(u, m - i);
      LanesAfter(u, ChunkStep(lanes, x, y, i, vl), x, y, i + vl, m)
  }

  /** One turn of the loop advances the lanes by one chunk. */
  lemma LanesAfterStep(u: VectorUnit, lanes: seq<real>, x: seq<real>, y: seq<real>, i: nat, m: nat)
    requires Conforms(u) && |lanes| == u.vlmax && i < m <= |x| && m <= |y|
    ensures 1 <= u.setvl(m - i) <= m - i && u.setvl(m - i) <= u.vlmax
    ensures LanesAfter(u, lanes, x, y, i, m)
         == LanesAfter(u, ChunkStep(lanes, x, y, i, u.setvl(m - i)), x, y, i + u.setvl(m - i), m)
  {
    VlBounds(u, m - i);
  }

  /** The sums of the chunks the strip-mined loop cuts t[i..] into, chunk
      by chunk. */
  ghost function ChunkSums(u: VectorUnit, t: seq<real>, i: nat): real
    requires Conforms(u)
    decreases |t| - i
  {
    if i >= |t| then 0.0
    else
      var vl := u.setvl(|t| - i);
      VlBounds(u, |t| - i);
      Sum(t[i..i + vl]) + ChunkSums(u, t, i + vl)
  }

  /** However vsetvl cuts t[i..] into chunks, the chunks' sums add up to
      the sum of t[i..]. */
  lemma {:induction false} ChunkSumsIsSum(u: VectorUnit, t: seq<real>, i: nat)
    requires Conforms(u) && i <= |t|
    ensures ChunkSums(u, t, i) == Sum(t[i..])
    decreases |t| - i
  {
    if i == |t| {
      assert t[i..] == [];
    } else {
      var vl := u.setvl(|t| - i);
      VlBounds(u, |t| - i);
      ChunkSumsIsSum(u, t, i + vl);
      SumSuffixSplit(t, i, i + vl);
    }
  }

  /** Lanes 0..|c|-1 gain c, the rest are left undisturbed. */
  function AddLeading(lanes: seq<real>, c: seq<real>): (l: seq<real>)
    requires |c| <= |lanes|
    ensures |l| == |lanes|
  {
    seq(|lanes|, k requires 0 <= k < |lanes| => if k < |c| then lanes[k] + c[k] else lanes[k])
  }

  lemma AddLeadingSum(lanes: seq<real>, c: seq<real>)
    requires |c| <= |lanes|
    ensures Sum(AddLeading(lanes, c)) == Sum(lanes) + Sum(c)
  {
    var pad := c + Zeros(|lanes| - |c|);
    SumPointwise(AddLeading(lanes, c), lanes, pad);
    SumConcat(c, Zeros(|lanes| - |c|));
    SumZeros(Zeros(|lanes| - |c|));
  }

  /** The lanes after adding t[i..] chunk by chunk, as vsetvl cuts it. */
  ghost function AddChunks(u: VectorUnit, lanes: seq<real>, t: seq<real>, i: nat): (l: seq<real>)
    requires Conforms(u) && |lanes| == u.vlmax
    ensures |l| == u.vlmax
    decreases |t| - i
  {
    if i >= |t| then lanes
    else
      var vl := u.setvl(|t| - i);
      VlBounds(u, |t| - i);
      AddChunks(u, AddLeading(lanes, t[i..i + vl]), t, i + vl)
  }

  /** Adding chunk by chunk adds each chunk's sum to the lanes' sum. */
  lemma {:induction false} AddChunksSum(u: VectorUnit, lanes: seq<real>, t: seq<real>, i: nat)
    requires Conforms(u) && |lanes| == u.vlmax
    ensures Sum(AddChunks(u, lanes, t, i)) == Sum(lanes) + ChunkSums(u, t, i)
    decreases |t| - i
  {
    if i < |t| {
      var vl := u.setvl(|t| - i);
      VlBounds(u, |t| - i);
      AddLeadingSum(lanes, t[i..i + vl]);
      AddChunksSum(u, AddLeading(lanes, t[i..i + vl]), t, i + vl);
    }
  }

  /** One vfmacc chunk adds the products i..i+vl-1 to the leading lanes. */
  lemma ChunkStepAdds(lanes: seq<real>, x: seq<real>, y: seq<real>, i: nat, vl: nat, m: nat)
    requires i + vl <= m <= |x| && m <= |y| && vl <= |lanes|
    ensures ChunkStep(lanes, x, y, i, vl) == AddLeading(lanes, Products(x, y, m)[i..i + vl])
  {
    var s, a := ChunkStep(lanes, x, y, i, vl), AddLeading(lanes, Products(x, y, m)[i..i + vl]);
    forall k | 0 <= k < |lanes| ensures s[k] == a[k] {
    }
  }

  /** The strip-mined vfmacc loop adds the products chunk by chunk. */
  lemma {:induction false} LanesAfterAddsChunks(u: VectorUnit, lanes: seq<real>, x: seq<real>, y: seq<real>, i: nat, m: nat)
    requires Conforms(u) && |lanes| == u.vlmax && i <= m <= |x| && m <= |y|
    ensures LanesAfter(u, lanes, x, y, i, m) == AddChunks(u, lanes, Products(x, y, m), i)
    decreases m - i
  {
    if i < m {
      var vl := u.setvl(m - i);
      VlBounds(u, m - i);
      ChunkStepAdds(lanes, x, y, i, vl, m);
      LanesAfterAddsChunks(u, ChunkStep(lanes, x, y, i, vl), x, y, i + vl, m);
    }
  }

  /** Whatever the chunking, the lanes end up holding their initial sum plus
      every remaining product exactly once. */
  lemma LanesAfterSum(u: VectorUnit, lanes: seq<real>, x: seq<real>, y: seq<real>, i: nat, m: nat)
    requires Conforms(u) && |lanes| == u.vlmax && i <= m <= |x| && m <= |y|
    ensures Sum(LanesAfter(u, lanes, x, y, i, m)) == Sum(lanes) + Sum(Products(x, y, m)[i..])
  {
    LanesAfterAddsChunks(u, lanes, x, y, i, m);
    AddChunksSum(u, lanes, Products(x, y, m), i);
    ChunkSumsIsSum(u, Products(x, y, m), i);
  }

  /** The RVV loop for x and y at the same address: one load per chunk,
      squared into the lanes. */
  method AccumulateSquares(u: VectorUnit, n: int, x: array<real>, lanes0: seq<real>) returns (lanes: seq<real>)
    requires Conforms(u) && n <= x.Length && |lanes0| == u.vlmax
    ensures lanes == LanesAfter(u, lanes0, x[..], x[..], 0, Count(n))
  {
    ghost var m, xs := Count(n), x[..];
    ghost var target := LanesAfter(u, lanes0, xs, xs, 0, m);
    lanes := lanes0;
    var i: nat := 0;
    while i < n
      invariant i <= m
      invariant |lanes| == u.vlmax
      invariant LanesAfter(u, lanes, xs, xs, i, m) == target
    {
      var vl := u.setvl(n - i);
      assert vl == u.setvl(m - i);
      LanesAfterStep(u, lanes, xs, xs, i, m);
      lanes := ChunkStep(lanes, x[..], x[..], i, vl);
      i := i + vl;
    }
  }

  /** The RVV loop for distinct x and y: two loads per chunk. */
  method AccumulateProducts(u: VectorUnit, n: int, x: array<real>, y: array<real>, lanes0: seq<real>)
    returns (lanes: seq<real>)
    requires Conforms(u) && n <= x.Length && n <= y.Length && |lanes0| == u.vlmax
    ensures lanes == LanesAfter(u, lanes0, x[..], y[..], 0, Count(n))
  {
    ghost var m, xs, ys := Count(n), x[..], y[..];
    ghost var target := LanesAfter(u, lanes0, xs, ys, 0, m);
    lanes := lanes0;
    var i: nat := 0;
    while i < n
      invariant i <= m
      invariant |lanes| == u.vlmax
      invariant LanesAfter(u, lanes, xs, ys, i, m) == target
    {
      var vl := u.setvl(n - i);
      assert vl == u.setvl(m - i);
      LanesAfterStep(u, lanes, xs, ys, i, m);
      lanes := ChunkStep(lanes, x[..], y[..], i, vl);
      i := i + vl;
    }
  }

  /** ComputeDotProduct_ref, RVV path, with every accumulator lane cleared
      before the loop (vfmv.v.f): equal to the scalar dot product for every
      conforming vsetvl, with the lanes reduced once at the end. */
  method DotProductVector(u: VectorUnit, n: int, x: array<real>, y: array<real>, timeAllreduce: real)
    returns (status: int, result: real, time: real)
    requires Conforms(u) && n <= x.Length && n <= y.Length
    ensures status == 0 && time == timeAllreduce
    ensures result == Dot(x[..], y[..], n)
  {
    var lanes0 := Zeros(u.vlmax);
    var lanes;
    if x == y {
      lanes := AccumulateSquares(u, n, x, lanes0);
    } else {
      lanes := AccumulateProducts(u, n, x, y, lanes0);
    }
    ghost var p := Products(x[..], y[..], Count(n));
    LanesAfterSum(u, lanes0, x[..], y[..], 0, Count(n));
    SumZeros(lanes0);
    assert p[0..] == p;
    result := Vfredsum(lanes, 0.0);
    time := timeAllreduce + 0.0;
    status := 0;
  }

  /** The accumulator as written: vfmv.s.f sets lane 0 to 0.0 and leaves
      lanes 1..VLMAX-1 holding whatever the register held before. */
  function AccumulatorAsWritten(stale: seq<real>): (acc: seq<real>)
    ensures |acc| == |stale| + 1 && acc[0] == 0.0 && acc[1..] == stale
  {
    [0.0] + stale
  }

  /** For every n, the reduction of the accumulator as written adds the
      stale lanes to the dot product: the result is x . y only when the
      stale lanes happen to sum to zero. */
  lemma AsWrittenAddsStale(u: VectorUnit, stale: seq<real>, x: seq<real>, y: seq<real>, n: int)
    requires Conforms(u) && |stale| + 1 == u.vlmax && n <= |x| && n <= |y|
    ensures Vfredsum(LanesAfter(u, AccumulatorAsWritten(stale), x, y, 0, Count(n)), 0.0)
         == Sum(stale) + Dot(x, y, n)
  {
    var p := Products(x, y, Count(n));
    LanesAfterSum(u, AccumulatorAsWritten(stale), x, y, 0, Count(n));
    SumConcat([0.0], stale);
    SumSingle([0.0], 0);
    assert p[0..] == p;
  }

  /** With VLMAX = 2 and n = 1, lane 1 is never written by the loop but is
      summed by the final reduction over VLMAX lanes: a stale 5.0 there turns
      x . y = 1.0 into 6.0. */
  lemma StaleLaneCounterexample()
    ensures var u := GreedyUnit(2);
      && Conforms(u)
      && Dot([1.0], [1.0], 1) == 1.0
      && Vfredsum(LanesAfter(u, AccumulatorAsWritten([5.0]), [1.0], [1.0], 0, 1), 0.0) == 6.0
  {
    var u := GreedyUnit(2);
    GreedyUnitConforms(2);
    LanesAfterSum(u, AccumulatorAsWritten([5.0]), [1.0], [1.0], 0, 1);
    assert Products([1.0], [1.0], 1) == [1.0];
    SumSingle([1.0], 0);
    SumSingle([0.0, 5.0], 1);
  }

  // ---------------------------------------------------------------------
  // Properties of the dot product.

  /** x . x is never negative. */
  lemma DotSelfNonNegative(x: seq<real>, n: int)
    requires n <= |x|
    ensures Dot(x, x, n) >= 0.0
  {
    SumNonNegative(Products(x, x, Count(n)));
  }

  /** x . y == y . x */
  lemma DotSymmetric(x: seq<real>, y: seq<real>, n: int)
    requires n <= |x| && n <= |y|
    ensures Dot(x, y, n) == Dot(y, x, n)
  {
    assert Products(x, y, Count(n)) == Products(y, x, Count(n));
  }

  /** The dot product reads only the first n entries of each vector. */
  lemma DotPrefix(x: seq<real>, y: seq<real>, x': seq<real>, y': seq<real>, n: int)
    requires n <= |x| && n <= |y| && n <= |x'| && n <= |y'|
    requires x[..Count(n)] == x'[..Count(n)] && y[..Count(n)] == y'[..Count(n)]
    ensures Dot(x, y, n) == Dot(x', y', n)
  {
    var m := Count(n);
    var p, p' := Products(x, y, m), Products(x', y', m);
    forall i | 0 <= i < m ensures p[i] == p'[i] {
      assert x[..m][i] == x[i] && x'[..m][i] == x'[i];
      assert y[..m][i] == y[i] && y'[..m][i] == y'[i];
    }
    assert p == p';
  }

  /** Adding one more entry adds its product. */
  lemma DotStep(x: seq<real>, y: seq<real>, n: nat)
    requires n < |x| && n < |y|
    ensures Dot(x, y, n + 1) == Dot(x, y, n) + x[n] * y[n]
  {
    assert Products(x, y, n + 1)[..n] == Products(x, y, n);
  }

  /** [3.0] . [3.0] over one entry is 9.0. */
  lemma DotExample()
    ensures Dot([3.0], [3.0], 1) == 9.0
  {
    assert Products([3.0], [3.0], 1) == [9.0];
    SumSingle([9.0], 0);
  }
}
