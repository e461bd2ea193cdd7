// The slice of the RISC-V "V" vector extension (version 1.0) that the
// strip-mined kernels use, at SEW=64 and LMUL=8: vsetvl, unit-stride and
// indexed loads, lane-wise arithmetic and the sum reductions. A vector
// register is a sequence of lanes; only the active lanes [0, vl) are given.
module Rvv {
  import opened Sums

  /** A vector unit: its VLMAX for SEW=64, LMUL=8 and the vl that its
      vsetvl returns for each application vector length (AVL). The choice
      is the implementation's, within the constraints below. */
  datatype VectorUnit = VectorUnit(vlmax: nat, setvl: nat -> nat)

  /** The constraints of section 6.3 of the RISC-V "V" extension 1.0 on
      vl = vsetvl(avl). */
  predicate VlConstraints(avl: nat, vlmax: nat, vl: nat)
  {
    && (avl <= vlmax ==> vl == avl)
    && (vlmax < avl < 2 * vlmax ==> (avl + 1) / 2 <= vl <= vlmax)
    && (2 * vlmax <= avl ==> vl == vlmax)
  }

  /** A unit with at least one lane whose vsetvl obeys section 6.3 for every
      AVL. The quantifier is only instantiated where a proof names the
      constraint for a particular AVL (VlBounds, Chunks). */
  ghost predicate Conforms(u: VectorUnit)
  {
    && u.vlmax >= 1
    && forall avl: nat {:trigger VlConstraints(avl, u.vlmax, u.setvl(avl))} :: VlConstraints(avl, u.vlmax, u.setvl(avl))
  }

  /** The vsetvl that always grants min(AVL, VLMAX). */
  function GreedyUnit(vlmax: nat): VectorUnit
  {
    VectorUnit(vlmax, avl => if avl <= vlmax then avl else vlmax)
  }

  lemma GreedyUnitConforms(vlmax: nat)
    requires vlmax >= 1
    ensures Conforms(GreedyUnit(vlmax))
  {
  }

  /** For a positive AVL, vsetvl grants 1 <= vl <= min(AVL, VLMAX). */
  lemma VlBounds(u: VectorUnit, avl: nat)
    requires Conforms(u) && avl >= 1
    ensures 1 <= u.setvl(avl) <= avl && u.setvl(avl) <= u.vlmax
  {
    assert VlConstraints(avl, u.vlmax, u.setvl(avl));
  }

  // ---------------------------------------------------------------------
  // The strip-mined loop `for (i = 0; i < n; i += vl) vl = vsetvl(n - i)`.

  /** The integers lo, lo+1, ..., hi-1 in increasing order. */
  function Range(lo: nat, hi: nat): (r: seq<nat>)
    requires lo <= hi
    ensures |r| == hi - lo && forall k :: 0 <= k < |r| ==> r[k] == lo + k
  {
    seq(hi - lo, k => lo + k)
  }

  /** The vl of every iteration of the strip-mined loop, from position i on. */
  ghost function Chunks(u: VectorUnit, i: nat, n: nat): seq<nat>
    requires Conforms(u)
    decreases n - i
  {
    if i >= n then []
    else
      var vl := u.setvl(n - i);
      assert VlConstraints(n - i, u.vlmax, vl);
      [vl] + Chunks(u, i + vl, n)
  }

  /** The element indices a loop starting at i touches, chunk after chunk. */
  ghost function Visited(i: nat, chunks: seq<nat>): seq<nat>
    decreases |chunks|
  {
    if chunks == [] then [] else Range(i, i + chunks[0]) + Visited(i + chunks[0], chunks[1..])
  }

  /** The strip-mined loop from i to n touches i, i+1, ..., n-1, each exactly
      once and in increasing order, in chunks of 1 to VLMAX lanes that never
      run past n. */
  lemma {:induction false} StripMineVisitsEachOnce(u: VectorUnit, i: nat, n: nat)
    requires Conforms(u) && i <= n
    ensures Visited(i, Chunks(u, i, n)) == Range(i, n)
    ensures forall k :: 0 <= k < |Chunks(u, i, n)| ==> 1 <= Chunks(u, i, n)[k] <= u.vlmax
    decreases n - i
  {
    if i < n {
      var vl := u.setvl(n - i);
      VlBounds(u, n - i);
      StripMineVisitsEachOnce(u, i + vl, n);
      var cs, rest := Chunks(u, i, n), Chunks(u, i + vl, n);
      assert cs == [vl] + rest;
      assert cs[0] == vl && cs[1..] == rest;
      RangeSplit(i, i + vl, n);
    }
  }

  /** A range splits at any point in between. */
  lemma RangeSplit(lo: nat, mid: nat, hi: nat)
    requires lo <= mid <= hi
    ensures Range(lo, mid) + Range(mid, hi) == Range(lo, hi)
  {
  }

  /** Each index below n occurs exactly once among the visited indices and
      no other index occurs. */
  lemma StripMineCountsOnce(u: VectorUnit, n: nat, k: nat)
    requires Conforms(u)
    ensures multiset(Visited(0, Chunks(u, 0, n)))[k] == if k < n then 1 else 0
  {
    StripMineVisitsEachOnce(u, 0, n);
    RangeCount(0, n, k);
  }

  lemma {:induction false} RangeCount(lo: nat, hi: nat, k: nat)
    requires lo <= hi
    ensures multiset(Range(lo, hi))[k] == if lo <= k < hi then 1 else 0
    decreases hi - lo
  {
    if lo < hi {
      assert Range(lo, hi) == [lo] + Range(lo + 1, hi);
      RangeCount(lo + 1, hi, k);
    } else {
      assert Range(lo, hi) == [];
    }
  }

  // ---------------------------------------------------------------------
  // Index scaling before an indexed load or store: `vsll.vx v, v, 3` turns
  // element indices into byte offsets of 8-byte elements, in the index
  // register's own width (2^32 for u32 lanes, 2^64 for u64 lanes).

  const ADDR32: nat := 0x1_0000_0000
  const ADDR64: nat := 0x1_0000_0000_0000_0000

  /** The element an indexed load or store reaches for index idx, once the
      shifted offset has wrapped modulo `modulus`. */
  function ScaledIndex(idx: nat, modulus: nat): nat
    requires modulus > 0
  {
    (idx * 8) % modulus / 8
  }

  /** The scaled index never exceeds the index, and equals it exactly when
      8 * idx does not wrap: for 32-bit indices, when idx < 2^29. */
  lemma ScaledIndexExact(idx: nat, modulus: nat)
    requires modulus > 0 && modulus % 8 == 0
    ensures ScaledIndex(idx, modulus) <= idx
    ensures ScaledIndex(idx, modulus) == idx <==> idx < modulus / 8
  {
    var x, w := idx * 8, modulus / 8;
    ModAtMost(x, modulus);
    DivEightAtMost(x % modulus, idx);
    if idx < w {
      ModBelowIdentity(x, modulus);
    } else {
      DivEightBelow(x % modulus, w);
    }
  }

  lemma ModBelowIdentity(x: nat, m: nat)
    requires x < m
    ensures x % m == x
  {
  }

  lemma ModAtMost(x: nat, m: nat)
    requires m > 0
    ensures x % m <= x
  {
  }

  lemma DivEightAtMost(a: nat, b: nat)
    requires a <= b * 8
    ensures a / 8 <= b
  {
  }

  lemma DivEightBelow(a: nat, b: nat)
    requires a < b * 8
    ensures a / 8 < b
  {
  }

  /** Index 2^29 wraps to element 0 in the 32-bit scaling. */
  lemma ScaledIndexWraps32()
    ensures ScaledIndex(0x2000_0000, ADDR32) == 0
  {
  }

  function ScaleAll(idx: seq<nat>, modulus: nat): (r: seq<nat>)
    requires modulus > 0
    ensures |r| == |idx|
  {
    seq(|idx|, l requires 0 <= l < |idx| => ScaledIndex(idx[l], modulus))
  }

  // ---------------------------------------------------------------------
  // Lane operations over the active lanes [0, vl).

  /** vle64 / vle32: unit-stride load of vl elements starting at off. */
  function Vle<T>(a: seq<T>, off: nat, vl: nat): (v: seq<T>)
    requires off + vl <= |a|
    ensures |v| == vl
  {
    a[off..off + vl]
  }

  /** vsll.vx by 3: element indices to byte offsets, wrapping at `modulus`. */
  function Vsll3(idx: seq<nat>, modulus: nat): (v: seq<nat>)
    requires modulus > 0
    ensures |v| == |idx|
  {
    seq(|idx|, l requires 0 <= l < |idx| => (idx[l] * 8) % modulus)
  }

  /** vluxei: indexed (gather) load of 8-byte elements at the byte offsets. */
  function Vluxei(x: seq<real>, offsets: seq<nat>): (v: seq<real>)
    requires forall l :: 0 <= l < |offsets| ==> offsets[l] / 8 < |x|
    ensures |v| == |offsets|
  {
    seq(|offsets|, l requires 0 <= l < |offsets| => x[offsets[l] / 8])
  }

  /** vfmul.vv */
  function Vfmul(a: seq<real>, b: seq<real>): (v: seq<real>)
    requires |a| == |b|
    ensures |v| == |a|
  {
    seq(|a|, l requires 0 <= l < |a| => a[l] * b[l])
  }

  /** vfadd.vv */
  function Vfadd(a: seq<real>, b: seq<real>): (v: seq<real>)
    requires |a| == |b|
    ensures |v| == |a|
  {
    seq(|a|, l requires 0 <= l < |a| => a[l] + b[l])
  }

  /** vfsub.vv */
  function Vfsub(a: seq<real>, b: seq<real>): (v: seq<real>)
    requires |a| == |b|
    ensures |v| == |a|
  {
    seq(|a|, l requires 0 <= l < |a| => a[l] - b[l])
  }

  /** vfmacc.vf: acc + s * b on the active lanes. */
  function VfmaccScalar(acc: seq<real>, s: real, b: seq<real>): (v: seq<real>)
    requires |acc| == |b|
    ensures |v| == |acc|
  {
    seq(|acc|, l requires 0 <= l < |acc| => acc[l] + s * b[l])
  }

  /** vfmacc.vv on a register of |acc| lanes with vl = |a| active lanes:
      active lanes gain a * b, the tail lanes are left undisturbed. */
  function Vfmacc(acc: seq<real>, a: seq<real>, b: seq<real>): (v: seq<real>)
    requires |a| == |b| <= |acc|
    ensures |v| == |acc|
  {
    seq(|acc|, l requires 0 <= l < |acc| => if l < |a| then acc[l] + a[l] * b[l] else acc[l])
  }

  /** vfredosum / vfredusum: lane 0 of the scalar operand plus every active
      lane. In exact arithmetic the ordered and unordered forms agree. */
  function Vfredsum(v: seq<real>, init: real): real
  {
    init + Sum(v)
  }

  /** A multiply-accumulate into the lanes adds exactly the chunk's products
      to the sum of all lanes. */
  lemma VfmaccSum(acc: seq<real>, a: seq<real>, b: seq<real>)
    requires |a| == |b| <= |acc|
    ensures Sum(Vfmacc(acc, a, b)) == Sum(acc) + Sum(Vfmul(a, b))
  {
    var pad := Vfmul(a, b) + Zeros(|acc| - |a|);
    SumPointwise(Vfmacc(acc, a, b), acc, pad);
    SumConcat(Vfmul(a, b), Zeros(|acc| - |a|));
    SumZeros(Zeros(|acc| - |a|));
  }

  // ---------------------------------------------------------------------
  // Stores.

  /** vse64: unit-stride store of v at position off; nothing else changes. */
  function Vse(a: seq<real>, off: nat, v: seq<real>): (r: seq<real>)
    requires off + |v| <= |a|
    ensures |r| == |a|
  {
    a[..off] + v + a[off + |v|..]
  }

  /** vsoxei: indexed-ordered (scatter) store of 8-byte elements at the byte
      offsets, lane after lane, so a later lane wins a repeated offset. */
  function Vsoxei(x: seq<real>, offsets: seq<nat>, v: seq<real>): (r: seq<real>)
    requires |offsets| == |v|
    requires forall l :: 0 <= l < |offsets| ==> offsets[l] / 8 < |x|
    ensures |r| == |x|
    decreases |v|
  {
    if |v| == 0 then x
    else
      var n := |v| - 1;
      Vsoxei(x, offsets[..n], v[..n])[offsets[n] / 8 := v[n]]
  }

  /** An ordered scatter leaves every element no lane addresses alone and,
      when no two lanes address the same element, writes lane l's value at
      lane l's element. */
  lemma {:induction false} VsoxeiAt(x: seq<real>, offsets: seq<nat>, v: seq<real>)
    requires |offsets| == |v|
    requires forall l :: 0 <= l < |offsets| ==> offsets[l] / 8 < |x|
    ensures forall f :: 0 <= f < |x| && (forall l :: 0 <= l < |offsets| ==> offsets[l] / 8 != f) ==>
              Vsoxei(x, offsets, v)[f] == x[f]
    ensures (forall a, b :: 0 <= a < b < |offsets| ==> offsets[a] / 8 != offsets[b] / 8) ==>
              forall l :: 0 <= l < |offsets| ==> Vsoxei(x, offsets, v)[offsets[l] / 8] == v[l]
    decreases |v|
  {
    if |v| > 0 {
      var n := |v| - 1;
      VsoxeiAt(x, offsets[..n], v[..n]);
    }
  }

  /** The memory effect of vsoxei32 on an array. */
  method StoreIndexedOrdered(x: array<real>, offsets: seq<nat>, v: seq<real>)
    requires |offsets| == |v|
    requires forall l :: 0 <= l < |offsets| ==> offsets[l] / 8 < x.Length
    modifies x
    ensures x[..] == Vsoxei(old(x[..]), offsets, v)
  {
    for l := 0 to |v|
      invariant x[..] == Vsoxei(old(x[..]), offsets[..l], v[..l])
    {
      assert offsets[..l + 1][..l] == offsets[..l] && v[..l + 1][..l] == v[..l];
      x[offsets[l] / 8] := v[l];
    }
    assert offsets[..|v|] == offsets && v[..|v|] == v;
  }
}
