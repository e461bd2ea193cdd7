// The two inter-grid transfers of HPCG's multigrid preconditioner.
// ComputeRestriction_ref injects the fine-grid residual rf - Axf at the
// fine points that have a coarse counterpart into rc; ComputeProlongation_ref
// adds the coarse correction xc back at those fine points. Both index the
// fine grid through f2c, the fine index of each coarse point.
module Multigrid {
  import opened Sums
  import opened Rvv

  /** The multigrid data of one level: the coarse-to-fine injection, the
      coarse residual and correction, and A * xf on the fine grid. The
      pointers never change; the kernels write the arrays' contents. */
  class MgData {
    const f2c: array<nat>
    const rc: array<real>
    const xc: array<real>
    const Axf: array<real>

    /** One injection entry per coarse point, and distinct vectors. */
    predicate Valid()
      reads this
    {
      && f2c.Length == rc.Length && rc.Length <= xc.Length
      && rc != xc && rc != Axf && xc != Axf
    }

    /** nc, the number of coarse points (rc's local length). */
    function Nc(): nat
      reads this
    {
      rc.Length
    }

    constructor (f2c: array<nat>, rc: array<real>, xc: array<real>, Axf: array<real>)
      requires f2c.Length == rc.Length && rc.Length <= xc.Length
      requires rc != xc && rc != Axf && xc != Axf
      ensures this.f2c == f2c && this.rc == rc && this.xc == xc && this.Axf == Axf
      ensures Valid()
    {
      this.f2c, this.rc, this.xc, this.Axf := f2c, rc, xc, Axf;
    }
  }

  /** The first n indices are below `bound`. */
  predicate IndicesBelow(idx: seq<nat>, n: nat, bound: nat)
    requires n <= |idx|
  {
    forall i :: 0 <= i < n ==> idx[i] < bound
  }

  /** No two of idx[lo..hi] are equal. */
  predicate DistinctOn(idx: seq<nat>, lo: nat, hi: nat)
    requires lo <= hi <= |idx|
  {
    forall a, b :: lo <= a < b < hi ==> idx[a] != idx[b]
  }

  // ---------------------------------------------------------------------
  // Restriction.

  /** rc[i] = rf[f2c[i]] - Axf[f2c[i]] for each coarse point i < nc. */
  function Restrict(rf: seq<real>, axf: seq<real>, f2c: seq<nat>, nc: nat): (rc: seq<real>)
    requires nc <= |f2c| && IndicesBelow(f2c, nc, |rf|) && IndicesBelow(f2c, nc, |axf|)
    ensures |rc| == nc
  {
    seq(nc, i requires 0 <= i < nc => rf[f2c[i]] - axf[f2c[i]])
  }

  /** ComputeRestriction_ref, scalar path: writes all of rc and nothing else. */
  method Restriction(mg: MgData, rf: array<real>) returns (status: int)
    requires mg.Valid() && rf != mg.rc
    requires IndicesBelow(mg.f2c[..], mg.Nc(), rf.Length) && IndicesBelow(mg.f2c[..], mg.Nc(), mg.Axf.Length)
    modifies mg.rc
    ensures status == 0
    ensures mg.rc[..] == Restrict(rf[..], mg.Axf[..], mg.f2c[..], mg.Nc())
  {
    var f2c, rc, axf, nc := mg.f2c, mg.rc, mg.Axf, mg.Nc();
    ghost var R := Restrict(rf[..], axf[..], f2c[..], nc);
    for i := 0 to nc
      invariant forall k :: 0 <= k < i ==> rc[k] == R[k]
    {
      rc[i] := rf[f2c[i]] - axf[f2c[i]];
    }
    return 0;
  }

  /** One chunk of the RVV restriction: load vl injection entries (vle32),
      shift them to byte offsets in 32-bit lanes (vsll), gather rf and Axf
      (vluxei32) and subtract (vfsub). */
  function RestrictChunk(rf: seq<real>, axf: seq<real>, f2c: seq<nat>, i: nat, vl: nat): (v: seq<real>)
    requires i + vl <= |f2c| && IndicesBelow(f2c, i + vl, |rf|) && IndicesBelow(f2c, i + vl, |axf|)
    ensures |v| == vl
  {
    var offsets := Vsll3(Vle(f2c, i, vl), ADDR32);
    ChunkOffsetsBelow(f2c, i, vl, |rf|);
    ChunkOffsetsBelow(f2c, i, vl, |axf|);
    Vfsub(Vluxei(rf, offsets), Vluxei(axf, offsets))
  }

  /** A chunk computes the restriction through the scaled injection at
      coarse points i..i+vl-1. */
  lemma RestrictChunkIsRestrict(rf: seq<real>, axf: seq<real>, f2c: seq<nat>, i: nat, vl: nat)
    requires i + vl <= |f2c| && IndicesBelow(f2c, i + vl, |rf|) && IndicesBelow(f2c, i + vl, |axf|)
    ensures IndicesBelow(ScaleAll(f2c, ADDR32), i + vl, |rf|) && IndicesBelow(ScaleAll(f2c, ADDR32), i + vl, |axf|)
    ensures forall l :: 0 <= l < vl ==>
      RestrictChunk(rf, axf, f2c, i, vl)[l] == Restrict(rf, axf, ScaleAll(f2c, ADDR32), i + vl)[i + l]
  {
    ScaleAllBelow(f2c, i + vl, |rf|);
    ScaleAllBelow(f2c, i + vl, |axf|);
    ChunkOffsetsBelow(f2c, i, vl, |rf|);
  }

  /** Scaled injection entries stay in range. */
  lemma ScaleAllBelow(f2c: seq<nat>, n: nat, bound: nat)
    requires n <= |f2c| && IndicesBelow(f2c, n, bound)
    ensures IndicesBelow(ScaleAll(f2c, ADDR32), n, bound)
  {
    forall i | 0 <= i < n ensures ScaleAll(f2c, ADDR32)[i] < bound {
      ScaledIndexExact(f2c[i], ADDR32);
    }
  }

  /** Below 2^29 the scaled injection is the injection itself. */
  lemma ScaleAllExact(f2c: seq<nat>, n: nat)
    requires n <= |f2c| && IndicesBelow(f2c, n, ADDR32 / 8)
    ensures forall i :: 0 <= i < n ==> ScaleAll(f2c, ADDR32)[i] == f2c[i]
  {
    forall i | 0 <= i < n ensures ScaleAll(f2c, ADDR32)[i] == f2c[i] {
      ScaledIndexExact(f2c[i], ADDR32);
    }
  }

  /** ComputeRestriction_ref, RVV path: the restriction through the
      32-bit-scaled injection, which is the scalar restriction whenever every
      injection entry is below 2^29. */
  method RestrictionVector(u: VectorUnit, mg: MgData, rf: array<real>) returns (status: int)
    requires Conforms(u) && mg.Valid() && rf != mg.rc
    requires IndicesBelow(mg.f2c[..], mg.Nc(), rf.Length) && IndicesBelow(mg.f2c[..], mg.Nc(), mg.Axf.Length)
    modifies mg.rc
    ensures status == 0
    ensures mg.rc[..] == Restrict(rf[..], mg.Axf[..], ScaleAll(mg.f2c[..], ADDR32), mg.Nc())
    ensures IndicesBelow(mg.f2c[..], mg.Nc(), ADDR32 / 8) ==>
              mg.rc[..] == Restrict(rf[..], mg.Axf[..], mg.f2c[..], mg.Nc())
  {
    var f2c, rc, axf, nc := mg.f2c, mg.rc, mg.Axf, mg.Nc();
    ghost var idx := ScaleAll(f2c[..], ADDR32);
    ScaleAllBelow(f2c[..], nc, rf.Length);
    ScaleAllBelow(f2c[..], nc, axf.Length);
    ghost var R := Restrict(rf[..], axf[..], idx, nc);
    var i := 0;
    while i < nc
      invariant i <= nc
      invariant forall k :: 0 <= k < i ==> rc[k] == R[k]
    {
      var vl := u.setvl(nc - i);
      VlBounds(u, nc - i);
      var result := RestrictChunk(rf[..], axf[..], f2c[..], i, vl);
      RestrictChunkIsRestrict(rf[..], axf[..], f2c[..], i, vl);
      RestrictPrefix(rf[..], axf[..], idx, i + vl, nc);
      forall l | 0 <= l < vl {
        rc[i + l] := result[l];
      }
      i := i + vl;
    }
    assert rc[..] == R;
    if IndicesBelow(f2c[..], nc, ADDR32 / 8) {
      ScaleAllExact(f2c[..], nc);
    }
    return 0;
  }

  /** Restricting fewer coarse points gives a prefix of the result. */
  lemma RestrictPrefix(rf: seq<real>, axf: seq<real>, f2c: seq<nat>, k: nat, nc: nat)
    requires k <= nc <= |f2c| && IndicesBelow(f2c, nc, |rf|) && IndicesBelow(f2c, nc, |axf|)
    ensures Restrict(rf, axf, f2c, k) == Restrict(rf, axf, f2c, nc)[..k]
  {
  }

  /** Restriction reads the fine vectors only at the injected points. */
  lemma RestrictLocal(rf: seq<real>, axf: seq<real>, rf': seq<real>, axf': seq<real>, f2c: seq<nat>, nc: nat)
    requires nc <= |f2c| && IndicesBelow(f2c, nc, |rf|) && IndicesBelow(f2c, nc, |axf|)
    requires IndicesBelow(f2c, nc, |rf'|) && IndicesBelow(f2c, nc, |axf'|)
    requires forall i :: 0 <= i < nc ==> rf[f2c[i]] == rf'[f2c[i]] && axf[f2c[i]] == axf'[f2c[i]]
    ensures Restrict(rf, axf, f2c, nc) == Restrict(rf', axf', f2c, nc)
  {
  }

  /** A fine residual that vanishes at the injected points restricts to zero. */
  lemma RestrictZeroResidual(rf: seq<real>, axf: seq<real>, f2c: seq<nat>, nc: nat)
    requires nc <= |f2c| && IndicesBelow(f2c, nc, |rf|) && IndicesBelow(f2c, nc, |axf|)
    requires forall i :: 0 <= i < nc ==> rf[f2c[i]] == axf[f2c[i]]
    ensures Restrict(rf, axf, f2c, nc) == Zeros(nc)
  {
  }

  // ---------------------------------------------------------------------
  // Prolongation.

  /** xf after the additions xf[idx[i]] += xc[i] for lo <= i < hi, in order. */
  function AddRange(xf: seq<real>, xc: seq<real>, idx: seq<nat>, lo: nat, hi: nat): (r: seq<real>)
    requires lo <= hi <= |idx| && hi <= |xc| && IndicesBelow(idx, hi, |xf|)
    ensures |r| == |xf|
    decreases hi
  {
    if hi == lo then xf
    else
      var p := AddRange(xf, xc, idx, lo, hi - 1);
      p[idx[hi - 1] := p[idx[hi - 1]] + xc[hi - 1]]
  }

  /** The prolongation: xf[f2c[i]] += xc[i] for every coarse point i < nc. */
  function Prolongate(xf: seq<real>, xc: seq<real>, f2c: seq<nat>, nc: nat): (r: seq<real>)
    requires nc <= |f2c| && nc <= |xc| && IndicesBelow(f2c, nc, |xf|)
    ensures |r| == |xf|
  {
    AddRange(xf, xc, f2c, 0, nc)
  }

  /** What the additions lo..hi-1 add to fine point f. */
  function AddedAt(xc: seq<real>, idx: seq<nat>, lo: nat, hi: nat, f: nat): real
    requires lo <= hi <= |idx| && hi <= |xc|
    decreases hi
  {
    if hi == lo then 0.0
    else AddedAt(xc, idx, lo, hi - 1, f) + (if idx[hi - 1] == f then xc[hi - 1] else 0.0)
  }

  /** Every fine point ends up with its old value plus the coarse values of
      all coarse points injected into it. */
  lemma {:induction false} AddRangeAt(xf: seq<real>, xc: seq<real>, idx: seq<nat>, lo: nat, hi: nat)
    requires lo <= hi <= |idx| && hi <= |xc| && IndicesBelow(idx, hi, |xf|)
    ensures forall f :: 0 <= f < |xf| ==> AddRange(xf, xc, idx, lo, hi)[f] == xf[f] + AddedAt(xc, idx, lo, hi, f)
    decreases hi
  {
    if hi > lo {
      AddRangeAt(xf, xc, idx, lo, hi - 1);
    }
  }

  /** With distinct indices, point idx[j] receives exactly xc[j] and a point
      outside idx[lo..hi] receives nothing. */
  lemma {:induction false} AddedAtDistinct(xc: seq<real>, idx: seq<nat>, lo: nat, hi: nat)
    requires lo <= hi <= |idx| && hi <= |xc| && DistinctOn(idx, lo, hi)
    ensures forall j :: lo <= j < hi ==> AddedAt(xc, idx, lo, hi, idx[j]) == xc[j]
    ensures forall f: nat :: (forall j :: lo <= j < hi ==> idx[j] != f) ==> AddedAt(xc, idx, lo, hi, f) == 0.0
    decreases hi
  {
    if hi > lo {
      AddedAtDistinct(xc, idx, lo, hi - 1);
    }
  }

  /** Additions lo..hi-1 through distinct indices: point idx[j] gains xc[j],
      every point outside idx[lo..hi) is unchanged. */
  lemma AddRangeDistinctAt(xf: seq<real>, xc: seq<real>, idx: seq<nat>, lo: nat, hi: nat)
    requires lo <= hi <= |idx| && hi <= |xc| && IndicesBelow(idx, hi, |xf|) && DistinctOn(idx, lo, hi)
    ensures forall j :: lo <= j < hi ==> AddRange(xf, xc, idx, lo, hi)[idx[j]] == xf[idx[j]] + xc[j]
    ensures forall f :: 0 <= f < |xf| && (forall j :: lo <= j < hi ==> idx[j] != f) ==>
              AddRange(xf, xc, idx, lo, hi)[f] == xf[f]
  {
    AddRangeAt(xf, xc, idx, lo, hi);
    AddedAtDistinct(xc, idx, lo, hi);
  }

  /** The prolongation with a one-to-one injection: each injected fine point
      gains its coarse value, every other fine point is unchanged. */
  lemma ProlongateDistinct(xf: seq<real>, xc: seq<real>, f2c: seq<nat>, nc: nat)
    requires nc <= |f2c| && nc <= |xc| && IndicesBelow(f2c, nc, |xf|) && DistinctOn(f2c, 0, nc)
    ensures forall i :: 0 <= i < nc ==> Prolongate(xf, xc, f2c, nc)[f2c[i]] == xf[f2c[i]] + xc[i]
    ensures forall f :: 0 <= f < |xf| && (forall i :: 0 <= i < nc ==> f2c[i] != f) ==>
              Prolongate(xf, xc, f2c, nc)[f] == xf[f]
  {
    AddRangeDistinctAt(xf, xc, f2c, 0, nc);
  }

  /** Running the additions lo..mid-1 and then mid..hi-1 is running lo..hi-1. */
  lemma {:induction false} AddRangeCompose(xf: seq<real>, xc: seq<real>, idx: seq<nat>, lo: nat, mid: nat, hi: nat)
    requires lo <= mid <= hi <= |idx| && hi <= |xc| && IndicesBelow(idx, hi, |xf|)
    ensures AddRange(AddRange(xf, xc, idx, lo, mid), xc, idx, mid, hi) == AddRange(xf, xc, idx, lo, hi)
    decreases hi
  {
    if hi > mid {
      AddRangeCompose(xf, xc, idx, lo, mid, hi - 1);
    }
  }

  /** The additions read only idx[lo..hi). */
  lemma {:induction false} AddRangeIndicesAgree(xf: seq<real>, xc: seq<real>, idx: seq<nat>, idx': seq<nat>, lo: nat, hi: nat)
    requires lo <= hi <= |idx| && hi <= |idx'| && hi <= |xc| && IndicesBelow(idx, hi, |xf|) && IndicesBelow(idx', hi, |xf|)
    requires forall i :: lo <= i < hi ==> idx[i] == idx'[i]
    ensures AddRange(xf, xc, idx, lo, hi) == AddRange(xf, xc, idx', lo, hi)
    decreases hi
  {
    if hi > lo {
      AddRangeIndicesAgree(xf, xc, idx, idx', lo, hi - 1);
    }
  }

  /** ComputeProlongation_ref, scalar path: xf[f2c[i]] += xc[i] in order. */
  method Prolongation(mg: MgData, xf: array<real>) returns (status: int)
    requires mg.Valid() && xf != mg.xc && IndicesBelow(mg.f2c[..], mg.Nc(), xf.Length)
    modifies xf
    ensures status == 0
    ensures xf[..] == Prolongate(old(xf[..]), mg.xc[..], mg.f2c[..], mg.Nc())
  {
    var f2c, xc, nc := mg.f2c, mg.xc, mg.Nc();
    ghost var xf0 := xf[..];
    for i := 0 to nc
      invariant xf[..] == AddRange(xf0, xc[..], f2c[..], 0, i)
    {
      xf[f2c[i]] := xf[f2c[i]] + xc[i];
    }
    return 0;
  }

  /** One chunk of the RVV prolongation: load vl injection entries and shift
      them to byte offsets (vle32, vsll), gather the old fine values
      (vluxei32), load the coarse values (vle64), add (vfadd), and scatter the
      sums back in lane order (vsoxei32). All gathers precede all stores. */
  function ChunkAdd(xf: seq<real>, xc: seq<real>, f2c: seq<nat>, i: nat, vl: nat): (r: seq<real>)
    requires i + vl <= |f2c| && i + vl <= |xc| && IndicesBelow(f2c, i + vl, |xf|)
    ensures |r| == |xf|
  {
    var offsets := Vsll3(Vle(f2c, i, vl), ADDR32);
    ChunkOffsetsBelow(f2c, i, vl, |xf|);
    Vsoxei(xf, offsets, Vfadd(Vluxei(xf, offsets), Vle(xc, i, vl)))
  }

  /** The shifted offsets of a chunk address the scaled injection entries. */
  lemma ChunkOffsetsBelow(f2c: seq<nat>, i: nat, vl: nat, bound: nat)
    requires i + vl <= |f2c| && IndicesBelow(f2c, i + vl, bound)
    ensures forall l :: 0 <= l < vl ==>
      Vsll3(Vle(f2c, i, vl), ADDR32)[l] / 8 == ScaleAll(f2c, ADDR32)[i + l] < bound
  {
    var offsets, idx := Vsll3(Vle(f2c, i, vl), ADDR32), ScaleAll(f2c, ADDR32);
    forall l | 0 <= l < vl ensures offsets[l] / 8 == idx[i + l] < bound {
      assert Vle(f2c, i, vl)[l] == f2c[i + l];
      ScaledIndexExact(f2c[i + l], ADDR32);
    }
  }

  /** xf once the strip-mined prolongation has run its chunks from i to m. */
  ghost function ProlongateChunks(u: VectorUnit, xf: seq<real>, xc: seq<real>, f2c: seq<nat>, i: nat, m: nat)
    : (r: seq<real>)
    requires Conforms(u) && m <= |f2c| && m <= |xc| && IndicesBelow(f2c, m, |xf|)
    ensures |r| == |xf|
    decreases m - i
  {
    if i >= m then xf
    else
      var vl := u.setvl(m - i);
      VlBounds(u, m - i);
      ProlongateChunks(u, ChunkAdd(xf, xc, f2c, i, vl), xc, f2c, i + vl, m)
  }

  /** A chunk with distinct scaled entries adds xc[j] at the scaled entry of
      each coarse point j of the chunk and leaves every other fine point alone. */
  lemma ChunkAddAt(xf: seq<real>, xc: seq<real>, f2c: seq<nat>, i: nat, vl: nat)
    requires i + vl <= |f2c| && i + vl <= |xc| && IndicesBelow(f2c, i + vl, |xf|)
    requires DistinctOn(ScaleAll(f2c, ADDR32), i, i + vl)
    ensures IndicesBelow(ScaleAll(f2c, ADDR32), i + vl, |xf|)
    ensures forall j :: i <= j < i + vl ==>
      ChunkAdd(xf, xc, f2c, i, vl)[ScaleAll(f2c, ADDR32)[j]] == xf[ScaleAll(f2c, ADDR32)[j]] + xc[j]
    ensures forall f :: 0 <= f < |xf| && (forall j :: i <= j < i + vl ==> ScaleAll(f2c, ADDR32)[j] != f) ==>
      ChunkAdd(xf, xc, f2c, i, vl)[f] == xf[f]
  {
    var idx := ScaleAll(f2c, ADDR32);
    ScaleAllBelow(f2c, i + vl, |xf|);
    ChunkOffsetsBelow(f2c, i, vl, |xf|);
    var offsets := Vsll3(Vle(f2c, i, vl), ADDR32);
    var sums := Vfadd(Vluxei(xf, offsets), Vle(xc, i, vl));
    assert forall a, b :: 0 <= a < b < vl ==> offsets[a] / 8 != offsets[b] / 8 by {
      forall a, b | 0 <= a < b < vl ensures offsets[a] / 8 != offsets[b] / 8 {
        assert idx[i + a] != idx[i + b];
      }
    }
    VsoxeiAt(xf, offsets, sums);
    forall j | i <= j < i + vl
      ensures ChunkAdd(xf, xc, f2c, i, vl)[idx[j]] == xf[idx[j]] + xc[j]
    {
      var l := j - i;
      assert offsets[l] / 8 == idx[j];
      assert sums[l] == xf[idx[j]] + xc[j];
    }
    forall f | 0 <= f < |xf| && (forall j :: i <= j < i + vl ==> idx[j] != f)
      ensures ChunkAdd(xf, xc, f2c, i, vl)[f] == xf[f]
    {
      assert forall l :: 0 <= l < vl ==> offsets[l] / 8 != f by {
        forall l | 0 <= l < vl ensures offsets[l] / 8 != f {
          assert offsets[l] / 8 == idx[i + l];
        }
      }
    }
  }

  /** A chunk whose scaled entries are distinct performs exactly the
      sequential additions i..i+vl-1 through the scaled injection. */
  lemma ChunkAddSequential(xf: seq<real>, xc: seq<real>, f2c: seq<nat>, i: nat, vl: nat)
    requires i + vl <= |f2c| && i + vl <= |xc| && IndicesBelow(f2c, i + vl, |xf|)
    requires DistinctOn(ScaleAll(f2c, ADDR32), i, i + vl)
    ensures IndicesBelow(ScaleAll(f2c, ADDR32), i + vl, |xf|)
    ensures ChunkAdd(xf, xc, f2c, i, vl) == AddRange(xf, xc, ScaleAll(f2c, ADDR32), i, i + vl)
  {
    var idx := ScaleAll(f2c, ADDR32);
    ChunkAddAt(xf, xc, f2c, i, vl);
    AddRangeDistinctAt(xf, xc, idx, i, i + vl);
    SameAdditions(xf, xc, idx, i, i + vl, ChunkAdd(xf, xc, f2c, i, vl), AddRange(xf, xc, idx, i, i + vl));
  }

  /** Two results that both add xc[j] at idx[j] for j in lo..hi-1 and leave
      every other point alone are equal. */
  lemma SameAdditions(xf: seq<real>, xc: seq<real>, idx: seq<nat>, lo: nat, hi: nat, c: seq<real>, a: seq<real>)
    requires lo <= hi <= |idx| && hi <= |xc| && |c| == |xf| && |a| == |xf| && IndicesBelow(idx, hi, |xf|)
    requires forall j :: lo <= j < hi ==> c[idx[j]] == xf[idx[j]] + xc[j] && a[idx[j]] == xf[idx[j]] + xc[j]
    requires forall f :: 0 <= f < |xf| && (forall j :: lo <= j < hi ==> idx[j] != f) ==> c[f] == xf[f] && a[f] == xf[f]
    ensures c == a
  {
    forall f | 0 <= f < |xf| ensures c[f] == a[f] {
      if j :| lo <= j < hi && idx[j] == f {
        assert c[idx[j]] == a[idx[j]];
      }
    }
  }

  /** With a one-to-one scaled injection, the strip-mined prolongation is
      the sequential one, whatever vl the unit grants. */
  lemma {:induction false} ProlongateChunksSequential(u: VectorUnit, xf: seq<real>, xc: seq<real>, f2c: seq<nat>, i: nat, m: nat)
    requires Conforms(u) && i <= m <= |f2c| && m <= |xc| && IndicesBelow(f2c, m, |xf|)
    requires DistinctOn(ScaleAll(f2c, ADDR32), i, m)
    ensures IndicesBelow(ScaleAll(f2c, ADDR32), m, |xf|)
    ensures ProlongateChunks(u, xf, xc, f2c, i, m) == AddRange(xf, xc, ScaleAll(f2c, ADDR32), i, m)
    decreases m - i
  {
    ScaleAllBelow(f2c, m, |xf|);
    if i < m {
      var vl := u.setvl(m - i);
      VlBounds(u, m - i);
      var idx := ScaleAll(f2c, ADDR32);
      ChunkAddSequential(xf, xc, f2c, i, vl);
      var xf' := ChunkAdd(xf, xc, f2c, i, vl);
      ProlongateChunksSequential(u, xf', xc, f2c, i + vl, m);
      AddRangeCompose(xf, xc, idx, i, i + vl, m);
    }
  }

  /** One turn of the RVV loop advances by one chunk. */
  lemma ProlongateChunksStep(u: VectorUnit, xf: seq<real>, xc: seq<real>, f2c: seq<nat>, i: nat, m: nat, vl: nat)
    requires Conforms(u) && i < m <= |f2c| && m <= |xc| && IndicesBelow(f2c, m, |xf|) && vl == u.setvl(m - i)
    ensures 1 <= vl <= m - i && i + vl <= |xc|
    ensures ProlongateChunks(u, xf, xc, f2c, i, m) == ProlongateChunks(u, ChunkAdd(xf, xc, f2c, i, vl), xc, f2c, i + vl, m)
  {
    VlBounds(u, m - i);
  }

  /** The strip-mined loop of the RVV prolongation, one chunk of vl
      entries per turn; xc and f2c are only read. */
  method ProlongateLoop(u: VectorUnit, xf: array<real>, xc: seq<real>, f2c: seq<nat>, nc: nat)
    requires Conforms(u) && nc <= |f2c| && nc <= |xc| && IndicesBelow(f2c, nc, xf.Length)
    modifies xf
    ensures xf[..] == ProlongateChunks(u, old(xf[..]), xc, f2c, 0, nc)
  {
    ghost var target := ProlongateChunks(u, xf[..], xc, f2c, 0, nc);
    ghost var xs := xf[..];
    var i: nat := 0;
    while i < nc
      invariant i <= nc && xs == xf[..]
      invariant ProlongateChunks(u, xs, xc, f2c, i, nc) == target
    {
      var vl := ProlongateTurn(u, xf, xc, f2c, i, nc, target);
      xs := xf[..];
      i := i + vl;
    }
    ProlongateChunksDone(u, xs, xc, f2c, nc);
  }

  /** One turn of the strip-mined loop: vl = vsetvl(nc - i), then the chunk
      of vl entries at i. */
  method ProlongateTurn(u: VectorUnit, xf: array<real>, xc: seq<real>, f2c: seq<nat>, i: nat, nc: nat,
                        ghost target: seq<real>)
    returns (vl: nat)
    requires Conforms(u) && i < nc <= |f2c| && nc <= |xc| && IndicesBelow(f2c, nc, xf.Length)
    requires ProlongateChunks(u, xf[..], xc, f2c, i, nc) == target
    modifies xf
    ensures 1 <= vl <= nc - i
    ensures ProlongateChunks(u, xf[..], xc, f2c, i + vl, nc) == target
  {
    vl := u.setvl(nc - i);
    ProlongateChunksStep(u, xf[..], xc, f2c, i, nc, vl);
    ProlongateChunk(xf, xc, f2c, i, vl);
  }

  /** One chunk of the RVV prolongation: load vl entries of f2c at i,
      shift them to byte offsets, gather xf, add vl entries of xc and
      scatter the sums back (vsoxei, in lane order). */
  method ProlongateChunk(xf: array<real>, xc: seq<real>, f2c: seq<nat>, i: nat, vl: nat)
    requires i + vl <= |f2c| && i + vl <= |xc| && IndicesBelow(f2c, i + vl, xf.Length)
    modifies xf
    ensures xf[..] == ChunkAdd(old(xf[..]), xc, f2c, i, vl)
  {
    ChunkOffsetsBelow(f2c, i, vl, xf.Length);
    var offsets := Vsll3(Vle(f2c, i, vl), ADDR32);
    var gathered := Vluxei(xf[..], offsets);
    var updated := Vfadd(gathered, Vle(xc, i, vl));
    StoreIndexedOrdered(xf, offsets, updated);
  }

  /** Once the loop has reached its end, there is nothing left to do. */
  lemma ProlongateChunksDone(u: VectorUnit, xf: seq<real>, xc: seq<real>, f2c: seq<nat>, m: nat)
    requires Conforms(u) && m <= |f2c| && m <= |xc| && IndicesBelow(f2c, m, |xf|)
    ensures ProlongateChunks(u, xf, xc, f2c, m, m) == xf
  {
  }

  /** ComputeProlongation_ref, RVV path: the chunked gather-add-scatter,
      which is the scalar prolongation whenever the injection is one-to-one
      and every entry is below 2^29. */
  method ProlongationVector(u: VectorUnit, mg: MgData, xf: array<real>) returns (status: int)
    requires Conforms(u) && mg.Valid() && xf != mg.xc && IndicesBelow(mg.f2c[..], mg.Nc(), xf.Length)
    modifies xf
    ensures status == 0
    ensures xf[..] == ProlongateChunks(u, old(xf[..]), mg.xc[..], mg.f2c[..], 0, mg.Nc())
    ensures DistinctOn(mg.f2c[..], 0, mg.Nc()) && IndicesBelow(mg.f2c[..], mg.Nc(), ADDR32 / 8) ==>
              xf[..] == Prolongate(old(xf[..]), mg.xc[..], mg.f2c[..], mg.Nc())
  {
    ghost var xf0 := xf[..];
    ProlongateLoop(u, xf, mg.xc[..], mg.f2c[..], mg.Nc());
    if DistinctOn(mg.f2c[..], 0, mg.Nc()) && IndicesBelow(mg.f2c[..], mg.Nc(), ADDR32 / 8) {
      ProlongateChunksExact(u, xf0, mg.xc[..], mg.f2c[..], mg.Nc());
    }
    return 0;
  }

  /** With a one-to-one injection whose entries are all below 2^29, the
      strip-mined prolongation is the scalar one. */
  lemma ProlongateChunksExact(u: VectorUnit, xf: seq<real>, xc: seq<real>, f2c: seq<nat>, nc: nat)
    requires Conforms(u) && nc <= |f2c| && nc <= |xc| && IndicesBelow(f2c, nc, |xf|)
    requires DistinctOn(f2c, 0, nc) && IndicesBelow(f2c, nc, ADDR32 / 8)
    ensures ProlongateChunks(u, xf, xc, f2c, 0, nc) == Prolongate(xf, xc, f2c, nc)
  {
    ScaleAllExact(f2c, nc);
    ProlongateChunksSequential(u, xf, xc, f2c, 0, nc);
    AddRangeIndicesAgree(xf, xc, ScaleAll(f2c, ADDR32), f2c, 0, nc);
  }

  /** Two coarse points injected into the same fine point in one chunk: the
      second gather still sees the old value, so one addition is lost. */
  lemma RepeatedIndexLosesAddition()
    ensures var u := GreedyUnit(2);
      && Conforms(u)
      && Prolongate([0.0], [1.0, 1.0], [0, 0], 2) == [2.0]
      && ProlongateChunks(u, [0.0], [1.0, 1.0], [0, 0], 0, 2) == [1.0]
  {
    GreedyUnitConforms(2);
    assert Vsll3(Vle([0, 0], 0, 2), ADDR32) == [0, 0];
  }

  /** Restricting and then prolongating the restricted residual through a
      one-to-one injection adds rf - Axf to xf at exactly the injected points. */
  lemma RestrictThenProlongate(xf: seq<real>, rf: seq<real>, axf: seq<real>, f2c: seq<nat>, nc: nat)
    requires nc <= |f2c| && IndicesBelow(f2c, nc, |xf|) && IndicesBelow(f2c, nc, |rf|) && IndicesBelow(f2c, nc, |axf|)
    requires DistinctOn(f2c, 0, nc)
    ensures forall i :: 0 <= i < nc ==>
      Prolongate(xf, Restrict(rf, axf, f2c, nc), f2c, nc)[f2c[i]] == xf[f2c[i]] + (rf[f2c[i]] - axf[f2c[i]])
  {
    ProlongateDistinct(xf, Restrict(rf, axf, f2c, nc), f2c, nc);
  }

  /** f2c = [0, 2], rf = [5, 5, 5, 5], Axf = [1, 1, 1, 1] restricts to [4, 4]. */
  lemma RestrictExample()
    ensures Restrict([5.0, 5.0, 5.0, 5.0], [1.0, 1.0, 1.0, 1.0], [0, 2], 2) == [4.0, 4.0]
  {
  }
}
