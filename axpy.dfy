// axpy_m8.c: y := a * x + y on the first n elements of dy, by a scalar loop
// (axpy_serial) or by a strip-mined loop that loads a chunk of dx and of dy,
// multiply-accumulates the scalar a into it (vfmacc.vf) and stores the chunk
// back (axpy_vector). dx and dy may be the same buffer.
module Axpy {
  import opened Rvv
  import opened ComputeDotProduct

  /** dy after y[i] += a * x[i] for every i below Count(n); the rest of dy is kept. */
  function Axpy(a: real, x: seq<real>, y: seq<real>, n: int): (r: seq<real>)
    requires Count(n) <= |x| && Count(n) <= |y|
    ensures |r| == |y|
  {
    seq(|y|, i requires 0 <= i < |y| => if i < Count(n) then y[i] + a * x[i] else y[i])
  }

  /** The effect of one chunk: y[i..i+vl] loaded, a * x[i..i+vl] added, stored back. */
  function AxpyChunk(a: real, x: seq<real>, y: seq<real>, i: nat, vl: nat): (r: seq<real>)
    requires i + vl <= |x| && i + vl <= |y|
    ensures |r| == |y|
  {
    Vse(y, i, VfmaccScalar(Vle(y, i, vl), a, Vle(x, i, vl)))
  }

  /** A chunk at the end of the done prefix extends the prefix by vl elements. */
  lemma AxpyChunkExtends(a: real, x: seq<real>, y: seq<real>, i: nat, vl: nat)
    requires i + vl <= |x| && i + vl <= |y|
    ensures AxpyChunk(a, x, Axpy(a, x, y, i), i, vl) == Axpy(a, x, y, i + vl)
  {
    var done := Axpy(a, x, y, i);
    var r, s := AxpyChunk(a, x, done, i, vl), Axpy(a, x, y, i + vl);
    var v := VfmaccScalar(Vle(done, i, vl), a, Vle(x, i, vl));
    forall k | 0 <= k < |y| ensures r[k] == s[k] {
      if i <= k < i + vl {
        assert r[k] == v[k - i];
      }
    }
    assert r == s;
  }

  /** Updating element i extends the done prefix by one element. */
  lemma AxpyStep(a: real, x: seq<real>, y: seq<real>, i: nat)
    requires i < |x| && i < |y|
    ensures Axpy(a, x, y, i)[i := y[i] + a * x[i]] == Axpy(a, x, y, i + 1)
  {
    var r, s := Axpy(a, x, y, i)[i := y[i] + a * x[i]], Axpy(a, x, y, i + 1);
    forall k | 0 <= k < |y| ensures r[k] == s[k] {
    }
    assert r == s;
  }

  /** axpy_serial. dy may be the very buffer dx: each dx[i] is read before
      dy[i] is written. */
  method AxpySerial(a: real, dx: array<real>, dy: array<real>, n: int)
    requires Count(n) <= dx.Length && Count(n) <= dy.Length
    modifies dy
    ensures dy[..] == Axpy(a, old(dx[..]), old(dy[..]), n)
  {
    ghost var x0, y0 := dx[..], dy[..];
    AxpyIdentity(a, x0, y0, 0);
    var i := 0;
    while i < n
      invariant 0 <= i <= Count(n)
      invariant dy[..] == Axpy(a, x0, y0, i)
      invariant forall k :: i <= k < dx.Length ==> dx[k] == x0[k]
    {
      AxpyStep(a, x0, y0, i);
      assert dy[i] == dy[..][i] == Axpy(a, x0, y0, i)[i] == y0[i];
      assert dx[i] == x0[i];
      ghost var before, updated := dy[..], y0[i] + a * x0[i];
      assert dy[i] + a * dx[i] == updated;
      dy[i] := dy[i] + a * dx[i];
      assert dy[..] == before[i := updated];
      i := i + 1;
    }
  }

  /** axpy_vector: strip-mined over vsetvl(n - i) elements at a time. */
  method AxpyVector(u: VectorUnit, a: real, dx: array<real>, dy: array<real>, n: int)
    requires Conforms(u) && Count(n) <= dx.Length && Count(n) <= dy.Length
    modifies dy
    ensures dy[..] == Axpy(a, old(dx[..]), old(dy[..]), n)
  {
    ghost var x0, y0 := dx[..], dy[..];
    AxpyIdentity(a, x0, y0, 0);
    var i: nat := 0;
    while i < n
      invariant i <= Count(n)
      invariant dy[..] == Axpy(a, x0, y0, i)
      invariant forall k :: i <= k < dx.Length ==> dx[k] == x0[k]
      decreases n - i
    {
      var gvl := u.setvl(n - i);
      VlBounds(u, n - i);
      AxpyVectorChunk(a, dx, dy, i, gvl, x0);
      AxpyChunkExtends(a, x0, y0, i, gvl);
      i := i + gvl;
    }
  }

  /** One turn of axpy_vector: load vl elements of dx and of dy at i (vle64),
      multiply-accumulate a (vfmacc.vf) and store the chunk back (vse64).
      Both loads precede the store, so dx may be dy: the chunk uses the
      elements of dx as they were before the turn, which are those of x. */
  method AxpyVectorChunk(a: real, dx: array<real>, dy: array<real>, i: nat, vl: nat, ghost x: seq<real>)
    requires i + vl <= dx.Length && i + vl <= dy.Length && i + vl <= |x|
    requires forall k :: i <= k < i + vl ==> dx[k] == x[k]
    modifies dy
    ensures dy[..] == AxpyChunk(a, x, old(dy[..]), i, vl)
    ensures forall k :: i + vl <= k < dx.Length ==> dx[k] == old(dx[k])
  {
    var vdx := Vle(dx[..], i, vl);
    assert vdx == Vle(x, i, vl);
    var vdy := Vle(dy[..], i, vl);
    var vres := VfmaccScalar(vdy, a, vdx);
    ghost var before := dy[..];
    forall l | 0 <= l < vl {
      dy[i + l] := vres[l];
    }
    assert dy[..] == Vse(before, i, vres);
  }

  /** With a == 0 or n <= 0, dy is left unchanged. */
  lemma AxpyIdentity(a: real, x: seq<real>, y: seq<real>, n: int)
    requires Count(n) <= |x| && Count(n) <= |y| && (a == 0.0 || n <= 0)
    ensures Axpy(a, x, y, n) == y
  {
    var r := Axpy(a, x, y, n);
    forall k | 0 <= k < |y| ensures r[k] == y[k] {
    }
    assert r == y;
  }

  /** Two axpy calls with the same x are one with the scalars added. */
  lemma AxpyCompose(a: real, b: real, x: seq<real>, y: seq<real>, n: int)
    requires Count(n) <= |x| && Count(n) <= |y|
    ensures Axpy(a, x, Axpy(b, x, y, n), n) == Axpy(a + b, x, y, n)
  {
    var r, s := Axpy(a, x, Axpy(b, x, y, n), n), Axpy(a + b, x, y, n);
    forall k | 0 <= k < |y| ensures r[k] == s[k] {
    }
  }

  /** axpy undoes itself with the opposite scalar. */
  lemma AxpyInverse(a: real, x: seq<real>, y: seq<real>, n: int)
    requires Count(n) <= |x| && Count(n) <= |y|
    ensures Axpy(-a, x, Axpy(a, x, y, n), n) == y
  {
    AxpyCompose(-a, a, x, y, n);
    AxpyIdentity(0.0, x, y, n);
  }

  /** 2 * [1, 2] + [10, 20, 30] with n = 2 is [12, 24, 30]. */
  lemma AxpyExample()
    ensures Axpy(2.0, [1.0, 2.0], [10.0, 20.0, 30.0], 2) == [12.0, 24.0, 30.0]
  {
    var r := Axpy(2.0, [1.0, 2.0], [10.0, 20.0, 30.0], 2);
    assert r[0] == 12.0 && r[1] == 24.0 && r[2] == 30.0;
  }
}
