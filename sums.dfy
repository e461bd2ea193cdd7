// Exact (real-valued) sums. Every kernel of the model states its result as
// the Sum of a sequence of terms; floating-point rounding is abstracted away.
module Sums {

  /** The sum of `s`, accumulated left to right (the order of a scalar loop). */
  function Sum(s: seq<real>): real
  {
    if |s| == 0 then 0.0 else Sum(s[..|s| - 1]) + s[|s| - 1]
  }

  /** A sequence of `n` zeros: the state of freshly cleared vector lanes. */
  function Zeros(n: nat): (z: seq<real>)
    ensures |z| == n && forall l :: 0 <= l < n ==> z[l] == 0.0
  {
    seq(n, _ => 0.0)
  }

  /** Summing a concatenation is summing the parts: any split into chunks
      reassociates the same set of terms. */
  lemma {:induction false} SumConcat(a: seq<real>, b: seq<real>)
    ensures Sum(a + b) == Sum(a) + Sum(b)
  {
    if |b| == 0 {
      assert a + b == a;
    } else {
      assert (a + b)[..|a + b| - 1] == a + b[..|b| - 1];
      SumConcat(a, b[..|b| - 1]);
    }
  }

  /** Extending a prefix by one element adds that element. */
  lemma SumPrefixStep(s: seq<real>, i: nat)
    requires i < |s|
    ensures Sum(s[..i + 1]) == Sum(s[..i]) + s[i]
  {
    assert s[..i + 1][..i] == s[..i];
  }

  /** Extending a prefix by the chunk s[i..j] adds the chunk's sum. */
  lemma SumSplit(s: seq<real>, i: nat, j: nat)
    requires i <= j <= |s|
    ensures Sum(s[..j]) == Sum(s[..i]) + Sum(s[i..j])
  {
    assert s[..j] == s[..i] + s[i..j];
    SumConcat(s[..i], s[i..j]);
  }

  /** Splitting a suffix at j splits its sum. */
  lemma SumSuffixSplit(s: seq<real>, i: nat, j: nat)
    requires i <= j <= |s|
    ensures Sum(s[i..]) == Sum(s[i..j]) + Sum(s[j..])
  {
    assert s[i..] == s[i..j] + s[j..];
    SumConcat(s[i..j], s[j..]);
  }

  lemma {:induction false} SumZeros(s: seq<real>)
    requires forall k :: 0 <= k < |s| ==> s[k] == 0.0
    ensures Sum(s) == 0.0
  {
    if |s| > 0 {
      SumZeros(s[..|s| - 1]);
    }
  }

  /** Summing a pointwise sum of two sequences adds their sums. */
  lemma {:induction false} SumPointwise(a: seq<real>, b: seq<real>, c: seq<real>)
    requires |a| == |b| == |c|
    requires forall k :: 0 <= k < |a| ==> a[k] == b[k] + c[k]
    ensures Sum(a) == Sum(b) + Sum(c)
  {
    if |a| > 0 {
      var m := |a| - 1;
      SumPointwise(a[..m], b[..m], c[..m]);
    }
  }

  /** A sequence that is zero except at position k sums to its k-th element. */
  lemma {:induction false} SumSingle(s: seq<real>, k: nat)
    requires k < |s|
    requires forall l :: 0 <= l < |s| && l != k ==> s[l] == 0.0
    ensures Sum(s) == s[k]
  {
    var m := |s| - 1;
    if k == m {
      SumZeros(s[..m]);
    } else {
      SumSingle(s[..m], k);
    }
  }

  lemma {:induction false} SumNonNegative(s: seq<real>)
    requires forall k :: 0 <= k < |s| ==> s[k] >= 0.0
    ensures Sum(s) >= 0.0
  {
    if |s| > 0 {
      SumNonNegative(s[..|s| - 1]);
    }
  }
}
