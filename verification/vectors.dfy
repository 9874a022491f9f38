/** Real vectors: the sums, squared distances and clipping numpy performs,
    in exact arithmetic. */
module Vectors {

  type Vector = seq<real>

  function Sum(v: Vector): real
  {
    if |v| == 0 then 0.0 else v[0] + Sum(v[1..])
  }

  /** Every entry is 0 or 1: an indicator vector. */
  predicate ZeroOne(v: Vector)
  {
    forall i :: 0 <= i < |v| ==> v[i] == 0.0 || v[i] == 1.0
  }

  /** `((a - b) ** 2).sum()`. */
  function SqDist(a: Vector, b: Vector): real
    requires |a| == |b|
  {
    if |a| == 0 then 0.0 else (a[0] - b[0]) * (a[0] - b[0]) + SqDist(a[1..], b[1..])
  }

  /** `np.clip(x, 0., 1.)`. */
  function Clip(x: real): (r: real)
    ensures 0.0 <= r <= 1.0
    ensures 0.0 <= x <= 1.0 ==> r == x
    ensures x < 0.0 ==> r == 0.0
    ensures x > 1.0 ==> r == 1.0
  {
    if x < 0.0 then 0.0 else if x > 1.0 then 1.0 else x
  }

  function Zeros(n: nat): (v: Vector)
    ensures |v| == n
    ensures forall i :: 0 <= i < n ==> v[i] == 0.0
  {
    seq(n, i => 0.0)
  }

  /** An indicator vector sums to at most its length, so a vector of
      dimension n can never pass a threshold of n or more. */
  lemma {:induction false} ZeroOneSumBounds(v: Vector)
    requires ZeroOne(v)
    ensures 0.0 <= Sum(v) <= |v| as real
  {
    if |v| > 0 {
      assert ZeroOne(v[1..]) by {
        forall i | 0 <= i < |v[1..]| ensures v[1..][i] == 0.0 || v[1..][i] == 1.0 {
          assert v[1..][i] == v[i + 1];
        }
      }
      ZeroOneSumBounds(v[1..]);
    }
  }

  /** The squared distance is never negative, and a vector is at distance
      zero from itself. */
  lemma {:induction false} SqDistProperties(a: Vector, b: Vector)
    requires |a| == |b|
    ensures SqDist(a, b) >= 0.0
    ensures a == b ==> SqDist(a, b) == 0.0
  {
    if |a| > 0 {
      SqDistProperties(a[1..], b[1..]);
      var d := a[0] - b[0];
      assert d * d >= 0.0;
    }
  }

  /** Facts about a ratio `c / n` of a count over a positive size. */
  lemma Ratio(c: real, n: real)
    requires n > 0.0 && c >= 0.0
    ensures (c / n) * n == c
    ensures c / n >= 0.0
    ensures c > 0.0 ==> c / n > 0.0
    ensures c / n >= 1.0 <==> c >= n
  {
    var r := c / n;
    assert r * n == c;
    Cancel(0.0, r, n);
    if c > 0.0 {
      SignOfProduct(r, n);
      assert r != 0.0;
    }
    if c >= n {
      assert 1.0 * n <= r * n;
      Cancel(1.0, r, n);
    }
    if r >= 1.0 {
      assert r * n >= 1.0 * n by {
        assert (r - 1.0) * n >= 0.0;
      }
    }
  }

  /** Dividing by a positive size keeps the order. */
  lemma RatioMonotone(a: real, b: real, n: real)
    requires n > 0.0 && a <= b
    ensures a / n <= b / n
  {
    var x, y := a / n, b / n;
    assert x * n == a && y * n == b;
    Cancel(x, y, n);
  }

  lemma Cancel(x: real, y: real, n: real)
    requires n > 0.0 && x * n <= y * n
    ensures x <= y
  {
    assert (y - x) * n == y * n - x * n;
    SignOfProduct(y - x, n);
  }

  lemma SignOfProduct(z: real, n: real)
    requires n > 0.0
    ensures z < 0.0 ==> z * n < 0.0
  {
    if z < 0.0 {
      assert (-z) * n > 0.0;
    }
  }
}
