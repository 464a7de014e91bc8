/** Real-valued vectors standing in for the float32 rows of the embedding matrices. */
module Vectors {

  type Vector = seq<real>

  /** Every component is 0; over the reals this is exactly "the L2 norm is 0". */
  predicate IsZero(v: Vector) {
    forall i :: 0 <= i < |v| ==> v[i] == 0.0
  }

  function Sq(x: real): real {
    x * x
  }

  /** The squared L2 norm. */
  function NormSq(v: Vector): (r: real)
    ensures r >= 0.0
  {
    if v == [] then 0.0 else SqNonNegative(v[|v| - 1]); NormSq(v[..|v| - 1]) + Sq(v[|v| - 1])
  }

  /** A unit vector: its L2 norm (equivalently its squared norm) is 1. */
  predicate IsUnit(v: Vector) {
    NormSq(v) == 1.0
  }

  function Scale(c: real, v: Vector): (r: Vector)
    ensures |r| == |v|
  {
    seq(|v|, i requires 0 <= i < |v| => c * v[i])
  }

  function Add(a: Vector, b: Vector): (r: Vector)
    requires |a| == |b|
    ensures |r| == |a|
  {
    seq(|a|, i requires 0 <= i < |a| => a[i] + b[i])
  }

  function Divide(v: Vector, d: real): (r: Vector)
    requires d != 0.0
    ensures |r| == |v|
  {
    seq(|v|, i requires 0 <= i < |v| => v[i] / d)
  }

  /** sqrt agrees with the square root on the non-negative reals (the sqrt inside np.linalg.norm). */
  ghost predicate IsSqrt(sqrt: real -> real) {
    forall x :: 0.0 <= x ==> 0.0 <= sqrt(x) && sqrt(x) * sqrt(x) == x
  }

  lemma SqNonNegative(x: real)
    ensures Sq(x) >= 0.0
  {
    if x < 0.0 {
      assert x * x == (-x) * (-x);
    }
  }

  lemma SqZero(x: real)
    ensures Sq(x) == 0.0 <==> x == 0.0
  {
    if x != 0.0 {
      var y := 1.0 / x;
      assert y * x == 1.0;
      assert (y * y) * (x * x) == 1.0;
    }
  }

  lemma SqProduct(c: real, x: real)
    ensures Sq(c * x) == Sq(c) * Sq(x)
  {
  }

  /** a * b == c with c == b non-zero forces a == 1. */
  lemma CancelFactor(a: real, b: real, c: real)
    requires b != 0.0 && a * b == c && b == c
    ensures a == 1.0
  {
    assert (a * b) * (1.0 / b) == a * (b * (1.0 / b));
  }

  lemma {:induction false} ZeroIffNormSqZero(v: Vector)
    ensures IsZero(v) <==> NormSq(v) == 0.0
  {
    if v != [] {
      var u, x := v[..|v| - 1], v[|v| - 1];
      ZeroIffNormSqZero(u);
      SqNonNegative(x);
      SqZero(x);
      if NormSq(v) == 0.0 {
        assert forall i :: 0 <= i < |u| ==> v[i] == u[i];
      }
      if IsZero(v) {
        assert IsZero(u) && x == 0.0;
      }
    }
  }

  lemma {:induction false} NormSqScale(c: real, v: Vector)
    ensures NormSq(Scale(c, v)) == Sq(c) * NormSq(v)
  {
    if v != [] {
      var u, x := v[..|v| - 1], v[|v| - 1];
      NormSqScale(c, u);
      assert forall i :: 0 <= i < |u| ==> Scale(c, v)[i] == Scale(c, u)[i];
      assert Scale(c, v)[..|v| - 1] == Scale(c, u);
      var w := Scale(c, v);
      assert w[|w| - 1] == c * x;
      assert NormSq(w) == NormSq(Scale(c, u)) + Sq(c * x);
      SqProduct(c, x);
      assert Sq(c) * NormSq(u) + Sq(c) * Sq(x) == Sq(c) * (NormSq(u) + Sq(x));
    }
  }

  lemma NormSqDivide(v: Vector, d: real)
    requires d != 0.0
    ensures NormSq(Divide(v, d)) * Sq(d) == NormSq(v)
  {
    forall i | 0 <= i < |v|
      ensures Divide(v, d)[i] == Scale(1.0 / d, v)[i]
    {
      assert v[i] / d == (1.0 / d) * v[i];
    }
    assert Divide(v, d) == Scale(1.0 / d, v);
    NormSqScale(1.0 / d, v);
    SqProduct(1.0 / d, d);
    assert Sq(1.0 / d) * Sq(d) == 1.0;
    assert (Sq(1.0 / d) * NormSq(v)) * Sq(d) == (Sq(1.0 / d) * Sq(d)) * NormSq(v);
  }

  /** The non-negative square root is unique: sqrt(d²) is d for every d >= 0. */
  lemma SqrtUnique(sqrt: real -> real, d: real)
    requires IsSqrt(sqrt) && d >= 0.0
    ensures sqrt(Sq(d)) == d
  {
    var s := sqrt(Sq(d));
    assert s >= 0.0 && s * s == d * d;
    assert (s - d) * (s + d) == s * s - d * d;
    ProductZero(s - d, s + d);
  }

  /** A product of reals is zero only when a factor is. */
  lemma ProductZero(x: real, y: real)
    requires x * y == 0.0
    ensures x == 0.0 || y == 0.0
  {
    if x != 0.0 {
      assert y == (1.0 / x) * (x * y);
    }
  }

  /** A unit vector is not the zero vector. */
  lemma UnitNotZero(v: Vector)
    requires IsUnit(v)
    ensures !IsZero(v)
  {
    ZeroIffNormSqZero(v);
  }

  /** c * v, for c > 0 and a unit vector v, has squared norm c² and is not zero. */
  lemma ScaledUnitNorm(c: real, v: Vector)
    requires c > 0.0 && IsUnit(v)
    ensures NormSq(Scale(c, v)) == Sq(c)
    ensures !IsZero(Scale(c, v))
  {
    NormSqScale(c, v);
    SqZero(c);
    ZeroIffNormSqZero(Scale(c, v));
  }

  /** Dividing c * v by c gives back v. */
  lemma DivideScaled(c: real, v: Vector)
    requires c != 0.0
    ensures Divide(Scale(c, v), c) == v
  {
    forall i | 0 <= i < |v|
      ensures Divide(Scale(c, v), c)[i] == v[i]
    {
      assert (c * v[i]) / c == v[i];
    }
  }

  /** Dividing v by a number whose square is v's squared norm gives a unit vector. */
  lemma DivideByNorm(v: Vector, d: real)
    requires d != 0.0 && Sq(d) == NormSq(v)
    ensures IsUnit(Divide(v, d))
  {
    NormSqDivide(v, d);
    SqZero(d);
    CancelFactor(NormSq(Divide(v, d)), Sq(d), NormSq(v));
  }
}
