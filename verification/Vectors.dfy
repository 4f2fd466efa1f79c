/** Vectors of real numbers: sums, products and distances, component by component. */
module Vectors {

  function Mul(a: real, b: real): real {
    a * b
  }

  function Sum(x: seq<real>): real {
    if x == [] then 0.0 else Sum(x[..|x| - 1]) + x[|x| - 1]
  }

  predicate NonNegative(x: seq<real>) {
    forall i :: 0 <= i < |x| ==> x[i] >= 0.0
  }

  function Plus(x: seq<real>, y: seq<real>): (z: seq<real>)
    requires |x| == |y|
    ensures |z| == |x|
  {
    seq(|x|, i requires 0 <= i < |x| => x[i] + y[i])
  }

  function Scale(d: real, x: seq<real>): (z: seq<real>)
    ensures |z| == |x|
  {
    seq(|x|, i requires 0 <= i < |x| => Mul(d, x[i]))
  }

  function Times(x: seq<real>, y: seq<real>): (z: seq<real>)
    requires |x| == |y|
    ensures |z| == |x|
  {
    seq(|x|, i requires 0 <= i < |x| => Mul(x[i], y[i]))
  }

  function Abs(x: real): real {
    if x < 0.0 then -x else x
  }

  /** The distances of the components. */
  function Gap(x: seq<real>, y: seq<real>): (z: seq<real>)
    requires |x| == |y|
    ensures |z| == |x|
    ensures forall i :: 0 <= i < |x| ==> z[i] >= 0.0
  {
    seq(|x|, i requires 0 <= i < |x| => Abs(x[i] - y[i]))
  }

  lemma {:induction false} SumScale(d: real, x: seq<real>)
    ensures Sum(Scale(d, x)) == Mul(d, Sum(x))
  {
    if x != [] {
      var m := |x| - 1;
      SumScale(d, x[..m]);
      Distribute(d, Sum(x[..m]), x[m]);
      ScaleFirst(d, x, m);
    }
  }

  lemma ScaleFirst(d: real, x: seq<real>, m: nat)
    requires m <= |x|
    ensures Scale(d, x)[..m] == Scale(d, x[..m])
  {
    forall i | 0 <= i < m
      ensures Scale(d, x)[..m][i] == Scale(d, x[..m])[i]
    {
      assert x[..m][i] == x[i];
    }
  }

  lemma Distribute(d: real, a: real, b: real)
    ensures Mul(d, a + b) == Mul(d, a) + Mul(d, b)
  {
  }

  lemma {:induction false} SumPlus(x: seq<real>, y: seq<real>)
    requires |x| == |y|
    ensures Sum(Plus(x, y)) == Sum(x) + Sum(y)
  {
    if x != [] {
      var m := |x| - 1;
      SumPlus(x[..m], y[..m]);
      assert Plus(x, y)[..m] == Plus(x[..m], y[..m]);
    }
  }

  /** A common summand does not matter to the distances. */
  lemma GapPlus(a: seq<real>, b: seq<real>, p: seq<real>)
    requires |a| == |b| == |p|
    ensures Gap(Plus(a, p), Plus(b, p)) == Gap(a, b)
  {
  }

  lemma ProductIsNonNegative(a: real, b: real)
    requires a >= 0.0 && b >= 0.0
    ensures Mul(a, b) >= 0.0
  {
  }

  lemma AbsOfProduct(d: real, a: real, b: real)
    requires d >= 0.0
    ensures Abs(Mul(d, a) - Mul(d, b)) == Mul(d, Abs(a - b))
  {
    if a < b {
      ProductIsNonNegative(d, b - a);
      Distribute(d, b - a, a);
    } else {
      ProductIsNonNegative(d, a - b);
      Distribute(d, a - b, b);
    }
  }

  lemma GapScale(d: real, a: seq<real>, b: seq<real>)
    requires |a| == |b| && d >= 0.0
    ensures Gap(Scale(d, a), Scale(d, b)) == Scale(d, Gap(a, b))
  {
    forall i | 0 <= i < |a|
      ensures Gap(Scale(d, a), Scale(d, b))[i] == Scale(d, Gap(a, b))[i]
    {
      AbsOfProduct(d, a[i], b[i]);
    }
  }

  lemma GapTimes(a: seq<real>, b: seq<real>, c: seq<real>)
    requires |a| == |b| == |c| && forall i :: 0 <= i < |c| ==> c[i] >= 0.0
    ensures Gap(Times(c, a), Times(c, b)) == Times(c, Gap(a, b))
  {
    forall i | 0 <= i < |a|
      ensures Gap(Times(c, a), Times(c, b))[i] == Times(c, Gap(a, b))[i]
    {
      AbsOfProduct(c[i], a[i], b[i]);
    }
  }

  lemma Reassociate(a: real, b: real, c: real)
    ensures Mul(a, Mul(b, c)) == Mul(Mul(a, b), c)
  {
  }

  predicate Below(x: seq<real>, y: seq<real>) {
    |x| == |y| && forall i :: 0 <= i < |x| ==> x[i] <= y[i]
  }

  lemma {:induction false} SumBelow(x: seq<real>, y: seq<real>)
    requires Below(x, y)
    ensures Sum(x) <= Sum(y)
  {
    if x != [] {
      SumBelow(x[..|x| - 1], y[..|x| - 1]);
    }
  }

  lemma SumOneMore(x: seq<real>, m: nat)
    requires m < |x|
    ensures Sum(x[..m + 1]) == Sum(x[..m]) + x[m]
  {
    assert x[..m + 1][..m] == x[..m];
  }

  lemma {:induction false} SumZero(x: seq<real>)
    requires forall i :: 0 <= i < |x| ==> x[i] == 0.0
    ensures Sum(x) == 0.0
  {
    if x != [] {
      SumZero(x[..|x| - 1]);
    }
  }

  /** Adding to one component. */
  lemma {:induction false} SumBump(x: seq<real>, y: seq<real>, u: nat, a: real)
    requires |x| == |y| && forall i :: 0 <= i < |x| ==> y[i] == x[i] + if i == u then a else 0.0
    ensures Sum(y) == Sum(x) + if u < |x| then a else 0.0
  {
    if x != [] {
      var m := |x| - 1;
      SumBump(x[..m], y[..m], u, a);
    }
  }

  lemma Scales(a: real, b: real, c: real)
    requires a <= b && c >= 0.0
    ensures Mul(c, a) <= Mul(c, b)
  {
    ProductIsNonNegative(c, b - a);
    Distribute(c, b - a, a);
  }

  lemma SumScaleAtMost(d: real, x: seq<real>, bound: real)
    requires d >= 0.0 && Sum(x) <= bound
    ensures Sum(Scale(d, x)) <= Mul(d, bound)
  {
    SumScale(d, x);
    Scales(Sum(x), bound, d);
  }

  /** Scaling, and adding the same to both, brings vectors closer as much as it scales. */
  lemma AffineContracts(d: real, p: seq<real>, a: seq<real>, b: seq<real>, bound: real)
    requires |a| == |b| == |p| && d >= 0.0 && Sum(Gap(a, b)) <= bound
    ensures Sum(Gap(Plus(Scale(d, a), p), Plus(Scale(d, b), p))) <= Mul(d, bound)
  {
    GapPlus(Scale(d, a), Scale(d, b), p);
    GapScale(d, a, b);
    SumScaleAtMost(d, Gap(a, b), bound);
  }

  lemma SumAffine(d: real, a: seq<real>, e: real, p: seq<real>, s: real)
    requires |a| == |p| && Sum(a) == s
    ensures Sum(Plus(Scale(d, a), Scale(e, p))) == Mul(d, s) + Mul(e, Sum(p))
  {
    SumPlus(Scale(d, a), Scale(e, p));
    SumScale(d, a);
    SumScale(e, p);
  }

  function Power(d: real, k: nat): real {
    if k == 0 then 1.0 else Mul(d, Power(d, k - 1))
  }

  lemma OneStepDown(a: real, b: real, p: real, first: real, d: real)
    requires a <= Mul(d, b) && b <= Mul(p, first) && d >= 0.0
    ensures a <= Mul(Mul(d, p), first)
  {
    Scales(b, Mul(p, first), d);
    Reassociate(d, p, first);
  }

  lemma OneStepNearer(t: real, t': real, d: real, p: real, q: real)
    requires t' == Mul(d, t) + Mul(1.0 - d, p) && t == p + Mul(q, 1.0 - p)
    ensures t' == p + Mul(Mul(d, q), 1.0 - p)
  {
    Distribute(d, p, Mul(q, 1.0 - p));
    Reassociate(d, q, 1.0 - p);
  }
}
