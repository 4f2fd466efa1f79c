/** Distributions of probability: normalised, smoothed and mixed vectors. */
module Distributions {
  import opened Vectors

  function Div(a: real, b: real): real
    requires b != 0.0
  {
    a / b
  }

  lemma DivOfSum(a: real, b: real, c: real)
    requires c != 0.0
    ensures Div(a + b, c) == Div(a, c) + Div(b, c)
  {
  }

  lemma DivIsNonNegative(a: real, c: real)
    requires c > 0.0 && a >= 0.0
    ensures Div(a, c) >= 0.0
  {
  }

  lemma DivBySelf(c: real)
    requires c != 0.0
    ensures Div(c, c) == 1.0
  {
  }

  /** Every component divided by the same number. */
  function Shares(x: seq<real>, norm: real): (z: seq<real>)
    requires norm != 0.0
    ensures |z| == |x|
  {
    seq(|x|, i requires 0 <= i < |x| => Div(x[i], norm))
  }

  lemma {:induction false} SumOfShares(x: seq<real>, norm: real)
    requires norm != 0.0
    ensures Sum(Shares(x, norm)) == Div(Sum(x), norm)
  {
    if x != [] {
      var m := |x| - 1;
      SumOfShares(x[..m], norm);
      DivOfSum(Sum(x[..m]), x[m], norm);
      SharesFirst(x, norm, m);
    }
  }

  lemma SharesFirst(x: seq<real>, norm: real, m: nat)
    requires norm != 0.0 && m <= |x|
    ensures Shares(x, norm)[..m] == Shares(x[..m], norm)
  {
    forall i | 0 <= i < m
      ensures Shares(x, norm)[..m][i] == Shares(x[..m], norm)[i]
    {
      assert x[..m][i] == x[i];
    }
  }

  /** A distribution of probability. */
  predicate IsDistribution(x: seq<real>) {
    NonNegative(x) && Sum(x) == 1.0
  }

  /** Dividing by the sum gives a distribution. */
  lemma SharesOfSum(x: seq<real>)
    requires NonNegative(x) && Sum(x) > 0.0
    ensures IsDistribution(Shares(x, Sum(x)))
  {
    SumOfShares(x, Sum(x));
    DivBySelf(Sum(x));
    forall i | 0 <= i < |x|
      ensures Shares(x, Sum(x))[i] >= 0.0
    {
      DivIsNonNegative(x[i], Sum(x));
    }
  }

  predicate Proportional(z: seq<real>, y: seq<real>)
    requires |z| == |y|
  {
    forall i, j :: 0 <= i < |y| && 0 <= j < |y| ==> Mul(z[i], y[j]) == Mul(y[i], z[j])
  }

  /** Dividing by the sum gives the only distribution that keeps proportions. */
  lemma SharesAreUnique(y: seq<real>, z: seq<real>)
    requires |z| == |y| && Sum(y) > 0.0 && Sum(z) == 1.0
    ensures Proportional(z, y) <==> z == Shares(y, Sum(y))
  {
    if Proportional(z, y) {
      forall i | 0 <= i < |y|
        ensures z[i] == Shares(y, Sum(y))[i]
      {
        assert Scale(z[i], y) == Scale(y[i], z);
        SumScale(z[i], y);
        SumScale(y[i], z);
        QuotientOf(z[i], Sum(y), y[i]);
      }
    } else if z == Shares(y, Sum(y)) {
      forall i, j | 0 <= i < |y| && 0 <= j < |y|
        ensures Mul(z[i], y[j]) == Mul(y[i], z[j])
      {
        CrossProducts(y[i], y[j], Sum(y));
      }
    }
  }

  lemma QuotientOf(a: real, b: real, c: real)
    requires b != 0.0 && Mul(a, b) == Mul(c, 1.0)
    ensures a == Div(c, b)
  {
    assert a * b == c;
  }

  lemma CrossProducts(a: real, b: real, c: real)
    requires c != 0.0
    ensures Mul(Div(a, c), b) == Mul(a, Div(b, c))
  {
    var k := 1.0 / c;
    assert a / c == a * k && b / c == b * k;
    Rearranged(a, b, k);
  }

  lemma Rearranged(a: real, b: real, k: real)
    ensures a * k * b == a * (b * k)
  {
  }

  function Mix(bias: real, x: seq<real>, y: seq<real>): (z: seq<real>)
    requires |x| == |y|
    ensures |z| == |x|
  {
    Plus(Scale(1.0 - bias, x), Scale(bias, y))
  }

  /** A mixture of distributions is one. */
  lemma MixOfDistributions(bias: real, x: seq<real>, y: seq<real>)
    requires |x| == |y| && 0.0 <= bias <= 1.0 && IsDistribution(x) && IsDistribution(y)
    ensures IsDistribution(Mix(bias, x, y))
  {
    SumPlus(Scale(1.0 - bias, x), Scale(bias, y));
    SumScale(1.0 - bias, x);
    SumScale(bias, y);
    forall i | 0 <= i < |x|
      ensures Mix(bias, x, y)[i] >= 0.0
    {
      ProductIsNonNegative(1.0 - bias, x[i]);
      ProductIsNonNegative(bias, y[i]);
    }
  }

  function Added(x: seq<real>, a: real): (z: seq<real>)
    ensures |z| == |x|
  {
    seq(|x|, i requires 0 <= i < |x| => x[i] + a)
  }

  lemma {:induction false} SumOfAdded(x: seq<real>, a: real)
    ensures Sum(Added(x, a)) == Sum(x) + Mul(a, |x| as real)
  {
    if x != [] {
      var m := |x| - 1;
      SumOfAdded(x[..m], a);
      assert Added(x, a)[..m] == Added(x[..m], a);
      Distribute(a, m as real, 1.0);
    }
  }

  lemma {:induction false} SumOfNonNegative(x: seq<real>)
    requires NonNegative(x)
    ensures Sum(x) >= 0.0
    ensures forall i :: 0 <= i < |x| && x[i] > 0.0 ==> Sum(x) > 0.0
  {
    if x != [] {
      SumOfNonNegative(x[..|x| - 1]);
    }
  }

  /** Adding a positive amount to every count, and dividing by the new total, gives a distribution. */
  lemma SmoothedIsDistribution(x: seq<real>, a: real)
    requires x != [] && NonNegative(x) && a > 0.0
    ensures Sum(x) + Mul(a, |x| as real) > 0.0
    ensures IsDistribution(Shares(Added(x, a), Sum(x) + Mul(a, |x| as real)))
  {
    SumOfAdded(x, a);
    SumOfNonNegative(Added(x, a));
    assert Added(x, a)[0] > 0.0;
    SharesOfSum(Added(x, a));
  }

  lemma ProductSign(a: real, b: real)
    requires a > 0.0 && b >= 0.0
    ensures Mul(a, b) >= 0.0 && (b > 0.0 ==> Mul(a, b) > 0.0)
  {
  }

  lemma DivSign(a: real, c: real)
    requires c > 0.0 && a >= 0.0
    ensures Div(a, c) >= 0.0 && (a > 0.0 ==> Div(a, c) > 0.0)
  {
  }

  /** Counts smoothed: a constant is added to each, and all are divided by their sum. */
  function Smoothed(x: seq<real>, a: real): (z: seq<real>)
    requires x != [] && NonNegative(x) && a > 0.0
    ensures |z| == |x|
  {
    SmoothedIsDistribution(x, a);
    Shares(Added(x, a), Sum(x) + Mul(a, |x| as real))
  }

  /** Smoothed counts are the only distribution in proportion to the counts with the constant added. */
  lemma SmoothedIsProportional(x: seq<real>, a: real, z: seq<real>)
    requires x != [] && NonNegative(x) && a > 0.0 && |z| == |x| && Sum(z) == 1.0
    ensures Proportional(z, Added(x, a)) <==> z == Smoothed(x, a)
  {
    SmoothedIsDistribution(x, a);
    SumOfAdded(x, a);
    SharesAreUnique(Added(x, a), z);
  }

  lemma SmoothedIsPositive(x: seq<real>, a: real)
    requires x != [] && NonNegative(x) && a > 0.0
    ensures forall i :: 0 <= i < |x| ==> Smoothed(x, a)[i] > 0.0
  {
    SmoothedIsDistribution(x, a);
    forall i | 0 <= i < |x|
      ensures Smoothed(x, a)[i] > 0.0
    {
      DivSign(x[i] + a, Sum(x) + Mul(a, |x| as real));
    }
  }

  lemma {:induction false} SumOfConcat(x: seq<real>, y: seq<real>)
    ensures Sum(x + y) == Sum(x) + Sum(y)
  {
    if y == [] {
      assert x + y == x;
    } else {
      assert (x + y)[..|x + y| - 1] == x + y[..|y| - 1];
      SumOfConcat(x, y[..|y| - 1]);
    }
  }

  /** Equal parts of a mass. */
  function Uniform(n: nat, mass: real): (x: seq<real>)
    ensures |x| == n
  {
    seq(n, i requires 0 <= i < n => Div(mass, n as real))
  }

  lemma UniformIsDistribution(n: nat)
    requires n > 0
    ensures IsDistribution(Uniform(n, 1.0))
  {
    var ones := seq(n, i requires 0 <= i < n => 1.0);
    SumOfOnes(ones);
    assert Uniform(n, 1.0) == Shares(ones, n as real);
    SharesOfSum(ones);
  }

  lemma {:induction false} SumOfOnes(x: seq<real>)
    requires forall i :: 0 <= i < |x| ==> x[i] == 1.0
    ensures Sum(x) == |x| as real
  {
    if x != [] {
      SumOfOnes(x[..|x| - 1]);
    }
  }
}
