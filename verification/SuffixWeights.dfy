/** What the probability of a tag by suffixes is: a weighted sum over the suffixes known, the longest
    counting most. */
module SuffixWeights {
  import opened Distributions
  import opened Probabilities
  import opened Vectors

  /** The `k` suffixes that end a form, from the one at `n - 1` on to the left, are known. */
  predicate AreKnown(t: Tables, s: string, n: nat, k: nat) {
    k <= n <= |s| && forall i :: n - k <= i < n ==> IsKnown(t, s, i)
  }

  predicate IsKnown(t: Tables, s: string, i: nat) {
    i <= |s| && s[i..] in t.suffixes
  }

  /** Just these are known: the next longer one is not, or there is none. */
  predicate KnownRun(t: Tables, s: string, n: nat, k: nat) {
    AreKnown(t, s, n, k) && (k == n || !IsKnown(t, s, n - k - 1))
  }

  /** What the known suffixes, from the shortest on, give the tag. */
  function SuffixCounts(t: Tables, tag: string, s: string, n: nat, k: nat): (p: seq<real>)
    requires AreKnown(t, s, n, k)
    ensures |p| == k
  {
    seq(k, j requires 0 <= j < k => CountAt(t, tag, s, n - 1 - j))
  }

  function CountAt(t: Tables, tag: string, s: string, i: nat): real {
    if IsKnown(t, s, i) then CountOf(t.suffixes[s[i..]], tag) else 0.0
  }

  /** The weights of `k` suffixes: the longest, the last one, counts `w`, and each other one `q` times
      as much as the next. */
  function Weights(w: real, q: real, k: nat): (z: seq<real>)
    ensures |z| == k
  {
    seq(k, j requires 0 <= j < k => Mul(w, Power(q, k - 1 - j)))
  }

  lemma {:induction false} SumFromFirst(x: seq<real>)
    requires x != []
    ensures Sum(x) == x[0] + Sum(x[1..])
  {
    assert x == [x[0]] + x[1..];
    SumOfConcat([x[0]], x[1..]);
    assert [x[0]][..0] == [];
  }

  /** Interpolating with one suffix more. */
  lemma OneSuffix(theta: real, p: real, x: real)
    requires theta > 0.0
    ensures Div(p + Mul(theta, x), 1.0 + theta) == Mul(Div(1.0, 1.0 + theta), p) + Mul(Div(theta, 1.0 + theta), x)
  {
    var c := 1.0 / (1.0 + theta);
    assert Div(p + Mul(theta, x), 1.0 + theta) == (p + theta * x) * c;
    assert Div(theta, 1.0 + theta) == theta * c;
  }

  lemma ShiftPower(q: real, k: nat, a: real, b: real)
    ensures Mul(Power(q, k), a + Mul(q, b)) == Mul(Power(q, k), a) + Mul(Power(q, k + 1), b)
  {
    var r := Power(q, k);
    assert Mul(r, a + Mul(q, b)) == r * a + r * (q * b);
    assert r * (q * b) == (q * r) * b;
  }

  lemma WeighedFromFirst(w: real, q: real, p: seq<real>)
    requires p != []
    ensures var k := |p| - 1;
            Sum(Times(Weights(w, q, k + 1), p)) == Mul(Power(q, k), Mul(w, p[0])) + Sum(Times(Weights(w, q, k), p[1..]))
  {
    var k := |p| - 1;
    var y := Times(Weights(w, q, k + 1), p);
    SumFromFirst(y);
    assert y[1..] == Times(Weights(w, q, k), p[1..]);
    ThreeFactors(w, Power(q, k), p[0]);
  }

  lemma ThreeFactors(a: real, b: real, c: real)
    ensures Mul(Mul(a, b), c) == Mul(b, Mul(a, c))
  {
    assert a * b * c == b * (a * c);
  }

  /** The weighted sum of what the suffixes give and of what was given. */
  function Weighted(w: real, q: real, x: real, p: seq<real>): real {
    Mul(Power(q, |p|), x) + Sum(Times(Weights(w, q, |p|), p))
  }

  lemma WeightedFromFirst(w: real, q: real, x: real, p: seq<real>)
    requires p != []
    ensures Weighted(w, q, x, p) == Weighted(w, q, Mul(w, p[0]) + Mul(q, x), p[1..])
  {
    ShiftPower(q, |p| - 1, Mul(w, p[0]), x);
    WeighedFromFirst(w, q, p);
  }

  /** What a suffix counts, and what that so far does. */
  function OwnWeight(theta: real): real
    requires theta > 0.0
  {
    Div(1.0, 1.0 + theta)
  }

  function PriorWeight(theta: real): real
    requires theta > 0.0
  {
    Div(theta, 1.0 + theta)
  }

  lemma OneSuffixMore(t: Tables, tag: string, x: real, s: string, n: nat)
    requires t.theta > 0.0 && 0 < n <= |s| && IsKnown(t, s, n - 1)
    ensures var now := Mul(OwnWeight(t.theta), CountAt(t, tag, s, n - 1)) + Mul(PriorWeight(t.theta), x);
            Suffixed(t, tag, x, s, n) == Suffixed(t, tag, now, s, n - 1)
  {
    OneSuffix(t.theta, CountAt(t, tag, s, n - 1), x);
  }

  /** MAIN RESULT: with `k` known suffixes, the longest counts 1/(1+theta), each shorter one theta/(1+theta)
      times as much as the next longer, and the probability given (theta/(1+theta))^k. */
  lemma {:induction false} SuffixedIsWeighted(t: Tables, tag: string, x: real, s: string, n: nat, k: nat)
    requires t.theta > 0.0 && KnownRun(t, s, n, k)
    ensures Suffixed(t, tag, x, s, n)
         == Weighted(OwnWeight(t.theta), PriorWeight(t.theta), x, SuffixCounts(t, tag, s, n, k))
    decreases k
  {
    if k > 0 {
      var w, q, p := OwnWeight(t.theta), PriorWeight(t.theta), SuffixCounts(t, tag, s, n, k);
      assert IsKnown(t, s, n - 1) && p[0] == CountAt(t, tag, s, n - 1);
      OneSuffixMore(t, tag, x, s, n);
      SuffixedIsWeighted(t, tag, Mul(w, p[0]) + Mul(q, x), s, n - 1, k - 1);
      assert SuffixCounts(t, tag, s, n - 1, k - 1) == p[1..];
      WeightedFromFirst(w, q, x, p);
    }
  }

  /** There is such a run for every form. */
  lemma {:induction false} SomeRun(t: Tables, s: string, n: nat) returns (k: nat)
    requires n <= |s|
    ensures KnownRun(t, s, n, k)
  {
    k := 0;
    if n > 0 && s[n - 1..] in t.suffixes {
      var m := SomeRun(t, s, n - 1);
      k := m + 1;
      assert IsKnown(t, s, n - 1);
    }
  }

  /** Without a known suffix the probability given stays. */
  lemma NoSuffixIsKnown(t: Tables, tag: string, x: real, s: string)
    requires t.theta > 0.0 && KnownRun(t, s, |s|, 0)
    ensures Suffixed(t, tag, x, s, |s|) == x
  {
  }

  /** With a single known suffix, the result divides the way from what it gives to what was given. */
  lemma OneSuffixIsKnown(t: Tables, tag: string, x: real, s: string)
    requires t.theta > 0.0 && KnownRun(t, s, |s|, 1)
    ensures var r, p := Suffixed(t, tag, x, s, |s|), CountAt(t, tag, s, |s| - 1);
            r - p == t.theta * (x - r)
  {
    var n := |s|;
    assert IsKnown(t, s, n - 1) && (n == 1 || !IsKnown(t, s, n - 2));
    var p := CountAt(t, tag, s, n - 1);
    var r := Interpolated(t, tag, x, s[n - 1..]);
    assert Suffixed(t, tag, x, s, n) == Suffixed(t, tag, r, s, n - 1) == r;
    assert r * (1.0 + t.theta) == p + t.theta * x;
  }
}
