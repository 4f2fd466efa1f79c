/** One step of page rank, and what repeating it comes to. */
module PageRank {
  import opened EdgeLists
  import opened Vectors

  function Val(f: seq<real>, u: nat): real {
    if u < |f| then f[u] else 0.0
  }

  /** The sum over the vertices of a list. */
  function SumAt(us: seq<nat>, f: seq<real>): real {
    if us == [] then 0.0 else SumAt(us[..|us| - 1], f) + Val(f, us[|us| - 1])
  }

  /** The sum over the sources of all edges, and over their targets. */
  function SumFirst(rels: seq<Edge>, f: seq<real>): real {
    if rels == [] then 0.0 else SumFirst(rels[..|rels| - 1], f) + Val(f, rels[|rels| - 1].0)
  }

  function SumSecond(rels: seq<Edge>, f: seq<real>): real {
    if rels == [] then 0.0 else SumSecond(rels[..|rels| - 1], f) + Val(f, rels[|rels| - 1].1)
  }

  /** Every edge has been listed together with its reverse. */
  predicate Mirrored(rels: seq<Edge>) {
    rels == [] ||
    (|rels| >= 2 && var m := |rels| - 2;
     rels[m] == (rels[m + 1].1, rels[m + 1].0) && Mirrored(rels[..m]))
  }

  /** Sources and targets count the same. */
  ghost predicate Balanced(rels: seq<Edge>) {
    forall f :: SumFirst(rels, f) == SumSecond(rels, f)
  }

  lemma {:induction false} MirroredIsBalanced(rels: seq<Edge>, f: seq<real>)
    requires Mirrored(rels)
    ensures SumFirst(rels, f) == SumSecond(rels, f)
  {
    if rels != [] {
      var m := |rels| - 2;
      MirroredIsBalanced(rels[..m], f);
      assert rels[..m + 1][..m] == rels[..m];
    }
  }

  lemma {:induction false} SumsOfSum(a: seq<Edge>, b: seq<Edge>, f: seq<real>)
    ensures SumFirst(a + b, f) == SumFirst(a, f) + SumFirst(b, f)
    ensures SumSecond(a + b, f) == SumSecond(a, f) + SumSecond(b, f)
  {
    if b == [] {
      assert a + b == a;
    } else {
      assert (a + b)[..|a + b| - 1] == a + b[..|b| - 1];
      SumsOfSum(a, b[..|b| - 1], f);
    }
  }

  lemma SumsOfOne(e: Edge, f: seq<real>)
    ensures SumFirst([e], f) == Val(f, e.0) && SumSecond([e], f) == Val(f, e.1)
  {
    assert [e][..0] == [];
  }

  /** Sums do not depend on the order of the edges. */
  lemma {:induction false} SumsOfPermutation(a: seq<Edge>, b: seq<Edge>, f: seq<real>)
    requires multiset(a) == multiset(b)
    ensures SumFirst(a, f) == SumFirst(b, f) && SumSecond(a, f) == SumSecond(b, f)
  {
    if a == [] {
      assert |multiset(b)| == 0;
    } else {
      var m := |a| - 1;
      var e := a[m];
      assert a == a[..m] + [e];
      assert e in multiset(a) && e in multiset(b);
      var i :| 0 <= i < |b| && b[i] == e;
      assert b == b[..i] + [e] + b[i + 1..];
      WithoutOne(a[..m], e, []);
      WithoutOne(b[..i], e, b[i + 1..]);
      assert a[..m] + [] == a[..m] && a[..m] + [e] + [] == a;
      SumsOfPermutation(a[..m], b[..i] + b[i + 1..], f);
      SumsAround(b[..i], e, b[i + 1..], f);
    }
  }

  lemma WithoutOne(a: seq<Edge>, e: Edge, b: seq<Edge>)
    ensures multiset(a + b) == multiset(a + [e] + b) - multiset{e}
  {
  }

  lemma SumsAround(a: seq<Edge>, e: Edge, b: seq<Edge>, f: seq<real>)
    ensures SumFirst(a + [e] + b, f) == SumFirst(a + b, f) + Val(f, e.0)
    ensures SumSecond(a + [e] + b, f) == SumSecond(a + b, f) + Val(f, e.1)
  {
    SumsOfSum(a + [e], b, f);
    SumsOfSum(a, [e], f);
    SumsOfSum(a, b, f);
    SumsOfOne(e, f);
  }

  lemma SortedIsBalanced(rels: seq<Edge>)
    requires Mirrored(rels)
    ensures Balanced(SortedList(rels))
  {
    SortedListIsSorted(rels);
    forall f
      ensures SumFirst(SortedList(rels), f) == SumSecond(SortedList(rels), f)
    {
      MirroredIsBalanced(rels, f);
      SumsOfPermutation(SortedList(rels), rels, f);
    }
  }

  /** What each vertex gets from the targets of its edges. */
  function RowSums(rels: seq<Edge>, f: seq<real>, n: nat): (z: seq<real>)
    ensures |z| == n
  {
    seq(n, v requires 0 <= v < n => SumAt(Targets(rels, v), f))
  }

  /** Summing row by row is summing over all edges. */
  lemma {:induction false} RowSumsAreSecond(n: nat, rels: seq<Edge>, f: seq<real>)
    requires Inside(rels, n)
    ensures Sum(RowSums(rels, f, n)) == SumSecond(rels, f)
  {
    if rels == [] {
      SumZero(RowSums(rels, f, n));
    } else {
      var m := |rels| - 1;
      RowSumsAreSecond(n, rels[..m], f);
      forall v: nat | v < n
        ensures RowSums(rels, f, n)[v] == RowSums(rels[..m], f, n)[v] + if v == rels[m].0 then Val(f, rels[m].1) else 0.0
      {
        RowOneMore(rels, f, v);
      }
      SumBump(RowSums(rels[..m], f, n), RowSums(rels, f, n), rels[m].0, Val(f, rels[m].1));
    }
  }

  lemma RowOneMore(rels: seq<Edge>, f: seq<real>, v: nat)
    requires rels != []
    ensures var e := rels[|rels| - 1];
            SumAt(Targets(rels, v), f) == SumAt(Targets(rels[..|rels| - 1], v), f) + if e.0 == v then Val(f, e.1) else 0.0
  {
    var t := Targets(rels[..|rels| - 1], v);
    assert (t + [rels[|rels| - 1].1])[..|t|] == t && t + [] == t;
  }

  function Degrees(rels: seq<Edge>, n: nat): (z: seq<real>)
    ensures |z| == n
  {
    seq(n, v requires 0 <= v < n => Degree(rels, v) as real)
  }

  /** The shares that a vertex gives to its neighbours make up a whole. */
  ghost predicate ShareOk(rels: seq<Edge>, coef: seq<real>, v: nat)
    requires v < |coef|
  {
    coef[v] >= 0.0 && Mul(Degree(rels, v) as real, coef[v]) == if Degree(rels, v) == 0 then 0.0 else 1.0
  }

  ghost predicate AreShares(rels: seq<Edge>, coef: seq<real>) {
    forall v: nat {:trigger ShareOk(rels, coef, v)} :: v < |coef| ==> ShareOk(rels, coef, v)
  }

  /** Summing over the sources of all edges is counting each vertex by its degree. */
  lemma {:induction false} DegreesAreFirst(n: nat, rels: seq<Edge>, f: seq<real>)
    requires Inside(rels, n) && |f| == n
    ensures Sum(Times(Degrees(rels, n), f)) == SumFirst(rels, f)
  {
    if rels == [] {
      SumZero(Times(Degrees(rels, n), f));
    } else {
      var m := |rels| - 1;
      DegreesAreFirst(n, rels[..m], f);
      forall v: nat | v < n
        ensures Times(Degrees(rels, n), f)[v] == Times(Degrees(rels[..m], n), f)[v] + if v == rels[m].0 then f[rels[m].0] else 0.0
      {
        DegreeOneMore(rels, v, f[v]);
      }
      SumBump(Times(Degrees(rels[..m], n), f), Times(Degrees(rels, n), f), rels[m].0, f[rels[m].0]);
    }
  }

  lemma DegreeOneMore(rels: seq<Edge>, v: nat, x: real)
    requires rels != []
    ensures var m := |rels| - 1;
            Mul(Degree(rels, v) as real, x) == Mul(Degree(rels[..m], v) as real, x) + if v == rels[m].0 then x else 0.0
  {
    var m := |rels| - 1;
    var d := Degree(rels[..m], v);
    if v == rels[m].0 {
      assert Degree(rels, v) == d + 1;
      assert (d + 1) as real * x == d as real * x + x;
    }
  }

  ghost predicate NoneIsolated(rels: seq<Edge>, n: nat) {
    forall v: nat :: v < n ==> Degree(rels, v) > 0
  }

  lemma GivenAwayAt(rels: seq<Edge>, coef: seq<real>, x: seq<real>, v: nat)
    requires |coef| == |x| && AreShares(rels, coef) && v < |x|
    ensures Times(Degrees(rels, |x|), Times(coef, x))[v] == if Degree(rels, v) == 0 then 0.0 else x[v]
  {
    assert ShareOk(rels, coef, v);
    Reassociate(Degree(rels, v) as real, coef[v], x[v]);
  }

  lemma GivenAway(rels: seq<Edge>, coef: seq<real>, x: seq<real>)
    requires |coef| == |x| && AreShares(rels, coef) && (NonNegative(x) || NoneIsolated(rels, |x|))
    ensures Below(Times(Degrees(rels, |x|), Times(coef, x)), x)
    ensures NoneIsolated(rels, |x|) ==> Times(Degrees(rels, |x|), Times(coef, x)) == x
  {
    forall v: nat | v < |x|
      ensures Times(Degrees(rels, |x|), Times(coef, x))[v] == if Degree(rels, v) == 0 then 0.0 else x[v]
    {
      GivenAwayAt(rels, coef, x, v);
    }
  }

  /** What all vertices give away is at most what they have, and all of it if none is isolated. */
  lemma GivenTotal(rels: seq<Edge>, coef: seq<real>, x: seq<real>)
    requires |coef| == |x| && AreShares(rels, coef) && Inside(rels, |x|) && Balanced(rels)
    requires NonNegative(x) || NoneIsolated(rels, |x|)
    ensures Sum(RowSums(rels, Times(coef, x), |x|)) <= Sum(x)
    ensures NoneIsolated(rels, |x|) ==> Sum(RowSums(rels, Times(coef, x), |x|)) == Sum(x)
  {
    var f := Times(coef, x);
    RowSumsAreSecond(|x|, rels, f);
    DegreesAreFirst(|x|, rels, f);
    GivenAway(rels, coef, x);
    SumBelow(Times(Degrees(rels, |x|), f), x);
  }

  /** The ranks after one more step: a share of the ranks of the neighbours, and of the given weights. */
  function Step(rels: seq<Edge>, coef: seq<real>, damping: real, pv: seq<real>, x: seq<real>): (y: seq<real>)
    requires |x| == |pv| == |coef|
    ensures |y| == |pv|
  {
    Plus(Scale(damping, RowSums(rels, Times(coef, x), |x|)), Scale(1.0 - damping, pv))
  }

  lemma {:induction false} SumAtGap(us: seq<nat>, f: seq<real>, g: seq<real>)
    requires |f| == |g|
    ensures Abs(SumAt(us, f) - SumAt(us, g)) <= SumAt(us, Gap(f, g))
  {
    if us != [] {
      var m := |us| - 1;
      SumAtGap(us[..m], f, g);
    }
  }

  lemma RowSumsGap(rels: seq<Edge>, f: seq<real>, g: seq<real>, n: nat)
    requires |f| == |g|
    ensures Sum(Gap(RowSums(rels, f, n), RowSums(rels, g, n))) <= Sum(RowSums(rels, Gap(f, g), n))
  {
    forall v: nat | v < n
      ensures Gap(RowSums(rels, f, n), RowSums(rels, g, n))[v] <= RowSums(rels, Gap(f, g), n)[v]
    {
      SumAtGap(Targets(rels, v), f, g);
    }
    SumBelow(Gap(RowSums(rels, f, n), RowSums(rels, g, n)), RowSums(rels, Gap(f, g), n));
  }

  /** The change from one vector of ranks to another. */
  function Change(x: seq<real>, y: seq<real>): real
    requires |x| == |y|
  {
    Sum(Gap(x, y))
  }

  lemma RowsContract(rels: seq<Edge>, coef: seq<real>, x: seq<real>, y: seq<real>)
    requires |x| == |y| == |coef| && AreShares(rels, coef) && Inside(rels, |x|) && Balanced(rels)
    ensures Change(RowSums(rels, Times(coef, x), |x|), RowSums(rels, Times(coef, y), |x|)) <= Change(x, y)
  {
    forall v: nat | v < |coef|
      ensures coef[v] >= 0.0
    {
      assert ShareOk(rels, coef, v);
    }
    RowSumsGap(rels, Times(coef, x), Times(coef, y), |x|);
    GapTimes(x, y, coef);
    GivenTotal(rels, coef, Gap(x, y));
  }

  /** MAIN RESULT: a step brings any two vectors of ranks closer by the damping factor. */
  lemma StepIsContraction(rels: seq<Edge>, coef: seq<real>, damping: real, pv: seq<real>, x: seq<real>, y: seq<real>)
    requires |x| == |y| == |pv| == |coef| && damping >= 0.0
    requires AreShares(rels, coef) && Inside(rels, |x|) && Balanced(rels)
    ensures Change(Step(rels, coef, damping, pv, x), Step(rels, coef, damping, pv, y)) <= Mul(damping, Change(x, y))
  {
    var a, b := RowSums(rels, Times(coef, x), |x|), RowSums(rels, Times(coef, y), |x|);
    RowsContract(rels, coef, x, y);
    AffineContracts(damping, Scale(1.0 - damping, pv), a, b, Change(x, y));
  }

  /** Without isolated vertices, all rank is passed on. */
  lemma StepTotal(rels: seq<Edge>, coef: seq<real>, damping: real, pv: seq<real>, x: seq<real>)
    requires |x| == |pv| == |coef| && AreShares(rels, coef) && Inside(rels, |x|) && Balanced(rels) && NoneIsolated(rels, |x|)
    ensures Sum(Step(rels, coef, damping, pv, x)) == Mul(damping, Sum(x)) + Mul(1.0 - damping, Sum(pv))
  {
    var a := RowSums(rels, Times(coef, x), |x|);
    GivenTotal(rels, coef, x);
    SumAffine(damping, a, 1.0 - damping, pv, Sum(x));
  }

  /** The ranks after `k` steps from equal ranks. */
  function Ranks(rels: seq<Edge>, coef: seq<real>, damping: real, pv: seq<real>, k: nat): (x: seq<real>)
    requires |coef| == |pv|
    ensures |x| == |pv|
  {
    if k == 0 then Equal(|pv|) else Step(rels, coef, damping, pv, Ranks(rels, coef, damping, pv, k - 1))
  }

  function Equal(n: nat): (x: seq<real>)
    ensures |x| == n
  {
    seq(n, v requires 0 <= v < n => 1.0 / n as real)
  }

  lemma {:induction false} SumOfSame(x: seq<real>, a: real)
    requires forall i :: 0 <= i < |x| ==> x[i] == a
    ensures Sum(x) == Mul(|x| as real, a)
  {
    if x != [] {
      SumOfSame(x[..|x| - 1], a);
      Distribute(a, (|x| - 1) as real, 1.0);
    }
  }

  lemma EqualIsWhole(n: nat, p: real)
    requires n > 0
    ensures Sum(Equal(n)) == 1.0 == p + Mul(1.0, 1.0 - p)
  {
    SumOfSame(Equal(n), 1.0 / n as real);
  }

  /** The first ranks are the only ones that are all the same and add up to 1. */
  lemma EqualIsUnique(x: seq<real>)
    requires x != []
    ensures (forall i, j :: 0 <= i < |x| && 0 <= j < |x| ==> x[i] == x[j]) && Sum(x) == 1.0 <==> x == Equal(|x|)
  {
    EqualIsWhole(|x|, 0.0);
    if (forall i, j :: 0 <= i < |x| && 0 <= j < |x| ==> x[i] == x[j]) && Sum(x) == 1.0 {
      SumOfSame(x, x[0]);
      assert |x| as real * x[0] == 1.0;
      assert forall i :: 0 <= i < |x| ==> x[i] == x[0] == 1.0 / |x| as real;
    }
  }

  /** The change of a single component is how far it moves. */
  lemma ChangeOfOne(x: seq<real>, v: nat, r: real)
    requires v < |x|
    ensures Change(x, x[v := r]) == if r < x[v] then x[v] - r else r - x[v]
  {
    var g := Gap(x, x[v := r]);
    assert forall i :: 0 <= i < |x| && i != v ==> g[i] == 0.0;
    SumOfOnly(g, v);
  }

  lemma {:induction false} SumOfOnly(g: seq<real>, v: nat)
    requires v < |g| && forall i :: 0 <= i < |g| && i != v ==> g[i] == 0.0
    ensures Sum(g) == g[v]
  {
    var m := |g| - 1;
    if v < m {
      SumOfOnly(g[..m], v);
    } else {
      SumOfSame(g[..m], 0.0);
    }
  }

  /** The change measured in the `k`-th step. */
  function ChangeAt(rels: seq<Edge>, coef: seq<real>, damping: real, pv: seq<real>, k: nat): real
    requires k > 0 && |coef| == |pv|
  {
    Change(Ranks(rels, coef, damping, pv, k), Ranks(rels, coef, damping, pv, k - 1))
  }

  /** MAIN RESULT: the change shrinks by the damping factor with every step. */
  lemma ChangeShrinks(rels: seq<Edge>, coef: seq<real>, damping: real, pv: seq<real>, k: nat)
    requires |coef| == |pv| && damping >= 0.0 && k > 0
    requires AreShares(rels, coef) && Inside(rels, |pv|) && Balanced(rels)
    ensures ChangeAt(rels, coef, damping, pv, k + 1) <= Mul(damping, ChangeAt(rels, coef, damping, pv, k))
  {
    var x, y := Ranks(rels, coef, damping, pv, k), Ranks(rels, coef, damping, pv, k - 1);
    StepIsContraction(rels, coef, damping, pv, x, y);
  }

  /** The change in the `k`-th step is at most D^(k-1) times that in the first. */
  lemma {:induction false} ChangeIsGeometric(rels: seq<Edge>, coef: seq<real>, damping: real, pv: seq<real>, k: nat)
    requires |coef| == |pv| && damping >= 0.0 && k > 0
    requires AreShares(rels, coef) && Inside(rels, |pv|) && Balanced(rels)
    ensures ChangeAt(rels, coef, damping, pv, k) <= Mul(Power(damping, k - 1), ChangeAt(rels, coef, damping, pv, 1))
  {
    if k > 1 {
      ChangeIsGeometric(rels, coef, damping, pv, k - 1);
      ChangeShrinks(rels, coef, damping, pv, k - 1);
      OneStepDown(ChangeAt(rels, coef, damping, pv, k), ChangeAt(rels, coef, damping, pv, k - 1), Power(damping, k - 2),
                  ChangeAt(rels, coef, damping, pv, 1), damping);
    }
  }

  /** MAIN RESULT: without isolated vertices, the ranks add up to P + D^k (1 - P) after `k` steps,
      where P is the sum of the weights given and D the damping factor. */
  lemma {:induction false} TotalOfRanks(rels: seq<Edge>, coef: seq<real>, damping: real, pv: seq<real>, k: nat)
    requires pv != [] && |coef| == |pv| && AreShares(rels, coef)
    requires Inside(rels, |pv|) && Balanced(rels) && NoneIsolated(rels, |pv|)
    ensures Sum(Ranks(rels, coef, damping, pv, k)) == Sum(pv) + Mul(Power(damping, k), 1.0 - Sum(pv))
  {
    if k == 0 {
      EqualIsWhole(|pv|, Sum(pv));
    } else {
      TotalOfRanks(rels, coef, damping, pv, k - 1);
      StepTotal(rels, coef, damping, pv, Ranks(rels, coef, damping, pv, k - 1));
      OneStepNearer(Sum(Ranks(rels, coef, damping, pv, k - 1)), Sum(Ranks(rels, coef, damping, pv, k)), damping, Sum(pv),
                    Power(damping, k - 1));
    }
  }
}
