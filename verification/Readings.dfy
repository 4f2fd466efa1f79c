/** The readings of a word with their probabilities, and their order. */
module Readings {
  import opened Distributions
  import Strings
  import opened Vectors

  datatype Reading = Reading(lem: string, tag: string, prob: real)

  function Probs(rs: seq<Reading>): (x: seq<real>)
    ensures |x| == |rs|
  {
    seq(|rs|, i requires 0 <= i < |rs| => rs[i].prob)
  }

  /** The readings with other probabilities. */
  function WithProbs(rs: seq<Reading>, x: seq<real>): (z: seq<Reading>)
    requires |x| == |rs|
    ensures |z| == |rs| && Probs(z) == x
  {
    seq(|rs|, i requires 0 <= i < |rs| => rs[i].(prob := x[i]))
  }

  lemma ProbsOfConcat(a: seq<Reading>, b: seq<Reading>)
    ensures Probs(a + b) == Probs(a) + Probs(b)
    ensures Sum(Probs(a + b)) == Sum(Probs(a)) + Sum(Probs(b))
  {
    assert Probs(a + b) == Probs(a) + Probs(b);
    SumOfConcat(Probs(a), Probs(b));
  }

  lemma MassOfOne(r: Reading)
    ensures Sum(Probs([r])) == r.prob
  {
    assert Probs([r])[..0] == [];
  }

  lemma NonNegativeConcat(a: seq<Reading>, b: seq<Reading>)
    requires NonNegative(Probs(a)) && NonNegative(Probs(b))
    ensures NonNegative(Probs(a + b))
  {
    ProbsOfConcat(a, b);
  }

  predicate Before(a: Reading, b: Reading) {
    a.prob > b.prob || (a.prob == b.prob && Strings.Alphabetical(a.tag, b.tag))
  }

  function Insert(rs: seq<Reading>, r: Reading): seq<Reading> {
    if rs == [] || !Before(r, rs[|rs| - 1]) then rs + [r] else Insert(rs[..|rs| - 1], r) + [rs[|rs| - 1]]
  }

  /** The readings by decreasing probability. */
  function SortReadings(rs: seq<Reading>): seq<Reading> {
    if rs == [] then [] else Insert(SortReadings(rs[..|rs| - 1]), rs[|rs| - 1])
  }

  ghost predicate Decreasing(rs: seq<Reading>) {
    forall i, j :: 0 <= i < j < |rs| ==> rs[i].prob >= rs[j].prob
  }

  lemma {:induction false} InsertAdds(rs: seq<Reading>, r: Reading)
    ensures multiset(Insert(rs, r)) == multiset(rs) + multiset{r} && |Insert(rs, r)| == |rs| + 1
    ensures Sum(Probs(Insert(rs, r))) == Sum(Probs(rs)) + r.prob
  {
    if rs != [] && Before(r, rs[|rs| - 1]) {
      var last, front := rs[|rs| - 1], rs[..|rs| - 1];
      assert rs == front + [last];
      InsertAdds(front, r);
      ProbsOfConcat(front, [last]);
      ProbsOfConcat(Insert(front, r), [last]);
    } else {
      ProbsOfConcat(rs, [r]);
      MassOfOne(r);
    }
  }

  ghost predicate AllAtLeast(rs: seq<Reading>, p: real) {
    forall i :: 0 <= i < |rs| ==> rs[i].prob >= p
  }

  lemma {:induction false} InsertAtLeast(rs: seq<Reading>, r: Reading, p: real)
    requires AllAtLeast(rs, p) && r.prob >= p
    ensures AllAtLeast(Insert(rs, r), p)
  {
    if rs != [] && Before(r, rs[|rs| - 1]) {
      InsertAtLeast(rs[..|rs| - 1], r, p);
    }
  }

  lemma DecreasingOneMore(rs: seq<Reading>, r: Reading)
    requires Decreasing(rs) && AllAtLeast(rs, r.prob)
    ensures Decreasing(rs + [r])
  {
  }

  lemma {:induction false} InsertKeepsOrder(rs: seq<Reading>, r: Reading)
    requires Decreasing(rs)
    ensures Decreasing(Insert(rs, r))
  {
    if rs != [] && Before(r, rs[|rs| - 1]) {
      var last, front := rs[|rs| - 1], rs[..|rs| - 1];
      InsertKeepsOrder(front, r);
      InsertAtLeast(front, r, last.prob);
      DecreasingOneMore(Insert(front, r), last);
    } else {
      assert AllAtLeast(rs, r.prob);
      DecreasingOneMore(rs, r);
    }
  }

  /** Each item of a sequence is one of any with the same items. */
  lemma FoundIn(a: seq<Reading>, b: seq<Reading>, i: nat)
    requires i < |a| && multiset(a) == multiset(b)
    ensures exists j :: 0 <= j < |b| && b[j] == a[i]
  {
    assert a[i] in multiset(b);
  }

  /** Sorting keeps the readings, and their mass. */
  lemma {:induction false} SortKeeps(rs: seq<Reading>)
    ensures multiset(SortReadings(rs)) == multiset(rs) && |SortReadings(rs)| == |rs|
    ensures Decreasing(SortReadings(rs))
    ensures Sum(Probs(SortReadings(rs))) == Sum(Probs(rs))
  {
    if rs != [] {
      var last, front := rs[|rs| - 1], rs[..|rs| - 1];
      assert rs == front + [last];
      SortKeeps(front);
      InsertAdds(SortReadings(front), last);
      InsertKeepsOrder(SortReadings(front), last);
      ProbsOfConcat(front, [last]);
      MassOfOne(last);
    }
  }

  lemma SameItemsNonNegative(a: seq<Reading>, b: seq<Reading>)
    requires multiset(a) == multiset(b) && NonNegative(Probs(a))
    ensures NonNegative(Probs(b))
  {
    forall i | 0 <= i < |b|
      ensures b[i].prob >= 0.0
    {
      FoundIn(b, a, i);
      var j :| 0 <= j < |a| && a[j] == b[i];
      assert Probs(a)[j] >= 0.0;
    }
  }

  lemma SortKeepsDistribution(rs: seq<Reading>)
    ensures IsDistribution(Probs(rs)) <==> IsDistribution(Probs(SortReadings(rs)))
  {
    SortKeeps(rs);
    if NonNegative(Probs(rs)) {
      SameItemsNonNegative(rs, SortReadings(rs));
    }
    if NonNegative(Probs(SortReadings(rs))) {
      SameItemsNonNegative(SortReadings(rs), rs);
    }
  }

  /** The first `i` readings have their new probabilities. */
  ghost predicate SetUpTo(rs: seq<Reading>, x: seq<real>, i: nat, now: seq<Reading>)
    requires |x| == |rs|
  {
    && |now| == |rs| && i <= |rs|
    && forall j :: 0 <= j < |rs| ==> now[j] == if j < i then rs[j].(prob := x[j]) else rs[j]
  }

  lemma AllSet(rs: seq<Reading>, x: seq<real>, now: seq<Reading>)
    requires |x| == |rs| && SetUpTo(rs, x, |rs|, now)
    ensures now == WithProbs(rs, x)
  {
  }

  lemma OneMoreSet(rs: seq<Reading>, x: seq<real>, i: nat, now: seq<Reading>)
    requires |x| == |rs| && i < |rs| && SetUpTo(rs, x, i, now)
    ensures now[i] == rs[i] && SetUpTo(rs, x, i + 1, now[i := now[i].(prob := x[i])])
  {
  }

  /** The readings of a word that is not known, with equal parts of the mass. */
  function Evenly(rs: seq<Reading>): seq<Reading> {
    WithProbs(rs, Uniform(|rs|, 1.0))
  }

  lemma EvenlyIsDistribution(rs: seq<Reading>)
    requires rs != []
    ensures IsDistribution(Probs(Evenly(rs)))
  {
    UniformIsDistribution(|rs|);
  }

  predicate HasReading(rs: seq<Reading>, lem: string, tag: string) {
    exists j :: 0 <= j < |rs| && rs[j].lem == lem && rs[j].tag == tag
  }

  lemma SortedKeeps(rs: seq<Reading>, i: nat)
    requires i < |rs|
    ensures |SortReadings(rs)| == |rs| && HasReading(SortReadings(rs), rs[i].lem, rs[i].tag)
  {
    SortKeeps(rs);
    FoundIn(rs, SortReadings(rs), i);
  }
}
