/** What the trellis means: the k best paths through a lattice of states, and the
    proof that keeping the k best per state at every step loses none of them. */
module Viterbi {
  import opened LogProbs
  import opened Trellises

  /** The states that may have emitted each word, the score of starting in a state,
      which states may follow each other, and the score added by doing so. */
  datatype Lattice = Lattice(states: seq<seq<Bigram>>,
                             init: Bigram -> LogProb,
                             linked: (nat, Bigram, Bigram) -> bool,
                             arc: (nat, Bigram, Bigram) -> LogProb)
  {
    /** Every state has at least one predecessor. */
    ghost predicate Connected() {
      && |states| > 0
      && (forall t :: 0 <= t < |states| ==> Distinct(states[t]) && states[t] != [])
      && (forall t :: 1 <= t < |states| ==> forall s :: s in states[t] ==> HasPredecessor(t, s))
    }

    ghost predicate HasPredecessor(t: nat, s: Bigram)
      requires 1 <= t < |states|
    {
      exists u :: u in states[t - 1] && linked(t, u, s)
    }

    ghost predicate IsPath(p: seq<Bigram>) {
      0 < |p| <= |states| &&
      var t := |p| - 1;
      p[t] in states[t] && (t == 0 || (IsPath(p[..t]) && linked(t, p[t - 1], p[t])))
    }

    function Score(p: seq<Bigram>): LogProb {
      var t := |p| - 1;
      if p == [] then ONE else if t == 0 then init(p[0]) else Score(p[..t]).Plus(arc(t, p[t - 1], p[t]))
    }
  }

  /** The paths into `s` that go through `u`, in the order they are offered. */
  function OffersVia(l: Lattice, t: nat, u: Bigram, s: Bigram, es: seq<Element>): (offers: seq<Element>)
    ensures l.linked(t, u, s) ==> |offers| == |es|
    ensures !l.linked(t, u, s) ==> offers == []
  {
    if l.linked(t, u, s)
    then seq(|es|, kb requires 0 <= kb < |es| => Element(u, kb, es[kb].prob.Plus(l.arc(t, u, s))))
    else []
  }

  lemma OffersViaAt(l: Lattice, t: nat, u: Bigram, s: Bigram, es: seq<Element>, kb: nat)
    requires l.linked(t, u, s) && kb < |es|
    ensures OffersVia(l, t, u, s, es)[kb] == Element(u, kb, es[kb].prob.Plus(l.arc(t, u, s)))
  {
  }

  /** The paths into `s` through any of the states `us`, in the order they are offered. */
  function Offers(l: Lattice, t: nat, us: seq<Bigram>, s: Bigram, column: map<Bigram, seq<Element>>): seq<Element> {
    if us == [] then [] else
    var n := |us| - 1;
    Offers(l, t, us[..n], s, column) + OffersVia(l, t, us[n], s, Entry(column, us[n]))
  }

  lemma OffersOneMore(l: Lattice, t: nat, us: seq<Bigram>, i: nat, s: Bigram, column: map<Bigram, seq<Element>>)
    requires i < |us|
    ensures Offers(l, t, us[..i + 1], s, column)
         == Offers(l, t, us[..i], s, column) + OffersVia(l, t, us[i], s, Entry(column, us[i]))
  {
    assert us[..i + 1][..i] == us[..i];
  }

  /** What a column of a finished trellis holds: at time 0 the scores of the initial states,
      and later, for each state, the `k` best of everything offered to it. */
  ghost predicate FilledColumn(l: Lattice, k: nat, cols: seq<map<Bigram, seq<Element>>>, t: nat)
    requires t < |cols| == |l.states|
  {
    && cols[t].Keys == Members(l.states[t])
    && forall s :: s in cols[t] ==>
         cols[t][s] == if t == 0 then [Element(INIT_STATE, 0, l.init(s))]
                       else KeepAll(k, Offers(l, t, l.states[t - 1], s, cols[t - 1]))
  }

  ghost predicate Filled(l: Lattice, k: nat, cols: seq<map<Bigram, seq<Element>>>) {
    && |cols| == |l.states|
    && forall t {:trigger FilledColumn(l, k, cols, t)} :: 0 <= t < |cols| ==> FilledColumn(l, k, cols, t)
  }

  function Members<T>(s: seq<T>): set<T> {
    set x | x in s
  }

  /** `e` extends, by one arc into `s`, a path stored for one of the states `us`. */
  ghost predicate Extends(l: Lattice, t: nat, us: seq<Bigram>, s: Bigram, column: map<Bigram, seq<Element>>, e: Element) {
    && e.state in us
    && l.linked(t, e.state, s)
    && e.kbest < |Entry(column, e.state)|
    && e.prob == Entry(column, e.state)[e.kbest].prob.Plus(l.arc(t, e.state, s))
  }

  /** Each stored path is offered exactly once. */
  lemma {:induction false} OffersAreTheExtensions(l: Lattice, t: nat, us: seq<Bigram>, s: Bigram,
                                                  column: map<Bigram, seq<Element>>)
    requires Distinct(us)
    ensures forall e :: e in Offers(l, t, us, s, column) <==> Extends(l, t, us, s, column, e)
    ensures Distinct(Offers(l, t, us, s, column))
  {
    if us != [] {
      var n := |us| - 1;
      OffersAreTheExtensions(l, t, us[..n], s, column);
      assert us == us[..n] + [us[n]];
      var via := OffersVia(l, t, us[n], s, Entry(column, us[n]));
      assert us[n] !in us[..n];
      ViaAreTheExtensions(l, t, us, s, column);
      var start := Offers(l, t, us[..n], s, column);
      forall i, j | 0 <= i < |start| && 0 <= j < |via|
        ensures start[i] != via[j]
      {
        assert start[i] in start;
      }
    }
  }

  lemma ViaAreTheExtensions(l: Lattice, t: nat, us: seq<Bigram>, s: Bigram, column: map<Bigram, seq<Element>>)
    requires us != []
    ensures var u := us[|us| - 1];
            var via := OffersVia(l, t, u, s, Entry(column, u));
            && Distinct(via)
            && forall e :: e in via <==> Extends(l, t, us, s, column, e) && e.state == u
  {
    var u := us[|us| - 1];
    var via := OffersVia(l, t, u, s, Entry(column, u));
    forall e: Element | Extends(l, t, us, s, column, e) && e.state == u
      ensures e in via
    {
      assert via[e.kbest] == e;
    }
  }

  /** The entry of `s` at time `t` holds the `k` best one-arc extensions of what is stored
      at time `t - 1`. */
  ghost predicate StepBest(l: Lattice, k: nat, cols: seq<map<Bigram, seq<Element>>>, t: nat, s: Bigram)
    requires 1 <= t < |cols| == |l.states| && s in cols[t]
  {
    exists offers ::
      && (forall e :: e in offers <==> Extends(l, t, l.states[t - 1], s, cols[t - 1], e))
      && AreBest(k, offers, cols[t][s])
  }

  ghost predicate BestAt(l: Lattice, k: nat, cols: seq<map<Bigram, seq<Element>>>, t: nat)
    requires t < |cols| == |l.states|
  {
    && cols[t].Keys == Members(l.states[t])
    && (t == 0 ==> forall s :: s in cols[0] ==> cols[0][s] == [Element(INIT_STATE, 0, l.init(s))])
    && (t > 0 ==> forall s {:trigger StepBest(l, k, cols, t, s)} :: s in cols[t] ==> StepBest(l, k, cols, t, s))
  }

  /** A trellis that keeps the best at every step. */
  ghost predicate Best(l: Lattice, k: nat, cols: seq<map<Bigram, seq<Element>>>) {
    |cols| == |l.states| && forall t {:trigger BestAt(l, k, cols, t)} :: 0 <= t < |cols| ==> BestAt(l, k, cols, t)
  }

  lemma FilledIsBest(l: Lattice, k: nat, cols: seq<map<Bigram, seq<Element>>>)
    requires l.Connected() && Filled(l, k, cols)
    ensures Best(l, k, cols)
  {
    forall t | 0 <= t < |cols|
      ensures BestAt(l, k, cols, t)
    {
      assert FilledColumn(l, k, cols, t);
      forall s | t > 0 && s in cols[t]
        ensures StepBest(l, k, cols, t, s)
      {
        OffersAreTheExtensions(l, t, l.states[t - 1], s, cols[t - 1]);
        KeepAllKeepsTheBest(k, Offers(l, t, l.states[t - 1], s, cols[t - 1]));
      }
    }
  }

  /** Backtracking never misses: whatever a stored element points at is stored too. */
  lemma StoredElementsPointBack(l: Lattice, k: nat, cols: seq<map<Bigram, seq<Element>>>, t: nat, s: Bigram, e: Element)
    requires Best(l, k, cols) && 1 <= t < |cols| && s in cols[t] && e in cols[t][s]
    ensures e.state in cols[t - 1] && l.linked(t, e.state, s) && e.kbest < |cols[t - 1][e.state]|
    ensures e.prob == cols[t - 1][e.state][e.kbest].prob.Plus(l.arc(t, e.state, s))
  {
    assert BestAt(l, k, cols, t - 1) && BestAt(l, k, cols, t) && StepBest(l, k, cols, t, s);
    assert Extends(l, t, l.states[t - 1], s, cols[t - 1], e);
  }

  /** The path recovered by following the pointers back from rank `r` of state `s` at time `t`. */
  function Trace(cols: seq<map<Bigram, seq<Element>>>, t: nat, s: Bigram, r: nat): (p: seq<Bigram>)
    requires t < |cols|
    ensures p != [] && p[|p| - 1] == s
  {
    var es := Entry(cols[t], s);
    if t == 0 || r >= |es| then [s] else Trace(cols, t - 1, es[r].state, es[r].kbest) + [s]
  }

  ghost predicate IsPathTo(l: Lattice, t: nat, s: Bigram, p: seq<Bigram>) {
    l.IsPath(p) && |p| == t + 1 && p[t] == s
  }

  lemma OneMoreArc(l: Lattice, q: seq<Bigram>, s: Bigram)
    requires l.IsPath(q) && |q| < |l.states| && s in l.states[|q|] && l.linked(|q|, q[|q| - 1], s)
    ensures l.IsPath(q + [s]) && l.Score(q + [s]) == l.Score(q).Plus(l.arc(|q|, q[|q| - 1], s))
  {
    assert (q + [s])[..|q|] == q;
  }

  /** The path recovered from a stored rank is a path, and scores what is stored. */
  lemma {:induction false} TracesAreScoredPaths(l: Lattice, k: nat, cols: seq<map<Bigram, seq<Element>>>,
                                                t: nat, s: Bigram, r: nat)
    requires Best(l, k, cols) && t < |cols| && s in cols[t] && r < |cols[t][s]|
    ensures IsPathTo(l, t, s, Trace(cols, t, s, r))
    ensures l.Score(Trace(cols, t, s, r)) == cols[t][s][r].prob
  {
    assert BestAt(l, k, cols, t);
    if t > 0 {
      var e := cols[t][s][r];
      StoredElementsPointBack(l, k, cols, t, s, e);
      TracesAreScoredPaths(l, k, cols, t - 1, e.state, e.kbest);
      assert s in Members(l.states[t]);
      OneMoreArc(l, Trace(cols, t - 1, e.state, e.kbest), s);
    }
  }

  /** One step of following the pointers back. */
  lemma TraceStep(l: Lattice, k: nat, cols: seq<map<Bigram, seq<Element>>>, t: nat, s: Bigram, r: nat)
    requires Best(l, k, cols) && 1 <= t < |cols| && s in cols[t] && r < |cols[t][s]|
    ensures var e, p := cols[t][s][r], Trace(cols, t, s, r);
            && e.state in cols[t - 1] && e.kbest < |cols[t - 1][e.state]|
            && |p| == t + 1 && p[..t] == Trace(cols, t - 1, e.state, e.kbest) && p[t] == s && p[t - 1] == e.state
  {
    StoredElementsPointBack(l, k, cols, t, s, cols[t][s][r]);
    TracesAreScoredPaths(l, k, cols, t, s, r);
    var e := cols[t][s][r];
    assert Trace(cols, t, s, r) == Trace(cols, t - 1, e.state, e.kbest) + [s];
  }

  /** Different ranks are different paths. */
  lemma {:induction false} TracesAreDifferent(l: Lattice, k: nat, cols: seq<map<Bigram, seq<Element>>>,
                                              t: nat, s: Bigram, q: nat, r: nat)
    requires Best(l, k, cols) && t < |cols| && s in cols[t] && q < r < |cols[t][s]|
    ensures Trace(cols, t, s, q) != Trace(cols, t, s, r)
  {
    assert BestAt(l, k, cols, t);
    if t > 0 {
      var a, b := cols[t][s][q], cols[t][s][r];
      StoredElementsPointBack(l, k, cols, t, s, a);
      StoredElementsPointBack(l, k, cols, t, s, b);
      RanksDiffer(l, k, cols, t, s, q, r);
      var x, y := Trace(cols, t - 1, a.state, a.kbest), Trace(cols, t - 1, b.state, b.kbest);
      if a.state != b.state {
        assert x[|x| - 1] != y[|y| - 1];
      } else if a.kbest < b.kbest {
        TracesAreDifferent(l, k, cols, t - 1, a.state, a.kbest, b.kbest);
      } else if a.kbest > b.kbest {
        TracesAreDifferent(l, k, cols, t - 1, a.state, b.kbest, a.kbest);
      }
      assert (x + [s])[..|x|] == x && (y + [s])[..|y|] == y;
    }
  }

  lemma RanksDiffer(l: Lattice, k: nat, cols: seq<map<Bigram, seq<Element>>>, t: nat, s: Bigram, q: nat, r: nat)
    requires Best(l, k, cols) && 1 <= t < |cols| && s in cols[t] && q < r < |cols[t][s]|
    ensures cols[t][s][q] != cols[t][s][r]
  {
    assert BestAt(l, k, cols, t) && StepBest(l, k, cols, t, s);
  }

  ghost predicate IsTrace(cols: seq<map<Bigram, seq<Element>>>, t: nat, s: Bigram, r: nat, p: seq<Bigram>)
    requires t < |cols| && s in cols[t]
  {
    r < |cols[t][s]| && Trace(cols, t, s, r) == p
  }

  /** `p` is one of the recovered paths, or `k` paths at least as good are stored. */
  ghost predicate Covered(l: Lattice, k: nat, cols: seq<map<Bigram, seq<Element>>>, t: nat, s: Bigram, p: seq<Bigram>)
    requires t < |cols| && s in cols[t]
  {
    || (exists r :: IsTrace(cols, t, s, r, p))
    || (|cols[t][s]| == k && forall e :: e in cols[t][s] ==> l.Score(p).AtMost(e.prob))
  }

  /** No path is lost unless `k` at least as good have been kept. */
  lemma {:induction false} NoBetterPathIsLost(l: Lattice, k: nat, cols: seq<map<Bigram, seq<Element>>>,
                                              t: nat, s: Bigram, p: seq<Bigram>)
    requires k >= 1 && Best(l, k, cols) && t < |cols| && s in cols[t]
    requires IsPathTo(l, t, s, p)
    ensures Covered(l, k, cols, t, s, p)
  {
    assert BestAt(l, k, cols, t);
    if t == 0 {
      assert p == [s] && IsTrace(cols, 0, s, 0, p);
    } else {
      var q, u := p[..t], p[t - 1];
      assert l.IsPath(q) && BestAt(l, k, cols, t - 1) && q[t - 1] == u;
      var before := t - 1;
      NoBetterPathIsLost(l, k, cols, before, u, q);
      if r :| IsTrace(cols, before, u, r, q) {
        ExtendedPathIsCovered(l, k, cols, t, p, r);
      } else {
        ManyBetterOffers(l, k, cols, t, p);
      }
    }
  }

  lemma ExtendedPathIsCovered(l: Lattice, k: nat, cols: seq<map<Bigram, seq<Element>>>, t: nat, p: seq<Bigram>, r: nat)
    requires Best(l, k, cols) && 1 <= t < |cols| && |p| == t + 1 && l.IsPath(p)
    requires p[t] in cols[t] && p[t - 1] in cols[t - 1]
    requires r < |cols[t - 1][p[t - 1]]| && Trace(cols, t - 1, p[t - 1], r) == p[..t]
    ensures Covered(l, k, cols, t, p[t], p)
  {
    var s, u := p[t], p[t - 1];
    assert BestAt(l, k, cols, t) && StepBest(l, k, cols, t, s);
    TracesAreScoredPaths(l, k, cols, t - 1, u, r);
    var e := Element(u, r, cols[t - 1][u][r].prob.Plus(l.arc(t, u, s)));
    assert Extends(l, t, l.states[t - 1], s, cols[t - 1], e);
    assert e.prob == l.Score(p);
    if e in cols[t][s] {
      var i :| 0 <= i < |cols[t][s]| && cols[t][s][i] == e;
      assert p == p[..t] + [s];
      assert IsTrace(cols, t, s, i, p);
    }
  }

  lemma ManyBetterOffers(l: Lattice, k: nat, cols: seq<map<Bigram, seq<Element>>>, t: nat, p: seq<Bigram>)
    requires k >= 1 && Best(l, k, cols) && 1 <= t < |cols| && |p| == t + 1 && l.IsPath(p)
    requires p[t] in cols[t] && p[t - 1] in cols[t - 1] && |cols[t - 1][p[t - 1]]| == k
    requires forall e :: e in cols[t - 1][p[t - 1]] ==> l.Score(p[..t]).AtMost(e.prob)
    ensures Covered(l, k, cols, t, p[t], p)
  {
    var s, u := p[t], p[t - 1];
    assert BestAt(l, k, cols, t) && StepBest(l, k, cols, t, s);
    var offers :| (forall e :: e in offers <==> Extends(l, t, l.states[t - 1], s, cols[t - 1], e))
                  && AreBest(k, offers, cols[t][s]);
    var good := OffersVia(l, t, u, s, cols[t - 1][u]);
    forall i | 0 <= i < k
      ensures good[i] in offers && l.Score(p).AtMost(good[i].prob)
    {
      assert Extends(l, t, l.states[t - 1], s, cols[t - 1], good[i]);
    }
    KeptAreAsGood(k, offers, cols[t][s], good, l.Score(p));
  }

  /** If `k` offers are at least as good as `p`, so is everything kept. */
  lemma KeptAreAsGood(k: nat, offers: seq<Element>, es: seq<Element>, good: seq<Element>, p: LogProb)
    requires k >= 1 && AreBest(k, offers, es)
    requires |good| == k && Distinct(good)
    requires forall i :: 0 <= i < k ==> good[i] in offers && p.AtMost(good[i].prob)
    ensures |es| == k && forall i :: 0 <= i < k ==> p.AtMost(es[i].prob)
  {
    if i :| 0 <= i < k && good[i] !in es {
      assert good[i] in offers;
    } else {
      SameMembers(good, es);
      forall i | 0 <= i < k
        ensures |es| == k && p.AtMost(es[i].prob)
      {
        assert |es| <= k;
        assert es[i] in good;
      }
    }
  }

  lemma {:induction false} MembersOfDistinct<T>(s: seq<T>)
    requires Distinct(s)
    ensures |Members(s)| == |s|
  {
    if s != [] {
      var n := |s| - 1;
      MembersOfDistinct(s[..n]);
      assert s == s[..n] + [s[n]];
      assert Members(s) == Members(s[..n]) + {s[n]};
    }
  }

  /** A list without repetitions that fits into another no longer one has all of it. */
  lemma SameMembers<T>(a: seq<T>, b: seq<T>)
    requires Distinct(a) && Distinct(b) && |b| <= |a|
    requires forall x :: x in a ==> x in b
    ensures |a| == |b| && forall x :: x in b ==> x in a
  {
    MembersOfDistinct(a);
    MembersOfDistinct(b);
    var extra := Members(b) - Members(a);
    assert Members(b) == Members(a) + extra;
    assert |Members(b)| == |Members(a)| + |extra|;
    assert extra == {};
    forall x | x in b
      ensures x in a
    {
      assert x in Members(b);
    }
  }

  function Traces(cols: seq<map<Bigram, seq<Element>>>, t: nat, s: Bigram): (ps: seq<seq<Bigram>>)
    requires t < |cols| && s in cols[t]
    ensures |ps| == |cols[t][s]|
  {
    seq(|cols[t][s]|, r requires 0 <= r < |cols[t][s]| => Trace(cols, t, s, r))
  }

  /** The recovered paths are different paths of the stored, descending, scores. */
  lemma TracesAreDistinctPaths(l: Lattice, k: nat, cols: seq<map<Bigram, seq<Element>>>, t: nat, s: Bigram)
    requires k >= 1 && Best(l, k, cols) && t < |cols| && s in cols[t]
    ensures Sorted(cols[t][s]) && |cols[t][s]| <= k
    ensures Distinct(Traces(cols, t, s))
    ensures forall r :: 0 <= r < |cols[t][s]| ==>
              IsPathTo(l, t, s, Traces(cols, t, s)[r]) && l.Score(Traces(cols, t, s)[r]) == cols[t][s][r].prob
  {
    assert BestAt(l, k, cols, t);
    assert t > 0 ==> StepBest(l, k, cols, t, s);
    forall r | 0 <= r < |cols[t][s]|
      ensures IsPathTo(l, t, s, Traces(cols, t, s)[r]) && l.Score(Traces(cols, t, s)[r]) == cols[t][s][r].prob
    {
      TracesAreScoredPaths(l, k, cols, t, s, r);
    }
    forall q, r | 0 <= q < r < |cols[t][s]|
      ensures Traces(cols, t, s)[q] != Traces(cols, t, s)[r]
    {
      TracesAreDifferent(l, k, cols, t, s, q, r);
    }
  }

  ghost predicate Descending<T>(score: T -> LogProb, a: seq<T>) {
    forall i, j :: 0 <= i < j < |a| ==> score(a[j]).AtMost(score(a[i]))
  }

  /** The first `r + 1` of a list without repetitions do not fit into `r` places. */
  lemma TooManyForTheirPlaces<T>(a: seq<T>, b: seq<T>, r: nat)
    requires Distinct(a) && Distinct(b) && r < |a| && r <= |b|
    ensures exists i :: 0 <= i <= r && a[i] !in b[..r]
  {
    if forall i :: 0 <= i <= r ==> a[i] in b[..r] {
      var some, few := a[..r + 1], b[..r];
      assert forall i :: 0 <= i < |some| ==> some[i] == a[i];
      assert forall i :: 0 <= i < |few| ==> few[i] == b[i];
      SameMembers(some, few);
    }
  }

  /** Selecting from a ranked list moves nothing up. */
  lemma RankInSelection<T>(score: T -> LogProb, a: seq<T>, b: seq<T>, r: nat)
    requires Distinct(a) && Distinct(b) && Descending(score, a) && Descending(score, b)
    requires forall x :: x in a ==> x in b
    requires r < |a| && r < |b|
    ensures score(a[r]).AtMost(score(b[r]))
  {
    TooManyForTheirPlaces(a, b, r);
    var i :| 0 <= i <= r && a[i] !in b[..r];
    assert a[i] in a;
    var j :| r <= j < |b| && b[j] == a[i];
    assert score(a[r]).AtMost(score(a[i])) && score(b[j]).AtMost(score(b[r]));
  }

  /** Selecting only the best of a ranked list moves nothing down either. */
  lemma RankInBestSelection<T>(score: T -> LogProb, a: seq<T>, b: seq<T>, r: nat)
    requires Distinct(a) && Distinct(b) && Descending(score, a) && Descending(score, b)
    requires forall x :: x in b && x !in a ==> forall y :: y in a ==> score(x).AtMost(score(y))
    requires r < |a| && r < |b|
    ensures score(b[r]).AtMost(score(a[r]))
  {
    TooManyForTheirPlaces(b, a, r);
    var i :| 0 <= i <= r && b[i] !in a[..r];
    assert score(b[r]).AtMost(score(b[i]));
    if b[i] in a {
      var j :| r <= j < |a| && a[j] == b[i];
      assert score(a[j]).AtMost(score(a[r]));
    } else {
      assert b[i] in b && a[r] in a;
    }
  }

  /** `all` lists every path into `s` at time `t` once, best first. */
  ghost predicate RanksAllPaths(l: Lattice, t: nat, s: Bigram, all: seq<seq<Bigram>>) {
    && Distinct(all)
    && Descending(p => l.Score(p), all)
    && (forall p :: p in all <==> IsPathTo(l, t, s, p))
  }

  /** A path that is not recovered is no better than any that is, and then `k` are recovered. */
  lemma UntracedPathIsNoBetter(l: Lattice, k: nat, cols: seq<map<Bigram, seq<Element>>>, t: nat, s: Bigram,
                               p: seq<Bigram>)
    requires k >= 1 && Best(l, k, cols) && t < |cols| && s in cols[t] && IsPathTo(l, t, s, p)
    ensures p !in Traces(cols, t, s) ==>
              |cols[t][s]| == k && forall q :: q in Traces(cols, t, s) ==> l.Score(p).AtMost(l.Score(q))
  {
    var traces := Traces(cols, t, s);
    NoBetterPathIsLost(l, k, cols, t, s, p);
    if r: nat :| IsTrace(cols, t, s, r, p) {
      assert traces[r] == p;
    } else {
      forall q | q in traces
        ensures l.Score(p).AtMost(l.Score(q))
      {
        var r :| 0 <= r < |traces| && traces[r] == q;
        TracesAreScoredPaths(l, k, cols, t, s, r);
        assert cols[t][s][r] in cols[t][s];
      }
    }
  }

  /** The recovered paths, compared with all paths. */
  lemma TracesRankAsAllPaths(l: Lattice, k: nat, cols: seq<map<Bigram, seq<Element>>>, t: nat, s: Bigram,
                             all: seq<seq<Bigram>>)
    requires k >= 1 && Best(l, k, cols) && t < |cols| && s in cols[t] && RanksAllPaths(l, t, s, all)
    ensures var traces := Traces(cols, t, s);
            && Descending(p => l.Score(p), traces)
            && (forall p :: p in traces ==> p in all)
            && (forall p :: p in all && p !in traces ==>
                  |traces| == k && forall q :: q in traces ==> l.Score(p).AtMost(l.Score(q)))
  {
    var traces := Traces(cols, t, s);
    TracesAreDistinctPaths(l, k, cols, t, s);
    forall i, j | 0 <= i < j < |traces|
      ensures l.Score(traces[j]).AtMost(l.Score(traces[i]))
    {
      assert cols[t][s][j].prob.AtMost(cols[t][s][i].prob);
    }
    forall p | p in all && p !in traces
      ensures |traces| == k && forall q :: q in traces ==> l.Score(p).AtMost(l.Score(q))
    {
      UntracedPathIsNoBetter(l, k, cols, t, s, p);
    }
  }

  /** MAIN RESULT: for every time and state, the trellis holds exactly the `k` best scores of
      all paths into that state, or all of them if there are fewer, in descending order. */
  lemma TrellisHoldsTheKBest(l: Lattice, k: nat, cols: seq<map<Bigram, seq<Element>>>, t: nat, s: Bigram,
                             all: seq<seq<Bigram>>)
    requires k >= 1 && l.Connected() && Filled(l, k, cols)
    requires t < |cols| && s in cols[t] && RanksAllPaths(l, t, s, all)
    ensures |cols[t][s]| == if |all| < k then |all| else k
    ensures forall r :: 0 <= r < |cols[t][s]| ==> cols[t][s][r].prob == l.Score(all[r])
  {
    FilledIsBest(l, k, cols);
    var traces := Traces(cols, t, s);
    TracesAreDistinctPaths(l, k, cols, t, s);
    TracesRankAsAllPaths(l, k, cols, t, s, all);
    if |all| <= |traces| { SameMembers(traces, all); }
    if |traces| < k && |traces| <= |all| { SameMembers(all, traces); }
    forall r | 0 <= r < |cols[t][s]|
      ensures cols[t][s][r].prob == l.Score(all[r])
    {
      RankInSelection(p => l.Score(p), traces, all, r);
      RankInBestSelection(p => l.Score(p), traces, all, r);
    }
  }
}
