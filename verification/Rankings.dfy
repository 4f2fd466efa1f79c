/** All paths through a lattice, listed and ranked. */
module Rankings {
  import opened LogProbs
  import opened Trellises
  import opened Viterbi

  /** `ps` lists every path into `s` at time `t` that goes through one of the states `us` before it. */
  ghost predicate ListsVia(l: Lattice, t: nat, s: Bigram, us: seq<Bigram>, ps: seq<seq<Bigram>>)
    requires t > 0
  {
    Distinct(ps) && forall p :: p in ps <==> IsPathTo(l, t, s, p) && p[t - 1] in us
  }

  ghost predicate ListsAll(l: Lattice, t: nat, s: Bigram, ps: seq<seq<Bigram>>) {
    Distinct(ps) && forall p :: p in ps <==> IsPathTo(l, t, s, p)
  }

  ghost function Extended(qs: seq<seq<Bigram>>, s: Bigram): (ps: seq<seq<Bigram>>)
    ensures |ps| == |qs|
  {
    seq(|qs|, i requires 0 <= i < |qs| => qs[i] + [s])
  }

  lemma ExtendedLists(l: Lattice, t: nat, s: Bigram, u: Bigram, qs: seq<seq<Bigram>>)
    requires t > 0 && t < |l.states| && s in l.states[t] && ListsAll(l, t - 1, u, qs) && l.linked(t, u, s)
    ensures ListsVia(l, t, s, [u], Extended(qs, s))
  {
    var ps := Extended(qs, s);
    forall i, j | 0 <= i < j < |ps|
      ensures ps[i] != ps[j]
    {
      assert ps[i][..|qs[i]|] == qs[i] && ps[j][..|qs[j]|] == qs[j];
      assert qs[i] in qs && qs[j] in qs;
    }
    forall p | p in ps
      ensures IsPathTo(l, t, s, p) && p[t - 1] in [u]
    {
      var i :| 0 <= i < |ps| && ps[i] == p;
      assert qs[i] in qs;
      OneMoreArc(l, qs[i], s);
    }
    forall p | IsPathTo(l, t, s, p) && p[t - 1] in [u]
      ensures p in ps
    {
      assert p == p[..t] + [s] && IsPathTo(l, t - 1, u, p[..t]);
      var i :| 0 <= i < |qs| && qs[i] == p[..t];
      assert ps[i] == p;
    }
  }

  lemma JoinLists(l: Lattice, t: nat, s: Bigram, us: seq<Bigram>, u: Bigram, a: seq<seq<Bigram>>, b: seq<seq<Bigram>>)
    requires t > 0 && ListsVia(l, t, s, us, a) && ListsVia(l, t, s, [u], b) && u !in us
    ensures ListsVia(l, t, s, us + [u], a + b)
  {
    forall i, j | 0 <= i < |a| && 0 <= j < |b|
      ensures a[i] != b[j]
    {
      assert a[i] in a && b[j] in b;
    }
    forall p
      ensures p in a + b <==> p in a || p in b
    {
    }
  }

  lemma {:induction false} ListVia(l: Lattice, t: nat, s: Bigram, n: nat) returns (ps: seq<seq<Bigram>>)
    requires l.Connected() && 0 < t < |l.states| && s in l.states[t] && n <= |l.states[t - 1]|
    ensures ListsVia(l, t, s, l.states[t - 1][..n], ps)
    decreases t, 0, n
  {
    ps := [];
    var us := l.states[t - 1];
    if n > 0 {
      var u := us[n - 1];
      ps := ListVia(l, t, s, n - 1);
      assert us[..n] == us[..n - 1] + [u];
      if l.linked(t, u, s) {
        var qs := ListAll(l, t - 1, u);
        ExtendedLists(l, t, s, u, qs);
        JoinLists(l, t, s, us[..n - 1], u, ps, Extended(qs, s));
        ps := ps + Extended(qs, s);
      }
    }
  }

  lemma BeforeLast(l: Lattice, t: nat, s: Bigram, p: seq<Bigram>)
    requires t > 0 && IsPathTo(l, t, s, p)
    ensures p[t - 1] in l.states[t - 1]
  {
    assert l.IsPath(p[..t]);
  }

  /** The paths into a state can be listed. */
  lemma {:induction false} ListAll(l: Lattice, t: nat, s: Bigram) returns (ps: seq<seq<Bigram>>)
    requires l.Connected() && t < |l.states| && s in l.states[t]
    ensures ListsAll(l, t, s, ps)
    decreases t, 1, 0
  {
    if t == 0 {
      ps := [[s]];
      forall p | IsPathTo(l, 0, s, p)
        ensures p == [s]
      {
      }
    } else {
      var n := |l.states[t - 1]|;
      ps := ListVia(l, t, s, n);
      assert l.states[t - 1][..n] == l.states[t - 1];
      forall p | IsPathTo(l, t, s, p)
        ensures p[t - 1] in l.states[t - 1]
      {
        BeforeLast(l, t, s, p);
      }
    }
  }

  /** Puts a path into its place in a ranking. */
  lemma {:induction false} RankOneMore(l: Lattice, all: seq<seq<Bigram>>, p: seq<Bigram>) returns (more: seq<seq<Bigram>>)
    requires Distinct(all) && Descending(q => l.Score(q), all) && p !in all
    ensures Distinct(more) && Descending(q => l.Score(q), more)
    ensures forall q :: q in more <==> q in all || q == p
    ensures |more| == |all| + 1
  {
    if all == [] || l.Score(p).AtMost(l.Score(all[|all| - 1])) {
      more := all + [p];
    } else {
      var last, front := all[|all| - 1], all[..|all| - 1];
      assert all == front + [last];
      assert last !in front;
      var less := RankOneMore(l, front, p);
      more := less + [last];
      forall i | 0 <= i < |less|
        ensures l.Score(last).AtMost(l.Score(less[i])) && less[i] != last
      {
        assert less[i] in less;
      }
    }
  }

  lemma {:induction false} RankList(l: Lattice, ps: seq<seq<Bigram>>) returns (all: seq<seq<Bigram>>)
    requires Distinct(ps)
    ensures Distinct(all) && Descending(q => l.Score(q), all) && forall q :: q in all <==> q in ps
  {
    all := [];
    if ps != [] {
      var last, front := ps[|ps| - 1], ps[..|ps| - 1];
      assert ps == front + [last];
      all := RankList(l, front);
      all := RankOneMore(l, all, last);
    }
  }

  /** All paths into a state can be ranked by their scores. */
  lemma RankingExists(l: Lattice, t: nat, s: Bigram) returns (all: seq<seq<Bigram>>)
    requires l.Connected() && t < |l.states| && s in l.states[t]
    ensures RanksAllPaths(l, t, s, all)
  {
    var ps := ListAll(l, t, s);
    all := RankList(l, ps);
  }

  /** MAIN RESULT: there is a ranking of all paths, and the trellis holds its first `k` scores. */
  lemma TrellisHoldsFirstOfRanking(l: Lattice, k: nat, cols: seq<map<Bigram, seq<Element>>>, t: nat, s: Bigram)
    returns (all: seq<seq<Bigram>>)
    requires k >= 1 && l.Connected() && Filled(l, k, cols) && t < |cols| && s in cols[t]
    ensures RanksAllPaths(l, t, s, all)
    ensures |cols[t][s]| == if |all| < k then |all| else k
    ensures forall r :: 0 <= r < |cols[t][s]| ==> cols[t][s][r].prob == l.Score(all[r])
  {
    assert FilledColumn(l, k, cols, t);
    all := RankingExists(l, t, s);
    TrellisHoldsTheKBest(l, k, cols, t, s, all);
  }
}
