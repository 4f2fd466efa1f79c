/** What the completer does with chunks for which it has no rule. */
module DefaultMerges {
  import opened SyntaxTrees
  import opened Merging
  import opened CompleterRules
  import opened CompleterRuns
  import opened Completers

  ghost predicate NoneSuits(g: Grammar, flags: set<string>, trees: seq<Tree>, chk: nat)
    requires chk + 1 < |trees|
  {
    forall r :: r in Candidates(g, trees, chk) ==> !Suits(flags, trees, chk, r)
  }

  /** The left tree as a head, with the right one as its last child. */
  function Joined(left: Tree, right: Tree): Tree {
    left.(head := true, kids := left.kids + [right.(head := false)])
  }

  /** MAIN RESULT: where no rule suits, the left chunk stays the root, with its label, marked as head; the
      right chunk becomes its last child; and no flag changes. */
  lemma WithoutRule(g: Grammar, a: State, m: Merger, b: State)
    requires IsStep(g, a, m, b) && NoneSuits(g, a.flags, a.trees, m.chk)
    ensures b.trees == a.trees[..m.chk] + [Joined(a.trees[m.chk], a.trees[m.chk + 1])] + a.trees[m.chk + 2..]
    ensures b.flags == a.flags
  {
    var rs := Candidates(g, a.trees, m.chk);
    assert forall j :: 0 <= j < |rs| ==> rs[j] in rs;
    assert m.rule.on == {} && m.rule.off == {};
  }

  /** Such a merge is never stopped. */
  lemma WithoutRuleFits(g: Grammar, flags: set<string>, trees: seq<Tree>, m: Merger)
    requires IsNext(g, flags, trees, m) && NoneSuits(g, flags, trees, m.chk)
    ensures Fits(trees, m)
  {
    var rs := Candidates(g, trees, m.chk);
    assert forall j :: 0 <= j < |rs| ==> rs[j] in rs;
  }

  /** A pair of chunks with a rule that suits and has a weight comes before all pairs without one. */
  lemma RulesComeFirst(g: Grammar, flags: set<string>, trees: seq<Tree>, m: Merger, k: nat, r: Rule)
    requires IsNext(g, flags, trees, m) && k + 1 < |trees|
    requires r in Candidates(g, trees, k) && Suits(flags, trees, k, r)
    requires forall q :: q in Candidates(g, trees, k) ==> q.weight > 0
    ensures !NoneSuits(g, flags, trees, m.chk) && m.rule in Candidates(g, trees, m.chk)
  {
    var ws :| IsFirstChoice(g, flags, trees, ws, m.chk);
    assert HasWeight(g, flags, trees, k, ws[k]);
    var best :| IsBestRule(flags, trees, k, Candidates(g, trees, k), best) && best.weight == ws[k];
    var rs := Candidates(g, trees, k);
    var j :| 0 <= j < |rs| && rs[j] == r;
    var i: nat :| BestRuleIs(flags, trees, k, rs, best, i);
    assert best in rs && ws[k] > 0 && ws[m.chk] > 0;
    assert HasWeight(g, flags, trees, m.chk, ws[m.chk]);
    var q :| IsBestRule(flags, trees, m.chk, Candidates(g, trees, m.chk), q) && q.weight == ws[m.chk];
    BestRuleIsUnique(flags, trees, m.chk, Candidates(g, trees, m.chk), q, m.rule);
    var n: nat :| BestRuleIs(flags, trees, m.chk, Candidates(g, trees, m.chk), m.rule, n);
    assert m.rule in Candidates(g, trees, m.chk);
  }

  function Unheaded(ts: seq<Tree>): (us: seq<Tree>)
    ensures |us| == |ts|
  {
    seq(|ts|, i requires 0 <= i < |ts| => ts[i].(head := false))
  }

  /** The first `n + 1` of some chunks as one tree, and the others. */
  function JoinedUpTo(trees: seq<Tree>, n: nat): seq<Tree>
    requires n < |trees|
  {
    if n == 0 then trees
    else [trees[0].(head := true, kids := trees[0].kids + Unheaded(trees[1..n + 1]))] + trees[n + 1..]
  }

  /** Without any rules, the first pair of chunks is always merged next. */
  lemma FirstPairIsNext(flags: set<string>, trees: seq<Tree>, m: Merger)
    requires IsNext(map[], flags, trees, m)
    ensures m.chk == 0
  {
    var ws :| IsFirstChoice(map[], flags, trees, ws, m.chk);
    forall k | 0 <= k < |ws|
      ensures ws[k] == ws[0]
    {
      assert HasWeight(map[], flags, trees, k, ws[k]) && HasWeight(map[], flags, trees, 0, ws[0]);
    }
  }

  lemma JoinOneMore(trees: seq<Tree>, n: nat)
    requires n + 1 < |trees|
    ensures var now := JoinedUpTo(trees, n);
            |now| == |trees| - n && [Joined(now[0], now[1])] + now[2..] == JoinedUpTo(trees, n + 1)
  {
    var now := JoinedUpTo(trees, n);
    var first := trees[0];
    assert now[1] == trees[n + 1] && now[2..] == trees[n + 2..];
    assert trees[1..n + 2] == trees[1..n + 1] + [trees[n + 1]];
    assert Unheaded(trees[1..n + 2]) == Unheaded(trees[1..n + 1]) + [trees[n + 1].(head := false)];
    assert first.kids + Unheaded(trees[1..n + 2]) == (first.kids + Unheaded(trees[1..n + 1])) + [trees[n + 1].(head := false)];
    if n == 0 {
      assert Unheaded(trees[1..1]) == [] && first.kids + [] == first.kids;
    }
  }

  lemma {:induction false} RunJoins(run: Run, n: nat)
    requires IsRun(map[], run) && n <= |run.merges| < |First(run).trees|
    ensures run.states[n] == State(JoinedUpTo(First(run).trees, n), First(run).flags)
  {
    if n > 0 {
      RunJoins(run, n - 1);
      assert IsStepAt(map[], run, n - 1);
      var a, m, b := run.states[n - 1], run.merges[n - 1], run.states[n];
      FirstPairIsNext(a.flags, a.trees, m);
      WithoutRule(map[], a, m, b);
      JoinOneMore(First(run).trees, n - 1);
      assert a.trees[..0] == [];
    }
  }

  /** MAIN RESULT: without any rules, completing gives the first chunk with all others hung behind its
      children, in order. */
  method CompleteWithoutRules(tr: Tree, flags: set<string>) returns (t: Tree)
    requires |tr.kids| > 1
    ensures var cs := Chunks(tr.kids, 1);
            t == cs[0].(head := true, kids := cs[0].kids + Unheaded(cs[1..]))
  {
    var c := new Completer(map[], flags);
    var ok;
    ghost var run;
    NeverStops(State(Chunks(tr.kids, 1), flags));
    ok, t, run := c.Complete(tr, tr.cat);
    FullRunJoins(run, t);
  }

  lemma FullRunJoins(run: Run, t: Tree)
    requires IsRun(map[], run) && Last(run).trees == [t] && |First(run).trees| > 1
    ensures var cs := First(run).trees;
            t == cs[0].(head := true, kids := cs[0].kids + Unheaded(cs[1..]))
  {
    var cs, n := First(run).trees, |run.merges|;
    TreesLeft(map[], run, n);
    RunJoins(run, n);
    assert n == |cs| - 1 && cs[1..n + 1] == cs[1..] && cs[n + 1..] == [];
    assert JoinedUpTo(cs, n)[0] == cs[0].(head := true, kids := cs[0].kids + Unheaded(cs[1..]));
  }

  lemma NeverStops(s: State)
    ensures !MayStop(map[], s)
  {
    CoversBelowNeverStops(map[], s);
  }

  /** The weight of a merge with a rule is the least positive one among the best rules for all pairs, and
      the least among the rules that suit its pair. */
  lemma LeastWeightIsNext(g: Grammar, flags: set<string>, trees: seq<Tree>, m: Merger, k: nat, best: Rule)
    requires IsNext(g, flags, trees, m) && k + 1 < |trees|
    requires IsBestRule(flags, trees, k, Candidates(g, trees, k), best) && best.weight > 0
    ensures 0 < m.rule.weight <= best.weight && (k < m.chk ==> m.rule.weight < best.weight)
  {
    var ws :| IsFirstChoice(g, flags, trees, ws, m.chk);
    assert HasWeight(g, flags, trees, k, ws[k]) && HasWeight(g, flags, trees, m.chk, ws[m.chk]);
    var r :| IsBestRule(flags, trees, k, Candidates(g, trees, k), r) && r.weight == ws[k];
    var q :| IsBestRule(flags, trees, m.chk, Candidates(g, trees, m.chk), q) && q.weight == ws[m.chk];
    BestRuleIsUnique(flags, trees, k, Candidates(g, trees, k), r, best);
    BestRuleIsUnique(flags, trees, m.chk, Candidates(g, trees, m.chk), q, m.rule);
  }

  lemma LeastRuleIsBest(flags: set<string>, trees: seq<Tree>, chk: nat, rs: seq<Rule>, best: Rule, j: nat)
    requires chk + 1 < |trees| && IsBestRule(flags, trees, chk, rs, best) && j < |rs| && Suits(flags, trees, chk, rs[j])
    ensures best in rs && Suits(flags, trees, chk, best) && best.weight <= rs[j].weight
  {
    var i: nat :| BestRuleIs(flags, trees, chk, rs, best, i);
  }
}
