/** Runs of the completer, merge by merge, and when a run is stopped. */
module CompleterRuns {
  import opened SyntaxTrees
  import opened Merging
  import opened CompleterRules

  /** The trees still to be merged, and the flags switched on. */
  datatype State = State(trees: seq<Tree>, flags: set<string>)

  /** The states that the merges lead through. */
  datatype Run = Run(states: seq<State>, merges: seq<Merger>)

  /** The merge would take the place of a root, where the program stops. */
  predicate CoversRoot(m: Merger) {
    m.rule.op.CoverLastLeft? && m.place == []
  }

  /** The merge can be made. */
  predicate Fits(trees: seq<Tree>, m: Merger) {
    m.chk + 1 < |trees| && Mergeable(m.rule.op, trees[m.chk], trees[m.chk + 1], m.place)
  }

  function Merged(trees: seq<Tree>, m: Merger): Tree
    requires Fits(trees, m)
  {
    Merge(m.rule.op, m.rule.new1, m.rule.new2, trees[m.chk], trees[m.chk + 1], m.place)
  }

  /** The trees after a merge. */
  function After(trees: seq<Tree>, m: Merger): (more: seq<Tree>)
    requires Fits(trees, m)
    ensures |more| == |trees| - 1
  {
    trees[..m.chk] + [Merged(trees, m)] + trees[m.chk + 2..]
  }

  /** The merge that comes next can be made exactly if it covers no root. */
  lemma NextFitsIff(g: Grammar, flags: set<string>, trees: seq<Tree>, m: Merger)
    requires IsNext(g, flags, trees, m)
    ensures Fits(trees, m) <==> !CoversRoot(m)
  {
    NextHasNode(g, flags, trees, m);
  }

  ghost predicate IsStep(g: Grammar, a: State, m: Merger, b: State) {
    && IsNext(g, a.flags, a.trees, m) && Fits(a.trees, m)
    && b == State(After(a.trees, m), a.flags + m.rule.on - m.rule.off)
  }

  ghost predicate IsStepAt(g: Grammar, run: Run, i: nat)
    requires i < |run.merges| < |run.states|
  {
    IsStep(g, run.states[i], run.merges[i], run.states[i + 1])
  }

  ghost predicate IsRun(g: Grammar, run: Run) {
    && |run.states| == |run.merges| + 1
    && forall i {:trigger IsStepAt(g, run, i)} :: 0 <= i < |run.merges| ==> IsStepAt(g, run, i)
  }

  function First(run: Run): State
    requires run.states != []
  {
    run.states[0]
  }

  function Last(run: Run): State
    requires run.states != []
  {
    run.states[|run.states| - 1]
  }

  function Extended(run: Run, m: Merger, s: State): Run {
    Run(run.states + [s], run.merges + [m])
  }

  lemma RunOneMore(g: Grammar, run: Run, m: Merger, s: State)
    requires IsRun(g, run) && IsStep(g, Last(run), m, s)
    ensures IsRun(g, Extended(run, m, s))
  {
    var more := Extended(run, m, s);
    forall i | 0 <= i < |more.merges|
      ensures IsStepAt(g, more, i)
    {
      assert i < |run.merges| ==> IsStepAt(g, run, i);
    }
  }

  /** The run comes to a merge that cannot be made. */
  ghost predicate IsStopped(g: Grammar, run: Run) {
    IsRun(g, run) && exists m :: IsNext(g, Last(run).flags, Last(run).trees, m) && CoversRoot(m)
  }

  /** Some run from `s` is stopped. */
  ghost predicate MayStop(g: Grammar, s: State) {
    exists run :: IsStopped(g, run) && First(run) == s
  }

  lemma {:induction false} TreesLeft(g: Grammar, run: Run, n: nat)
    requires IsRun(g, run) && n <= |run.merges|
    ensures |run.states[n].trees| == |First(run).trees| - n
  {
    if n > 0 {
      TreesLeft(g, run, n - 1);
      assert IsStepAt(g, run, n - 1);
    }
  }

  /** Runs from the same state go through the same states. */
  lemma {:induction false} RunsAgree(g: Grammar, a: Run, b: Run, n: nat)
    requires IsRun(g, a) && IsRun(g, b) && First(a) == First(b) && n <= |a.merges| && n <= |b.merges|
    ensures a.states[n] == b.states[n]
  {
    if n > 0 {
      RunsAgree(g, a, b, n - 1);
      assert IsStepAt(g, a, n - 1) && IsStepAt(g, b, n - 1);
      var s := a.states[n - 1];
      NextIsUnique(g, s.flags, s.trees, a.merges[n - 1], b.merges[n - 1]);
    }
  }

  /** Another run is part of one down to one tree, as long as there is a merge to come. */
  lemma IsPartOfFullRun(g: Grammar, run: Run, other: Run)
    requires IsRun(g, run) && |Last(run).trees| == 1 && IsRun(g, other) && First(other) == First(run)
    requires |Last(other).trees| > 1
    ensures |other.merges| < |run.merges| && Last(other) == run.states[|other.merges|]
  {
    TreesLeft(g, other, |other.merges|);
    TreesLeft(g, run, |run.merges|);
    RunsAgree(g, run, other, |other.merges|);
  }

  lemma NextOfPartFits(g: Grammar, run: Run, k: nat, m: Merger)
    requires IsRun(g, run) && k < |run.merges| && IsNext(g, run.states[k].flags, run.states[k].trees, m)
    ensures !CoversRoot(m)
  {
    assert IsStepAt(g, run, k);
    NextIsUnique(g, run.states[k].flags, run.states[k].trees, m, run.merges[k]);
    NextFitsIff(g, run.states[k].flags, run.states[k].trees, m);
  }

  /** A run down to one tree shows that none is stopped. */
  lemma FullRunIsNotStopped(g: Grammar, run: Run)
    requires IsRun(g, run) && |Last(run).trees| == 1
    ensures !MayStop(g, First(run))
  {
    forall other, m | IsRun(g, other) && First(other) == First(run) && IsNext(g, Last(other).flags, Last(other).trees, m)
      ensures !CoversRoot(m)
    {
      IsPartOfFullRun(g, run, other);
      NextOfPartFits(g, run, |other.merges|, m);
    }
  }

  /** No cover rule matches the root of its left chunk last. */
  ghost predicate CoversBelow(g: Grammar) {
    forall key, r, t: Tree :: key in g && r in g[key] && r.op.CoverLastLeft? && t.cat == key.0 ==> !MatchesLastAtRoot(r, t)
  }

  ghost predicate MatchesLastAtRoot(r: Rule, t: Tree) {
    IsLastMatch(t, r.matching, Places(t), At([]))
  }

  /** With such rules, no run is stopped. */
  lemma CoversBelowNeverStops(g: Grammar, s: State)
    requires CoversBelow(g)
    ensures !MayStop(g, s)
  {
    forall run, m | IsRun(g, run) && IsNext(g, Last(run).flags, Last(run).trees, m)
      ensures !CoversRoot(m)
    {
      var z := Last(run);
      BestRuleIsIn(g, z.flags, z.trees, m.chk, m.rule);
      assert CoversRoot(m) ==> MatchesLastAtRoot(m.rule, z.trees[m.chk]);
    }
  }

  lemma NextState(g: Grammar, run: Run, i: nat)
    requires IsRun(g, run) && i < |run.merges|
    ensures Fits(run.states[i].trees, run.merges[i]) && run.states[i + 1].trees == After(run.states[i].trees, run.merges[i])
  {
    assert IsStepAt(g, run, i);
  }

  ghost predicate AreInner(trees: seq<Tree>) {
    forall i :: 0 <= i < |trees| ==> trees[i].kids != []
  }

  lemma AfterIsInner(trees: seq<Tree>, m: Merger)
    requires Fits(trees, m) && AreInner(trees)
    ensures AreInner(After(trees, m))
  {
    MergedIsInner(m.rule.op, m.rule.new1, m.rule.new2, trees[m.chk], trees[m.chk + 1], m.place);
  }

  lemma {:induction false} StatesAreInner(g: Grammar, run: Run, n: nat)
    requires IsRun(g, run) && AreInner(First(run).trees) && n <= |run.merges|
    ensures AreInner(run.states[n].trees)
  {
    if n > 0 {
      StatesAreInner(g, run, n - 1);
      NextState(g, run, n - 1);
      AfterIsInner(run.states[n - 1].trees, run.merges[n - 1]);
    }
  }
}
