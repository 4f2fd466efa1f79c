/** Leaves that no rule of the completer matches: no word of such trees is ever lost. */
module SafeLeaves {
  import opened SyntaxTrees
  import opened Merging
  import opened CompleterRules
  import opened CompleterRuns
  import opened RunResults

  /** Some rule would hang a tree below this leaf, whether it is marked or not. */
  ghost predicate IsHungBelow(g: Grammar, leaf: Tree) {
    exists key, r, h: bool :: HangsBelow(g, key, r, leaf.(head := h))
  }

  ghost predicate HangsBelow(g: Grammar, key: (string, string), r: Rule, leaf: Tree) {
    key in g && r in g[key] && (r.op.LastLeft? || r.op.LastRight?) && r.matching(leaf)
  }

  /** No leaf of the tree is one that a rule would hang a tree below. */
  ghost predicate LeavesAreSafe(g: Grammar, t: Tree) {
    if t.kids == [] then !IsHungBelow(g, t) else forall i :: 0 <= i < |t.kids| ==> LeavesAreSafe(g, t.kids[i])
  }

  ghost predicate AllSafe(g: Grammar, ts: seq<Tree>) {
    forall i :: 0 <= i < |ts| ==> LeavesAreSafe(g, ts[i])
  }

  lemma MarkedIsSafe(g: Grammar, t: Tree, h: bool, s: string)
    requires LeavesAreSafe(g, t)
    ensures LeavesAreSafe(g, t.(head := h)) && (t.kids != [] ==> LeavesAreSafe(g, Relabel(t, s)))
  {
    if t.kids == [] {
      forall key, r, k: bool
        ensures !HangsBelow(g, key, r, t.(head := h).(head := k))
      {
        assert t.(head := h).(head := k) == t.(head := k);
      }
    }
  }

  lemma {:induction false} SubIsSafe(g: Grammar, t: Tree, r: Path)
    requires LeavesAreSafe(g, t) && IsPlace(t, r)
    ensures LeavesAreSafe(g, Sub(t, r))
  {
    if r != [] {
      SubIsSafe(g, t.kids[r[0]], r[1..]);
    }
  }

  lemma {:induction false} ReplacedIsSafe(g: Grammar, t: Tree, r: Path, u: Tree)
    requires LeavesAreSafe(g, t) && IsPlace(t, r) && LeavesAreSafe(g, u)
    ensures LeavesAreSafe(g, Replace(t, r, u))
  {
    if r != [] {
      ReplacedIsSafe(g, t.kids[r[0]], r[1..], u);
    }
  }

  lemma KidsAreSafe(g: Grammar, t: Tree, a: seq<Tree>, b: seq<Tree>)
    requires AllSafe(g, a) && AllSafe(g, b) && a + b != []
    ensures LeavesAreSafe(g, t.(kids := a + b))
  {
  }

  lemma HungIsSafe(g: Grammar, t: Tree, r: Path, c: Tree, last: bool)
    requires LeavesAreSafe(g, t) && LeavesAreSafe(g, c) && IsPlace(t, r) && Sub(t, r).kids != []
    ensures LeavesAreSafe(g, HangAt(t, r, c, last))
  {
    var u := Sub(t, r);
    SubIsSafe(g, t, r);
    KidsAreSafe(g, u, u.kids, [c]);
    KidsAreSafe(g, u, [c], u.kids);
    ReplacedIsSafe(g, t, r, u.(kids := if last then u.kids + [c] else [c] + u.kids));
  }

  lemma CoveredIsSafe(g: Grammar, t: Tree, r: Path, c: Tree)
    requires LeavesAreSafe(g, t) && LeavesAreSafe(g, c) && IsPlace(t, r) && r != [] && c.kids != []
    ensures LeavesAreSafe(g, CoverAt(t, r, c))
  {
    PlaceAbove(t, r);
    var q, i := r[..|r| - 1], r[|r| - 1];
    var p := Sub(t, q);
    var d := c.(kids := c.kids + [p.kids[i]]);
    SubIsSafe(g, t, q);
    KidsAreSafe(g, c, c.kids, [p.kids[i]]);
    KidsAreSafe(g, p, p.kids[..i] + p.kids[i + 1..], [d]);
    ReplacedIsSafe(g, t, q, p.(kids := p.kids[..i] + p.kids[i + 1..] + [d]));
  }

  lemma MergedIsSafe(g: Grammar, op: Operation, new1: string, new2: string, left: Tree, right: Tree, place: Path)
    requires LeavesAreSafe(g, left) && LeavesAreSafe(g, right) && left.kids != [] && right.kids != []
    requires Mergeable(op, left, right, place) && MatchedInside(op, left, right, place)
    ensures LeavesAreSafe(g, Merge(op, new1, new2, left, right, place))
  {
    match op
    case TopLeft =>
      MarkedIsSafe(g, left.(head := true), true, new1);
      MarkedIsSafe(g, right.(head := false), false, new2);
      KidsAreSafe(g, Relabel(left.(head := true), new1), left.kids, [Relabel(right.(head := false), new2)]);
    case TopRight =>
      MarkedIsSafe(g, left.(head := false), false, new1);
      MarkedIsSafe(g, right.(head := true), true, new2);
      KidsAreSafe(g, Relabel(right.(head := true), new2), [Relabel(left.(head := false), new1)], right.kids);
    case LastLeft => HungIsSafe(g, left, place, right.(head := false), true);
    case LastRight => HungIsSafe(g, right, place, left.(head := false), false);
    case CoverLastLeft =>
      PlaceInHeadless(left, place);
      CoveredIsSafe(g, left.(head := false), place, right.(head := true));
  }

  lemma SafeIsInside(g: Grammar, flags: set<string>, trees: seq<Tree>, m: Merger)
    requires IsNext(g, flags, trees, m) && Fits(trees, m) && AllSafe(g, trees)
    ensures IsInside(trees, m)
  {
    if m.rule.op.LastLeft? || m.rule.op.LastRight? {
      var t := Target(trees, m.chk, m.rule.op);
      NextHasNode(g, flags, trees, m);
      BestRuleIsIn(g, flags, trees, m.chk, m.rule);
      SubIsSafe(g, t, m.place);
      var leaf := Sub(t, m.place);
      assert leaf.(head := leaf.head) == leaf;
      assert HangsBelow(g, (trees[m.chk].cat, trees[m.chk + 1].cat), m.rule, leaf.(head := leaf.head));
    }
  }

  lemma AfterIsSafe(g: Grammar, a: State, m: Merger, b: State)
    requires IsStep(g, a, m, b) && AreInner(a.trees) && AllSafe(g, a.trees)
    ensures IsInside(a.trees, m) && AllSafe(g, b.trees)
  {
    SafeIsInside(g, a.flags, a.trees, m);
    MergedIsSafe(g, m.rule.op, m.rule.new1, m.rule.new2, a.trees[m.chk], a.trees[m.chk + 1], m.place);
  }

  lemma {:induction false} StatesAreSafe(g: Grammar, run: Run, n: nat)
    requires IsRun(g, run) && AreInner(First(run).trees) && AllSafe(g, First(run).trees) && n <= |run.merges|
    ensures AllSafe(g, run.states[n].trees) && InsideUpTo(run, n)
  {
    if n > 0 {
      StatesAreSafe(g, run, n - 1);
      StatesAreInner(g, run, n - 1);
      assert IsStepAt(g, run, n - 1);
      AfterIsSafe(g, run.states[n - 1], run.merges[n - 1], run.states[n]);
    }
  }

  /** If no rule hangs a tree below a leaf that is there from the beginning, no run loses a word. */
  lemma SafeRunIsInside(g: Grammar, run: Run)
    requires IsRun(g, run) && AreInner(First(run).trees) && AllSafe(g, First(run).trees)
    ensures AllInside(run)
  {
    StatesAreSafe(g, run, |run.merges|);
  }
}
