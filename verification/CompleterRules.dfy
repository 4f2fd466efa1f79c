/** The rules of the completer: which one is the best for two neighbouring chunks, and which pair of
    chunks is merged first. */
module CompleterRules {
  import opened SyntaxTrees
  import opened Merging

  /** A rule: what it is looked up and enabled by, what it needs of the chunks around, what it
      does, the condition on the node it needs, and the flags it switches. Conditions look at the
      words, with regular expressions, and are parameters. */
  datatype Rule = Rule(line: nat, weight: int, op: Operation, new1: string, new2: string,
                       enabling: set<string>, applies: (seq<Tree>, nat) -> bool, matching: Tree -> bool,
                       on: set<string>, off: set<string>)

  const DEFAULT_RULE := Rule(0, 0, TopLeft, "-", "-", {}, (ts, k) => true, t => true, {}, {})

  type Grammar = map<(string, string), seq<Rule>>

  /** The places of all nodes, in preorder. */
  function Places(t: Tree): (ps: seq<Path>)
    ensures [] in ps
    decreases t, 1, 0
  {
    [[]] + PlacesFrom(t, 0)
  }

  function PlacesFrom(t: Tree, i: nat): seq<Path>
    requires i <= |t.kids|
    decreases t, 0, |t.kids| - i
  {
    if i == |t.kids| then [] else Below(i, Places(t.kids[i])) + PlacesFrom(t, i + 1)
  }

  function Below(i: nat, ps: seq<Path>): (qs: seq<Path>)
    ensures |qs| == |ps|
  {
    seq(|ps|, j requires 0 <= j < |ps| => [i] + ps[j])
  }

  lemma {:induction false} PlacesArePlaces(t: Tree, j: nat)
    requires j < |Places(t)|
    ensures IsPlace(t, Places(t)[j])
    decreases t, 1, 0
  {
    if j > 0 {
      PlacesFromArePlaces(t, 0, j - 1);
    }
  }

  lemma {:induction false} PlacesFromArePlaces(t: Tree, i: nat, j: nat)
    requires i <= |t.kids| && j < |PlacesFrom(t, i)|
    ensures IsPlace(t, PlacesFrom(t, i)[j])
    decreases t, 0, |t.kids| - i
  {
    var n := |Places(t.kids[i])|;
    if j < n {
      PlacesArePlaces(t.kids[i], j);
      assert PlacesFrom(t, i)[j] == [i] + Places(t.kids[i])[j];
      assert PlacesFrom(t, i)[j][1..] == Places(t.kids[i])[j];
    } else {
      PlacesFromArePlaces(t, i + 1, j - n);
    }
  }

  /** A place found, or none. */
  datatype Found = NotFound | At(place: Path)

  ghost predicate MatchesAt(t: Tree, matching: Tree -> bool, p: Path) {
    IsPlace(t, p) && matching(Sub(t, p))
  }

  /** `f` is the last of the places `ps` where the condition holds. */
  ghost predicate IsLastMatch(t: Tree, matching: Tree -> bool, ps: seq<Path>, f: Found) {
    match f
    case NotFound => forall j :: 0 <= j < |ps| ==> !MatchesAt(t, matching, ps[j])
    case At(p) => exists k :: LastMatchIs(t, matching, ps, p, k)
  }

  ghost predicate LastMatchIs(t: Tree, matching: Tree -> bool, ps: seq<Path>, p: Path, k: nat) {
    && k < |ps| && ps[k] == p && MatchesAt(t, matching, p)
    && forall j :: k < j < |ps| ==> !MatchesAt(t, matching, ps[j])
  }

  /** The last node, in preorder, that meets the condition. */
  method LastMatch(t: Tree, matching: Tree -> bool) returns (f: Found)
    ensures IsLastMatch(t, matching, Places(t), f)
  {
    var ps := Places(t);
    f := NotFound;
    for i := 0 to |ps|
      invariant IsLastMatch(t, matching, ps[..i], f)
    {
      PlacesArePlaces(t, i);
      MatchOneMore(t, matching, ps, i, f);
      if matching(Sub(t, ps[i])) {
        f := At(ps[i]);
      }
    }
    assert ps[..|ps|] == ps;
  }

  lemma MatchOneMore(t: Tree, matching: Tree -> bool, ps: seq<Path>, i: nat, f: Found)
    requires i < |ps| && IsLastMatch(t, matching, ps[..i], f)
    ensures IsLastMatch(t, matching, ps[..i + 1], if MatchesAt(t, matching, ps[i]) then At(ps[i]) else f)
  {
    var more := ps[..i + 1];
    assert forall j :: 0 <= j < i ==> more[j] == ps[..i][j];
    if MatchesAt(t, matching, ps[i]) {
      assert LastMatchIs(t, matching, more, ps[i], i);
    } else if f.At? {
      var k: nat :| LastMatchIs(t, matching, ps[..i], f.place, k);
      assert LastMatchIs(t, matching, more, f.place, k);
    }
  }

  /** Some node meets the condition. */
  ghost predicate HasMatch(t: Tree, matching: Tree -> bool) {
    exists j :: 0 <= j < |Places(t)| && MatchesAt(t, matching, Places(t)[j])
  }

  predicate NeedsNode(op: Operation) {
    !op.TopLeft? && !op.TopRight?
  }

  /** The tree in which the operation needs a node. */
  function Target(trees: seq<Tree>, chk: nat, op: Operation): Tree
    requires chk + 1 < |trees|
  {
    trees[if op.LastRight? then chk + 1 else chk]
  }

  /** The rule can be applied to chunk `chk` and the next one. */
  ghost predicate Suits(flags: set<string>, trees: seq<Tree>, chk: nat, r: Rule)
    requires chk + 1 < |trees|
  {
    && ("-" in r.enabling || exists x :: x in r.enabling && x in flags)
    && r.applies(trees, chk)
    && (NeedsNode(r.op) ==> HasMatch(Target(trees, chk, r.op), r.matching))
  }

  /** The first of the candidates with the least weight among those that suit. */
  ghost predicate IsBestRule(flags: set<string>, trees: seq<Tree>, chk: nat, rs: seq<Rule>, r: Rule)
    requires chk + 1 < |trees|
  {
    if forall j :: 0 <= j < |rs| ==> !Suits(flags, trees, chk, rs[j]) then r == DEFAULT_RULE
    else exists i :: BestRuleIs(flags, trees, chk, rs, r, i)
  }

  ghost predicate BestRuleIs(flags: set<string>, trees: seq<Tree>, chk: nat, rs: seq<Rule>, r: Rule, i: nat)
    requires chk + 1 < |trees|
  {
    && i < |rs| && r == rs[i] && Suits(flags, trees, chk, r)
    && forall j :: 0 <= j < |rs| && Suits(flags, trees, chk, rs[j]) ==> r.weight <= rs[j].weight && (j < i ==> r.weight < rs[j].weight)
  }

  function Candidates(g: Grammar, trees: seq<Tree>, chk: nat): seq<Rule>
    requires chk + 1 < |trees|
  {
    var key := (trees[chk].cat, trees[chk + 1].cat);
    if key in g then g[key] else []
  }

  /** Rules have different lines, and weights that are not negative. */
  ghost predicate WellFormed(g: Grammar) {
    forall key :: key in g ==> Numbered(g[key]) && forall r :: r in g[key] ==> r.weight >= 0
  }

  ghost predicate Numbered(rs: seq<Rule>) {
    forall i, j :: 0 <= i < j < |rs| ==> rs[i].line != rs[j].line
  }

  /** The search for the best rule, after the first `n` candidates. */
  ghost predicate Searched(flags: set<string>, trees: seq<Tree>, chk: nat, rs: seq<Rule>, n: nat, found: bool, r: Rule)
    requires chk + 1 < |trees| && n <= |rs|
  {
    if found then exists i :: BestRuleIs(flags, trees, chk, rs[..n], r, i)
    else forall j :: 0 <= j < n ==> !Suits(flags, trees, chk, rs[j])
  }

  lemma SearchOneMore(flags: set<string>, trees: seq<Tree>, chk: nat, rs: seq<Rule>, n: nat, found: bool, r: Rule)
    requires chk + 1 < |trees| && n < |rs| && Searched(flags, trees, chk, rs, n, found, r)
    ensures var better := Suits(flags, trees, chk, rs[n]) && (!found || r.weight > rs[n].weight);
            Searched(flags, trees, chk, rs, n + 1, found || better, if better then rs[n] else r)
  {
    var better := Suits(flags, trees, chk, rs[n]) && (!found || r.weight > rs[n].weight);
    var more := rs[..n + 1];
    assert forall j :: 0 <= j < n ==> more[j] == rs[..n][j] == rs[j];
    if better {
      if found {
        var i: nat :| BestRuleIs(flags, trees, chk, rs[..n], r, i);
      }
      assert BestRuleIs(flags, trees, chk, more, rs[n], n);
    } else if found {
      var i: nat :| BestRuleIs(flags, trees, chk, rs[..n], r, i);
      assert BestRuleIs(flags, trees, chk, more, r, i);
    }
  }

  /** The node that a rule needs has been found, and is the last one that matches. */
  ghost predicate Recovered(last: map<(nat, nat), Found>, trees: seq<Tree>, chk: nat, r: Rule)
    requires chk + 1 < |trees|
  {
    NeedsNode(r.op) ==>
      && (r.line, chk) in last && last[(r.line, chk)].At?
      && IsLastMatch(Target(trees, chk, r.op), r.matching, Places(Target(trees, chk, r.op)), last[(r.line, chk)])
  }

  ghost predicate SameElsewhere(a: map<(nat, nat), Found>, b: map<(nat, nat), Found>, chk: nat) {
    forall key :: key in a && key.1 != chk ==> key in b && b[key] == a[key]
  }

  function PlaceIn(last: map<(nat, nat), Found>, chk: nat, r: Rule): Path {
    if (r.line, chk) in last && last[(r.line, chk)].At? then last[(r.line, chk)].place else []
  }

  lemma LastMatchIsMatch(t: Tree, matching: Tree -> bool, f: Found)
    requires IsLastMatch(t, matching, Places(t), f)
    ensures f.At? <==> HasMatch(t, matching)
    ensures f.At? ==> MatchesAt(t, matching, f.place)
  {
    if f.At? {
      var k: nat :| LastMatchIs(t, matching, Places(t), f.place, k);
      assert MatchesAt(t, matching, Places(t)[k]);
    }
  }

  /** The weights of the best rules for the first pairs of neighbouring chunks. */
  ghost predicate AreWeights(g: Grammar, flags: set<string>, trees: seq<Tree>, ws: seq<int>)
    requires |ws| < |trees|
  {
    forall k {:trigger ws[k]} :: 0 <= k < |ws| ==> HasWeight(g, flags, trees, k, ws[k])
  }

  ghost predicate HasWeight(g: Grammar, flags: set<string>, trees: seq<Tree>, k: nat, w: int)
    requires k + 1 < |trees|
  {
    w >= 0 && exists r :: IsBestRule(flags, trees, k, Candidates(g, trees, k), r) && r.weight == w
  }

  lemma BestWeight(g: Grammar, flags: set<string>, trees: seq<Tree>, k: nat, r: Rule)
    requires k + 1 < |trees| && WellFormed(g) && IsBestRule(flags, trees, k, Candidates(g, trees, k), r)
    ensures HasWeight(g, flags, trees, k, r.weight)
  {
    if r != DEFAULT_RULE {
      var i: nat :| BestRuleIs(flags, trees, k, Candidates(g, trees, k), r, i);
      assert r in Candidates(g, trees, k);
    }
  }

  /** The first of the least weights that are positive, or the first of all if none is. */
  ghost predicate FirstChoice(ws: seq<int>, chk: nat)
    requires chk < |ws|
  {
    if ws[chk] > 0 then forall k :: 0 <= k < |ws| && ws[k] > 0 ==> ws[chk] <= ws[k] && (k < chk ==> ws[chk] < ws[k])
    else chk == 0 && forall k :: 0 <= k < |ws| ==> ws[k] <= 0
  }

  lemma ChoiceOneMore(ws: seq<int>, chk: nat, w: int)
    requires chk < |ws| && FirstChoice(ws, chk) && w >= 0 && ws[chk] >= 0
    ensures FirstChoice(ws + [w], if 0 < w < ws[chk] || (ws[chk] <= 0 && w > ws[chk]) then |ws| else chk)
    ensures ws[chk] <= 0 ==> chk == 0
  {
  }

  lemma MoreWeights(g: Grammar, flags: set<string>, trees: seq<Tree>, ws: seq<int>, w: int)
    requires |ws| + 1 < |trees| && AreWeights(g, flags, trees, ws) && HasWeight(g, flags, trees, |ws|, w)
    ensures AreWeights(g, flags, trees, ws + [w]) && w >= 0
  {
  }

  ghost predicate IsFirstChoice(g: Grammar, flags: set<string>, trees: seq<Tree>, ws: seq<int>, chk: nat) {
    |ws| + 1 == |trees| && chk < |ws| && AreWeights(g, flags, trees, ws) && FirstChoice(ws, chk)
  }

  /** One merge: the rule, the chunk that it is applied to, and the node that it needs. */
  datatype Merger = Merger(rule: Rule, chk: nat, place: Path)

  /** The merge that comes next: the best rule for the pair chosen first, at the last node that matches. */
  ghost predicate IsNext(g: Grammar, flags: set<string>, trees: seq<Tree>, m: Merger) {
    && m.chk + 1 < |trees|
    && IsBestRule(flags, trees, m.chk, Candidates(g, trees, m.chk), m.rule)
    && IsNodeOf(trees, m)
    && exists ws :: IsFirstChoice(g, flags, trees, ws, m.chk)
  }

  ghost predicate IsNodeOf(trees: seq<Tree>, m: Merger)
    requires m.chk + 1 < |trees|
  {
    var t := Target(trees, m.chk, m.rule.op);
    if NeedsNode(m.rule.op) then IsLastMatch(t, m.rule.matching, Places(t), At(m.place)) else m.place == []
  }

  lemma BestRuleIsUnique(flags: set<string>, trees: seq<Tree>, chk: nat, rs: seq<Rule>, r: Rule, q: Rule)
    requires chk + 1 < |trees| && IsBestRule(flags, trees, chk, rs, r) && IsBestRule(flags, trees, chk, rs, q)
    ensures r == q
  {
    if !forall j :: 0 <= j < |rs| ==> !Suits(flags, trees, chk, rs[j]) {
      var i: nat :| BestRuleIs(flags, trees, chk, rs, r, i);
      var j: nat :| BestRuleIs(flags, trees, chk, rs, q, j);
      assert rs[i].weight <= rs[j].weight && rs[j].weight <= rs[i].weight;
      assert i == j;
    }
  }

  lemma LastMatchIsUnique(t: Tree, matching: Tree -> bool, p: Path, q: Path)
    requires IsLastMatch(t, matching, Places(t), At(p)) && IsLastMatch(t, matching, Places(t), At(q))
    ensures p == q
  {
    var i: nat :| LastMatchIs(t, matching, Places(t), p, i);
    var j: nat :| LastMatchIs(t, matching, Places(t), q, j);
    assert !(i < j) && !(j < i);
  }

  lemma WeightsAreUnique(g: Grammar, flags: set<string>, trees: seq<Tree>, ws: seq<int>, vs: seq<int>)
    requires |ws| == |vs| < |trees| && AreWeights(g, flags, trees, ws) && AreWeights(g, flags, trees, vs)
    ensures ws == vs
  {
    forall k | 0 <= k < |ws|
      ensures ws[k] == vs[k]
    {
      assert HasWeight(g, flags, trees, k, ws[k]) && HasWeight(g, flags, trees, k, vs[k]);
      var r :| IsBestRule(flags, trees, k, Candidates(g, trees, k), r) && r.weight == ws[k];
      var q :| IsBestRule(flags, trees, k, Candidates(g, trees, k), q) && q.weight == vs[k];
      BestRuleIsUnique(flags, trees, k, Candidates(g, trees, k), r, q);
    }
  }

  lemma FirstChoiceIsUnique(ws: seq<int>, i: nat, j: nat)
    requires i < |ws| && j < |ws| && FirstChoice(ws, i) && FirstChoice(ws, j)
    ensures i == j
  {
  }

  /** There is only one merge that comes next. */
  lemma NextIsUnique(g: Grammar, flags: set<string>, trees: seq<Tree>, m: Merger, n: Merger)
    requires IsNext(g, flags, trees, m) && IsNext(g, flags, trees, n)
    ensures m == n
  {
    var ws :| IsFirstChoice(g, flags, trees, ws, m.chk);
    var vs :| IsFirstChoice(g, flags, trees, vs, n.chk);
    WeightsAreUnique(g, flags, trees, ws, vs);
    FirstChoiceIsUnique(ws, m.chk, n.chk);
    BestRuleIsUnique(flags, trees, m.chk, Candidates(g, trees, m.chk), m.rule, n.rule);
    if NeedsNode(m.rule.op) {
      LastMatchIsUnique(Target(trees, m.chk, m.rule.op), m.rule.matching, m.place, n.place);
    }
  }

  lemma BestRuleIsIn(g: Grammar, flags: set<string>, trees: seq<Tree>, chk: nat, r: Rule)
    requires chk + 1 < |trees| && IsBestRule(flags, trees, chk, Candidates(g, trees, chk), r)
    ensures r == DEFAULT_RULE || (var key := (trees[chk].cat, trees[chk + 1].cat); key in g && r in g[key])
  {
    if r != DEFAULT_RULE {
      var i: nat :| BestRuleIs(flags, trees, chk, Candidates(g, trees, chk), r, i);
    }
  }

  /** The node that the next merge needs is there. */
  lemma NextHasNode(g: Grammar, flags: set<string>, trees: seq<Tree>, m: Merger)
    requires IsNext(g, flags, trees, m)
    ensures NeedsNode(m.rule.op) ==> MatchesAt(Target(trees, m.chk, m.rule.op), m.rule.matching, m.place)
  {
    if NeedsNode(m.rule.op) {
      LastMatchIsMatch(Target(trees, m.chk, m.rule.op), m.rule.matching, At(m.place));
    }
  }
}
