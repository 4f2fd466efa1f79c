/** Which constituents and rules the trees are made of: those with the longest rules, of the best priority. */
module Preferred {
  import opened Grammars
  import opened ChartIndex
  import opened ChartSpec
  import opened BestEdges
  import opened ChartEdges
  import opened ChartCover
  import opened ParseTrees
  import opened TreeSteps
  import opened SyntaxTrees

  /** Rule `r` derives the words of cell (x,y). */
  ghost predicate RuleDerives(g: Grammar, lex: seq<seq<Symbol>>, r: Rule, x: nat, y: nat) {
    exists kids :: RuleDerivesBy(g, lex, r, x, y, kids)
  }

  ghost predicate RuleDerivesBy(g: Grammar, lex: seq<seq<Symbol>>, r: Rule, x: nat, y: nat, kids: seq<Deriv>) {
    && r in g.rules && 0 < |kids| == |r.right| && Widths(kids) == x + 1
    && KidsDerive(SyntaxOf(g), lex, r, kids, y)
  }

  /** A phrase of the words of cell (x,y): made by a rule, with its governor, that no rule for the same
      constituent of those words exceeds in length; or the root made up for the sentence. */
  ghost predicate IsPhraseBy(g: Grammar, lex: seq<seq<Symbol>>, x: nat, y: nat, e: Edge) {
    && (forall r: Rule {:trigger RuleDerives(g, lex, r, x, y)} :: r.head == e.head && RuleDerives(g, lex, r, x, y) ==>
          |r.right| <= |e.matched|)
    && (HasRule(g, e) || (e.head == g.start && e.gov == NOGOV && x + 1 == |lex|))
  }

  ghost predicate HasRule(g: Grammar, e: Edge) {
    Rule(e.head, e.matched, e.gov) in g.rules
  }

  /** All phrases of a derivation are such. */
  ghost predicate MadeOfPhrases(g: Grammar, lex: seq<seq<Symbol>>, x: int, y: int, f: Full)
    decreases f, 0
  {
    match f
    case Word(_) => true
    case Phrase(e, kids) => x >= 0 && y >= 0 && IsPhraseBy(g, lex, x, y, e) && AllMadeOfPhrases(g, lex, e.backpath, kids)
  }

  ghost predicate AllMadeOfPhrases(g: Grammar, lex: seq<seq<Symbol>>, path: seq<(int, int)>, kids: seq<Full>)
    decreases kids, 1
  {
    |path| == |kids| &&
    (kids == [] ||
     (var m := |kids| - 1;
      AllMadeOfPhrases(g, lex, path[..m], kids[..m]) && MadeOfPhrases(g, lex, path[m].0, path[m].1, kids[m])))
  }

  /** The chart that trees are read from has at least the edges of the one filled. */
  ghost predicate Includes(n: nat, filled: seq<Cell>, table: seq<Cell>) {
    forall k, i, e {:trigger e in At(filled, n, k, i)} :: e in At(filled, n, k, i) ==> e in At(table, n, k, i)
  }

  lemma RootedIncludes(g: Grammar, filled: seq<Cell>, table: seq<Cell>, n: nat)
    requires Rooted(g, filled, table, n)
    ensures Includes(n, filled, table)
  {
    if IsBest(g, MayBeTop(g), At(filled, n, n - 1, 0), NO_EDGE, NO_EDGE) {
      var root :| RootAdded(g, filled, table, n, root);
      forall k, i, e | e in At(filled, n, k, i)
        ensures e in At(table, n, k, i)
      {
        assert InTriangle(n, k, i) && 0 <= Index(n, k, i) < |filled| == |table|;
      }
    }
  }

  /** A rule that derives the words of a cell is a complete edge there. */
  lemma DerivingRuleIsInChart(g: Grammar, lex: seq<seq<Symbol>>, filled: seq<Cell>, rank: Symbol -> nat, top: nat, r: Rule,
                              x: nat, y: nat) returns (e: Edge)
    requires WellFormed(g) && Grammars.Ranked(g, rank, top) && ChartOk(SyntaxOf(g), lex, filled, |lex|)
    requires x + y < |lex| && RuleDerives(g, lex, r, x, y)
    ensures e in At(filled, |lex|, x, y) && !e.Active() && e.head == r.head && |e.matched| == |r.right|
  {
    var kids :| RuleDerivesBy(g, lex, r, x, y, kids);
    SyntaxIsWellFormed(g, rank, top);
    PrefixIsInChart(SyntaxOf(g), lex, filled, |lex|, r, kids, y);
    e :| e in At(filled, |lex|, x, y) && e.head == r.head && e.matched == r.right[..|kids|] && e.right == r.right[|kids|..];
  }

  lemma LongestIsPhrase(g: Grammar, lex: seq<seq<Symbol>>, filled: seq<Cell>, table: seq<Cell>, rank: Symbol -> nat, top: nat,
                        x: nat, y: nat, e: Edge)
    requires WellFormed(g) && Grammars.Ranked(g, rank, top) && ChartOk(SyntaxOf(g), lex, filled, |lex|)
    requires Includes(|lex|, filled, table) && Explained(g, lex, table, |lex|) && TerminalReadings(g, lex)
    requires InTriangle(|lex|, x, y) && e in At(table, |lex|, x, y) && !e.Active()
    requires !g.IsTerminal(e.head) && IsLongest(At(table, |lex|, x, y), e)
    ensures IsPhraseBy(g, lex, x, y, e)
  {
    forall r: Rule | r.head == e.head && RuleDerives(g, lex, r, x, y)
      ensures |r.right| <= |e.matched|
    {
      var z := DerivingRuleIsInChart(g, lex, filled, rank, top, r, x, y);
      assert z in At(filled, |lex|, x, y);
    }
    assert IsExplained(g, lex, table, |lex|, x, y, e);
    if RuleEdge(SyntaxOf(g), table, |lex|, x, y, e) {
      var r :| OfRule(SyntaxOf(g), r, e);
      assert r == Rule(e.head, e.matched, e.gov);
    }
  }

  /** The expanded edge is in its cell. */
  lemma ExpandedIsInCell(g: Grammar, cells: seq<Cell>, n: nat, x: int, y: int, e: Edge)
    requires "" !in g.nonterminal && Expands(g, cells, n, x, y, e)
    ensures e in At(cells, n, x, y) && !e.Active()
  {
    assert e != NO_EDGE;
    assert Eligible(g, HeadIs(e.head), At(cells, n, x, y), e);
  }

  lemma {:induction false} FittingIsMadeOfPhrases(g: Grammar, lex: seq<seq<Symbol>>, filled: seq<Cell>, table: seq<Cell>,
                                                  rank: Symbol -> nat, top: nat, x: int, y: int, f: Full)
    requires WellFormed(g) && Grammars.Ranked(g, rank, top) && ChartOk(SyntaxOf(g), lex, filled, |lex|)
    requires Includes(|lex|, filled, table) && Explained(g, lex, table, |lex|) && TerminalReadings(g, lex)
    requires Fits(g, lex, table, |lex|, x, y, f)
    ensures MadeOfPhrases(g, lex, x, y, f)
    decreases f, 0
  {
    if f.Phrase? {
      ExpandedIsInCell(g, table, |lex|, x, y, f.edge);
      LongestIsPhrase(g, lex, filled, table, rank, top, x, y, f.edge);
      AllFittingAreMadeOfPhrases(g, lex, filled, table, rank, top, f.edge.backpath, f.kids);
    }
  }

  lemma {:induction false} AllFittingAreMadeOfPhrases(g: Grammar, lex: seq<seq<Symbol>>, filled: seq<Cell>, table: seq<Cell>,
                                                      rank: Symbol -> nat, top: nat, path: seq<(int, int)>, kids: seq<Full>)
    requires WellFormed(g) && Grammars.Ranked(g, rank, top) && ChartOk(SyntaxOf(g), lex, filled, |lex|)
    requires Includes(|lex|, filled, table) && Explained(g, lex, table, |lex|) && TerminalReadings(g, lex)
    requires AllFit(g, lex, table, |lex|, path, kids)
    ensures AllMadeOfPhrases(g, lex, path, kids)
    decreases kids, 1
  {
    if kids != [] {
      var m := |kids| - 1;
      AllFittingAreMadeOfPhrases(g, lex, filled, table, rank, top, path[..m], kids[..m]);
      FittingIsMadeOfPhrases(g, lex, filled, table, rank, top, path[m].0, path[m].1, kids[m]);
    }
  }

  /** `t` is the tree of a derivation of `s` in cell (x,y) all of whose phrases are by longest rules. */
  ghost predicate IsTreeOfLongest(g: Grammar, lex: seq<seq<Symbol>>, cells: seq<Cell>, x: int, y: int, s: Symbol, t: Tree) {
    exists f :: IsTreeBy(g, lex, cells, |lex|, x, y, s, t, f) && MadeOfPhrases(g, lex, x, y, f)
  }

  /** MAIN RESULT: every phrase of a tree is by a rule of the grammar, with its governor, and no longer
      rule derives the same constituent from the same words. */
  lemma TreeIsOfLongest(g: Grammar, lex: seq<seq<Symbol>>, filled: seq<Cell>, table: seq<Cell>, rank: Symbol -> nat, top: nat,
                        x: int, y: int, s: Symbol, t: Tree)
    requires WellFormed(g) && Grammars.Ranked(g, rank, top) && ChartOk(SyntaxOf(g), lex, filled, |lex|)
    requires Rooted(g, filled, table, |lex|) && Explained(g, lex, table, |lex|) && TerminalReadings(g, lex)
    requires IsTreeOf(g, lex, table, |lex|, x, y, s, t)
    ensures IsTreeOfLongest(g, lex, table, x, y, s, t)
  {
    RootedIncludes(g, filled, table, |lex|);
    var f :| IsTreeBy(g, lex, table, |lex|, x, y, s, t, f);
    FittingIsMadeOfPhrases(g, lex, filled, table, rank, top, x, y, f);
  }

  /** The number of a symbol in the priorities of the grammar is no greater than that of another; those
      not listed count 9999. */
  ghost predicate NoLessPreferred(g: Grammar, a: Symbol, b: Symbol) {
    && (a in g.prior.Keys && b in g.prior.Keys ==> g.prior[a] <= g.prior[b])
    && (a in g.prior.Keys && b !in g.prior.Keys ==> g.prior[a] <= 9999)
    && (a !in g.prior.Keys && b in g.prior.Keys ==> 9999 <= g.prior[b])
  }

  /** What selecting a constituent comes to: the start symbol before everything, other non-terminals by
      their numbers, and among those by length; terminals last, by form, lemma and tag. */
  ghost predicate IsPreferred(g: Grammar, a: Edge, b: Edge) {
    && (b.head == g.start ==> a.head == g.start)
    && (b.head in g.nonterminal ==> a.head in g.nonterminal)
    && (a.head in g.nonterminal && b.head in g.nonterminal && a.head != g.start ==>
          && NoLessPreferred(g, a.head, b.head)
          && (NoLessPreferred(g, b.head, a.head) ==> |b.matched| <= |a.matched|))
    && (a.head !in g.nonterminal && b.head !in g.nonterminal ==> g.Specificity(a.head) <= g.Specificity(b.head))
  }

  /** MAIN RESULT: the constituent selected in a cell is preferred to all that might have been. */
  lemma SelectedIsPreferred(g: Grammar, want: Symbol -> bool, cell: Cell, best: Edge, x: Edge)
    requires g.start in g.nonterminal && IsBest(g, want, cell, NO_EDGE, best)
    requires x in cell && !x.Active() && want(x.head)
    ensures IsPreferred(g, best, x)
  {
    assert Eligible(g, want, cell, x);
  }

  /** The root of a sentence's tree is preferred to every other constituent that is not hidden. */
  ghost predicate IsPreferredRoot(g: Grammar, cell: Cell, s: Symbol) {
    exists e :: e in cell && !e.Active() && e.head == s && s !in g.hidden && IsPreferredTo(g, cell, e)
  }

  ghost predicate IsPreferredTo(g: Grammar, cell: Cell, e: Edge) {
    forall x {:trigger x in cell} :: x in cell && !x.Active() && x.head !in g.hidden ==> IsPreferred(g, e, x)
  }

  lemma RootIsPreferred(g: Grammar, cell: Cell, best: Edge)
    requires g.start in g.nonterminal && IsBest(g, NotHidden(g), cell, NO_EDGE, best) && best != NO_EDGE
    ensures IsPreferredRoot(g, cell, best.head)
  {
    assert Eligible(g, NotHidden(g), cell, best);
    forall x | x in cell && !x.Active() && x.head !in g.hidden
      ensures IsPreferred(g, best, x)
    {
      SelectedIsPreferred(g, NotHidden(g), cell, best, x);
    }
  }
}
