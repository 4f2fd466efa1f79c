/** From a constituent of the chart to the constituents it is made of. */
module TreeSteps {
  import opened Grammars
  import opened ChartIndex
  import opened ChartSpec
  import opened BestEdges
  import opened ChartEdges
  import opened ParseTrees
  import opened ChartCover
  import opened SyntaxTrees

  /** Words are read as terminals only. */
  ghost predicate TerminalReadings(g: Grammar, lex: seq<seq<Symbol>>) {
    forall i, h :: 0 <= i < |lex| && h in lex[i] ==> g.IsTerminal(h)
  }

  /** A chart that trees can be built from. */
  ghost predicate Buildable(g: Grammar, lex: seq<seq<Symbol>>, cells: seq<Cell>, n: nat) {
    && WellFormed(g) && WellFlagged(g) && Governed(g)
    && TerminalReadings(g, lex) && Explained(g, lex, cells, n)
  }

  /** Symbol `s` can be expanded in cell (x,y). */
  ghost predicate Ready(g: Grammar, lex: seq<seq<Symbol>>, cells: seq<Cell>, n: nat, x: int, y: int, s: Symbol) {
    && InTriangle(n, x, y)
    && if g.IsTerminal(s) then x == 0 && WordFits(g, lex, y, s) else HasConstituent(cells, n, x, y, s)
  }

  /** A complete edge with a terminal head is the reading of a word. */
  lemma TerminalIsReading(g: Grammar, lex: seq<seq<Symbol>>, cells: seq<Cell>, n: nat, x: int, y: int, e: Edge)
    requires WellFormed(g) && Explained(g, lex, cells, n) && InTriangle(n, x, y)
    requires e in At(cells, n, x, y) && !e.Active()
    ensures g.IsTerminal(e.head) ==> IsReading(lex, x, y, e)
  {
    assert IsExplained(g, lex, cells, n, x, y, e);
  }

  lemma MatchesItself(g: Grammar, s: Symbol)
    ensures g.CheckMatch(s, s)
  {
  }

  /** A head found in a cell can be expanded there. */
  lemma FoundIsReady(g: Grammar, lex: seq<seq<Symbol>>, cells: seq<Cell>, n: nat, x: int, y: int, s: Symbol)
    requires WellFormed(g) && Explained(g, lex, cells, n) && InTriangle(n, x, y) && HasConstituent(cells, n, x, y, s)
    ensures Ready(g, lex, cells, n, x, y, s)
  {
    var e :| e in At(cells, n, x, y) && !e.Active() && e.head == s;
    TerminalIsReading(g, lex, cells, n, x, y, e);
    MatchesItself(g, s);
  }

  lemma MatchIsEqualOrWild(g: Grammar, r: Rule, s: Symbol, h: Symbol)
    requires WellFormed(g) && WellFlagged(g) && r in g.rules && s in r.right && g.CheckMatch(s, h)
    ensures s == h || (g.IsTerminal(s) && g.IsTerminal(h))
  {
    assert WildcardsAreTerminal(g, s);
  }

  /** A symbol of a rule can be expanded where it has been matched. */
  lemma MatchedIsReady(g: Grammar, lex: seq<seq<Symbol>>, cells: seq<Cell>, n: nat, x: int, y: int, r: Rule, s: Symbol)
    requires WellFormed(g) && WellFlagged(g) && Explained(g, lex, cells, n) && InTriangle(n, x, y)
    requires TerminalReadings(g, lex) && r in g.rules && s in r.right
    requires HasMatch(SyntaxOf(g), At(cells, n, x, y), s)
    ensures Ready(g, lex, cells, n, x, y, s)
  {
    var e :| e in At(cells, n, x, y) && !e.Active() && SyntaxOf(g).matches(s, e.head);
    MatchIsEqualOrWild(g, r, s, e.head);
    TerminalIsReading(g, lex, cells, n, x, y, e);
  }

  /** How far a symbol of a cell is from being a word: rows first, then the start symbol, then unary rules. */
  ghost predicate Lower(g: Grammar, rank: Symbol -> nat, x: int, s: Symbol, above: int, over: Symbol) {
    x < above || (x == above && s != g.start && (over == g.start || rank(s) < rank(over)))
  }

  ghost predicate CanExpand(g: Grammar, lex: seq<seq<Symbol>>, cells: seq<Cell>, n: nat, rank: Symbol -> nat, x: nat, e: Edge) {
    && |e.matched| == |e.backpath|
    && forall j {:trigger e.matched[j]} {:trigger e.backpath[j]} :: 0 <= j < |e.matched| ==>
         && Ready(g, lex, cells, n, e.backpath[j].0, e.backpath[j].1, e.matched[j])
         && e.matched[j] != "" && Lower(g, rank, e.backpath[j].0, e.matched[j], x, e.head)
  }

  /** The best edge for a constituent has parts that can be expanded, and are lower. */
  lemma BestEdgeExpands(g: Grammar, lex: seq<seq<Symbol>>, cells: seq<Cell>, n: nat, rank: Symbol -> nat, top: nat,
                        x: nat, y: nat, e: Edge)
    requires Buildable(g, lex, cells, n) && Ranked(g, rank, top)
    requires InTriangle(n, x, y) && !g.IsTerminal(e.head)
    requires e in At(cells, n, x, y) && !e.Active() && IsBest(g, HeadIs(e.head), At(cells, n, x, y), NO_EDGE, e)
    ensures Expands(g, cells, n, x, y, e) && CanExpand(g, lex, cells, n, rank, x, e)
  {
    BestIsLongest(g, At(cells, n, x, y), e);
    assert IsExplained(g, lex, cells, n, x, y, e);
    assert !IsReading(lex, x, y, e);
    if RuleEdge(SyntaxOf(g), cells, n, x, y, e) {
      var r :| OfRule(SyntaxOf(g), r, e);
      RuleExpands(g, lex, cells, n, rank, top, x, y, e, r);
    } else {
      RootExpands(g, lex, cells, n, rank, x, y, e);
    }
  }

  lemma RuleExpands(g: Grammar, lex: seq<seq<Symbol>>, cells: seq<Cell>, n: nat, rank: Symbol -> nat, top: nat,
                    x: nat, y: nat, e: Edge, r: Rule)
    requires Buildable(g, lex, cells, n) && Ranked(g, rank, top) && InTriangle(n, x, y)
    requires Laid(SyntaxOf(g), cells, n, x, y, e) && OfRule(SyntaxOf(g), r, e) && !e.Active()
    ensures CanExpand(g, lex, cells, n, rank, x, e) && g.start !in e.matched && e.gov < |e.matched|
  {
    assert r.right == e.matched;
    forall j | 0 <= j < |e.matched|
      ensures Ready(g, lex, cells, n, e.backpath[j].0, e.backpath[j].1, e.matched[j])
      ensures e.matched[j] != "" && Lower(g, rank, e.backpath[j].0, e.matched[j], x, e.head)
    {
      TilesAreInside(e.backpath, y, x + 1, j);
      MatchedIsReady(g, lex, cells, n, e.backpath[j].0, e.backpath[j].1, r, e.matched[j]);
    }
  }

  lemma RootExpands(g: Grammar, lex: seq<seq<Symbol>>, cells: seq<Cell>, n: nat, rank: Symbol -> nat, x: nat, y: nat, e: Edge)
    requires Buildable(g, lex, cells, n) && InTriangle(n, x, y) && Fictitious(g, cells, n, x, y, e)
    ensures CanExpand(g, lex, cells, n, rank, x, e)
  {
    forall j | 0 <= j < |e.matched|
      ensures Ready(g, lex, cells, n, e.backpath[j].0, e.backpath[j].1, e.matched[j])
      ensures e.matched[j] != "" && Lower(g, rank, e.backpath[j].0, e.matched[j], x, e.head)
    {
      TilesAreInside(e.backpath, y, x + 1, j);
      FoundIsReady(g, lex, cells, n, e.backpath[j].0, e.backpath[j].1, e.matched[j]);
    }
  }

  lemma ConstituentIsPicked(g: Grammar, cell: Cell, s: Symbol, best: Edge)
    requires "" !in g.nonterminal && g.start in g.nonterminal && !g.IsTerminal(s) && IsBest(g, HeadIs(s), cell, NO_EDGE, best)
    requires exists e :: e in cell && !e.Active() && e.head == s
    ensures best in cell && !best.Active() && best.head == s && IsBest(g, HeadIs(best.head), cell, NO_EDGE, best)
  {
    var e :| e in cell && !e.Active() && e.head == s;
    var want := HeadIs(s);
    assert Eligible(g, want, cell, e) && BetterEdge(g, e, NO_EDGE);
    var same := HeadIs(best.head);
    assert Eligible(g, want, cell, best);
    forall x | Eligible(g, same, cell, x)
      ensures !BetterEdge(g, x, best)
    {
      assert Eligible(g, want, cell, x);
    }
    assert Eligible(g, same, cell, best);
  }

  /** The best edge for a symbol that can be expanded. */
  lemma PickedExpands(g: Grammar, lex: seq<seq<Symbol>>, cells: seq<Cell>, n: nat, rank: Symbol -> nat, top: nat,
                      x: nat, y: nat, s: Symbol, best: Edge)
    requires Buildable(g, lex, cells, n) && Ranked(g, rank, top) && Ready(g, lex, cells, n, x, y, s)
    requires InTriangle(n, x, y) && !g.IsTerminal(s) && IsBest(g, HeadIs(s), At(cells, n, x, y), NO_EDGE, best)
    ensures best.head == s && Expands(g, cells, n, x, y, best) && CanExpand(g, lex, cells, n, rank, x, best)
  {
    ConstituentIsPicked(g, At(cells, n, x, y), s, best);
    BestEdgeExpands(g, lex, cells, n, rank, top, x, y, best);
  }

  /** One more part of a constituent has been expanded. */
  lemma OneMorePart(g: Grammar, lex: seq<seq<Symbol>>, cells: seq<Cell>, n: nat, e: Edge, parts: seq<Full>, part: Full, j: nat)
    requires j == |parts| < |e.matched| == |e.backpath|
    requires TopsAre(parts, e.matched[..j]) && AllFit(g, lex, cells, n, e.backpath[..j], parts)
    requires Top(part) == e.matched[j] && Fits(g, lex, cells, n, e.backpath[j].0, e.backpath[j].1, part)
    ensures TopsAre(parts + [part], e.matched[..j + 1]) && AllFit(g, lex, cells, n, e.backpath[..j + 1], parts + [part])
    ensures Daughters(g, e.head, e.gov, parts + [part])
         == Daughters(g, e.head, e.gov, parts) + Kept(g, e.head, j == e.gov, Shape(g, part))
  {
    assert (parts + [part])[..j] == parts && e.backpath[..j + 1][..j] == e.backpath[..j];
  }

  function NotHidden(g: Grammar): Symbol -> bool {
    s => s !in g.hidden
  }

  /** Some complete edge over the whole sentence can be the root of its tree. */
  ghost predicate HasTop(g: Grammar, cells: seq<Cell>, n: nat) {
    !IsBest(g, NotHidden(g), At(cells, n, n - 1, 0), NO_EDGE, NO_EDGE)
  }

  lemma TopIsReady(g: Grammar, lex: seq<seq<Symbol>>, cells: seq<Cell>, n: nat, best: Edge)
    requires n > 0 && WellFormed(g) && Explained(g, lex, cells, n) && best != NO_EDGE
    requires IsBest(g, NotHidden(g), At(cells, n, n - 1, 0), NO_EDGE, best)
    ensures Ready(g, lex, cells, n, n - 1, 0, best.head) && best.head !in g.hidden && HasTop(g, cells, n)
  {
    assert Eligible(g, NotHidden(g), At(cells, n, n - 1, 0), best);
    assert HasConstituent(cells, n, n - 1, 0, best.head);
    FoundIsReady(g, lex, cells, n, n - 1, 0, best.head);
  }

  /** What is left when there is no root to begin with. */
  const NO_TREE := Tree("", false, 0, 0, [])

  /** What is promised of the tree of a sentence. */
  ghost predicate IsSentenceTree(g: Grammar, lex: seq<seq<Symbol>>, n: nat, t: Tree) {
    && t.cat !in g.hidden && OneHead(g, t) && Shown(g, t.kids)
    && |Leaves(t)| == n && forall j :: 0 <= j < n ==> WordFits(g, lex, j, Leaves(t)[j])
  }

  lemma TreeIsSentenceTree(g: Grammar, lex: seq<seq<Symbol>>, cells: seq<Cell>, n: nat, s: Symbol, t: Tree)
    requires n > 0 && RemovesPhrases(g) && IsTreeOf(g, lex, cells, n, n - 1, 0, s, t) && s !in g.hidden
    ensures IsSentenceTree(g, lex, n, t)
  {
    var f :| IsTreeBy(g, lex, cells, n, n - 1, 0, s, t, f);
    TreeLeavesAreTheWords(g, lex, cells, n, n - 1, 0, f);
    TreeIsHeadedAndShown(g, lex, cells, n, n - 1, 0, f);
  }

  /** A made-up root can always be the root of the tree. */
  lemma MadeUpRootIsTop(g: Grammar, cells: seq<Cell>, n: nat, e: Edge)
    requires "" !in g.nonterminal && g.start in g.nonterminal && g.start !in g.hidden
    requires e in At(cells, n, n - 1, 0) && !e.Active() && e.head == g.start
    ensures HasTop(g, cells, n)
  {
    assert Eligible(g, NotHidden(g), At(cells, n, n - 1, 0), e);
  }

  /** Some head that may stand at the root derives the whole sentence. */
  ghost predicate RootDerived(g: Grammar, lex: seq<seq<Symbol>>, may: Symbol -> bool) {
    |lex| > 0 && exists h :: may(h) && !IsBare(g, h) && ConstituentDerives(SyntaxOf(g), lex, h, |lex| - 1, 0)
  }

  /** The tree of a sentence has a label: something that is not hidden derives it, or nothing that
      may be at the top does, so that a root is made up. */
  ghost predicate TopDerived(g: Grammar, lex: seq<seq<Symbol>>) {
    RootDerived(g, lex, NotHidden(g)) || !RootDerived(g, lex, MayBeTop(g))
  }

  /** Searching the highest cell finds a head exactly when one derives the sentence. */
  lemma RootDerivedIff(g: Grammar, lex: seq<seq<Symbol>>, cells: seq<Cell>, rank: Symbol -> nat, top: nat, may: Symbol -> bool)
    requires WellFormed(g) && Ranked(g, rank, top) && lex != [] && ChartOk(SyntaxOf(g), lex, cells, |lex|)
    ensures IsBest(g, may, At(cells, |lex|, |lex| - 1, 0), NO_EDGE, NO_EDGE) <==> !RootDerived(g, lex, may)
  {
    var n, k: nat := |lex|, |lex| - 1;
    var cell := At(cells, n, k, 0);
    SyntaxIsWellFormed(g, rank, top);
    forall h
      ensures HasConstituent(cells, n, k, 0, h) <==> ConstituentDerives(SyntaxOf(g), lex, h, k, 0)
    {
      ChartIsSoundAndComplete(SyntaxOf(g), lex, cells, n, rank, k, 0, h);
    }
    forall e | Eligible(g, may, cell, e)
      ensures BetterEdge(g, e, NO_EDGE) <==> !IsBare(g, e.head)
      ensures HasConstituent(cells, n, k, 0, e.head)
    {
      BareIsNotSelected(g, e);
    }
    if RootDerived(g, lex, may) {
      var h :| may(h) && !IsBare(g, h) && ConstituentDerives(SyntaxOf(g), lex, h, k, 0);
      var e :| e in cell && !e.Active() && e.head == h;
      assert Eligible(g, may, cell, e);
    }
  }

  /** MAIN RESULT: the tree read from a parsed chart has a labelled root exactly when the sentence and
      the grammar allow one. */
  lemma TopIffDerived(g: Grammar, lex: seq<seq<Symbol>>, filled: seq<Cell>, table: seq<Cell>, rank: Symbol -> nat, top: nat)
    requires WellFormed(g) && Ranked(g, rank, top) && lex != []
    requires ChartOk(SyntaxOf(g), lex, filled, |lex|) && Rooted(g, filled, table, |lex|)
    ensures HasTop(g, table, |lex|) <==> TopDerived(g, lex)
  {
    var n := |lex|;
    RootDerivedIff(g, lex, filled, rank, top, NotHidden(g));
    RootDerivedIff(g, lex, filled, rank, top, MayBeTop(g));
    if !RootDerived(g, lex, MayBeTop(g)) {
      var root :| RootAdded(g, filled, table, n, root);
      assert root in At(table, n, n - 1, 0);
      MadeUpRootIsTop(g, table, n, root);
    }
  }

  /** A complete edge that the search for the root of the tree may select. */
  ghost predicate IsCandidate(g: Grammar, e: Edge) {
    !e.Active() && e.head !in g.hidden && BetterEdge(g, e, NO_EDGE)
  }

  /** Place `j` holds a candidate that may not be at the top, and that beats every one that may, or is
      as good and comes before it. */
  ghost predicate ForbiddenWinsAt(g: Grammar, cell: Cell, j: nat) {
    && j < |cell| && IsCandidate(g, cell[j]) && cell[j].head in g.notop
    && forall i {:trigger cell[i]} :: 0 <= i < |cell| && IsCandidate(g, cell[i]) && cell[i].head !in g.notop ==>
         BetterEdge(g, cell[j], cell[i]) || (!BetterEdge(g, cell[i], cell[j]) && j < i)
  }

  ghost predicate ForbiddenWins(g: Grammar, cell: Cell) {
    exists j: nat :: ForbiddenWinsAt(g, cell, j)
  }

  /** MAIN RESULT: the root of the tree is chosen among all constituents that are not hidden. It is one
      that may not be at the top exactly when such a one beats, or ties with and precedes, all others. */
  lemma RootIsForbiddenIff(g: Grammar, cell: Cell, best: Edge)
    requires IsBest(g, NotHidden(g), cell, NO_EDGE, best) && best != NO_EDGE && IsFirst(g, NotHidden(g), cell, best)
    ensures best.head in g.notop <==> ForbiddenWins(g, cell)
  {
    var b: nat :| FirstAt(g, NotHidden(g), cell, best, b);
    assert IsCandidate(g, best);
    if best.head in g.notop {
      forall i | 0 <= i < |cell| && IsCandidate(g, cell[i]) && cell[i].head !in g.notop
        ensures BetterEdge(g, best, cell[i]) || (!BetterEdge(g, cell[i], best) && b < i)
      {
        assert Eligible(g, NotHidden(g), cell, cell[i]);
      }
      assert ForbiddenWinsAt(g, cell, b);
    }
    if ForbiddenWins(g, cell) {
      var j: nat :| ForbiddenWinsAt(g, cell, j);
      assert Eligible(g, NotHidden(g), cell, cell[j]);
      assert cell[b] == best;
    }
  }

  lemma TreeHasItsSymbol(g: Grammar, lex: seq<seq<Symbol>>, cells: seq<Cell>, n: nat, x: int, y: int, s: Symbol, t: Tree)
    requires IsTreeOf(g, lex, cells, n, x, y, s, t)
    ensures t.cat == s
  {
    var f :| IsTreeBy(g, lex, cells, n, x, y, s, t, f);
  }
}
