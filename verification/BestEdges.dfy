/** Which of several complete edges the parser prefers. */
module BestEdges {
  import opened Grammars
  import opened ChartSpec

  /** The start symbol first, then non-terminals by priority and length, then terminals by specificity. */
  predicate BetterEdge(g: Grammar, a: Edge, b: Edge) {
    if a.head == g.start && b.head != g.start then true
    else if a.head != g.start && b.head == g.start then false
    else if g.IsTerminal(a.head) && g.IsTerminal(b.head) then g.Specificity(a.head) < g.Specificity(b.head)
    else if !g.IsTerminal(a.head) && !g.IsTerminal(b.head) then
      g.Priority(a.head) < g.Priority(b.head)
      || (g.Priority(a.head) == g.Priority(b.head) && |a.matched| > |b.matched|)
    else !g.IsTerminal(a.head)
  }

  /** The preference is a strict weak order. */
  lemma BetterEdgeIsAnOrder(g: Grammar, a: Edge, b: Edge, c: Edge)
    ensures BetterEdge(g, a, b) ==> !BetterEdge(g, b, a)
    ensures BetterEdge(g, a, b) && BetterEdge(g, b, c) ==> BetterEdge(g, a, c)
    ensures !BetterEdge(g, a, b) && !BetterEdge(g, b, c) ==> !BetterEdge(g, a, c)
  {
  }

  /** What the search for the best edge begins with. */
  const NO_EDGE := Edge("", [], [], 0, [])

  function HeadIs(s: Symbol): Symbol -> bool {
    h => h == s
  }

  /** A complete edge that the search may select. */
  ghost predicate Eligible(g: Grammar, want: Symbol -> bool, cell: Cell, e: Edge) {
    e in cell && !e.Active() && want(e.head)
  }

  /** `best` is the outcome of searching the cell, beginning with `before`. */
  ghost predicate IsBest(g: Grammar, want: Symbol -> bool, cell: Cell, before: Edge, best: Edge) {
    && (best == before || (Eligible(g, want, cell, best) && BetterEdge(g, best, before)))
    && forall e {:trigger Eligible(g, want, cell, e)} :: Eligible(g, want, cell, e) ==> !BetterEdge(g, e, best)
  }

  /** No complete edge of the cell with the same head has matched more symbols. */
  ghost predicate IsLongest(cell: Cell, e: Edge) {
    forall x {:trigger x in cell} :: x in cell && !x.Active() && x.head == e.head ==> |x.matched| <= |e.matched|
  }

  lemma BestIsLongest(g: Grammar, cell: Cell, e: Edge)
    requires !g.IsTerminal(e.head) && IsBest(g, HeadIs(e.head), cell, NO_EDGE, e)
    ensures IsLongest(cell, e)
  {
    forall x | x in cell && !x.Active() && x.head == e.head
      ensures |x.matched| <= |e.matched|
    {
      assert Eligible(g, HeadIs(e.head), cell, x);
    }
  }

  lemma BestOneMore(g: Grammar, want: Symbol -> bool, cell: Cell, e: Edge, before: Edge, best: Edge)
    requires IsBest(g, want, cell, before, best)
    ensures IsBest(g, want, cell + [e], before, if !e.Active() && want(e.head) && BetterEdge(g, e, best) then e else best)
  {
    var now := if !e.Active() && want(e.head) && BetterEdge(g, e, best) then e else best;
    assert best != before ==> Eligible(g, want, cell, best);
    BetterEdgeIsAnOrder(g, e, best, before);
    BetterEdgeIsAnOrder(g, e, e, e);
    forall x | Eligible(g, want, cell + [e], x)
      ensures !BetterEdge(g, x, now)
    {
      BetterEdgeIsAnOrder(g, x, e, best);
      assert x == e || Eligible(g, want, cell, x);
    }
  }

  /** `best` is at place `j` of the cell, and beats whatever is wanted and comes before it. */
  ghost predicate FirstAt(g: Grammar, want: Symbol -> bool, cell: Cell, best: Edge, j: nat) {
    && j < |cell| && cell[j] == best && !best.Active() && want(best.head)
    && forall i {:trigger cell[i]} :: 0 <= i < j && !cell[i].Active() && want(cell[i].head) ==> BetterEdge(g, best, cell[i])
  }

  ghost predicate IsFirst(g: Grammar, want: Symbol -> bool, cell: Cell, best: Edge) {
    exists j: nat :: FirstAt(g, want, cell, best, j)
  }

  lemma FirstOneMore(g: Grammar, want: Symbol -> bool, cell: Cell, e: Edge, before: Edge, best: Edge)
    requires IsBest(g, want, cell, before, best) && (best == before || IsFirst(g, want, cell, best))
    ensures var now := if !e.Active() && want(e.head) && BetterEdge(g, e, best) then e else best;
            now == before || IsFirst(g, want, cell + [e], now)
  {
    if !e.Active() && want(e.head) && BetterEdge(g, e, best) {
      forall i | 0 <= i < |cell| && !cell[i].Active() && want(cell[i].head)
        ensures BetterEdge(g, e, cell[i])
      {
        assert Eligible(g, want, cell, cell[i]);
        BetterEdgeIsAnOrder(g, e, cell[i], best);
      }
      assert FirstAt(g, want, cell + [e], e, |cell|);
    } else if best != before {
      var j: nat :| FirstAt(g, want, cell, best, j);
      assert FirstAt(g, want, cell + [e], best, j);
    }
  }

  /** Searches a cell for the best complete edge whose head is wanted, if it beats `before`: the
      first, if there are several. */
  method PickBest(g: Grammar, want: Symbol -> bool, cell: Cell, before: Edge) returns (best: Edge)
    ensures IsBest(g, want, cell, before, best)
    ensures best == before || IsFirst(g, want, cell, best)
  {
    best := before;
    for j := 0 to |cell|
      invariant IsBest(g, want, cell[..j], before, best) && (best == before || IsFirst(g, want, cell[..j], best))
    {
      BestOneMore(g, want, cell[..j], cell[j], before, best);
      FirstOneMore(g, want, cell[..j], cell[j], before, best);
      assert cell[..j + 1] == cell[..j] + [cell[j]];
      if !cell[j].Active() && want(cell[j].head) && BetterEdge(g, cell[j], best) {
        best := cell[j];
      }
    }
    assert cell[..|cell|] == cell;
  }
}
