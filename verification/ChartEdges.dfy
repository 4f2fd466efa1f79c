/** What the complete edges of a filled chart are made of: cells that tile the words of theirs. */
module ChartEdges {
  import opened Grammars
  import opened ChartIndex
  import opened ChartSpec

  /** The cells cover the words from `i` on, `w` of them, without gap or overlap. */
  predicate Tiles(path: seq<(int, int)>, i: int, w: int) {
    if path == [] then w == 0 else
    var (p, q) := path[|path| - 1];
    0 <= p < w && q == i + w - p - 1 && Tiles(path[..|path| - 1], i, w - p - 1)
  }

  lemma {:induction false} TilesOfSum(a: seq<(int, int)>, b: seq<(int, int)>, i: int, v: int, w: int)
    requires Tiles(a, i, v) && Tiles(b, i + v, w)
    ensures Tiles(a + b, i, v + w)
  {
    if b == [] {
      assert a + b == a;
    } else {
      var m := |b| - 1;
      assert (a + b)[..|a + b| - 1] == a + b[..m];
      TilesOfSum(a, b[..m], i, v, w - b[m].0 - 1);
    }
  }

  lemma {:induction false} TilesAreInside(path: seq<(int, int)>, i: int, w: int, j: nat)
    requires Tiles(path, i, w) && j < |path|
    ensures 0 <= path[j].0 < w && i <= path[j].1 && path[j].0 + path[j].1 < i + w
    ensures |path| > 1 ==> path[j].0 < w - 1
    ensures |path| == 1 ==> path[j] == (w - 1, i)
    ensures |path| <= w
  {
    var m := |path| - 1;
    assert path[..m] != [] ==> w - path[m].0 - 1 > 0;
    if j < m {
      TilesAreInside(path[..m], i, w - path[m].0 - 1, j);
    } else if m > 0 {
      TilesAreInside(path[..m], i, w - path[m].0 - 1, 0);
    }
  }

  /** The symbols matched have been found in the cells of the backpath, which tile those of (k,i). */
  ghost predicate Laid(g: Syntax, cells: seq<Cell>, n: nat, k: nat, i: nat, e: Edge) {
    && |e.matched| == |e.backpath| > 0 && Tiles(e.backpath, i, k + 1)
    && forall j {:trigger e.matched[j]} {:trigger e.backpath[j]} :: 0 <= j < |e.matched| ==>
         HasMatch(g, At(cells, n, e.backpath[j].0, e.backpath[j].1), e.matched[j])
  }

  ghost predicate OfRule(g: Syntax, r: Rule, e: Edge) {
    r in g.rules && r.head == e.head && r.right == e.matched + e.right && r.gov == e.gov
  }

  /** `e` is an advanced edge of some rule. */
  ghost predicate RuleEdge(g: Syntax, cells: seq<Cell>, n: nat, k: nat, i: nat, e: Edge) {
    Laid(g, cells, n, k, i, e) && exists r :: OfRule(g, r, e)
  }

  /** All edges except readings belong to rules, and what they matched tiles the words of their cell. */
  lemma {:induction false} EdgesAreLaid(g: Syntax, lex: seq<seq<Symbol>>, cells: seq<Cell>, n: nat, k: nat, i: nat, e: Edge)
    requires g.WellFormed() && ChartOk(g, lex, cells, n) && InTriangle(n, k, i)
    requires forall r, found :: g.starts(r, found) ==> g.matches(r.right[0], found)
    requires e in At(cells, n, k, i) && !IsReading(lex, k, i, e)
    ensures RuleEdge(g, cells, n, k, i, e)
    decreases k
  {
    assert CellOk(g, lex, cells, n, k, i);
    if StartedIn(g, At(cells, n, k, i), k, i, e) {
      var r, y :| StartsOn(g, At(cells, n, k, i), k, i, e, r, y);
      StartedIsLaid(g, cells, n, k, i, r, y);
    } else {
      var a, x :| ShiftedFrom(g, cells, n, k, i, e, a, x);
      EdgesAreLaid(g, lex, cells, n, a, i, x);
      ShiftedIsLaid(g, cells, n, k, i, a, x);
    }
  }

  lemma StartedIsLaid(g: Syntax, cells: seq<Cell>, n: nat, k: nat, i: nat, r: Rule, y: Edge)
    requires g.WellFormed() && y in At(cells, n, k, i) && !y.Active() && r.right != [] && g.starts(r, y.head)
    requires g.matches(r.right[0], y.head)
    ensures RuleEdge(g, cells, n, k, i, Started(r, k, i))
  {
    var e := Started(r, k, i);
    assert HasMatch(g, At(cells, n, k, i), e.matched[0]);
    assert e.backpath[..0] == [];
    assert e.matched + e.right == r.right;
    assert OfRule(g, r, e);
  }

  lemma ShiftedIsLaid(g: Syntax, cells: seq<Cell>, n: nat, k: nat, i: nat, a: nat, x: Edge)
    requires RuleEdge(g, cells, n, a, i, x) && a < k && x.Active()
    requires HasMatch(g, At(cells, n, k - a - 1, i + a + 1), x.right[0])
    ensures RuleEdge(g, cells, n, k, i, x.Shift(k - a - 1, i + a + 1))
  {
    var e := x.Shift(k - a - 1, i + a + 1);
    assert e.backpath[..|x.backpath|] == x.backpath;
    var r :| OfRule(g, r, x);
    assert x.right == [x.right[0]] + x.right[1..];
    assert OfRule(g, r, e);
  }

  /** The root that is made up when no constituent covers the sentence. */
  ghost predicate Fictitious(g: Grammar, cells: seq<Cell>, n: nat, k: nat, i: nat, e: Edge) {
    && e.head == g.start && e.gov == NOGOV
    && |e.matched| == |e.backpath| > 0 && Tiles(e.backpath, i, k + 1) && Covered(cells, n, e)
    && (|e.matched| == 1 ==> e.matched[0] != g.start) && "" !in e.matched
  }

  /** The symbols matched are themselves constituents of the cells of the backpath. */
  ghost predicate Covered(cells: seq<Cell>, n: nat, e: Edge)
    requires |e.matched| == |e.backpath|
  {
    forall j {:trigger e.matched[j]} {:trigger e.backpath[j]} :: 0 <= j < |e.matched| ==>
      HasConstituent(cells, n, e.backpath[j].0, e.backpath[j].1, e.matched[j])
  }

  ghost predicate IsExplained(g: Grammar, lex: seq<seq<Symbol>>, cells: seq<Cell>, n: nat, k: nat, i: nat, e: Edge) {
    || IsReading(lex, k, i, e)
    || RuleEdge(SyntaxOf(g), cells, n, k, i, e)
    || (k == n - 1 && Fictitious(g, cells, n, k, i, e))
  }

  /** Every complete edge of a parsed chart is a reading, a rule whose symbols have all been found
      side by side, or the made-up root. */
  ghost predicate Explained(g: Grammar, lex: seq<seq<Symbol>>, cells: seq<Cell>, n: nat) {
    && |lex| == n
    && forall k, i, e {:trigger IsExplained(g, lex, cells, n, k, i, e)} ::
         InTriangle(n, k, i) && e in At(cells, n, k, i) && !e.Active() ==> IsExplained(g, lex, cells, n, k, i, e)
  }

  lemma ChartIsExplained(g: Grammar, lex: seq<seq<Symbol>>, cells: seq<Cell>, n: nat)
    requires WellFormed(g) && ChartOk(SyntaxOf(g), lex, cells, n)
    ensures Explained(g, lex, cells, n)
  {
    StartsOnlyMatches(g);
    forall k, i, e | InTriangle(n, k, i) && e in At(cells, n, k, i) && !e.Active()
      ensures IsExplained(g, lex, cells, n, k, i, e)
    {
      if !IsReading(lex, k, i, e) {
        EdgesAreLaid(SyntaxOf(g), lex, cells, n, k, i, e);
      }
    }
  }

  lemma StartsOnlyMatches(g: Grammar)
    requires WellFormed(g)
    ensures SyntaxOf(g).WellFormed()
    ensures forall r, found :: SyntaxOf(g).starts(r, found) ==> SyntaxOf(g).matches(r.right[0], found)
  {
  }

  /** Adding the made-up root to the highest cell keeps everything explained. */
  lemma RootIsExplained(g: Grammar, lex: seq<seq<Symbol>>, cells: seq<Cell>, n: nat, root: Edge)
    requires n > 0 && Explained(g, lex, cells, n) && 0 <= Index(n, n - 1, 0) < |cells|
    requires Fictitious(g, cells, n, n - 1, 0, root)
    ensures var at := Index(n, n - 1, 0);
            Explained(g, lex, cells[at := cells[at] + [root]], n)
  {
    var at := Index(n, n - 1, 0);
    var more := cells[at := cells[at] + [root]];
    forall k, i, e | InTriangle(n, k, i) && e in At(more, n, k, i) && !e.Active()
      ensures IsExplained(g, lex, more, n, k, i, e)
    {
      if Index(n, k, i) == at {
        IndexIsInjective(n, k, i, n - 1, 0);
      }
      CellsGrow(n, cells, more, at, root);
      if e in At(cells, n, k, i) {
        assert IsExplained(g, lex, cells, n, k, i, e);
        if Laid(SyntaxOf(g), cells, n, k, i, e) {
          StaysLaid(SyntaxOf(g), cells, more, n, k, i, e);
        }
        if |e.matched| == |e.backpath| && Covered(cells, n, e) {
          StaysCovered(cells, more, n, e);
        }
      } else {
        StaysCovered(cells, more, n, e);
      }
    }
  }

  ghost predicate Larger(n: nat, cells: seq<Cell>, more: seq<Cell>) {
    forall p, q, y {:trigger y in At(more, n, p, q)} {:trigger y in At(cells, n, p, q)} ::
      y in At(cells, n, p, q) ==> y in At(more, n, p, q)
  }

  lemma CellsGrow(n: nat, cells: seq<Cell>, more: seq<Cell>, at: nat, e: Edge)
    requires at < |cells| && more == cells[at := cells[at] + [e]]
    ensures Larger(n, cells, more)
  {
    forall p, q, y | y in At(cells, n, p, q)
      ensures y in At(more, n, p, q)
    {
      if Index(n, p, q) != at {
        assert At(more, n, p, q) == At(cells, n, p, q);
      }
    }
  }

  lemma StaysLaid(g: Syntax, cells: seq<Cell>, more: seq<Cell>, n: nat, k: nat, i: nat, e: Edge)
    requires Laid(g, cells, n, k, i, e)
    requires Larger(n, cells, more)
    ensures Laid(g, more, n, k, i, e)
  {
    forall j | 0 <= j < |e.matched|
      ensures HasMatch(g, At(more, n, e.backpath[j].0, e.backpath[j].1), e.matched[j])
    {
      var y :| y in At(cells, n, e.backpath[j].0, e.backpath[j].1) && !y.Active() && g.matches(e.matched[j], y.head);
      assert y in At(more, n, e.backpath[j].0, e.backpath[j].1);
    }
  }

  lemma StaysCovered(cells: seq<Cell>, more: seq<Cell>, n: nat, e: Edge)
    requires |e.matched| == |e.backpath| && Covered(cells, n, e) && Larger(n, cells, more)
    ensures Covered(more, n, e)
  {
    forall j | 0 <= j < |e.matched|
      ensures HasConstituent(more, n, e.backpath[j].0, e.backpath[j].1, e.matched[j])
    {
      var y :| y in At(cells, n, e.backpath[j].0, e.backpath[j].1) && !y.Active() && y.head == e.matched[j];
      assert y in At(more, n, e.backpath[j].0, e.backpath[j].1);
    }
  }
}
