/** Covering a part of the chart by constituents, the highest first. */
module ChartCover {
  import opened Grammars
  import opened ChartIndex
  import opened ChartSpec
  import opened BestEdges
  import opened ChartEdges

  const ANY_HEAD: Symbol -> bool := s => true

  /** The cell holds no complete edge that the search would select. */
  ghost predicate Barren(g: Grammar, cell: Cell) {
    IsBest(g, ANY_HEAD, cell, NO_EDGE, NO_EDGE)
  }

  /** No cell of row `i` from `lo` to `hi`, exclusive, has an edge to select. */
  ghost predicate RowBarren(g: Grammar, cells: seq<Cell>, n: nat, i: int, lo: int, hi: int) {
    forall j {:trigger At(cells, n, i, j)} :: lo <= j < hi ==> Barren(g, At(cells, n, i, j))
  }

  /** `best`, of cell (i,y), is the best complete edge of the row from `lo` to `hi`, the first if there are several. */
  ghost predicate BestInRow(g: Grammar, cells: seq<Cell>, n: nat, i: int, lo: int, hi: int, y: int, best: Edge) {
    && lo <= y < hi && Eligible(g, ANY_HEAD, At(cells, n, i, y), best) && BetterEdge(g, best, NO_EDGE)
    && (forall j {:trigger At(cells, n, i, j)} :: lo <= j < hi ==> IsBest(g, ANY_HEAD, At(cells, n, i, j), best, best))
    && forall j {:trigger At(cells, n, i, j)} :: lo <= j < y ==> BeatsAll(g, At(cells, n, i, j), best)
  }

  ghost predicate BeatsAll(g: Grammar, cell: Cell, best: Edge) {
    forall e {:trigger Eligible(g, ANY_HEAD, cell, e)} :: Eligible(g, ANY_HEAD, cell, e) ==> BetterEdge(g, best, e)
  }

  /** Cell (x,y) is the highest one with a complete edge below (a,b), and holds the best of its row. */
  ghost predicate Highest(g: Grammar, cells: seq<Cell>, n: nat, a: int, b: int, x: int, y: int) {
    && 0 <= x <= a
    && (exists e :: BestUnder(g, cells, n, a, b, x, y, e))
    && forall i :: x < i <= a ==> BarrenUnder(g, cells, n, a, b, i)
  }

  ghost predicate BestUnder(g: Grammar, cells: seq<Cell>, n: nat, a: int, b: int, x: int, y: int, best: Edge) {
    BestInRow(g, cells, n, x, b, a + b - x + 1, y, best)
  }

  ghost predicate BarrenUnder(g: Grammar, cells: seq<Cell>, n: nat, a: int, b: int, i: int) {
    RowBarren(g, cells, n, i, b, a + b - i + 1)
  }

  /** The cells that may be chosen first for the part under (a,b). */
  type Choice = (int, int, int, int) -> bool

  ghost function HighestCell(g: Grammar, cells: seq<Cell>, n: nat): Choice {
    (a, b, x, y) => Highest(g, cells, n, a, b, x, y)
  }

  ghost predicate InRange(n: nat, a: int, b: int) {
    0 <= a && 0 <= b && a + b < n
  }

  /** `path` covers the words under (a,b): a first choice, and covers of what is left and right of it. */
  ghost predicate Covers(first: Choice, n: nat, a: int, b: int, path: seq<(int, int)>)
    decreases a
  {
    if !InRange(n, a, b) then path == [] else
    exists m :: CoversAt(first, n, a, b, path, m)
  }

  ghost predicate CoversAt(first: Choice, n: nat, a: int, b: int, path: seq<(int, int)>, m: int)
    requires InRange(n, a, b)
    decreases a, 0
  {
    && 0 <= m < |path|
    && var (x, y) := path[m];
       && first(a, b, x, y) && 0 <= x <= a && b <= y && x + y <= a + b
       && Covers(first, n, y - b - 1, b, path[..m])
       && Covers(first, n, a + b - x - y - 1, x + y + 1, path[m + 1..])
  }

  ghost predicate IsChoice(first: Choice, c: (int, int)) {
    exists a, b :: first(a, b, c.0, c.1)
  }

  /** MAIN RESULT: a greedy cover tiles the words under its cell from left to right, without gap
      or overlap. */
  lemma {:induction false} CoverTiles(first: Choice, n: nat, a: int, b: int, path: seq<(int, int)>)
    requires -1 <= a && 0 <= b && a + b < n && Covers(first, n, a, b, path)
    ensures Tiles(path, b, a + 1)
    ensures forall c :: c in path ==> IsChoice(first, c)
    decreases a
  {
    if a >= 0 {
      var m :| CoversAt(first, n, a, b, path, m);
      var (x, y) := path[m];
      CoverTiles(first, n, y - b - 1, b, path[..m]);
      CoverTiles(first, n, a + b - x - y - 1, x + y + 1, path[m + 1..]);
      JoinTiles(path[..m], (x, y), path[m + 1..], b, a + 1);
      assert path[..m] + [path[m]] + path[m + 1..] == path;
    }
  }

  lemma JoinTiles(left: seq<(int, int)>, c: (int, int), right: seq<(int, int)>, i: int, w: int)
    requires 0 <= c.0 && Tiles(left, i, c.1 - i) && Tiles(right, c.0 + c.1 + 1, i + w - c.0 - c.1 - 1) && i <= c.1
    ensures Tiles(left + [c] + right, i, w)
  {
    assert [c][..0] == [];
    TilesOfSum(left, [c], i, c.1 - i, c.0 + 1);
    TilesOfSum(left + [c], right, i, c.1 - i + c.0 + 1, i + w - c.0 - c.1 - 1);
  }

  lemma ChosenIsNotBarren(g: Grammar, cells: seq<Cell>, n: nat, c: (int, int))
    requires IsChoice(HighestCell(g, cells, n), c)
    ensures !Barren(g, At(cells, n, c.0, c.1))
  {
    var a, b :| HighestCell(g, cells, n)(a, b, c.0, c.1);
    assert Highest(g, cells, n, a, b, c.0, c.1);
  }

  lemma CoverIsOfConstituents(g: Grammar, cells: seq<Cell>, n: nat, path: seq<(int, int)>)
    requires n > 0 && Covers(HighestCell(g, cells, n), n, n - 1, 0, path)
    ensures forall c :: c in path ==> InTriangle(n, c.0, c.1) && !Barren(g, At(cells, n, c.0, c.1))
  {
    CoverTiles(HighestCell(g, cells, n), n, n - 1, 0, path);
    forall c | c in path
      ensures InTriangle(n, c.0, c.1) && !Barren(g, At(cells, n, c.0, c.1))
    {
      var j :| 0 <= j < |path| && path[j] == c;
      TilesAreInside(path, 0, n, j);
      ChosenIsNotBarren(g, cells, n, c);
    }
  }

  /** Joining two covers to the cell between them. */
  lemma CoverJoins(first: Choice, n: nat, a: int, b: int, x: int, y: int, left: seq<(int, int)>, right: seq<(int, int)>)
    requires InRange(n, a, b) && first(a, b, x, y) && 0 <= x <= a && b <= y && x + y <= a + b
    requires Covers(first, n, y - b - 1, b, left) && Covers(first, n, a + b - x - y - 1, x + y + 1, right)
    ensures Covers(first, n, a, b, left + [(x, y)] + right)
  {
    var path := left + [(x, y)] + right;
    assert path[..|left|] == left && path[|left| + 1..] == right;
    assert CoversAt(first, n, a, b, path, |left|);
  }

  /** What beats the best so far beats whatever was not better than that. */
  lemma BeatsRest(g: Grammar, cell: Cell, before: Edge, best: Edge)
    requires IsBest(g, ANY_HEAD, cell, before, before) && (best == before || BetterEdge(g, best, before))
    ensures IsBest(g, ANY_HEAD, cell, best, best) && (best != before ==> BeatsAll(g, cell, best))
  {
    forall e | Eligible(g, ANY_HEAD, cell, e)
      ensures !BetterEdge(g, e, best) && (best != before ==> BetterEdge(g, best, e))
    {
      BetterEdgeIsAnOrder(g, e, best, before);
      BetterEdgeIsAnOrder(g, best, e, before);
    }
  }

  lemma RowOneMore(g: Grammar, cells: seq<Cell>, n: nat, i: int, lo: int, j: int, y: int, before: Edge, best: Edge)
    requires lo <= j && IsBest(g, ANY_HEAD, At(cells, n, i, j), before, best)
    requires if before == NO_EDGE then RowBarren(g, cells, n, i, lo, j) else BestInRow(g, cells, n, i, lo, j, y, before)
    ensures if best == NO_EDGE then RowBarren(g, cells, n, i, lo, j + 1)
            else BestInRow(g, cells, n, i, lo, j + 1, if best != before then j else y, best)
  {
    BetterEdgeIsAnOrder(g, best, before, NO_EDGE);
    BetterEdgeIsAnOrder(g, NO_EDGE, NO_EDGE, NO_EDGE);
    forall c | lo <= c < j
      ensures IsBest(g, ANY_HEAD, At(cells, n, i, c), best, best)
      ensures best != before ==> BeatsAll(g, At(cells, n, i, c), best)
    {
      BeatsRest(g, At(cells, n, i, c), before, best);
    }
  }

  lemma ChosenUnder(g: Grammar, cells: seq<Cell>, n: nat, a: int, b: int, x: int, y: int, e: Edge)
    requires BestUnder(g, cells, n, a, b, x, y, e)
    ensures !BarrenUnder(g, cells, n, a, b, x)
  {
    assert !Barren(g, At(cells, n, x, y));
  }

  /** There is only one cell to choose. */
  lemma HighestIsUnique(g: Grammar, cells: seq<Cell>, n: nat, a: int, b: int, x: int, y: int, p: int, q: int)
    requires Highest(g, cells, n, a, b, x, y) && Highest(g, cells, n, a, b, p, q)
    ensures x == p && y == q
  {
    var e :| BestUnder(g, cells, n, a, b, x, y, e);
    var d :| BestUnder(g, cells, n, a, b, p, q, d);
    ChosenUnder(g, cells, n, a, b, x, y, e);
    ChosenUnder(g, cells, n, a, b, p, q, d);
    assert x == p;
    assert Eligible(g, ANY_HEAD, At(cells, n, x, y), e) && Eligible(g, ANY_HEAD, At(cells, n, x, q), d);
  }

  /** No cell below (a,b) has an edge to select: the search for the highest one fails. */
  ghost predicate NothingUnder(g: Grammar, cells: seq<Cell>, n: nat, a: int, b: int) {
    forall i {:trigger BarrenUnder(g, cells, n, a, b, i)} :: 0 <= i <= a ==> BarrenUnder(g, cells, n, a, b, i)
  }

  lemma HighestIsSomething(g: Grammar, cells: seq<Cell>, n: nat, a: int, b: int, x: int, y: int)
    requires Highest(g, cells, n, a, b, x, y)
    ensures !NothingUnder(g, cells, n, a, b)
  {
    var e :| BestUnder(g, cells, n, a, b, x, y, e);
    ChosenUnder(g, cells, n, a, b, x, y, e);
  }

  /** Covering the words under (a,b) never comes to a stretch of words in which there is nothing to choose. */
  ghost predicate Coverable(first: Choice, n: nat, a: int, b: int)
    decreases a
  {
    !InRange(n, a, b) || exists x, y :: CoverableAt(first, n, a, b, x, y)
  }

  ghost predicate CoverableAt(first: Choice, n: nat, a: int, b: int, x: int, y: int)
    decreases a, 0
  {
    && first(a, b, x, y) && 0 <= x <= a && b <= y && x + y <= a + b
    && Coverable(first, n, y - b - 1, b) && Coverable(first, n, a + b - x - y - 1, x + y + 1)
  }

  lemma CoverableByChoice(first: Choice, n: nat, a: int, b: int) returns (x: int, y: int)
    requires InRange(n, a, b) && Coverable(first, n, a, b)
    ensures CoverableAt(first, n, a, b, x, y)
  {
    x, y :| CoverableAt(first, n, a, b, x, y);
  }

  /** What is left and right of a cell below (a,b) can be covered. */
  ghost predicate BothCoverable(first: Choice, n: nat, a: int, b: int, x: int, y: int) {
    Coverable(first, n, y - b - 1, b) && Coverable(first, n, a + b - x - y - 1, x + y + 1)
  }

  /** Once the highest cell is known, only what is left and right of it matters. */
  lemma CoverableIff(g: Grammar, cells: seq<Cell>, n: nat, a: int, b: int, x: int, y: int)
    requires InRange(n, a, b) && HighestCell(g, cells, n)(a, b, x, y) && 0 <= x <= a && b <= y && x + y <= a + b
    ensures Coverable(HighestCell(g, cells, n), n, a, b) <==> BothCoverable(HighestCell(g, cells, n), n, a, b, x, y)
  {
    var first := HighestCell(g, cells, n);
    if Coverable(first, n, a, b) {
      var p, q := CoverableByChoice(first, n, a, b);
      HighestIsUnique(g, cells, n, a, b, x, y, p, q);
    }
    if BothCoverable(first, n, a, b, x, y) {
      assert CoverableAt(first, n, a, b, x, y);
    }
  }

  lemma NotCoverable(g: Grammar, cells: seq<Cell>, n: nat, a: int, b: int)
    requires InRange(n, a, b) && NothingUnder(g, cells, n, a, b)
    ensures !Coverable(HighestCell(g, cells, n), n, a, b)
  {
    if Coverable(HighestCell(g, cells, n), n, a, b) {
      var x, y := CoverableByChoice(HighestCell(g, cells, n), n, a, b);
      HighestIsSomething(g, cells, n, a, b, x, y);
    }
  }

  /** A symbol that the search passes over: a terminal no more specific than a bare tag. */
  predicate IsBare(g: Grammar, h: Symbol) {
    g.IsTerminal(h) && g.Specificity(h) == 2
  }

  lemma BareIsNotSelected(g: Grammar, e: Edge)
    requires "" !in g.nonterminal && g.start in g.nonterminal
    ensures BetterEdge(g, e, NO_EDGE) <==> !IsBare(g, e.head)
  {
    assert g.Specificity("") == 2;
  }

  /** A cell has nothing to choose exactly when the grammar derives only bare tags from its words. */
  lemma BarrenIff(g: Grammar, lex: seq<seq<Symbol>>, cells: seq<Cell>, n: nat, rank: Symbol -> nat, top: nat, k: nat, i: nat)
    requires WellFormed(g) && Grammars.Ranked(g, rank, top) && ChartOk(SyntaxOf(g), lex, cells, n) && InTriangle(n, k, i)
    ensures Barren(g, At(cells, n, k, i)) <==> forall h :: ConstituentDerives(SyntaxOf(g), lex, h, k, i) ==> IsBare(g, h)
  {
    SyntaxIsWellFormed(g, rank, top);
    forall h
      ensures HasConstituent(cells, n, k, i, h) <==> ConstituentDerives(SyntaxOf(g), lex, h, k, i)
    {
      ChartIsSoundAndComplete(SyntaxOf(g), lex, cells, n, rank, k, i, h);
    }
    forall e | Eligible(g, ANY_HEAD, At(cells, n, k, i), e)
      ensures BetterEdge(g, e, NO_EDGE) <==> !IsBare(g, e.head)
      ensures HasConstituent(cells, n, k, i, e.head)
    {
      BareIsNotSelected(g, e);
    }
    if h :| ConstituentDerives(SyntaxOf(g), lex, h, k, i) && !IsBare(g, h) {
      var e :| e in At(cells, n, k, i) && !e.Active() && e.head == h;
      assert Eligible(g, ANY_HEAD, At(cells, n, k, i), e);
    }
  }

  /** All that the grammar derives from words `b` to `a+b`, or from some of them side by side, are bare tags. */
  ghost predicate OnlyBare(g: Grammar, lex: seq<seq<Symbol>>, a: int, b: int) {
    forall k: nat, i: nat, h {:trigger ConstituentDerives(SyntaxOf(g), lex, h, k, i)} ::
      k <= a && b <= i && k + i <= a + b && ConstituentDerives(SyntaxOf(g), lex, h, k, i) ==> IsBare(g, h)
  }

  /** MAIN RESULT: the search below (a,b) fails exactly when the grammar derives nothing but bare
      tags from the words there. */
  lemma NothingUnderIff(g: Grammar, lex: seq<seq<Symbol>>, cells: seq<Cell>, n: nat, rank: Symbol -> nat, top: nat, a: nat, b: nat)
    requires WellFormed(g) && Grammars.Ranked(g, rank, top) && ChartOk(SyntaxOf(g), lex, cells, n) && a + b < n
    ensures NothingUnder(g, cells, n, a, b) <==> OnlyBare(g, lex, a, b)
  {
    forall k: nat, i: nat | k <= a && b <= i && k + i <= a + b
      ensures Barren(g, At(cells, n, k, i)) <==> forall h :: ConstituentDerives(SyntaxOf(g), lex, h, k, i) ==> IsBare(g, h)
    {
      BarrenIff(g, lex, cells, n, rank, top, k, i);
    }
    if NothingUnder(g, cells, n, a, b) {
      forall k: nat, i: nat, h | k <= a && b <= i && k + i <= a + b && ConstituentDerives(SyntaxOf(g), lex, h, k, i)
        ensures IsBare(g, h)
      {
        assert BarrenUnder(g, cells, n, a, b, k);
        assert Barren(g, At(cells, n, k, i));
      }
    }
    if OnlyBare(g, lex, a, b) {
      forall k: nat, i: nat | k <= a && b <= i && k + i <= a + b
        ensures Barren(g, At(cells, n, k, i))
      {
      }
    }
  }

  lemma {:induction false} BestExists(g: Grammar, want: Symbol -> bool, cell: Cell, before: Edge) returns (best: Edge)
    ensures IsBest(g, want, cell, before, best)
  {
    best := before;
    if cell != [] {
      var m := |cell| - 1;
      best := BestExists(g, want, cell[..m], before);
      BestOneMore(g, want, cell[..m], cell[m], before, best);
      assert cell == cell[..m] + [cell[m]];
      best := if !cell[m].Active() && want(cell[m].head) && BetterEdge(g, cell[m], best) then cell[m] else best;
    }
  }

  lemma {:induction false} RowBestExists(g: Grammar, cells: seq<Cell>, n: nat, i: int, lo: int, hi: int) returns (y: int, best: Edge)
    requires lo <= hi
    ensures if best == NO_EDGE then RowBarren(g, cells, n, i, lo, hi) else BestInRow(g, cells, n, i, lo, hi, y, best)
    decreases hi - lo
  {
    y, best := 0, NO_EDGE;
    if lo < hi {
      var before;
      y, before := RowBestExists(g, cells, n, i, lo, hi - 1);
      best := BestExists(g, ANY_HEAD, At(cells, n, i, hi - 1), before);
      RowOneMore(g, cells, n, i, lo, hi - 1, y, before, best);
      y := if best != before then hi - 1 else y;
    }
  }

  /** If the word at `b` has something to choose, there is a highest cell below (a,b). */
  lemma {:induction false} HighestExists(g: Grammar, cells: seq<Cell>, n: nat, a: int, b: int, i: int) returns (x: int, y: int)
    requires 0 <= i <= a && !Barren(g, At(cells, n, 0, b))
    requires forall r :: i < r <= a ==> BarrenUnder(g, cells, n, a, b, r)
    ensures Highest(g, cells, n, a, b, x, y) && 0 <= x <= a && b <= y && x + y <= a + b
    decreases i
  {
    var best;
    x := i;
    y, best := RowBestExists(g, cells, n, i, b, a + b - i + 1);
    if best == NO_EDGE {
      assert BarrenUnder(g, cells, n, a, b, i);
      x, y := HighestExists(g, cells, n, a, b, i - 1);
    } else {
      assert BestUnder(g, cells, n, a, b, i, y, best);
    }
  }

  /** Words that have each something more specific than a bare tag can always be covered. */
  lemma {:induction false} SpecificIsCoverable(g: Grammar, cells: seq<Cell>, n: nat, a: int, b: int)
    requires forall j :: 0 <= j < n ==> !Barren(g, At(cells, n, 0, j))
    ensures Coverable(HighestCell(g, cells, n), n, a, b)
    decreases a
  {
    if InRange(n, a, b) {
      var x, y := HighestExists(g, cells, n, a, b, a);
      SpecificIsCoverable(g, cells, n, y - b - 1, b);
      SpecificIsCoverable(g, cells, n, a + b - x - y - 1, x + y + 1);
      CoverableIff(g, cells, n, a, b, x, y);
    }
  }

  /** A valid root, or a cover to make one up from. */
  ghost predicate CanRoot(g: Grammar, cells: seq<Cell>, n: nat) {
    !IsBest(g, MayBeTop(g), At(cells, n, n - 1, 0), NO_EDGE, NO_EDGE) || Coverable(HighestCell(g, cells, n), n, n - 1, 0)
  }

  /** The head of the best complete edge of a cell. */
  ghost predicate BestHeadIs(g: Grammar, cell: Cell, s: Symbol) {
    exists e :: IsBest(g, ANY_HEAD, cell, NO_EDGE, e) && e != NO_EDGE && e.head == s
  }

  /** The root made up when there is no valid one. */
  ghost predicate MadeUpRoot(g: Grammar, cells: seq<Cell>, n: nat, root: Edge) {
    && root.head == g.start && root.gov == NOGOV && root.right == []
    && Covers(HighestCell(g, cells, n), n, n - 1, 0, root.backpath) && |root.matched| == |root.backpath|
    && forall j {:trigger root.matched[j]} {:trigger root.backpath[j]} :: 0 <= j < |root.matched| ==>
         BestHeadIs(g, At(cells, n, root.backpath[j].0, root.backpath[j].1), root.matched[j])
  }

  function MayBeTop(g: Grammar): Symbol -> bool {
    s => s !in g.notop
  }

  lemma BestHeadIsProper(g: Grammar, cell: Cell, s: Symbol)
    requires "" !in g.nonterminal && g.start in g.nonterminal && BestHeadIs(g, cell, s)
    ensures s != "" && exists e :: Eligible(g, ANY_HEAD, cell, e) && e.head == s
    ensures s == g.start && g.start !in g.notop ==> !IsBest(g, MayBeTop(g), cell, NO_EDGE, NO_EDGE)
  {
    var e :| IsBest(g, ANY_HEAD, cell, NO_EDGE, e) && e != NO_EDGE && e.head == s;
    assert Eligible(g, ANY_HEAD, cell, e);
    assert g.Specificity("") == 2;
    if s == g.start && g.start !in g.notop {
      assert Eligible(g, MayBeTop(g), cell, e);
    }
  }

  lemma MadeUpRootIsFictitious(g: Grammar, cells: seq<Cell>, n: nat, root: Edge)
    requires n > 0 && WellFormed(g) && MadeUpRoot(g, cells, n, root)
    requires IsBest(g, MayBeTop(g), At(cells, n, n - 1, 0), NO_EDGE, NO_EDGE)
    ensures Fictitious(g, cells, n, n - 1, 0, root)
  {
    CoverTiles(HighestCell(g, cells, n), n, n - 1, 0, root.backpath);
    forall j | 0 <= j < |root.matched|
      ensures HasConstituent(cells, n, root.backpath[j].0, root.backpath[j].1, root.matched[j])
      ensures root.matched[j] != "" && (|root.matched| == 1 ==> root.matched[j] != g.start)
    {
      TilesAreInside(root.backpath, 0, n, j);
      BestHeadIsProper(g, At(cells, n, root.backpath[j].0, root.backpath[j].1), root.matched[j]);
    }
  }

  /** What parsing does to the filled chart: nothing if it has a valid root, else it adds one. */
  ghost predicate Rooted(g: Grammar, filled: seq<Cell>, table: seq<Cell>, n: nat) {
    if IsBest(g, MayBeTop(g), At(filled, n, n - 1, 0), NO_EDGE, NO_EDGE)
    then exists root :: RootAdded(g, filled, table, n, root)
    else table == filled
  }

  ghost predicate RootAdded(g: Grammar, filled: seq<Cell>, table: seq<Cell>, n: nat, root: Edge) {
    && MadeUpRoot(g, filled, n, root) && n > 0
    && var at := Index(n, n - 1, 0);
       0 <= at < |filled| && table == filled[at := filled[at] + [root]]
  }
}
