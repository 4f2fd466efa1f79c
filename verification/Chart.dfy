/** The bottom-up chart parser. */
module Charts {
  import opened Grammars
  import opened ChartIndex
  import opened ChartSpec
  import opened FindRules
  import opened ChartFill
  import opened BestEdges
  import opened ChartEdges
  import opened ChartCover
  import opened ParseTrees
  import opened TreeSteps
  import opened Preferred
  import opened SyntaxTrees

  class Chart {
    const gram: Grammar
    var table: seq<Cell>
    var size: nat

    constructor (g: Grammar)
      ensures gram == g
    {
      gram := g;
      table, size := [], 0;
    }

    /** Adds an edge to a cell and, if it is complete, the edges of the rules that it starts. */
    method AddEdge(cell: Cell, e: Edge, k: nat, i: nat, ghost base: seq<Edge>, ghost rank: Symbol -> nat, ghost top: nat)
      returns (more: Cell)
      requires WellFormed(gram) && Ranked(gram, rank, top) && CellFrom(SyntaxOf(gram), k, i, base, cell)
      ensures CellFrom(SyntaxOf(gram), k, i, base + [e], more)
    {
      var added := [];
      if !e.Active() {
        added := FindAllRules(gram, e.head, k, i, rank, top);
      }
      CellFromOneMore(SyntaxOf(gram), k, i, base, cell, e, added);
      more := cell + [e] + added;
    }

    /** The cell of word `j`: three edges per reading, each completed at once. */
    method LoadWord(w: ChartWord, j: nat, ghost rank: Symbol -> nat, ghost top: nat) returns (cell: Cell)
      requires WellFormed(gram) && Ranked(gram, rank, top)
      ensures CellFrom(SyntaxOf(gram), 0, j, LexEdges(WordHeads(w, w.readings)), cell)
    {
      cell := [];
      ghost var base := [];
      EmptyCell(SyntaxOf(gram), 0, j);
      for a := 0 to |w.readings|
        invariant base == LexEdges(WordHeads(w, w.readings[..a])) && CellFrom(SyntaxOf(gram), 0, j, base, cell)
      {
        var heads := ReadingHeads(w, w.readings[a]);
        cell := AddEdge(cell, LexEdge(heads[0]), 0, j, base, rank, top);
        cell := AddEdge(cell, LexEdge(heads[1]), 0, j, base + [LexEdge(heads[0])], rank, top);
        cell := AddEdge(cell, LexEdge(heads[2]), 0, j, base + [LexEdge(heads[0])] + [LexEdge(heads[1])], rank, top);
        OneMoreReading(w, w.readings, a);
        base := base + [LexEdge(heads[0])] + [LexEdge(heads[1])] + [LexEdge(heads[2])];
      }
      assert w.readings[..|w.readings|] == w.readings;
    }

    /** Allocates the table and fills its lowest row. */
    method LoadSentence(ws: seq<ChartWord>, ghost rank: Symbol -> nat, ghost top: nat)
      requires WellFormed(gram) && Ranked(gram, rank, top)
      modifies this
      ensures size == |ws| && |table| == (1 + size) * size / 2 + size
      ensures FilledTo(SyntaxOf(gram), Lexicon(ws), table, size, size)
    {
      var n := |ws|;
      table := seq((1 + n) * n / 2, i => []);
      for j := 0 to n
        invariant |table| == (1 + n) * n / 2 + j
        invariant FilledTo(SyntaxOf(gram), Lexicon(ws), table, n, j)
      {
        var cell := LoadWord(ws[j], j, rank, top);
        var at := Index(size, 0, j);
        assert at == j == Index(n, 0, j);
        LexIsBase(SyntaxOf(gram), ws, table[..j], n, j);
        assert IsFilled(SyntaxOf(gram), Lexicon(ws), table[..j], n, 0, j, cell);
        FilledOneMore(SyntaxOf(gram), Lexicon(ws), table, n, 0, j, cell);
        table := table[..at] + [cell] + table[at..];
      }
      size := n;
    }

    /** Whether some complete edge of a cell is matched by `s`. */
    method CanExtend(s: Symbol, cell: Cell) returns (b: bool)
      ensures b == HasMatch(SyntaxOf(gram), cell, s)
    {
      b := false;
      var j := 0;
      while !b && j < |cell|
        invariant 0 <= j <= |cell| && b == HasMatch(SyntaxOf(gram), cell[..j], s)
      {
        b := !cell[j].Active() && gram.CheckMatch(s, cell[j].head);
        HasMatchOneMore(SyntaxOf(gram), cell, s, j);
        j := j + 1;
      }
      if b {
        HasMatchInMore(SyntaxOf(gram), cell, s, j);
      } else {
        assert cell[..|cell|] == cell;
      }
    }

    /** Advances an edge, if it can be, over a constituent of the next cell, at (p,q). */
    method ShiftEdge(x: Edge, next: Cell, p: int, q: int, cell: Cell, k: nat, i: nat, ghost base: seq<Edge>,
                     ghost rank: Symbol -> nat, ghost top: nat)
      returns (more: Cell)
      requires WellFormed(gram) && Ranked(gram, rank, top) && CellFrom(SyntaxOf(gram), k, i, base, cell)
      ensures CellFrom(SyntaxOf(gram), k, i, base + AdvanceOf(SyntaxOf(gram), next, x, p, q), more)
    {
      more := cell;
      assert base + [] == base;
      if x.Active() {
        var able := CanExtend(x.right[0], next);
        if able {
          more := AddEdge(cell, x.Shift(p, q), k, i, base, rank, top);
        }
      }
    }

    /** Advances the edges of one cell over the constituents of the next. */
    method ShiftEdges(es: Cell, next: Cell, k: nat, i: nat, a: nat, cell: Cell, ghost base: seq<Edge>,
                      ghost rank: Symbol -> nat, ghost top: nat)
      returns (more: Cell)
      requires a < k && WellFormed(gram) && Ranked(gram, rank, top) && CellFrom(SyntaxOf(gram), k, i, base, cell)
      ensures CellFrom(SyntaxOf(gram), k, i, base + AdvanceAll(SyntaxOf(gram), next, es, k - a - 1, i + a + 1), more)
    {
      more := cell;
      ghost var g := SyntaxOf(gram);
      var p, q := k - a - 1, i + a + 1;
      ghost var added, all := [], base;
      for j := 0 to |es|
        invariant added == AdvanceAll(g, next, es[..j], p, q)
        invariant all == base + added && CellFrom(g, k, i, all, more)
      {
        AdvanceOneMore(g, next, es, p, q, j);
        ghost var e := AdvanceOf(g, next, es[j], p, q);
        more := ShiftEdge(es[j], next, p, q, more, k, i, all, rank, top);
        added, all := added + e, all + e;
      }
      assert es[..|es|] == es;
    }

    /** Advances into cell (k,i) the edges of cell (a,i) over constituents of the cell next to it. */
    method AdvanceFrom(k: nat, i: nat, a: nat, cell: Cell, ghost cells: seq<Cell>, ghost base: seq<Edge>,
                       ghost rank: Symbol -> nat, ghost top: nat)
      returns (more: Cell)
      requires WellFormed(gram) && Ranked(gram, rank, top) && CellFrom(SyntaxOf(gram), k, i, base, cell)
      requires a < k && InTriangle(size, k, i) && 0 <= Index(size, k, i) <= |table| && cells == table[..Index(size, k, i)]
      ensures var es, nx := At(cells, size, a, i), At(cells, size, k - a - 1, i + a + 1);
              CellFrom(SyntaxOf(gram), k, i, base + AdvanceAll(SyntaxOf(gram), nx, es, k - a - 1, i + a + 1), more)
    {
      LowerCells(table, size, k, i, a);
      var es, nx := table[Index(size, a, i)], table[Index(size, k - a - 1, i + a + 1)];
      more := ShiftEdges(es, nx, k, i, a, cell, base, rank, top);
    }

    /** The contents of cell (k,i), made of the cells below it, which are final. */
    method FillCell(k: nat, i: nat, ghost lex: seq<seq<Symbol>>, ghost rank: Symbol -> nat, ghost top: nat)
      returns (cell: Cell)
      requires WellFormed(gram) && Ranked(gram, rank, top)
      requires 0 < k && InTriangle(size, k, i) && 0 <= Index(size, k, i) <= |table|
      ensures IsFilled(SyntaxOf(gram), lex, table[..Index(size, k, i)], size, k, i, cell)
    {
      cell := [];
      ghost var base: seq<Edge> := [];
      EmptyCell(SyntaxOf(gram), k, i);
      ghost var cells := table[..Index(size, k, i)];
      ghost var left: seq<Cell>, next: seq<Cell> := [], [];
      for a := 0 to k
        invariant Filling(SyntaxOf(gram), cells, size, k, i, a, left, next, base)
        invariant CellFrom(SyntaxOf(gram), k, i, base, cell)
      {
        cell := AdvanceFrom(k, i, a, cell, cells, base, rank, top);
        left, next, base := FillingOneMore(SyntaxOf(gram), cells, size, k, i, a, left, next, base);
      }
      FillingIsDone(SyntaxOf(gram), lex, cells, size, k, i, left, next, base);
    }

    /** Fills row `k`, inserting every cell at its place. */
    method FillRow(k: nat, ghost lex: seq<seq<Symbol>>, ghost rank: Symbol -> nat, ghost top: nat)
      requires WellFormed(gram) && Ranked(gram, rank, top) && 0 < k < size
      requires 0 <= Index(size, k, 0) <= |table| && FilledTo(SyntaxOf(gram), lex, table, size, Index(size, k, 0))
      modifies this`table
      ensures |table| == old(|table|) + size - k && Index(size, k + 1, 0) == Index(size, k, 0) + size - k
      ensures FilledTo(SyntaxOf(gram), lex, table, size, Index(size, k + 1, 0))
    {
      for i := 0 to size - k
        invariant |table| == old(|table|) + i && Index(size, k, i) == Index(size, k, 0) + i
        invariant FilledTo(SyntaxOf(gram), lex, table, size, Index(size, k, i))
      {
        var cell := FillCell(k, i, lex, rank, top);
        var at := Index(size, k, i);
        FilledOneMore(SyntaxOf(gram), lex, table, size, k, i, cell);
        table := table[..at] + [cell] + table[at..];
        assert Index(size, k, i + 1) == at + 1;
      }
      NextRow(size, k);
    }

    /** Fills the rows above the lowest. The chart then holds exactly the edges it should. */
    method FillRows(ghost lex: seq<seq<Symbol>>, ghost rank: Symbol -> nat, ghost top: nat)
      requires WellFormed(gram) && Ranked(gram, rank, top) && 0 < size == |lex|
      requires |table| >= size && FilledTo(SyntaxOf(gram), lex, table, size, size)
      modifies this`table
      ensures ChartOk(SyntaxOf(gram), lex, table, size) && (1 + size) * size / 2 <= |table|
    {
      TableSize(size);
      NextRow(size, 0);
      for k := 1 to size
        invariant size <= Index(size, k, 0) <= |table| && FilledTo(SyntaxOf(gram), lex, table, size, Index(size, k, 0))
      {
        FillRow(k, lex, rank, top);
      }
      FilledIsOk(SyntaxOf(gram), lex, table, size);
    }

    /** The best complete edge of row `i` from `lo` to `hi`, if any, and where it is. */
    method PickInRow(i: nat, lo: nat, hi: nat) returns (y: int, best: Edge)
      requires lo <= hi && i + hi <= size && (1 + size) * size / 2 <= |table|
      ensures if best == NO_EDGE then RowBarren(gram, table, size, i, lo, hi)
              else BestInRow(gram, table, size, i, lo, hi, y, best)
    {
      y, best := 0, NO_EDGE;
      for j := lo to hi
        invariant if best == NO_EDGE then RowBarren(gram, table, size, i, lo, j)
                  else BestInRow(gram, table, size, i, lo, j, y, best)
      {
        IndexInTable(size, i, j);
        var e := PickBest(gram, ANY_HEAD, table[Index(size, i, j)], best);
        RowOneMore(gram, table, size, i, lo, j, y, best, e);
        if e != best {
          y := j;
        }
        best := e;
      }
    }

    /** The highest cell below (a,b) with a complete edge, the best one of its row, if there is any. */
    method FindHighest(a: nat, b: nat) returns (found: bool, x: int, y: int)
      requires a + b < size && (1 + size) * size / 2 <= |table|
      ensures found <==> !NothingUnder(gram, table, size, a, b)
      ensures found ==> HighestCell(gram, table, size)(a, b, x, y) && 0 <= x <= a && b <= y && x + y <= a + b
    {
      var i := a as int;
      found, x, y := false, 0, 0;
      while !found && i >= 0
        invariant -1 <= i <= a
        invariant !found ==> forall r {:trigger BarrenUnder(gram, table, size, a, b, r)} ::
          i < r <= a ==> BarrenUnder(gram, table, size, a, b, r)
        invariant found ==> Highest(gram, table, size, a, b, x, y) && b <= y && x + y <= a + b
      {
        var best;
        y, best := PickInRow(i, b, a + b - i + 1);
        if best != NO_EDGE {
          assert BestUnder(gram, table, size, a, b, i, y, best);
          x, found := i, true;
        } else {
          assert BarrenUnder(gram, table, size, a, b, i);
        }
        i := i - 1;
      }
      if found {
        HighestIsSomething(gram, table, size, a, b, x, y);
      }
    }

    /** A list of cells that cover the words under (a,b). Fails, as the program stops, where a
        stretch of words has nothing to choose. */
    method Cover(a: int, b: int, ghost first: Choice) returns (ok: bool, path: seq<(int, int)>)
      requires (1 + size) * size / 2 <= |table| && first == HighestCell(gram, table, size)
      ensures ok <==> Coverable(first, size, a, b)
      ensures ok ==> Covers(first, size, a, b, path)
      decreases a, 2
    {
      ok, path := true, [];
      if 0 <= a && 0 <= b && a + b < size {
        var x, y;
        ok, x, y := FindHighest(a, b);
        if ok {
          CoverableIff(gram, table, size, a, b, x, y);
          ok, path := CoverSides(a, b, x, y, first);
        } else {
          NotCoverable(gram, table, size, a, b);
        }
      }
    }

    /** The cells that cover what is left and right of a cell, with it between them. */
    method CoverSides(a: int, b: int, x: int, y: int, ghost first: Choice) returns (ok: bool, path: seq<(int, int)>)
      requires (1 + size) * size / 2 <= |table| && first == HighestCell(gram, table, size)
      requires InRange(size, a, b) && first(a, b, x, y) && 0 <= x <= a && b <= y && x + y <= a + b
      ensures ok <==> BothCoverable(first, size, a, b, x, y)
      ensures ok ==> Covers(first, size, a, b, path)
      decreases a, 1
    {
      path := [];
      var left;
      ok, left := Cover(y - b - 1, b, first);
      if ok {
        ok, path := CoverRight(a, b, x, y, left, first);
      }
    }

    /** A cover of what is left of a cell, the cell, and a cover of what is right of it. */
    method CoverRight(a: int, b: int, x: int, y: int, left: seq<(int, int)>, ghost first: Choice)
      returns (ok: bool, path: seq<(int, int)>)
      requires (1 + size) * size / 2 <= |table| && first == HighestCell(gram, table, size)
      requires InRange(size, a, b) && first(a, b, x, y) && 0 <= x <= a && b <= y && x + y <= a + b
      requires Covers(first, size, y - b - 1, b, left)
      ensures ok <==> Coverable(first, size, a + b - x - y - 1, x + y + 1)
      ensures ok ==> Covers(first, size, a, b, path)
      decreases a, 0
    {
      var right;
      ok, right := Cover(a + b - x - y - 1, x + y + 1, first);
      path := left + [(x, y)] + right;
      if Covers(first, size, a + b - x - y - 1, x + y + 1, right) {
        CoverJoins(first, size, a, b, x, y, left, right);
      }
    }

    /** The heads of the best constituents in the cells of a cover. */
    method BestHeads(path: seq<(int, int)>) returns (heads: seq<Symbol>)
      requires (1 + size) * size / 2 <= |table|
      requires forall c :: c in path ==> InTriangle(size, c.0, c.1) && !Barren(gram, At(table, size, c.0, c.1))
      ensures |heads| == |path|
      ensures forall j :: 0 <= j < |path| ==> BestHeadIs(gram, At(table, size, path[j].0, path[j].1), heads[j])
    {
      heads := [];
      for j := 0 to |path|
        invariant |heads| == j
        invariant forall c :: 0 <= c < j ==> BestHeadIs(gram, At(table, size, path[c].0, path[c].1), heads[c])
      {
        var (p, q) := path[j];
        IndexInTable(size, p, q);
        var best := PickBest(gram, ANY_HEAD, table[Index(size, p, q)], NO_EDGE);
        assert BestHeadIs(gram, At(table, size, p, q), best.head);
        heads := heads + [best.head];
      }
    }

    /** The made-up root: the start symbol over the best constituents of a cover, if there is a cover. */
    method MakeRoot() returns (ok: bool, root: Edge)
      requires 0 < size && (1 + size) * size / 2 <= |table|
      ensures ok <==> Coverable(HighestCell(gram, table, size), size, size - 1, 0)
      ensures ok ==> MadeUpRoot(gram, table, size, root)
    {
      var path;
      root := NO_EDGE;
      ok, path := Cover(size - 1, 0, HighestCell(gram, table, size));
      if ok {
        CoverIsOfConstituents(gram, table, size, path);
        var heads := BestHeads(path);
        root := ShiftOver(Edge(gram.start, [], heads, NOGOV, []), path);
      }
    }

    /** Advances a new edge over all cells of a path. */
    method ShiftOver(e: Edge, path: seq<(int, int)>) returns (done: Edge)
      requires e.matched == [] && e.backpath == [] && |e.right| == |path|
      ensures done == Edge(e.head, e.right, [], e.gov, path)
    {
      done := e;
      for j := 0 to |path|
        invariant done == Edge(e.head, e.right[..j], e.right[j..], e.gov, path[..j])
      {
        done := done.Shift(path[j].0, path[j].1);
      }
    }

    /** Adds a made-up root to the highest cell if it has no valid one. */
    method AddRoot(ghost lex: seq<seq<Symbol>>) returns (ok: bool)
      requires WellFormed(gram) && 0 < size && (1 + size) * size / 2 <= |table|
      requires Explained(gram, lex, table, size)
      modifies this`table
      ensures ok <==> CanRoot(gram, old(table), size)
      ensures |table| == old(|table|) && Explained(gram, lex, table, size)
      ensures if ok then Rooted(gram, old(table), table, size) else table == old(table)
    {
      IndexInTable(size, size - 1, 0);
      var at := Index(size, size - 1, 0);
      var best := PickBest(gram, MayBeTop(gram), table[at], NO_EDGE);
      ok := true;
      if best == NO_EDGE {
        var root;
        ok, root := MakeRoot();
        if ok {
          MadeUpRootIsFictitious(gram, table, size, root);
          RootIsExplained(gram, lex, table, size, root);
          table := table[at := table[at] + [root]];
          assert RootAdded(gram, old(table), table, size, root);
        }
      } else {
        BetterEdgeIsAnOrder(gram, best, NO_EDGE, best);
      }
    }

    /** Parses the sentence loaded. Without a valid root, a made-up one is added to the highest cell;
        this fails exactly when a stretch of words has nothing to make it from. */
    method Parse(ghost lex: seq<seq<Symbol>>, ghost rank: Symbol -> nat, ghost top: nat)
      returns (ok: bool, ghost filled: seq<Cell>)
      requires WellFormed(gram) && Ranked(gram, rank, top) && 0 < size == |lex|
      requires |table| >= size && FilledTo(SyntaxOf(gram), lex, table, size, size)
      modifies this`table
      ensures ChartOk(SyntaxOf(gram), lex, filled, size) && (1 + size) * size / 2 <= |filled| == |table|
      ensures ok <==> CanRoot(gram, filled, size)
      ensures ok ==> Rooted(gram, filled, table, size) && Explained(gram, lex, table, size)
    {
      FillRows(lex, rank, top);
      filled := table;
      ChartIsExplained(gram, lex, table, size);
      ok := AddRoot(lex);
    }

    /** The tree of symbol `s` in cell (x,y). Terminates by row, start symbol and unary rank. */
    method GetTree(x: nat, y: nat, s: Symbol, ghost lex: seq<seq<Symbol>>, ghost rank: Symbol -> nat, ghost top: nat)
      returns (t: Tree)
      requires Buildable(gram, lex, table, size) && Ranked(gram, rank, top) && (1 + size) * size / 2 <= |table|
      requires Ready(gram, lex, table, size, x, y, s)
      ensures IsTreeOf(gram, lex, table, size, x, y, s, t)
      decreases x, if s == gram.start then 1 else 0, rank(s), 1
    {
      if s == gram.start || !gram.IsTerminal(s) {
        IndexInTable(size, x, y);
        var best := PickBest(gram, HeadIs(s), table[Index(size, x, y)], NO_EDGE);
        PickedExpands(gram, lex, table, size, rank, top, x, y, s, best);
        t := Expand(x, y, best, lex, rank, top);
      } else {
        t := Tree(s, false, 0, 0, []);
        assert IsTreeBy(gram, lex, table, size, x, y, s, t, Word(s));
      }
    }

    /** The tree of a constituent: those of its parts, without the nodes to be removed. */
    method Expand(x: nat, y: nat, e: Edge, ghost lex: seq<seq<Symbol>>, ghost rank: Symbol -> nat, ghost top: nat)
      returns (t: Tree)
      requires Buildable(gram, lex, table, size) && Ranked(gram, rank, top) && (1 + size) * size / 2 <= |table|
      requires Expands(gram, table, size, x, y, e) && CanExpand(gram, lex, table, size, rank, x, e)
      ensures IsTreeOf(gram, lex, table, size, x, y, e.head, t)
      decreases x, if e.head == gram.start then 1 else 0, rank(e.head), 0
    {
      var kids: seq<Tree> := [];
      ghost var parts: seq<Full> := [];
      for j := 0 to |e.matched|
        invariant |parts| == j && TopsAre(parts, e.matched[..j]) && AllFit(gram, lex, table, size, e.backpath[..j], parts)
        invariant kids == Daughters(gram, e.head, e.gov, parts)
      {
        var (p, q) := e.backpath[j];
        assert Ready(gram, lex, table, size, p, q, e.matched[j]) && Lower(gram, rank, p, e.matched[j], x, e.head);
        var child := GetTree(p, q, e.matched[j], lex, rank, top);
        ghost var part :| IsTreeBy(gram, lex, table, size, p, q, e.matched[j], child, part);
        OneMorePart(gram, lex, table, size, e, parts, part, j);
        kids := kids + Kept(gram, e.head, j == e.gov, child);
        parts := parts + [part];
      }
      t := Tree(e.head, false, 0, 0, kids);
      assert e.matched[..|e.matched|] == e.matched && e.backpath[..|e.backpath|] == e.backpath;
      assert IsTreeBy(gram, lex, table, size, x, y, e.head, t, Phrase(e, parts));
    }

    /** The tree of the sentence. Its root is the best complete edge that is not hidden; without
        one, the tree is a single node without label. */
    method GetRootTree(ghost lex: seq<seq<Symbol>>, ghost rank: Symbol -> nat, ghost top: nat) returns (t: Tree)
      requires Buildable(gram, lex, table, size) && Ranked(gram, rank, top) && 0 < size && (1 + size) * size / 2 <= |table|
      requires RemovesPhrases(gram)
      ensures if HasTop(gram, table, size) then IsSentenceTree(gram, lex, size, t) else t == NO_TREE
      ensures HasTop(gram, table, size) ==> (t.cat in gram.notop <==> ForbiddenWins(gram, At(table, size, size - 1, 0)))
      ensures HasTop(gram, table, size) ==> IsTreeOf(gram, lex, table, size, size - 1, 0, t.cat, t)
      ensures HasTop(gram, table, size) ==> IsPreferredRoot(gram, At(table, size, size - 1, 0), t.cat)
    {
      IndexInTable(size, size - 1, 0);
      var best := PickBest(gram, NotHidden(gram), table[Index(size, size - 1, 0)], NO_EDGE);
      if best == NO_EDGE {
        t := NO_TREE;
      } else {
        TopIsReady(gram, lex, table, size, best);
        RootIsForbiddenIff(gram, table[Index(size, size - 1, 0)], best);
        RootIsPreferred(gram, table[Index(size, size - 1, 0)], best);
        t := GetTree(size - 1, 0, best.head, lex, rank, top);
        TreeHasItsSymbol(gram, lex, table, size, size - 1, 0, best.head, t);
        TreeIsSentenceTree(gram, lex, table, size, best.head, t);
      }
    }

    /** From the words to their tree, if the program does not stop for want of a root. The chart that
        the tree is read from holds exactly what the grammar derives, and the root added where nothing
        valid covers the sentence. */
    method Analyze(ws: seq<ChartWord>, ghost rank: Symbol -> nat, ghost top: nat)
      returns (ok: bool, t: Tree, ghost filled: seq<Cell>)
      requires WellFormed(gram) && WellFlagged(gram) && Governed(gram) && RemovesPhrases(gram) && Ranked(gram, rank, top)
      requires ws != [] && TerminalReadings(gram, Lexicon(ws))
      modifies this
      ensures ChartOk(SyntaxOf(gram), Lexicon(ws), filled, |ws|)
      ensures ok <==> CanRoot(gram, filled, |ws|)
      ensures ok ==> Rooted(gram, filled, table, |ws|)
      ensures ok ==> if TopDerived(gram, Lexicon(ws)) then IsSentenceTree(gram, Lexicon(ws), |ws|, t) else t == NO_TREE
      ensures ok && TopDerived(gram, Lexicon(ws)) ==>
        (t.cat in gram.notop <==> ForbiddenWins(gram, At(table, |ws|, |ws| - 1, 0)))
      ensures ok && TopDerived(gram, Lexicon(ws)) ==>
        && IsTreeOfLongest(gram, Lexicon(ws), table, |ws| - 1, 0, t.cat, t)
        && IsPreferredRoot(gram, At(table, |ws|, |ws| - 1, 0), t.cat)
    {
      LoadSentence(ws, rank, top);
      TableSize(size);
      NextRow(size, 0);
      t := NO_TREE;
      ok, filled := Parse(Lexicon(ws), rank, top);
      if ok {
        t := ReadTree(Lexicon(ws), filled, rank, top);
      }
    }

    /** The tree of a sentence from a chart that has been parsed. */
    method ReadTree(ghost lex: seq<seq<Symbol>>, ghost filled: seq<Cell>, ghost rank: Symbol -> nat, ghost top: nat)
      returns (t: Tree)
      requires Buildable(gram, lex, table, size) && RemovesPhrases(gram) && Ranked(gram, rank, top)
      requires 0 < size == |lex| && (1 + size) * size / 2 <= |table|
      requires ChartOk(SyntaxOf(gram), lex, filled, size) && Rooted(gram, filled, table, size)
      ensures if TopDerived(gram, lex) then IsSentenceTree(gram, lex, size, t) else t == NO_TREE
      ensures TopDerived(gram, lex) ==>
        && (t.cat in gram.notop <==> ForbiddenWins(gram, At(table, size, size - 1, 0)))
        && IsTreeOfLongest(gram, lex, table, size - 1, 0, t.cat, t)
        && IsPreferredRoot(gram, At(table, size, size - 1, 0), t.cat)
    {
      TopIffDerived(gram, lex, filled, table, rank, top);
      t := GetRootTree(lex, rank, top);
      if HasTop(gram, table, size) {
        TreeIsOfLongest(gram, lex, filled, table, rank, top, size - 1, 0, t.cat, t);
      }
    }
  }
}
