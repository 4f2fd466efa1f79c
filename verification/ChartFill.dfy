/** Filling the table row by row: what each new cell must hold. */
module ChartFill {
  import opened Grammars
  import opened ChartIndex
  import opened ChartSpec
  import opened FindRules

  /** A word of the sentence: its form and the (tag, lemma) pairs selected for it. */
  datatype ChartWord = ChartWord(lcForm: string, readings: seq<(Symbol, string)>)

  /** The symbols a reading puts into the lowest row: tag, tag with form, tag with lemma. */
  function ReadingHeads(w: ChartWord, reading: (Symbol, string)): seq<Symbol> {
    [reading.0, reading.0 + "(" + w.lcForm + ")", reading.0 + "<" + reading.1 + ">"]
  }

  function WordHeads(w: ChartWord, readings: seq<(Symbol, string)>): seq<Symbol> {
    if readings == [] then [] else
    WordHeads(w, readings[..|readings| - 1]) + ReadingHeads(w, readings[|readings| - 1])
  }

  /** The symbols that each word may be read as. */
  function Lexicon(ws: seq<ChartWord>): seq<seq<Symbol>> {
    seq(|ws|, i requires 0 <= i < |ws| => WordHeads(ws[i], ws[i].readings))
  }

  /** A cell made of the edges `base` and of everything started in it. */
  ghost predicate CellFrom(g: Syntax, k: nat, i: nat, base: seq<Edge>, cell: Cell) {
    forall e :: e in cell <==> e in base || StartedIn(g, cell, k, i, e)
  }

  lemma StartedInMore(g: Syntax, a: Cell, b: Cell, k: nat, i: nat, e: Edge)
    requires StartedIn(g, a, k, i, e) && forall x :: x in a ==> x in b
    ensures StartedIn(g, b, k, i, e)
  {
    var r, y :| StartsOn(g, a, k, i, e, r, y);
    assert StartsOn(g, b, k, i, e, r, y);
  }

  /** Adding an edge, and completing the cell if the edge is complete. */
  lemma CellFromOneMore(g: Syntax, k: nat, i: nat, base: seq<Edge>, cell: Cell, e: Edge, added: seq<Edge>)
    requires CellFrom(g, k, i, base, cell)
    requires if e.Active() then added == [] else Closed(g, k, i, e.head, added)
    ensures CellFrom(g, k, i, base + [e], cell + [e] + added)
  {
    var more := cell + [e] + added;
    forall x | x in more
      ensures x in base + [e] || StartedIn(g, more, k, i, x)
    {
      if x in cell {
        if x !in base {
          StartedInMore(g, cell, more, k, i, x);
        }
      } else if x != e {
        var r, found :| StartedBy(g, k, i, e.head, added, x, r, found);
        if found == e.head {
          assert StartsOn(g, more, k, i, x, r, e);
        } else {
          var y :| y in added && !y.Active() && y.head == found;
          assert StartsOn(g, more, k, i, x, r, y);
        }
      }
    }
    forall x | StartedIn(g, more, k, i, x)
      ensures x in more
    {
      var r, y :| StartsOn(g, more, k, i, x, r, y);
      if y in cell {
        assert StartsOn(g, cell, k, i, x, r, y);
      } else if y == e {
        assert StartsAllOf(g, k, i, e.head, added);
      } else {
        assert StartsAllOf(g, k, i, y.head, added);
      }
    }
  }

  /** The advance of an edge over a constituent of the cell `next`, at (p,q), if there is one. */
  ghost function AdvanceOf(g: Syntax, next: Cell, x: Edge, p: int, q: int): seq<Edge> {
    if x.Active() && HasMatch(g, next, x.right[0]) then [x.Shift(p, q)] else []
  }

  /** The advances of the edges `es`. */
  ghost function AdvanceAll(g: Syntax, next: Cell, es: seq<Edge>, p: int, q: int): seq<Edge> {
    if es == [] then [] else AdvanceAll(g, next, es[..|es| - 1], p, q) + AdvanceOf(g, next, es[|es| - 1], p, q)
  }

  /** The advances into cell (k,i) of the edges of the cells `left`, over constituents of the
      cells `next` to them. */
  ghost function AdvanceRow(g: Syntax, left: seq<Cell>, next: seq<Cell>, k: int, i: int): seq<Edge>
    requires |left| == |next|
  {
    if left == [] then [] else
    var a := |left| - 1;
    AdvanceRow(g, left[..a], next[..a], k, i) + AdvanceAll(g, next[a], left[a], k - a - 1, i + a + 1)
  }

  ghost predicate AdvancesOne(g: Syntax, next: Cell, es: seq<Edge>, p: int, q: int, e: Edge) {
    exists x :: x in es && Advances(g, next, x, p, q, e)
  }

  lemma AdvancesOneMore(g: Syntax, next: Cell, es: seq<Edge>, y: Edge, p: int, q: int, e: Edge)
    ensures AdvancesOne(g, next, es + [y], p, q, e) <==> AdvancesOne(g, next, es, p, q, e) || Advances(g, next, y, p, q, e)
  {
    if AdvancesOne(g, next, es, p, q, e) {
      var x :| x in es && Advances(g, next, x, p, q, e);
      assert x in es + [y];
    }
    if Advances(g, next, y, p, q, e) {
      assert y in es + [y];
    }
  }

  lemma {:induction false} AdvanceAllAdvances(g: Syntax, next: Cell, es: seq<Edge>, p: int, q: int, e: Edge)
    ensures e in AdvanceAll(g, next, es, p, q) <==> AdvancesOne(g, next, es, p, q, e)
  {
    if es != [] {
      var m := |es| - 1;
      AdvanceAllAdvances(g, next, es[..m], p, q, e);
      AdvancesOneMore(g, next, es[..m], es[m], p, q, e);
      assert es == es[..m] + [es[m]];
    }
  }

  ghost predicate AdvancesAt(g: Syntax, left: seq<Cell>, next: seq<Cell>, k: int, i: int, a: nat, e: Edge) {
    a < |left| && a < |next| && AdvancesOne(g, next[a], left[a], k - a - 1, i + a + 1, e)
  }

  ghost predicate AdvancesSome(g: Syntax, left: seq<Cell>, next: seq<Cell>, k: int, i: int, e: Edge) {
    exists a: nat :: AdvancesAt(g, left, next, k, i, a, e)
  }

  lemma AdvancesSomeMore(g: Syntax, left: seq<Cell>, next: seq<Cell>, k: int, i: int, e: Edge)
    requires |left| == |next| > 0
    ensures var m := |left| - 1;
            AdvancesSome(g, left, next, k, i, e) <==> AdvancesSome(g, left[..m], next[..m], k, i, e) || AdvancesAt(g, left, next, k, i, m, e)
  {
    var m := |left| - 1;
    forall a: nat | a < m
      ensures AdvancesAt(g, left[..m], next[..m], k, i, a, e) <==> AdvancesAt(g, left, next, k, i, a, e)
    {
      assert left[..m][a] == left[a] && next[..m][a] == next[a];
    }
    if AdvancesSome(g, left[..m], next[..m], k, i, e) {
      var a: nat :| AdvancesAt(g, left[..m], next[..m], k, i, a, e);
      assert AdvancesAt(g, left, next, k, i, a, e);
    }
  }

  lemma {:induction false} AdvanceRowAdvances(g: Syntax, left: seq<Cell>, next: seq<Cell>, k: int, i: int, e: Edge)
    requires |left| == |next|
    ensures e in AdvanceRow(g, left, next, k, i) <==> AdvancesSome(g, left, next, k, i, e)
  {
    if left != [] {
      var m := |left| - 1;
      AdvanceRowAdvances(g, left[..m], next[..m], k, i, e);
      AdvanceAllAdvances(g, next[m], left[m], k - m - 1, i + m + 1, e);
      AdvancesSomeMore(g, left, next, k, i, e);
    }
  }

  /** `left` and `next` are the cells that cell (k,i) is filled from. */
  ghost predicate Feed(cells: seq<Cell>, n: nat, k: nat, i: nat, left: seq<Cell>, next: seq<Cell>) {
    && |left| == |next|
    && forall a: nat {:trigger left[a]} {:trigger next[a]} :: a < |left| ==>
         left[a] == At(cells, n, a, i) && next[a] == At(cells, n, k - a - 1, i + a + 1)
  }

  lemma AdvancedAreBase(g: Syntax, lex: seq<seq<Symbol>>, cells: seq<Cell>, n: nat, k: nat, i: nat,
                        left: seq<Cell>, next: seq<Cell>, e: Edge)
    requires k > 0 && Feed(cells, n, k, i, left, next) && |left| == k
    ensures e in AdvanceRow(g, left, next, k, i) <==> IsBase(g, lex, cells, n, k, i, e)
  {
    AdvanceRowAdvances(g, left, next, k, i, e);
    if IsBase(g, lex, cells, n, k, i, e) {
      var a, x :| ShiftedFrom(g, cells, n, k, i, e, a, x);
      FeedAdvances(g, cells, n, k, i, left, next, e, a);
    } else if AdvancesSome(g, left, next, k, i, e) {
      var a: nat :| AdvancesAt(g, left, next, k, i, a, e);
      FeedAdvances(g, cells, n, k, i, left, next, e, a);
    }
  }

  lemma FeedAdvances(g: Syntax, cells: seq<Cell>, n: nat, k: nat, i: nat, left: seq<Cell>, next: seq<Cell>, e: Edge, a: nat)
    requires a < k && Feed(cells, n, k, i, left, next) && |left| == k
    ensures AdvancesAt(g, left, next, k, i, a, e) <==> exists x :: ShiftedFrom(g, cells, n, k, i, e, a, x)
  {
    if AdvancesAt(g, left, next, k, i, a, e) {
      var x :| x in left[a] && Advances(g, next[a], x, k - a - 1, i + a + 1, e);
      assert ShiftedFrom(g, cells, n, k, i, e, a, x);
    }
  }

  /** A cell depends only on itself and on the rows below. */
  lemma CellOkInMore(g: Syntax, lex: seq<seq<Symbol>>, cells: seq<Cell>, more: seq<Cell>, n: nat, k: nat, i: nat)
    requires cells <= more && InTriangle(n, k, i) && 0 <= Index(n, k, i) < |cells|
    requires CellOk(g, lex, cells, n, k, i)
    ensures CellOk(g, lex, more, n, k, i)
  {
    assert At(more, n, k, i) == At(cells, n, k, i);
    forall e
      ensures IsBase(g, lex, more, n, k, i, e) <==> IsBase(g, lex, cells, n, k, i, e)
    {
      forall a: nat, x | a < k
        ensures ShiftedFrom(g, more, n, k, i, e, a, x) <==> ShiftedFrom(g, cells, n, k, i, e, a, x)
      {
        LowerCellsAreSame(cells, more, n, k, i, a, i);
        LowerCellsAreSame(cells, more, n, k, i, k - a - 1, i + a + 1);
      }
    }
  }

  lemma LowerCellsAreSame(cells: seq<Cell>, more: seq<Cell>, n: nat, k: nat, i: nat, a: nat, b: nat)
    requires cells <= more && InTriangle(n, k, i) && 0 <= Index(n, k, i) < |cells| && a < k
    ensures At(more, n, a, b) == At(cells, n, a, b)
  {
    if InTriangle(n, a, b) {
      RowsAreOrdered(n, a, k);
      IndexInTable(n, a, b);
      assert Index(n, a, b) == Index(n, a, 0) + b && Index(n, k, i) == Index(n, k, 0) + i;
    }
  }

  /** `base` holds the edges that are in cell (k,i) without being started there. */
  ghost predicate IsWholeBase(g: Syntax, lex: seq<seq<Symbol>>, cells: seq<Cell>, n: nat, k: nat, i: nat, base: seq<Edge>) {
    forall e :: e in base <==> IsBase(g, lex, cells, n, k, i, e)
  }

  /** The cell holds exactly the edges that the cells before it, and it itself, justify. */
  ghost predicate IsFilled(g: Syntax, lex: seq<seq<Symbol>>, cells: seq<Cell>, n: nat, k: nat, i: nat, cell: Cell) {
    exists base :: IsWholeBase(g, lex, cells, n, k, i, base) && CellFrom(g, k, i, base, cell)
  }

  /** The first `m` cells are final. */
  ghost predicate FilledTo(g: Syntax, lex: seq<seq<Symbol>>, table: seq<Cell>, n: nat, m: nat) {
    && m <= |table|
    && forall k, i {:trigger CellOk(g, lex, table[..m], n, k, i)} ::
         InTriangle(n, k, i) && Index(n, k, i) < m ==> CellOk(g, lex, table[..m], n, k, i)
  }

  /** Inserting the next cell at its index leaves all cells before it in place. */
  lemma FilledOneMore(g: Syntax, lex: seq<seq<Symbol>>, table: seq<Cell>, n: nat, k: nat, i: nat, cell: Cell)
    requires InTriangle(n, k, i) && 0 <= Index(n, k, i)
    requires FilledTo(g, lex, table, n, Index(n, k, i))
    requires IsFilled(g, lex, table[..Index(n, k, i)], n, k, i, cell)
    ensures var m := Index(n, k, i);
            FilledTo(g, lex, table[..m] + [cell] + table[m..], n, m + 1)
  {
    var m := Index(n, k, i);
    var more := table[..m] + [cell] + table[m..];
    var before, now := table[..m], more[..m + 1];
    assert before <= now;
    forall a, b | InTriangle(n, a, b) && Index(n, a, b) < m + 1
      ensures CellOk(g, lex, now, n, a, b)
    {
      IndexInTable(n, a, b);
      if Index(n, a, b) < m {
        assert CellOk(g, lex, before, n, a, b);
        CellOkInMore(g, lex, before, now, n, a, b);
      } else {
        IndexIsInjective(n, a, b, k, i);
        BaseInMore(g, lex, before, now, n, k, i);
        var base :| IsWholeBase(g, lex, before, n, k, i, base) && CellFrom(g, k, i, base, cell);
      }
    }
  }

  lemma BaseInMore(g: Syntax, lex: seq<seq<Symbol>>, before: seq<Cell>, now: seq<Cell>, n: nat, k: nat, i: nat)
    requires before <= now && InTriangle(n, k, i) && 0 <= Index(n, k, i) == |before| < |now|
    ensures forall e :: IsBase(g, lex, now, n, k, i, e) <==> IsBase(g, lex, before, n, k, i, e)
  {
    forall a: nat, b: nat | a < k && InTriangle(n, a, b)
      ensures At(now, n, a, b) == At(before, n, a, b)
    {
      RowsAreOrdered(n, a, k);
      IndexInTable(n, a, b);
      assert Index(n, a, b) == Index(n, a, 0) + b && Index(n, k, i) == Index(n, k, 0) + i;
    }
    forall e
      ensures IsBase(g, lex, now, n, k, i, e) <==> IsBase(g, lex, before, n, k, i, e)
    {
      forall a: nat, x | a < k
        ensures ShiftedFrom(g, now, n, k, i, e, a, x) <==> ShiftedFrom(g, before, n, k, i, e, a, x)
      {
        assert At(now, n, a, i) == At(before, n, a, i);
        assert At(now, n, k - a - 1, i + a + 1) == At(before, n, k - a - 1, i + a + 1);
      }
    }
  }

  /** The edges for the readings of a word. */
  ghost function LexEdges(hs: seq<Symbol>): seq<Edge> {
    seq(|hs|, i requires 0 <= i < |hs| => LexEdge(hs[i]))
  }

  lemma EmptyCell(g: Syntax, k: nat, i: nat)
    ensures LexEdges([]) == [] && CellFrom(g, k, i, [], [])
  {
  }

  lemma OneMoreReading(w: ChartWord, rs: seq<(Symbol, string)>, a: nat)
    requires a < |rs|
    ensures var heads := ReadingHeads(w, rs[a]);
            LexEdges(WordHeads(w, rs[..a + 1]))
            == LexEdges(WordHeads(w, rs[..a])) + [LexEdge(heads[0])] + [LexEdge(heads[1])] + [LexEdge(heads[2])]
  {
    assert rs[..a + 1][..a] == rs[..a];
  }

  lemma LexIsBase(g: Syntax, ws: seq<ChartWord>, cells: seq<Cell>, n: nat, j: nat)
    requires j < |ws|
    ensures IsWholeBase(g, Lexicon(ws), cells, n, 0, j, LexEdges(WordHeads(ws[j], ws[j].readings)))
  {
    var hs := WordHeads(ws[j], ws[j].readings);
    var es := LexEdges(hs);
    forall e
      ensures e in es <==> e.head in hs && e == LexEdge(e.head)
    {
      if e.head in hs && e == LexEdge(e.head) {
        var i :| 0 <= i < |hs| && hs[i] == e.head;
        assert es[i] == e;
      }
    }
  }

  lemma HasMatchOneMore(g: Syntax, cell: Cell, s: Symbol, j: nat)
    requires j < |cell|
    ensures HasMatch(g, cell[..j + 1], s) <==> HasMatch(g, cell[..j], s) || (!cell[j].Active() && g.matches(s, cell[j].head))
  {
    assert cell[..j + 1] == cell[..j] + [cell[j]];
    if HasMatch(g, cell[..j], s) {
      var y :| y in cell[..j] && !y.Active() && g.matches(s, y.head);
      assert y in cell[..j + 1];
    }
  }

  lemma HasMatchInMore(g: Syntax, cell: Cell, s: Symbol, j: nat)
    requires j <= |cell| && HasMatch(g, cell[..j], s)
    ensures HasMatch(g, cell, s)
  {
    var y :| y in cell[..j] && !y.Active() && g.matches(s, y.head);
    assert y in cell;
  }

  lemma AdvanceOneMore(g: Syntax, next: Cell, es: seq<Edge>, p: int, q: int, j: nat)
    requires j < |es|
    ensures AdvanceAll(g, next, es[..j + 1], p, q)
         == AdvanceAll(g, next, es[..j], p, q) + AdvanceOf(g, next, es[j], p, q)
  {
    assert es[..j + 1][..j] == es[..j];
  }

  /** The cells below (k,i) come before it in the table. */
  lemma LowerCell(table: seq<Cell>, n: nat, k: nat, i: nat, a: nat, b: nat)
    requires InTriangle(n, k, i) && 0 <= Index(n, k, i) <= |table| && a < k && i <= b && a + b <= k + i
    ensures InTriangle(n, a, b) && 0 <= Index(n, a, b) < Index(n, k, i)
    ensures At(table[..Index(n, k, i)], n, a, b) == table[Index(n, a, b)]
  {
    IndexInTable(n, a, b);
    RowsAreOrdered(n, a, k);
    assert Index(n, a, b) == Index(n, a, 0) + b && Index(n, k, i) == Index(n, k, 0) + i;
  }

  lemma LowerCells(table: seq<Cell>, n: nat, k: nat, i: nat, a: nat)
    requires InTriangle(n, k, i) && 0 <= Index(n, k, i) <= |table| && a < k
    ensures var cells, p, q := table[..Index(n, k, i)], k - a - 1, i + a + 1;
            && 0 <= Index(n, a, i) < |table| && At(cells, n, a, i) == table[Index(n, a, i)]
            && 0 <= Index(n, p, q) < |table| && At(cells, n, p, q) == table[Index(n, p, q)]
  {
    LowerCell(table, n, k, i, a, i);
    LowerCell(table, n, k, i, k - a - 1, i + a + 1);
  }

  /** `base` holds the advances from the cells (0,i) to (a-1,i). */
  ghost predicate Filling(g: Syntax, cells: seq<Cell>, n: nat, k: nat, i: nat, a: nat, left: seq<Cell>, next: seq<Cell>, base: seq<Edge>) {
    |left| == |next| == a && Feed(cells, n, k, i, left, next) && base == AdvanceRow(g, left, next, k, i)
  }

  lemma FillingOneMore(g: Syntax, cells: seq<Cell>, n: nat, k: nat, i: nat, a: nat, left: seq<Cell>, next: seq<Cell>, base: seq<Edge>)
    returns (left': seq<Cell>, next': seq<Cell>, base': seq<Edge>)
    requires Filling(g, cells, n, k, i, a, left, next, base)
    ensures Filling(g, cells, n, k, i, a + 1, left', next', base')
    ensures base' == base + AdvanceAll(g, At(cells, n, k - a - 1, i + a + 1), At(cells, n, a, i), k - a - 1, i + a + 1)
  {
    var es, nx := At(cells, n, a, i), At(cells, n, k - a - 1, i + a + 1);
    FeedOneMore(cells, n, k, i, left, next, a);
    AdvanceRowOneMore(g, k, i, left, next, es, nx);
    left', next', base' := left + [es], next + [nx], base + AdvanceAll(g, nx, es, k - a - 1, i + a + 1);
  }

  lemma FillingIsDone(g: Syntax, lex: seq<seq<Symbol>>, cells: seq<Cell>, n: nat, k: nat, i: nat,
                      left: seq<Cell>, next: seq<Cell>, base: seq<Edge>)
    requires k > 0 && Filling(g, cells, n, k, i, k, left, next, base)
    ensures IsWholeBase(g, lex, cells, n, k, i, base)
  {
    forall e
      ensures e in base <==> IsBase(g, lex, cells, n, k, i, e)
    {
      AdvancedAreBase(g, lex, cells, n, k, i, left, next, e);
    }
  }

  lemma FeedOneMore(cells: seq<Cell>, n: nat, k: nat, i: nat, left: seq<Cell>, next: seq<Cell>, a: nat)
    requires Feed(cells, n, k, i, left, next) && a == |left|
    ensures Feed(cells, n, k, i, left + [At(cells, n, a, i)], next + [At(cells, n, k - a - 1, i + a + 1)])
  {
  }

  lemma AdvanceRowOneMore(g: Syntax, k: int, i: int, left: seq<Cell>, next: seq<Cell>, es: Cell, nx: Cell)
    requires |left| == |next|
    ensures var a := |left|;
            AdvanceRow(g, left + [es], next + [nx], k, i)
            == AdvanceRow(g, left, next, k, i) + AdvanceAll(g, nx, es, k - a - 1, i + a + 1)
  {
    assert (left + [es])[..|left|] == left && (next + [nx])[..|left|] == next;
  }

  lemma FilledIsOk(g: Syntax, lex: seq<seq<Symbol>>, table: seq<Cell>, n: nat)
    requires |lex| == n && FilledTo(g, lex, table, n, (1 + n) * n / 2)
    ensures ChartOk(g, lex, table, n)
  {
    var m := (1 + n) * n / 2;
    forall k, i | InTriangle(n, k, i)
      ensures CellOk(g, lex, table, n, k, i)
    {
      IndexInTable(n, k, i);
      assert CellOk(g, lex, table[..m], n, k, i);
      CellOkInMore(g, lex, table[..m], table, n, k, i);
    }
  }
}
