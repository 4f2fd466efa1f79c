/** What the chart contains: edges justified by smaller ones, and the proof that its complete
    edges are exactly the constituents that the grammar derives. */
module ChartSpec {
  import opened Grammars
  import opened ChartIndex

  /** What parsing needs to know about a grammar: its rules, and when a symbol found in the chart
      is matched by the first symbol of a rule, or by a later one. */
  datatype Syntax = Syntax(rules: set<Rule>, nonterminal: set<Symbol>,
                           starts: (Rule, Symbol) -> bool, matches: (Symbol, Symbol) -> bool)
  {
    predicate IsTerminal(s: Symbol) {
      s !in nonterminal
    }

    ghost predicate WellFormed() {
      && (forall r :: r in rules ==> r.right != [] && r.head in nonterminal)
      && (forall r, found :: starts(r, found) ==> r in rules && r.right != [] && (IsTerminal(found) || r.right[0] == found))
    }

    /** Unary rules are acyclic: they go strictly up in some ranking of the symbols. */
    ghost predicate Ranked(rank: Symbol -> nat) {
      forall r :: r in rules && |r.right| == 1 ==> rank(r.right[0]) < rank(r.head)
    }
  }

  /** The syntax of a grammar. */
  ghost function SyntaxOf(g: Grammar): Syntax {
    var rules := set r | r in g.rules;
    Syntax(rules, g.nonterminal, (r, found) => g.Starts(r, found), (s, found) => g.CheckMatch(s, found))
  }

  /** A rule of which `matched` has been found, in the cells of `backpath`, and `right` has not. */
  datatype Edge = Edge(head: Symbol, matched: seq<Symbol>, right: seq<Symbol>, gov: nat, backpath: seq<(int, int)>)
  {
    predicate Active() {
      right != []
    }

    /** Advances the edge over the constituent found in cell (a,b). */
    function Shift(a: int, b: int): Edge
      requires Active()
    {
      Edge(head, matched + [right[0]], right[1..], gov, backpath + [(a, b)])
    }
  }

  type Cell = seq<Edge>

  /** The edge for a word read as `h`. */
  function LexEdge(h: Symbol): Edge {
    Edge(h, [], [], 0, [])
  }

  function NewEdge(r: Rule): Edge {
    Edge(r.head, [], r.right, r.gov, [])
  }

  /** The edge for rule `r` once its first symbol has been found in cell (k,i). */
  function Started(r: Rule, k: int, i: int): Edge
    requires r.right != []
  {
    NewEdge(r).Shift(k, i)
  }

  /** Some complete edge of the cell has a head matched by `s`. */
  ghost predicate HasMatch(g: Syntax, cell: Cell, s: Symbol) {
    exists y :: y in cell && !y.Active() && g.matches(s, y.head)
  }

  /** `e` starts a rule on a complete edge of the cell. */
  ghost predicate StartedIn(g: Syntax, cell: Cell, k: nat, i: nat, e: Edge) {
    exists r, y :: StartsOn(g, cell, k, i, e, r, y)
  }

  ghost predicate StartsOn(g: Syntax, cell: Cell, k: nat, i: nat, e: Edge, r: Rule, y: Edge) {
    y in cell && !y.Active() && r.right != [] && g.starts(r, y.head) && e == Started(r, k, i)
  }

  /** The cells of a chart: rows of decreasing length, laid out as `ChartIndex` says. */
  function At(cells: seq<Cell>, n: nat, k: int, i: int): Cell {
    if InTriangle(n, k, i) && 0 <= Index(n, k, i) < |cells| then cells[Index(n, k, i)] else []
  }

  /** `e` advances an edge of cell (a,i) over a constituent of the cell next to it. */
  ghost predicate ShiftedFrom(g: Syntax, cells: seq<Cell>, n: nat, k: nat, i: nat, e: Edge, a: nat, x: Edge) {
    && a < k && x in At(cells, n, a, i)
    && Advances(g, At(cells, n, k - a - 1, i + a + 1), x, k - a - 1, i + a + 1, e)
  }

  /** `e` advances `x` over a constituent of the cell `next`, at (p,q). */
  ghost predicate Advances(g: Syntax, next: Cell, x: Edge, p: int, q: int, e: Edge) {
    x.Active() && HasMatch(g, next, x.right[0]) && e == x.Shift(p, q)
  }

  /** The edges that are in cell (k,i) without being started there: readings of a word in the
      lowest row, advanced edges in the others. */
  ghost predicate IsBase(g: Syntax, lex: seq<seq<Symbol>>, cells: seq<Cell>, n: nat, k: nat, i: nat, e: Edge) {
    if k == 0 then i < |lex| && e.head in lex[i] && e == LexEdge(e.head)
    else exists a, x :: ShiftedFrom(g, cells, n, k, i, e, a, x)
  }

  /** Cell (k,i) holds exactly the edges justified by it and by the cells below. */
  ghost predicate CellOk(g: Syntax, lex: seq<seq<Symbol>>, cells: seq<Cell>, n: nat, k: nat, i: nat) {
    forall e :: e in At(cells, n, k, i) <==>
      IsBase(g, lex, cells, n, k, i, e) || StartedIn(g, At(cells, n, k, i), k, i, e)
  }

  ghost predicate ChartOk(g: Syntax, lex: seq<seq<Symbol>>, cells: seq<Cell>, n: nat) {
    && |lex| == n
    && forall k, i {:trigger CellOk(g, lex, cells, n, k, i)} :: InTriangle(n, k, i) ==> CellOk(g, lex, cells, n, k, i)
  }

  /** A derivation: a reading of a word, or a rule with one derivation per symbol. */
  datatype Deriv = Leaf(sym: Symbol) | Node(rule: Rule, kids: seq<Deriv>)

  function Root(d: Deriv): Symbol {
    match d
    case Leaf(s) => s
    case Node(r, _) => r.head
  }

  /** The number of words derived. */
  function Width(d: Deriv): nat {
    match d
    case Leaf(_) => 1
    case Node(_, kids) => Widths(kids)
  }

  function Widths(kids: seq<Deriv>): nat {
    if kids == [] then 0 else Widths(kids[..|kids| - 1]) + Width(kids[|kids| - 1])
  }

  /** `d` derives `Width(d)` words from word `i` on. */
  ghost predicate Derives(g: Syntax, lex: seq<seq<Symbol>>, d: Deriv, i: nat)
    decreases d, 1
  {
    match d
    case Leaf(s) => i < |lex| && s in lex[i]
    case Node(r, kids) => r in g.rules && |kids| == |r.right| > 0 && KidsDerive(g, lex, r, kids, i)
  }

  /** The derivations `kids`, one after the other from word `i` on, are of the first symbols of `r`. */
  ghost predicate KidsDerive(g: Syntax, lex: seq<seq<Symbol>>, r: Rule, kids: seq<Deriv>, i: nat)
    requires |kids| <= |r.right|
    decreases kids, 0
  {
    kids == [] ||
    (var m := |kids| - 1;
     && KidsDerive(g, lex, r, kids[..m], i)
     && Derives(g, lex, kids[m], i + Widths(kids[..m]))
     && (if m == 0 then g.starts(r, Root(kids[0])) else g.matches(r.right[m], Root(kids[m]))))
  }

  /** The complete edges with head `h` in cell (k,i). */
  ghost predicate HasConstituent(cells: seq<Cell>, n: nat, k: int, i: int, h: Symbol) {
    exists e :: e in At(cells, n, k, i) && !e.Active() && e.head == h
  }

  lemma {:induction false} WidthsArePositive(g: Syntax, lex: seq<seq<Symbol>>, d: Deriv, i: nat)
    requires Derives(g, lex, d, i)
    ensures Width(d) > 0
  {
    match d
    case Leaf(_) =>
    case Node(r, kids) =>
      WidthsArePositive(g, lex, kids[|kids| - 1], i + Widths(kids[..|kids| - 1]));
  }

  /** Completeness: whatever the grammar derives is in the chart. */
  lemma {:induction false} DerivedIsInChart(g: Syntax, lex: seq<seq<Symbol>>, cells: seq<Cell>, n: nat, d: Deriv, i: nat)
    requires g.WellFormed() && ChartOk(g, lex, cells, n)
    requires Derives(g, lex, d, i) && i + Width(d) <= n
    ensures HasConstituent(cells, n, Width(d) - 1, i, Root(d))
    decreases d, 1
  {
    WidthsArePositive(g, lex, d, i);
    match d
    case Leaf(s) =>
      assert CellOk(g, lex, cells, n, 0, i);
      assert LexEdge(s) in At(cells, n, 0, i);
    case Node(r, kids) =>
      PrefixIsInChart(g, lex, cells, n, r, kids, i);
      assert r.right[..|kids|] == r.right;
  }

  /** The edge of rule `r` that has advanced over the constituents derived by `kids`. */
  ghost predicate HasPrefixEdge(cells: seq<Cell>, n: nat, k: int, i: int, r: Rule, m: nat)
    requires m <= |r.right|
  {
    exists e :: e in At(cells, n, k, i) && e.head == r.head && e.matched == r.right[..m] && e.right == r.right[m..]
  }

  lemma {:induction false} PrefixIsInChart(g: Syntax, lex: seq<seq<Symbol>>, cells: seq<Cell>, n: nat, r: Rule,
                                           kids: seq<Deriv>, i: nat)
    requires g.WellFormed() && ChartOk(g, lex, cells, n) && r in g.rules
    requires 0 < |kids| <= |r.right| && KidsDerive(g, lex, r, kids, i) && i + Widths(kids) <= n
    ensures Widths(kids) > 0 && HasPrefixEdge(cells, n, Widths(kids) - 1, i, r, |kids|)
    decreases kids, 0
  {
    var m := |kids| - 1;
    var last := kids[m];
    var w := Widths(kids[..m]);
    WidthsArePositive(g, lex, last, i + w);
    DerivedIsInChart(g, lex, cells, n, last, i + w);
    if m == 0 {
      assert kids[..0] == [];
      FirstKidStarts(g, lex, cells, n, r, last, i);
    } else {
      PrefixIsInChart(g, lex, cells, n, r, kids[..m], i);
      NextKidShifts(g, lex, cells, n, r, last, i, w, m);
    }
  }

  lemma FirstKidStarts(g: Syntax, lex: seq<seq<Symbol>>, cells: seq<Cell>, n: nat, r: Rule, d: Deriv, i: nat)
    requires ChartOk(g, lex, cells, n) && r.right != [] && g.starts(r, Root(d)) && Width(d) > 0 && i + Width(d) <= n
    requires HasConstituent(cells, n, Width(d) - 1, i, Root(d))
    ensures HasPrefixEdge(cells, n, Width(d) - 1, i, r, 1)
  {
    var y :| y in At(cells, n, Width(d) - 1, i) && !y.Active() && y.head == Root(d);
    StartedIsInChart(g, lex, cells, n, Width(d) - 1, i, r, y);
    assert r.right[..1] == [r.right[0]];
  }

  lemma NextKidShifts(g: Syntax, lex: seq<seq<Symbol>>, cells: seq<Cell>, n: nat, r: Rule, d: Deriv, i: nat, w: nat, m: nat)
    requires ChartOk(g, lex, cells, n) && 0 < m < |r.right| && g.matches(r.right[m], Root(d))
    requires 0 < w && 0 < Width(d) && i + w + Width(d) <= n
    requires HasPrefixEdge(cells, n, w - 1, i, r, m) && HasConstituent(cells, n, Width(d) - 1, i + w, Root(d))
    ensures HasPrefixEdge(cells, n, w + Width(d) - 1, i, r, m + 1)
  {
    var x :| x in At(cells, n, w - 1, i) && x.head == r.head && x.matched == r.right[..m] && x.right == r.right[m..];
    var y :| y in At(cells, n, Width(d) - 1, i + w) && !y.Active() && y.head == Root(d);
    ShiftedIsInChart(g, lex, cells, n, w + Width(d) - 1, i, w - 1, x, y);
    assert r.right[..m] + [r.right[m]] == r.right[..m + 1];
  }

  lemma StartedIsInChart(g: Syntax, lex: seq<seq<Symbol>>, cells: seq<Cell>, n: nat, k: nat, i: nat, r: Rule, y: Edge)
    requires ChartOk(g, lex, cells, n) && InTriangle(n, k, i)
    requires y in At(cells, n, k, i) && !y.Active() && r.right != [] && g.starts(r, y.head)
    ensures Started(r, k, i) in At(cells, n, k, i)
  {
    assert CellOk(g, lex, cells, n, k, i);
    assert StartsOn(g, At(cells, n, k, i), k, i, Started(r, k, i), r, y);
  }

  lemma ShiftedIsInChart(g: Syntax, lex: seq<seq<Symbol>>, cells: seq<Cell>, n: nat, k: nat, i: nat, a: nat, x: Edge, y: Edge)
    requires ChartOk(g, lex, cells, n) && InTriangle(n, k, i) && a < k
    requires x in At(cells, n, a, i) && x.Active()
    requires y in At(cells, n, k - a - 1, i + a + 1) && !y.Active() && g.matches(x.right[0], y.head)
    ensures x.Shift(k - a - 1, i + a + 1) in At(cells, n, k, i)
  {
    assert CellOk(g, lex, cells, n, k, i);
    assert HasMatch(g, At(cells, n, k - a - 1, i + a + 1), x.right[0]);
    assert ShiftedFrom(g, cells, n, k, i, x.Shift(k - a - 1, i + a + 1), a, x);
  }

  /** What an edge stands for: some rule of which the matched symbols derive the words of the cell. */
  ghost predicate EdgeDerives(g: Syntax, lex: seq<seq<Symbol>>, e: Edge, r: Rule, kids: seq<Deriv>, k: nat, i: nat) {
    && r in g.rules && r.head == e.head && r.right == e.matched + e.right && 0 < |kids| == |e.matched|
    && KidsDerive(g, lex, r, kids, i) && Widths(kids) == k + 1
  }

  /** A complete edge with a derivation of the words of its cell. */
  ghost predicate ConstituentDerives(g: Syntax, lex: seq<seq<Symbol>>, h: Symbol, k: nat, i: nat) {
    exists d :: Derives(g, lex, d, i) && Width(d) == k + 1 && Root(d) == h
  }

  /** Soundness for complete edges. Readings derive themselves; a rule derives what it matched. */
  lemma {:induction false} ConstituentIsDerived(g: Syntax, lex: seq<seq<Symbol>>, cells: seq<Cell>, n: nat,
                                                rank: Symbol -> nat, k: nat, i: nat, e: Edge)
    requires g.WellFormed() && g.Ranked(rank) && ChartOk(g, lex, cells, n) && InTriangle(n, k, i)
    requires e in At(cells, n, k, i) && !e.Active()
    ensures ConstituentDerives(g, lex, e.head, k, i)
    decreases k, 0, rank(e.head), 1
  {
    assert CellOk(g, lex, cells, n, k, i);
    if IsReading(lex, k, i, e) {
      assert Derives(g, lex, Leaf(e.head), i);
    } else {
      var r, kids := EdgeIsDerived(g, lex, cells, n, rank, k, i, e);
      assert Derives(g, lex, Node(r, kids), i);
    }
  }

  /** Soundness for the edges of rules, complete or not. */
  lemma {:induction false} EdgeIsDerived(g: Syntax, lex: seq<seq<Symbol>>, cells: seq<Cell>, n: nat,
                                         rank: Symbol -> nat, k: nat, i: nat, e: Edge)
    returns (r: Rule, kids: seq<Deriv>)
    requires g.WellFormed() && g.Ranked(rank) && ChartOk(g, lex, cells, n) && InTriangle(n, k, i)
    requires e in At(cells, n, k, i) && !IsReading(lex, k, i, e)
    ensures EdgeDerives(g, lex, e, r, kids, k, i)
    decreases k, if e.Active() then 1 else 0, rank(e.head), 0
  {
    assert CellOk(g, lex, cells, n, k, i);
    if StartedIn(g, At(cells, n, k, i), k, i, e) {
      var y;
      r, y :| StartsOn(g, At(cells, n, k, i), k, i, e, r, y);
      if IsReading(lex, k, i, y) {
        assert Derives(g, lex, Leaf(y.head), i);
      } else {
        if !e.Active() {
          StartIsLower(g, lex, cells, n, rank, k, i, r, y);
        }
        ConstituentIsDerived(g, lex, cells, n, rank, k, i, y);
      }
      kids := StartedIsDerived(g, lex, k, i, e, r, y);
    } else {
      var a, x :| ShiftedFrom(g, cells, n, k, i, e, a, x);
      var y :| y in At(cells, n, k - a - 1, i + a + 1) && !y.Active() && g.matches(x.right[0], y.head);
      ConstituentIsDerived(g, lex, cells, n, rank, k - a - 1, i + a + 1, y);
      var before;
      r, before := EdgeIsDerived(g, lex, cells, n, rank, a, i, x);
      kids := ShiftedIsDerived(g, lex, k, i, a, x, r, before, y);
    }
  }

  lemma StartedIsDerived(g: Syntax, lex: seq<seq<Symbol>>, k: nat, i: nat, e: Edge, r: Rule, y: Edge) returns (kids: seq<Deriv>)
    requires r in g.rules && r.right != [] && g.starts(r, y.head) && e == Started(r, k, i) && ConstituentDerives(g, lex, y.head, k, i)
    ensures EdgeDerives(g, lex, e, r, kids, k, i)
  {
    var d :| Derives(g, lex, d, i) && Width(d) == k + 1 && Root(d) == y.head;
    kids := [d];
    assert kids[..0] == [];
    assert e.matched + e.right == r.right;
  }

  lemma ShiftedIsDerived(g: Syntax, lex: seq<seq<Symbol>>, k: nat, i: nat, a: nat, x: Edge, r: Rule, before: seq<Deriv>, y: Edge)
    returns (kids: seq<Deriv>)
    requires a < k && x.Active() && EdgeDerives(g, lex, x, r, before, a, i) && g.matches(x.right[0], y.head)
    requires ConstituentDerives(g, lex, y.head, k - a - 1, i + a + 1)
    ensures EdgeDerives(g, lex, x.Shift(k - a - 1, i + a + 1), r, kids, k, i)
  {
    var d :| Derives(g, lex, d, i + a + 1) && Width(d) == k - a && Root(d) == y.head;
    kids := before + [d];
    assert kids[..|before|] == before;
    assert r.right[|before|] == x.right[0];
    assert [x.right[0]] + x.right[1..] == x.right;
  }

  ghost predicate IsReading(lex: seq<seq<Symbol>>, k: nat, i: nat, e: Edge) {
    k == 0 && i < |lex| && e.head in lex[i] && e == LexEdge(e.head)
  }

  /** Edges other than readings are of rules. */
  lemma {:induction false} RuleEdgesHaveNonterminalHeads(g: Syntax, lex: seq<seq<Symbol>>, cells: seq<Cell>, n: nat,
                                                         k: nat, i: nat, e: Edge)
    requires g.WellFormed() && ChartOk(g, lex, cells, n) && InTriangle(n, k, i)
    requires e in At(cells, n, k, i) && !IsReading(lex, k, i, e)
    ensures !g.IsTerminal(e.head)
    decreases k
  {
    assert CellOk(g, lex, cells, n, k, i);
    if StartedIn(g, At(cells, n, k, i), k, i, e) {
      var r, y :| StartsOn(g, At(cells, n, k, i), k, i, e, r, y);
      assert r in g.rules;
    } else {
      var a, x :| ShiftedFrom(g, cells, n, k, i, e, a, x);
      RuleEdgesHaveNonterminalHeads(g, lex, cells, n, a, i, x);
    }
  }

  /** A unary rule started on a constituent of the same cell is higher in the ranking. */
  lemma StartIsLower(g: Syntax, lex: seq<seq<Symbol>>, cells: seq<Cell>, n: nat, rank: Symbol -> nat,
                     k: nat, i: nat, r: Rule, y: Edge)
    requires g.WellFormed() && g.Ranked(rank) && ChartOk(g, lex, cells, n) && InTriangle(n, k, i)
    requires y in At(cells, n, k, i) && !IsReading(lex, k, i, y) && g.starts(r, y.head) && |r.right| == 1
    ensures rank(y.head) < rank(r.head)
  {
    RuleEdgesHaveNonterminalHeads(g, lex, cells, n, k, i, y);
    assert r in g.rules && r.right[0] == y.head;
  }

  /** MAIN RESULT: the complete edges of the chart are exactly the constituents the grammar
      derives: head `h` is in cell (k,i) if and only if it derives the words `i` to `i+k`. */
  lemma ChartIsSoundAndComplete(g: Syntax, lex: seq<seq<Symbol>>, cells: seq<Cell>, n: nat, rank: Symbol -> nat,
                                k: nat, i: nat, h: Symbol)
    requires g.WellFormed() && g.Ranked(rank) && ChartOk(g, lex, cells, n) && InTriangle(n, k, i)
    ensures HasConstituent(cells, n, k, i, h) <==> ConstituentDerives(g, lex, h, k, i)
  {
    if HasConstituent(cells, n, k, i, h) {
      var e :| e in At(cells, n, k, i) && !e.Active() && e.head == h;
      ConstituentIsDerived(g, lex, cells, n, rank, k, i, e);
    }
    if ConstituentDerives(g, lex, h, k, i) {
      var d :| Derives(g, lex, d, i) && Width(d) == k + 1 && Root(d) == h;
      DerivedIsInChart(g, lex, cells, n, d, i);
    }
  }

  /** The syntax in which the first symbol of a rule is matched like any other. */
  ghost function PlainSyntaxOf(g: Grammar): Syntax {
    SyntaxOf(g).(starts := (r, found) => r in g.rules && r.right != [] && g.CheckMatch(r.right[0], found))
  }

  /** Two syntaxes that differ only in how rules are looked up, and agree on that, derive the same. */
  lemma {:induction false} SameDerivations(g: Syntax, h: Syntax, lex: seq<seq<Symbol>>, d: Deriv, i: nat)
    requires g.rules == h.rules && g.matches == h.matches
    requires forall r, found :: r in g.rules ==> (g.starts(r, found) <==> h.starts(r, found))
    ensures Derives(g, lex, d, i) <==> Derives(h, lex, d, i)
    decreases d, 1
  {
    match d
    case Leaf(_) =>
    case Node(r, kids) =>
      if r in g.rules && |kids| == |r.right| {
        SameKids(g, h, lex, r, kids, i);
      }
  }

  lemma {:induction false} SameKids(g: Syntax, h: Syntax, lex: seq<seq<Symbol>>, r: Rule, kids: seq<Deriv>, i: nat)
    requires g.rules == h.rules && g.matches == h.matches && r in g.rules && |kids| <= |r.right|
    requires forall r, found :: r in g.rules ==> (g.starts(r, found) <==> h.starts(r, found))
    ensures KidsDerive(g, lex, r, kids, i) <==> KidsDerive(h, lex, r, kids, i)
    decreases kids, 0
  {
    if kids != [] {
      var m := |kids| - 1;
      SameKids(g, h, lex, r, kids[..m], i);
      SameDerivations(g, h, lex, kids[m], i + Widths(kids[..m]));
    }
  }

  lemma SyntaxIsWellFormed(g: Grammar, rank: Symbol -> nat, top: nat)
    requires Grammars.WellFormed(g) && Grammars.Ranked(g, rank, top)
    ensures SyntaxOf(g).WellFormed() && SyntaxOf(g).Ranked(rank)
  {
  }

  /** MAIN RESULT: with correctly flagged wildcards the chart holds exactly what the plain
      grammar derives, in which every symbol of a rule is matched alike. */
  lemma ChartMatchesPlainGrammar(g: Grammar, lex: seq<seq<Symbol>>, cells: seq<Cell>, n: nat, rank: Symbol -> nat, top: nat,
                                 k: nat, i: nat, h: Symbol)
    requires Grammars.WellFormed(g) && WellFlagged(g) && Grammars.Ranked(g, rank, top)
    requires ChartOk(SyntaxOf(g), lex, cells, n) && InTriangle(n, k, i)
    ensures HasConstituent(cells, n, k, i, h) <==> ConstituentDerives(PlainSyntaxOf(g), lex, h, k, i)
  {
    SyntaxIsWellFormed(g, rank, top);
    ChartIsSoundAndComplete(SyntaxOf(g), lex, cells, n, rank, k, i, h);
    forall r, found | r in SyntaxOf(g).rules
      ensures SyntaxOf(g).starts(r, found) <==> PlainSyntaxOf(g).starts(r, found)
    {
      StartsIffMatches(g, r, found);
    }
    forall d
      ensures Derives(SyntaxOf(g), lex, d, i) <==> Derives(PlainSyntaxOf(g), lex, d, i)
    {
      SameDerivations(SyntaxOf(g), PlainSyntaxOf(g), lex, d, i);
    }
  }
}
