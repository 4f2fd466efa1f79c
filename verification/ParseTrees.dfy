/** Parse trees: what the tree of a chart must be, and what removing hidden nodes keeps. */
module ParseTrees {
  import opened Grammars
  import opened ChartIndex
  import opened ChartSpec
  import opened BestEdges
  import opened ChartEdges
  import opened SyntaxTrees

  /** The whole derivation that a tree is made from: the edge chosen for every constituent. */
  datatype Full = Word(sym: Symbol) | Phrase(edge: Edge, kids: seq<Full>)

  function Top(f: Full): Symbol {
    match f
    case Word(s) => s
    case Phrase(e, _) => e.head
  }

  /** Nodes that are removed below a node with the given category; their daughters take their place. */
  predicate Skipped(g: Grammar, cat: Symbol, below: Symbol) {
    below in g.hidden || below in g.onlytop || (below in g.flat && below == cat)
  }

  function Unheaded(ts: seq<Tree>): (r: seq<Tree>)
    ensures |r| == |ts|
  {
    seq(|ts|, j requires 0 <= j < |ts| => ts[j].(head := false))
  }

  /** What a child contributes to the daughters of its parent. */
  function Kept(g: Grammar, cat: Symbol, governs: bool, child: Tree): seq<Tree> {
    if Skipped(g, cat, child.cat) then
      if governs then child.kids else Unheaded(child.kids)
    else [if governs then child.(head := true) else child]
  }

  /** The tree made of a derivation. */
  function Shape(g: Grammar, f: Full): Tree
    decreases f, 0
  {
    match f
    case Word(s) => Tree(s, false, 0, 0, [])
    case Phrase(e, kids) => Tree(e.head, false, 0, 0, Daughters(g, e.head, e.gov, kids))
  }

  function Daughters(g: Grammar, cat: Symbol, gov: nat, kids: seq<Full>): seq<Tree>
    decreases kids, 1
  {
    if kids == [] then [] else
    var m := |kids| - 1;
    Daughters(g, cat, gov, kids[..m]) + Kept(g, cat, m == gov, Shape(g, kids[m]))
  }

  /** A symbol that may stand for word `i`. */
  ghost predicate WordFits(g: Grammar, lex: seq<seq<Symbol>>, i: int, s: Symbol) {
    0 <= i < |lex| && exists h :: h in lex[i] && g.CheckMatch(s, h)
  }

  /** `e` is the best edge for its head in cell (x,y), one of the longest, and its matches tile the words
      of the cell. */
  ghost predicate Expands(g: Grammar, cells: seq<Cell>, n: nat, x: int, y: int, e: Edge) {
    && !g.IsTerminal(e.head) && IsBest(g, HeadIs(e.head), At(cells, n, x, y), NO_EDGE, e)
    && IsLongest(At(cells, n, x, y), e)
    && 0 < |e.matched| == |e.backpath| && Tiles(e.backpath, y, x + 1)
    && (e.head != g.start ==> e.gov < |e.matched| && g.start !in e.matched)
  }

  /** `f` derives the words of cell (x,y), by the best edge for each constituent. */
  ghost predicate Fits(g: Grammar, lex: seq<seq<Symbol>>, cells: seq<Cell>, n: nat, x: int, y: int, f: Full)
    decreases f, 0
  {
    match f
    case Word(s) => x == 0 && g.IsTerminal(s) && WordFits(g, lex, y, s)
    case Phrase(e, kids) => Expands(g, cells, n, x, y, e) && TopsAre(kids, e.matched) && AllFit(g, lex, cells, n, e.backpath, kids)
  }

  /** `t` is the tree, without the nodes removed, of a derivation of symbol `s` in cell (x,y) by best edges. */
  ghost predicate IsTreeOf(g: Grammar, lex: seq<seq<Symbol>>, cells: seq<Cell>, n: nat, x: int, y: int, s: Symbol, t: Tree) {
    exists f :: IsTreeBy(g, lex, cells, n, x, y, s, t, f)
  }

  ghost predicate IsTreeBy(g: Grammar, lex: seq<seq<Symbol>>, cells: seq<Cell>, n: nat, x: int, y: int, s: Symbol, t: Tree, f: Full) {
    Fits(g, lex, cells, n, x, y, f) && Top(f) == s && t == Shape(g, f)
  }

  predicate TopsAre(kids: seq<Full>, ss: seq<Symbol>) {
    |kids| == |ss| && forall j :: 0 <= j < |kids| ==> Top(kids[j]) == ss[j]
  }

  ghost predicate AllFit(g: Grammar, lex: seq<seq<Symbol>>, cells: seq<Cell>, n: nat, path: seq<(int, int)>, kids: seq<Full>)
    decreases kids, 1
  {
    |path| == |kids| &&
    (kids == [] ||
     (var m := |kids| - 1;
      AllFit(g, lex, cells, n, path[..m], kids[..m]) && Fits(g, lex, cells, n, path[m].0, path[m].1, kids[m])))
  }

  /** The labels of the leaves, from left to right. */
  function Leaves(t: Tree): seq<Symbol> {
    if t.kids == [] then [t.cat] else LeavesOf(t.kids)
  }

  function LeavesOf(ts: seq<Tree>): seq<Symbol> {
    if ts == [] then [] else LeavesOf(ts[..|ts| - 1]) + Leaves(ts[|ts| - 1])
  }

  function Words(f: Full): seq<Symbol>
    decreases f, 0
  {
    match f
    case Word(s) => [s]
    case Phrase(_, kids) => WordsOf(kids)
  }

  function WordsOf(kids: seq<Full>): seq<Symbol>
    decreases kids, 1
  {
    if kids == [] then [] else WordsOf(kids[..|kids| - 1]) + Words(kids[|kids| - 1])
  }

  /** Only constituents can be removed: words cannot. */
  ghost predicate RemovesPhrases(g: Grammar) {
    forall s :: s in g.hidden || s in g.onlytop ==> !g.IsTerminal(s)
  }

  /** Words are terminals, phrases are non-terminals with something below. */
  ghost predicate Proper(g: Grammar, f: Full)
    decreases f, 0
  {
    match f
    case Word(s) => g.IsTerminal(s)
    case Phrase(e, kids) => !g.IsTerminal(e.head) && kids != [] && AllProper(g, kids)
  }

  ghost predicate AllProper(g: Grammar, kids: seq<Full>)
    decreases kids, 1
  {
    kids == [] || (AllProper(g, kids[..|kids| - 1]) && Proper(g, kids[|kids| - 1]))
  }

  lemma {:induction false} FittingIsProper(g: Grammar, lex: seq<seq<Symbol>>, cells: seq<Cell>, n: nat, x: int, y: int, f: Full)
    requires Fits(g, lex, cells, n, x, y, f)
    ensures Proper(g, f)
    decreases f, 0
  {
    if f.Phrase? {
      FittingAreProper(g, lex, cells, n, f.edge.backpath, f.kids);
    }
  }

  lemma {:induction false} FittingAreProper(g: Grammar, lex: seq<seq<Symbol>>, cells: seq<Cell>, n: nat,
                                            path: seq<(int, int)>, kids: seq<Full>)
    requires AllFit(g, lex, cells, n, path, kids)
    ensures AllProper(g, kids)
    decreases kids, 1
  {
    if kids != [] {
      var m := |kids| - 1;
      FittingAreProper(g, lex, cells, n, path[..m], kids[..m]);
      FittingIsProper(g, lex, cells, n, path[m].0, path[m].1, kids[m]);
    }
  }

  lemma {:induction false} LeavesOfSum(a: seq<Tree>, b: seq<Tree>)
    ensures LeavesOf(a + b) == LeavesOf(a) + LeavesOf(b)
  {
    if b == [] {
      assert a + b == a;
    } else {
      var m := |b| - 1;
      assert (a + b)[..|a + b| - 1] == a + b[..m];
      LeavesOfSum(a, b[..m]);
    }
  }

  lemma {:induction false} UnheadedKeepsLeaves(ts: seq<Tree>)
    ensures LeavesOf(Unheaded(ts)) == LeavesOf(ts)
  {
    if ts != [] {
      var m := |ts| - 1;
      UnheadedKeepsLeaves(ts[..m]);
      assert Unheaded(ts)[..m] == Unheaded(ts[..m]);
    }
  }

  lemma LeavesNotEmpty(t: Tree)
    ensures Leaves(t) != []
  {
    if t.kids != [] {
      LeavesNotEmpty(t.kids[|t.kids| - 1]);
    }
  }

  lemma KeptLeaves(g: Grammar, cat: Symbol, governs: bool, child: Tree)
    requires Skipped(g, cat, child.cat) ==> child.kids != []
    ensures LeavesOf(Kept(g, cat, governs, child)) == Leaves(child)
  {
    UnheadedKeepsLeaves(child.kids);
    var one := if governs then child.(head := true) else child;
    assert [one][..0] == [];
    assert LeavesOf([one]) == Leaves(one);
  }

  /** Removing nodes neither loses, adds nor reorders words. */
  lemma {:induction false} ShapeKeepsWords(g: Grammar, f: Full)
    requires RemovesPhrases(g) && Proper(g, f)
    ensures Leaves(Shape(g, f)) == Words(f)
    ensures f.Phrase? ==> Shape(g, f).kids != []
    decreases f, 0
  {
    if f.Phrase? {
      DaughtersKeepWords(g, f.edge.head, f.edge.gov, f.kids);
      var m := |f.kids| - 1;
      ShapeKeepsWords(g, f.kids[m]);
      LeavesNotEmpty(Shape(g, f.kids[m]));
    }
  }

  lemma {:induction false} DaughtersKeepWords(g: Grammar, cat: Symbol, gov: nat, kids: seq<Full>)
    requires RemovesPhrases(g) && AllProper(g, kids)
    requires !g.IsTerminal(cat)
    ensures LeavesOf(Daughters(g, cat, gov, kids)) == WordsOf(kids)
    decreases kids, 1
  {
    if kids != [] {
      var m := |kids| - 1;
      DaughtersKeepWords(g, cat, gov, kids[..m]);
      ShapeKeepsWords(g, kids[m]);
      var last := Shape(g, kids[m]);
      KeptLeaves(g, cat, m == gov, last);
      LeavesOfSum(Daughters(g, cat, gov, kids[..m]), Kept(g, cat, m == gov, last));
    }
  }

  /** The symbols `ss` may stand for the words from `y` on. */
  ghost predicate AllWordsFit(g: Grammar, lex: seq<seq<Symbol>>, y: int, ss: seq<Symbol>) {
    forall j {:trigger ss[j]} :: 0 <= j < |ss| ==> WordFits(g, lex, y + j, ss[j])
  }

  lemma {:induction false} WordsFit(g: Grammar, lex: seq<seq<Symbol>>, cells: seq<Cell>, n: nat, x: int, y: int, f: Full)
    requires Fits(g, lex, cells, n, x, y, f)
    ensures |Words(f)| == x + 1 && AllWordsFit(g, lex, y, Words(f))
    decreases f, 0
  {
    if f.Phrase? {
      WordsOfFit(g, lex, cells, n, f.edge.backpath, y, x + 1, f.kids);
    }
  }

  lemma {:induction false} WordsOfFit(g: Grammar, lex: seq<seq<Symbol>>, cells: seq<Cell>, n: nat,
                                      path: seq<(int, int)>, y: int, w: int, kids: seq<Full>)
    requires AllFit(g, lex, cells, n, path, kids) && Tiles(path, y, w)
    ensures |WordsOf(kids)| == w && AllWordsFit(g, lex, y, WordsOf(kids))
    decreases kids, 1
  {
    if kids != [] {
      var m := |kids| - 1;
      var (p, q) := path[m];
      WordsOfFit(g, lex, cells, n, path[..m], y, w - p - 1, kids[..m]);
      WordsFit(g, lex, cells, n, p, q, kids[m]);
    }
  }

  /** MAIN RESULT: the tree of cell (x,y) has one leaf per word of the cell, in order, each with a
      symbol that the grammar accepts for its word, however many nodes have been removed. */
  lemma TreeLeavesAreTheWords(g: Grammar, lex: seq<seq<Symbol>>, cells: seq<Cell>, n: nat, x: int, y: int, f: Full)
    requires RemovesPhrases(g) && Fits(g, lex, cells, n, x, y, f)
    ensures |Leaves(Shape(g, f))| == x + 1
    ensures forall j :: 0 <= j <= x ==> WordFits(g, lex, y + j, Leaves(Shape(g, f))[j])
  {
    FittingIsProper(g, lex, cells, n, x, y, f);
    ShapeKeepsWords(g, f);
    WordsFit(g, lex, cells, n, x, y, f);
  }

  lemma {:induction false} UnheadedHasNoHeads(ts: seq<Tree>)
    ensures Heads(Unheaded(ts)) == 0
  {
    if ts != [] {
      UnheadedHasNoHeads(ts[..|ts| - 1]);
      assert Unheaded(ts)[..|ts| - 1] == Unheaded(ts[..|ts| - 1]);
    }
  }

  /** Every node with daughters has exactly one head daughter, or none if it is a start node. */
  ghost predicate OneHead(g: Grammar, t: Tree) {
    && (t.kids != [] ==> Heads(t.kids) <= 1 && (t.cat != g.start ==> Heads(t.kids) == 1))
    && AllOneHead(g, t.kids)
  }

  ghost predicate AllOneHead(g: Grammar, ts: seq<Tree>) {
    forall j :: 0 <= j < |ts| ==> OneHead(g, ts[j])
  }

  /** No node of a list, nor below, is one that should have been removed. */
  ghost predicate Shown(g: Grammar, ts: seq<Tree>) {
    forall j :: 0 <= j < |ts| ==> ts[j].cat !in g.hidden && ts[j].cat !in g.onlytop && Shown(g, ts[j].kids)
  }

  lemma KeptHeads(g: Grammar, cat: Symbol, governs: bool, child: Tree)
    requires !child.head && OneHead(g, child) && Shown(g, child.kids)
    requires Skipped(g, cat, child.cat) ==> child.kids != []
    ensures Heads(Kept(g, cat, governs, child)) <= if governs then 1 else 0
    ensures child.cat != g.start ==> Heads(Kept(g, cat, governs, child)) == if governs then 1 else 0
    ensures AllOneHead(g, Kept(g, cat, governs, child)) && Shown(g, Kept(g, cat, governs, child))
  {
    UnheadedHasNoHeads(child.kids);
    var one := if governs then child.(head := true) else child;
    assert [one][..0] == [];
    assert Heads([one]) == if governs then 1 else 0;
    assert OneHead(g, one);
    forall j | 0 <= j < |child.kids|
      ensures OneHead(g, child.kids[j].(head := false))
    {
      assert OneHead(g, child.kids[j]);
    }
  }

  /** MAIN RESULT: in the tree of a derivation every constituent keeps exactly one head daughter,
      also where the head child was removed, and no hidden or top-only node is left below the root. */
  lemma {:induction false} TreeIsHeadedAndShown(g: Grammar, lex: seq<seq<Symbol>>, cells: seq<Cell>, n: nat, x: int, y: int, f: Full)
    requires RemovesPhrases(g) && Fits(g, lex, cells, n, x, y, f)
    ensures OneHead(g, Shape(g, f)) && Shown(g, Shape(g, f).kids)
    decreases f, 0
  {
    if f.Phrase? {
      DaughtersAreHeaded(g, lex, cells, n, f.edge.head, f.edge.gov, f.edge.backpath, f.kids);
    }
  }

  predicate NoneIs(kids: seq<Full>, s: Symbol) {
    forall j :: 0 <= j < |kids| ==> Top(kids[j]) != s
  }

  ghost predicate HeadedDaughters(g: Grammar, cat: Symbol, gov: nat, kids: seq<Full>) {
    var ts := Daughters(g, cat, gov, kids);
    && Heads(ts) <= (if gov < |kids| then 1 else 0)
    && (NoneIs(kids, g.start) ==> Heads(ts) == if gov < |kids| then 1 else 0)
    && AllOneHead(g, ts) && Shown(g, ts)
  }

  lemma {:induction false} DaughtersAreHeaded(g: Grammar, lex: seq<seq<Symbol>>, cells: seq<Cell>, n: nat, cat: Symbol, gov: nat,
                                              path: seq<(int, int)>, kids: seq<Full>)
    requires RemovesPhrases(g) && !g.IsTerminal(cat) && AllFit(g, lex, cells, n, path, kids)
    ensures HeadedDaughters(g, cat, gov, kids)
    decreases kids, 1
  {
    if kids != [] {
      var m := |kids| - 1;
      DaughtersAreHeaded(g, lex, cells, n, cat, gov, path[..m], kids[..m]);
      TreeIsHeadedAndShown(g, lex, cells, n, path[m].0, path[m].1, kids[m]);
      FittingIsProper(g, lex, cells, n, path[m].0, path[m].1, kids[m]);
      ShapeKeepsWords(g, kids[m]);
      OneMoreDaughter(g, cat, gov, kids, m);
    }
  }

  lemma OneMoreDaughter(g: Grammar, cat: Symbol, gov: nat, kids: seq<Full>, m: nat)
    requires m == |kids| - 1
    requires Skipped(g, cat, Top(kids[m])) ==> Shape(g, kids[m]).kids != []
    requires HeadedDaughters(g, cat, gov, kids[..m])
    requires OneHead(g, Shape(g, kids[m])) && Shown(g, Shape(g, kids[m]).kids)
    ensures HeadedDaughters(g, cat, gov, kids)
  {
    AppendKept(g, cat, m == gov, Daughters(g, cat, gov, kids[..m]), Shape(g, kids[m]));
  }

  lemma AppendKept(g: Grammar, cat: Symbol, governs: bool, before: seq<Tree>, child: Tree)
    requires AllOneHead(g, before) && Shown(g, before) && !child.head && OneHead(g, child) && Shown(g, child.kids)
    requires Skipped(g, cat, child.cat) ==> child.kids != []
    ensures var more := before + Kept(g, cat, governs, child);
            && AllOneHead(g, more) && Shown(g, more) && Heads(more) <= Heads(before) + (if governs then 1 else 0)
            && (child.cat != g.start ==> Heads(more) == Heads(before) + if governs then 1 else 0)
  {
    KeptHeads(g, cat, governs, child);
    HeadsOfSum(before, Kept(g, cat, governs, child));
    SumIsTidy(g, before, Kept(g, cat, governs, child));
  }

  lemma SumIsTidy(g: Grammar, a: seq<Tree>, b: seq<Tree>)
    requires AllOneHead(g, a) && AllOneHead(g, b) && Shown(g, a) && Shown(g, b)
    ensures AllOneHead(g, a + b) && Shown(g, a + b)
  {
  }
}
