/** The heads of a tree are those of the rules, also where nodes have been removed; and what is left of
    flat nodes. */
module GovernedHeads {
  import opened Grammars
  import opened ChartIndex
  import opened ChartSpec
  import opened BestEdges
  import opened ChartEdges
  import opened ParseTrees
  import opened SyntaxTrees

  /** The leaf, counted from the left, that the marked daughters lead down to. */
  function HeadLeaf(t: Tree): nat
    decreases t, 1
  {
    if t.kids == [] then 0 else HeadLeafOf(t.kids)
  }

  function HeadLeafOf(ts: seq<Tree>): nat
    decreases ts, 0
  {
    if ts == [] then 0 else
    var m := |ts| - 1;
    if Heads(ts[..m]) > 0 then HeadLeafOf(ts[..m]) else |LeavesOf(ts[..m])| + HeadLeaf(ts[m])
  }

  /** The word, counted from the left, that the governors of the rules lead down to. */
  function GovernorWord(f: Full): nat
    decreases f, 1
  {
    match f
    case Word(_) => 0
    case Phrase(e, kids) => if e.gov < |kids| then |WordsOf(kids[..e.gov])| + GovernorWord(kids[e.gov]) else 0
  }

  /** Every phrase has a governor, and none is the start symbol. */
  ghost predicate HasGovernors(g: Grammar, f: Full)
    decreases f, 0
  {
    match f
    case Word(_) => true
    case Phrase(e, kids) => e.head != g.start && e.gov < |kids| && AllGovernors(g, kids)
  }

  ghost predicate AllGovernors(g: Grammar, kids: seq<Full>)
    decreases kids, 1
  {
    kids == [] || (AllGovernors(g, kids[..|kids| - 1]) && HasGovernors(g, kids[|kids| - 1]))
  }

  lemma {:induction false} HeadLeafBefore(a: seq<Tree>, b: seq<Tree>)
    requires Heads(a) > 0
    ensures HeadLeafOf(a + b) == HeadLeafOf(a)
  {
    if b == [] {
      assert a + b == a;
    } else {
      var m := |b| - 1;
      assert (a + b)[..|a| + m] == a + b[..m];
      HeadLeafBefore(a, b[..m]);
      HeadsOfSum(a, b[..m]);
    }
  }

  lemma {:induction false} HeadLeafAfter(a: seq<Tree>, b: seq<Tree>)
    requires Heads(a) == 0 && Heads(b) > 0
    ensures HeadLeafOf(a + b) == |LeavesOf(a)| + HeadLeafOf(b)
  {
    var m := |b| - 1;
    assert (a + b)[..|a| + m] == a + b[..m];
    HeadsOfSum(a, b[..m]);
    LeavesOfSum(a, b[..m]);
    if Heads(b[..m]) > 0 {
      HeadLeafAfter(a, b[..m]);
    }
  }

  lemma OneHeadLeaf(t: Tree)
    ensures Heads([t]) == (if t.head then 1 else 0) && HeadLeafOf([t]) == HeadLeaf(t)
  {
    assert [t][..0] == [];
  }

  /** What a child gives to its parent has the head of the child, if the child governs, or none. */
  lemma KeptHead(g: Grammar, cat: Symbol, governs: bool, child: Tree)
    requires !child.head && (Skipped(g, cat, child.cat) ==> Heads(child.kids) > 0)
    ensures var k := Kept(g, cat, governs, child);
            if governs then Heads(k) > 0 && HeadLeafOf(k) == HeadLeaf(child) else Heads(k) == 0
  {
    UnheadedHasNoHeads(child.kids);
    OneHeadLeaf(child.(head := true));
    OneHeadLeaf(child);
  }

  /** MAIN RESULT: the marked daughters of a tree lead to the word that the governors of the rules lead to. */
  lemma {:induction false} HeadIsGovernor(g: Grammar, f: Full)
    requires RemovesPhrases(g) && Proper(g, f) && HasGovernors(g, f)
    ensures HeadLeaf(Shape(g, f)) == GovernorWord(f)
    ensures f.Phrase? ==> Heads(Shape(g, f).kids) > 0
    decreases f, 0
  {
    if f.Phrase? {
      DaughtersHaveHead(g, f.edge.head, f.edge.gov, f.kids);
    }
  }

  lemma {:induction false} DaughtersHaveHead(g: Grammar, cat: Symbol, gov: nat, kids: seq<Full>)
    requires RemovesPhrases(g) && !g.IsTerminal(cat) && AllProper(g, kids) && AllGovernors(g, kids)
    ensures HeadIsAt(Daughters(g, cat, gov, kids), gov < |kids|, GovernorLeaf(kids, gov))
    decreases kids, 1
  {
    if kids != [] {
      var m := |kids| - 1;
      DaughtersHaveHead(g, cat, gov, kids[..m]);
      HeadIsGovernor(g, kids[m]);
      ShapeKeepsWords(g, kids[m]);
      DaughtersKeepWords(g, cat, gov, kids[..m]);
      LastDaughterHead(g, cat, gov, kids, m);
    }
  }

  /** The head of a list, with what the last child gives to it. */
  ghost predicate HeadIsAt(ts: seq<Tree>, there: bool, leaf: nat) {
    if there then Heads(ts) > 0 && HeadLeafOf(ts) == leaf else Heads(ts) == 0
  }

  lemma JoinHeads(before: seq<Tree>, last: seq<Tree>, had: bool, leaf: nat, has: bool, next: nat)
    requires HeadIsAt(before, had, leaf) && HeadIsAt(last, has, next) && !(had && has)
    ensures HeadIsAt(before + last, had || has, if had then leaf else |LeavesOf(before)| + next)
  {
    HeadsOfSum(before, last);
    if had {
      HeadLeafBefore(before, last);
    } else if has {
      HeadLeafAfter(before, last);
    }
  }

  /** Where the head is, after the child that governs. */
  function GovernorLeaf(kids: seq<Full>, gov: nat): nat {
    if gov < |kids| then |WordsOf(kids[..gov])| + GovernorWord(kids[gov]) else 0
  }

  lemma LastDaughterHead(g: Grammar, cat: Symbol, gov: nat, kids: seq<Full>, m: nat)
    requires m == |kids| - 1
    requires Skipped(g, cat, Top(kids[m])) ==> Heads(Shape(g, kids[m]).kids) > 0
    requires HeadLeaf(Shape(g, kids[m])) == GovernorWord(kids[m])
    requires |LeavesOf(Daughters(g, cat, gov, kids[..m]))| == |WordsOf(kids[..m])|
    requires HeadIsAt(Daughters(g, cat, gov, kids[..m]), gov < m, GovernorLeaf(kids[..m], gov))
    ensures HeadIsAt(Daughters(g, cat, gov, kids), gov < |kids|, GovernorLeaf(kids, gov))
  {
    var before, last := Daughters(g, cat, gov, kids[..m]), Kept(g, cat, m == gov, Shape(g, kids[m]));
    KeptHead(g, cat, m == gov, Shape(g, kids[m]));
    JoinHeads(before, last, gov < m, GovernorLeaf(kids[..m], gov), m == gov, GovernorWord(kids[m]));
    if gov < m {
      assert kids[..m][..gov] == kids[..gov];
    }
  }

  /** A derivation read from a chart has governors, unless it is that of the made-up root. */
  lemma {:induction false} FittingHasGovernors(g: Grammar, lex: seq<seq<Symbol>>, cells: seq<Cell>, n: nat, x: int, y: int, f: Full)
    requires g.start in g.nonterminal && Fits(g, lex, cells, n, x, y, f) && Top(f) != g.start
    ensures HasGovernors(g, f)
    decreases f, 0
  {
    if f.Phrase? {
      AllFittingHaveGovernors(g, lex, cells, n, f.edge.backpath, f.edge.matched, f.kids);
    }
  }

  lemma {:induction false} AllFittingHaveGovernors(g: Grammar, lex: seq<seq<Symbol>>, cells: seq<Cell>, n: nat,
                                                   path: seq<(int, int)>, ss: seq<Symbol>, kids: seq<Full>)
    requires g.start in g.nonterminal && AllFit(g, lex, cells, n, path, kids) && TopsAre(kids, ss) && g.start !in ss
    ensures AllGovernors(g, kids)
    decreases kids, 1
  {
    if kids != [] {
      var m := |kids| - 1;
      AllFittingHaveGovernors(g, lex, cells, n, path[..m], ss[..m], kids[..m]);
      assert ss[m] in ss;
      FittingHasGovernors(g, lex, cells, n, path[m].0, path[m].1, kids[m]);
    }
  }

  predicate HasLabel(ts: seq<Tree>, c: Symbol) {
    exists j :: 0 <= j < |ts| && ts[j].cat == c
  }

  lemma LabelOfSum(a: seq<Tree>, b: seq<Tree>, c: Symbol)
    ensures HasLabel(a + b, c) <==> HasLabel(a, c) || HasLabel(b, c)
  {
    if HasLabel(a, c) {
      var j :| 0 <= j < |a| && a[j].cat == c;
      assert (a + b)[j].cat == c;
    }
    if HasLabel(b, c) {
      var j :| 0 <= j < |b| && b[j].cat == c;
      assert (a + b)[|a| + j].cat == c;
    }
  }

  lemma LabelOfKept(g: Grammar, cat: Symbol, governs: bool, child: Tree, c: Symbol)
    ensures HasLabel(Kept(g, cat, governs, child), c)
       <==> if Skipped(g, cat, child.cat) then HasLabel(child.kids, c) else child.cat == c
  {
    var k := Kept(g, cat, governs, child);
    if Skipped(g, cat, child.cat) {
      assert |k| == |child.kids| && forall j :: 0 <= j < |k| ==> k[j].cat == child.kids[j].cat;
    } else {
      assert |k| == 1 && k[0].cat == child.cat;
    }
  }

  /** Below a phrase labelled `c` a phrase with that label comes up from below a node that is hidden, or
      allowed only at the top, which is removed itself. */
  ghost predicate ComesUp(g: Grammar, c: Symbol, kids: seq<Full>)
    decreases kids, 1
  {
    kids != [] &&
    (var m := |kids| - 1;
     ComesUp(g, c, kids[..m]) || ComesUpFrom(g, c, kids[m]))
  }

  ghost predicate ComesUpFrom(g: Grammar, c: Symbol, f: Full)
    decreases f, 0
  {
    if Top(f) in g.hidden || Top(f) in g.onlytop then HasLabel(Shape(g, f).kids, c)
    else f.Phrase? && Top(f) == c && ComesUp(g, c, f.kids)
  }

  /** A flat node is left directly below one with its label exactly if it comes up from below such a node. */
  lemma {:induction false} FlatBelowItselfIff(g: Grammar, c: Symbol, gov: nat, kids: seq<Full>)
    requires c in g.flat && c !in g.hidden && c !in g.onlytop
    ensures HasLabel(Daughters(g, c, gov, kids), c) <==> ComesUp(g, c, kids)
    decreases kids, 1
  {
    if kids != [] {
      var m := |kids| - 1;
      var last := Shape(g, kids[m]);
      FlatBelowItselfIff(g, c, gov, kids[..m]);
      LabelOfSum(Daughters(g, c, gov, kids[..m]), Kept(g, c, m == gov, last), c);
      LabelOfKept(g, c, m == gov, last, c);
      if kids[m].Phrase? && Top(kids[m]) == c {
        FlatBelowItselfIff(g, c, kids[m].edge.gov, kids[m].kids);
      }
    }
  }

  /** No flat node is directly below one with its label. */
  ghost predicate IsFlattened(g: Grammar, t: Tree) {
    && (t.cat in g.flat ==> !HasLabel(t.kids, t.cat))
    && forall j :: 0 <= j < |t.kids| ==> IsFlattened(g, t.kids[j])
  }

  ghost predicate AllFlattened(g: Grammar, ts: seq<Tree>) {
    forall j :: 0 <= j < |ts| ==> IsFlattened(g, ts[j])
  }

  lemma {:induction false} NothingComesUp(g: Grammar, c: Symbol, kids: seq<Full>)
    requires g.hidden == {} && g.onlytop == {}
    ensures !ComesUp(g, c, kids)
    decreases kids, 1
  {
    if kids != [] {
      var m := |kids| - 1;
      NothingComesUp(g, c, kids[..m]);
      if kids[m].Phrase? {
        NothingComesUp(g, c, kids[m].kids);
      }
    }
  }

  lemma KeptIsFlattened(g: Grammar, cat: Symbol, governs: bool, child: Tree)
    requires IsFlattened(g, child)
    ensures AllFlattened(g, Kept(g, cat, governs, child))
  {
    var k := Kept(g, cat, governs, child);
    forall j | 0 <= j < |k|
      ensures IsFlattened(g, k[j])
    {
      assert Skipped(g, cat, child.cat) ==> IsFlattened(g, child.kids[j]);
    }
  }

  /** Without hidden or top-only nodes, all flat nodes are flattened. */
  lemma {:induction false} TreeIsFlattened(g: Grammar, f: Full)
    requires g.hidden == {} && g.onlytop == {}
    ensures IsFlattened(g, Shape(g, f))
    decreases f, 0
  {
    if f.Phrase? {
      DaughtersAreFlattened(g, f.edge.head, f.edge.gov, f.kids);
      NothingComesUp(g, f.edge.head, f.kids);
      if f.edge.head in g.flat {
        FlatBelowItselfIff(g, f.edge.head, f.edge.gov, f.kids);
      }
    }
  }

  lemma {:induction false} DaughtersAreFlattened(g: Grammar, cat: Symbol, gov: nat, kids: seq<Full>)
    requires g.hidden == {} && g.onlytop == {}
    ensures AllFlattened(g, Daughters(g, cat, gov, kids))
    decreases kids, 1
  {
    if kids != [] {
      var m := |kids| - 1;
      DaughtersAreFlattened(g, cat, gov, kids[..m]);
      TreeIsFlattened(g, kids[m]);
      KeptIsFlattened(g, cat, m == gov, Shape(g, kids[m]));
    }
  }

  /** A noun phrase within a hidden phrase within a noun phrase. */
  function HiddenBetween(): Full {
    Phrase(Edge("np", ["x"], [], 0, [(0, 0)]),
           [Phrase(Edge("x", ["np"], [], 0, [(0, 0)]), [Phrase(Edge("np", ["N"], [], 0, [(0, 0)]), [Word("N")])])])
  }

  /** It leaves a noun phrase directly below another, although both are flat. */
  lemma FlatIsLeft(g: Grammar)
    requires g.flat == {"np"} && g.hidden == {"x"} && g.onlytop == {}
    ensures ComesUp(g, "np", HiddenBetween().kids) && !IsFlattened(g, Shape(g, HiddenBetween()))
  {
    var inner := Phrase(Edge("np", ["N"], [], 0, [(0, 0)]), [Word("N")]);
    var mid := Phrase(Edge("x", ["np"], [], 0, [(0, 0)]), [inner]);
    assert [inner][..0] == [] && [mid][..0] == [];
    var t := Shape(g, inner);
    assert t.cat == "np" && !Skipped(g, "x", "np");
    assert Daughters(g, "x", 0, [inner]) == Kept(g, "x", true, t) == [t.(head := true)];
    assert Shape(g, mid).kids[0].cat == "np";
    assert HasLabel(Shape(g, mid).kids, "np");
    FlatBelowItselfIff(g, "np", 0, [mid]);
  }

  /** The root made up has no head daughter, unless it has as many daughters as its mark for "no
      governor" says. */
  lemma RootHasNoHead(g: Grammar, e: Edge, kids: seq<Full>)
    requires RemovesPhrases(g) && !g.IsTerminal(e.head) && AllProper(g, kids) && AllGovernors(g, kids)
    requires e.gov == NOGOV && |kids| < 99999
    ensures Heads(Shape(g, Phrase(e, kids)).kids) == 0
  {
    DaughtersHaveHead(g, e.head, e.gov, kids);
  }
}
