/** Sentences for which the parser does what it should not: a root that may not be at the top, a tree
    without label, and no tree at all. */
module ChartCases {
  import opened Grammars
  import opened ChartIndex
  import opened ChartSpec
  import opened FindRules
  import opened ChartFill
  import opened BestEdges
  import opened ChartEdges
  import opened ChartCover
  import opened ParseTrees
  import opened TreeSteps

  /** Two phrases of one noun; the preferred one may not be at the top. */
  function NounGrammar(): Grammar {
    Grammar([Rule("np", ["N"], 0), Rule("vp", ["N"], 0)], [], {"S", "np", "vp"}, "S", {}, map["np" := 1, "vp" := 2],
            {}, {}, {"np"}, {})
  }

  /** A phrase of two nouns, which is hidden. */
  function PairGrammar(): Grammar {
    Grammar([Rule("np", ["N", "N"], 0)], [], {"S", "np"}, "S", {}, map[], {"np"}, {}, {}, {})
  }

  function Noun(): ChartWord {
    ChartWord("dog", [("N", "dog")])
  }

  /** A word that is a closing bracket. */
  function Bracket(): ChartWord {
    ChartWord(")>", [("F", ")>")])
  }

  function RankOf(): Symbol -> nat {
    s => if s == "N" then 0 else 1
  }

  /** A reading is there as its tag, with the form in round brackets, and with the lemma in angle brackets. */
  lemma ThreeReadings()
    ensures Lexicon([ChartWord("dogs", [("N", "dog")])])[0] == ["N", "N(dogs)", "N<dog>"]
  {
    var w := ChartWord("dogs", [("N", "dog")]);
    ReadingsOf(w);
    assert ReadingHeads(w, ("N", "dog")) == ["N", "N" + "(" + "dogs" + ")", "N" + "<" + "dog" + ">"];
    assert "N" + "(" + "dogs" + ")" == "N(dogs)" && "N" + "<" + "dog" + ">" == "N<dog>";
  }

  /** What the parser demands of grammar and words. */
  ghost predicate Parsable(g: Grammar, ws: seq<ChartWord>) {
    && WellFormed(g) && WellFlagged(g) && Governed(g) && RemovesPhrases(g) && Ranked(g, RankOf(), 1)
    && ws != [] && TerminalReadings(g, Lexicon(ws))
  }

  lemma ReadingsOf(w: ChartWord)
    requires |w.readings| == 1
    ensures WordHeads(w, w.readings) == ReadingHeads(w, w.readings[0])
  {
    assert w.readings[..0] == [];
  }

  lemma NounsAreFlagged(g: Grammar)
    requires g == NounGrammar() || g == PairGrammar()
    ensures WellFlagged(g) && WellFormed(g)
  {
    forall r, s | r in g.rules && s in r.right
      ensures s == "N" && Initial(s) != "*" && WildcardsAreTerminal(g, s)
    {
      assert s == "N" && Initial("N")[0] == 'N';
    }
  }

  lemma NounsAreGoverned(g: Grammar)
    requires g == NounGrammar() || g == PairGrammar()
    ensures Governed(g) && RemovesPhrases(g) && Ranked(g, RankOf(), 1)
  {
    forall r, s | r in g.rules && s in r.right
      ensures s == "N"
    {
    }
  }

  lemma NounIsParsable()
    ensures Parsable(NounGrammar(), [Noun()])
  {
    NounsAreFlagged(NounGrammar());
    NounsAreGoverned(NounGrammar());
    NounReadings(Lexicon([Noun()]), 0);
  }

  lemma PairIsParsable()
    ensures Parsable(PairGrammar(), [Noun(), Noun()])
  {
    NounsAreFlagged(PairGrammar());
    NounsAreGoverned(PairGrammar());
    NounReadings(Lexicon([Noun(), Noun()]), 0);
    NounReadings(Lexicon([Noun(), Noun()]), 1);
  }

  lemma BracketIsParsable()
    ensures Parsable(NounGrammar(), [Bracket()])
  {
    NounsAreFlagged(NounGrammar());
    NounsAreGoverned(NounGrammar());
    BracketReadings();
  }

  /** The readings of nouns begin with a capital, and so are terminals. */
  lemma NounReadings(lex: seq<seq<Symbol>>, i: nat)
    requires (lex == Lexicon([Noun()]) && i < 1) || (lex == Lexicon([Noun(), Noun()]) && i < 2)
    ensures |lex[i]| == 3 && lex[i][0] == "N" && forall h :: h in lex[i] ==> h != "" && h[0] == 'N'
  {
    ReadingsOf(Noun());
    assert lex[i] == ReadingHeads(Noun(), ("N", "dog"));
  }

  lemma BracketReadings()
    ensures var hs := Lexicon([Bracket()])[0];
            && hs == ["F", "F" + "(" + ")>" + ")", "F" + "<" + ")>" + ">"]
            && forall h :: h in hs ==> h[0] == 'F' && IsBare(NounGrammar(), h)
  {
    var g := NounGrammar();
    ReadingsOf(Bracket());
    assert Lexicon([Bracket()])[0] == ReadingHeads(Bracket(), ("F", ")>"));
    SpecificIff(g, "F", ")>", ")>");
    assert ("F" + "(" + ")>")[2] == ')' && ("F" + "<" + ")>")[3] == '>';
    assert g.Specificity("F") == 2;
  }

  /** The complete edges over one noun: its readings, and the two phrases. */
  lemma NounEdges(filled: seq<Cell>, e: Edge)
    requires ChartOk(SyntaxOf(NounGrammar()), Lexicon([Noun()]), filled, 1) && e in At(filled, 1, 0, 0)
    ensures e == Edge("np", ["N"], [], 0, [(0, 0)]) || e == Edge("vp", ["N"], [], 0, [(0, 0)]) || NounGrammar().IsTerminal(e.head)
  {
    var g := SyntaxOf(NounGrammar());
    assert CellOk(g, Lexicon([Noun()]), filled, 1, 0, 0);
    NounReadings(Lexicon([Noun()]), 0);
    if StartedIn(g, At(filled, 1, 0, 0), 0, 0, e) {
      var r, y :| StartsOn(g, At(filled, 1, 0, 0), 0, 0, e, r, y);
      assert r in NounGrammar().rules;
    }
  }

  lemma NounIsThere(filled: seq<Cell>)
    requires ChartOk(SyntaxOf(NounGrammar()), Lexicon([Noun()]), filled, 1)
    ensures LexEdge("N") in At(filled, 1, 0, 0)
  {
    var g, lex := SyntaxOf(NounGrammar()), Lexicon([Noun()]);
    NounReadings(lex, 0);
    assert lex[0][0] == "N";
    assert CellOk(g, lex, filled, 1, 0, 0);
    assert IsBase(g, lex, filled, 1, 0, 0, LexEdge("N"));
  }

  lemma PhraseIsThere(filled: seq<Cell>, r: Rule)
    requires ChartOk(SyntaxOf(NounGrammar()), Lexicon([Noun()]), filled, 1) && r in NounGrammar().rules
    ensures Edge(r.head, ["N"], [], 0, [(0, 0)]) in At(filled, 1, 0, 0)
  {
    NounIsThere(filled);
    StartedIsInChart(SyntaxOf(NounGrammar()), Lexicon([Noun()]), filled, 1, 0, 0, r, LexEdge("N"));
    assert Started(r, 0, 0) == Edge(r.head, ["N"], [], 0, [(0, 0)]);
  }

  /** One noun gets a tree whose root may not be at the top, although the parser has found a valid root. */
  lemma InvalidRootIsChosen(filled: seq<Cell>, table: seq<Cell>)
    requires ChartOk(SyntaxOf(NounGrammar()), Lexicon([Noun()]), filled, 1) && Rooted(NounGrammar(), filled, table, 1)
    ensures Parsable(NounGrammar(), [Noun()]) && CanRoot(NounGrammar(), filled, 1) && TopDerived(NounGrammar(), Lexicon([Noun()]))
    ensures !IsBest(NounGrammar(), MayBeTop(NounGrammar()), At(filled, 1, 0, 0), NO_EDGE, NO_EDGE)
    ensures ForbiddenWins(NounGrammar(), At(table, 1, 0, 0))
  {
    var g, cell := NounGrammar(), At(filled, 1, 0, 0);
    NounIsParsable();
    PhraseIsThere(filled, g.rules[0]);
    PhraseIsThere(filled, g.rules[1]);
    var np, vp := Edge("np", ["N"], [], 0, [(0, 0)]), Edge("vp", ["N"], [], 0, [(0, 0)]);
    assert Eligible(g, MayBeTop(g), cell, vp);
    var j: nat :| j < |cell| && cell[j] == np;
    forall i | 0 <= i < |cell| && IsCandidate(g, cell[i]) && cell[i].head !in g.notop
      ensures BetterEdge(g, cell[j], cell[i])
    {
      NounEdges(filled, cell[i]);
    }
    assert ForbiddenWinsAt(g, cell, j);
    assert Eligible(g, NotHidden(g), cell, np);
    TopIffDerived(g, Lexicon([Noun()]), filled, table, RankOf(), 1);
  }

  lemma PairDerives(h: Symbol)
    requires ConstituentDerives(SyntaxOf(PairGrammar()), Lexicon([Noun(), Noun()]), h, 1, 0)
    ensures h == "np"
  {
    var d :| Derives(SyntaxOf(PairGrammar()), Lexicon([Noun(), Noun()]), d, 0) && Width(d) == 2 && Root(d) == h;
    assert d.Node? && d.rule in PairGrammar().rules;
  }

  lemma PairIsDerived()
    ensures ConstituentDerives(SyntaxOf(PairGrammar()), Lexicon([Noun(), Noun()]), "np", 1, 0)
  {
    var g, lex := SyntaxOf(PairGrammar()), Lexicon([Noun(), Noun()]);
    NounReadings(lex, 0);
    NounReadings(lex, 1);
    assert lex[0][0] == "N" && lex[1][0] == "N";
    var r, n := PairGrammar().rules[0], Leaf("N");
    assert Derives(g, lex, n, 0) && Derives(g, lex, n, 1);
    TwoLeaves(g, lex, r, n);
    assert Derives(g, lex, Node(r, [n, n]), 0);
  }

  lemma TwoLeaves(g: Syntax, lex: seq<seq<Symbol>>, r: Rule, n: Deriv)
    requires n.Leaf? && Derives(g, lex, n, 0) && Derives(g, lex, n, 1) && |r.right| == 2
    requires g.starts(r, n.sym) && g.matches(r.right[1], n.sym)
    ensures KidsDerive(g, lex, r, [n, n], 0) && Widths([n, n]) == 2
  {
    var one := [n];
    assert one[..0] == [];
    assert Widths(one) == 1 && KidsDerive(g, lex, r, one, 0);
    assert [n, n][..1] == one;
  }

  /** Two nouns that only a hidden phrase covers get a tree without label. */
  lemma HiddenPhraseHasNoLabel(filled: seq<Cell>)
    requires ChartOk(SyntaxOf(PairGrammar()), Lexicon([Noun(), Noun()]), filled, 2)
    ensures Parsable(PairGrammar(), [Noun(), Noun()]) && CanRoot(PairGrammar(), filled, 2)
    ensures !TopDerived(PairGrammar(), Lexicon([Noun(), Noun()]))
  {
    var g, lex := PairGrammar(), Lexicon([Noun(), Noun()]);
    PairIsParsable();
    PairIsDerived();
    forall h | ConstituentDerives(SyntaxOf(g), lex, h, 1, 0)
      ensures h == "np"
    {
      PairDerives(h);
    }
    assert MayBeTop(g)("np");
    assert RootDerived(g, lex, MayBeTop(g));
    RootDerivedIff(g, lex, filled, RankOf(), 1, MayBeTop(g));
  }

  /** A word that is a closing bracket has bare readings only, and without a rule for it no root can be
      made up: the program stops. */
  lemma BracketStopsTheParser(filled: seq<Cell>)
    requires ChartOk(SyntaxOf(NounGrammar()), Lexicon([Bracket()]), filled, 1)
    ensures Parsable(NounGrammar(), [Bracket()]) && !CanRoot(NounGrammar(), filled, 1)
  {
    var g := NounGrammar();
    var cell := At(filled, 1, 0, 0);
    BracketIsParsable();
    forall e | e in cell
      ensures !BetterEdge(g, e, NO_EDGE)
    {
      BracketIsBare(filled, e);
      BareIsNotSelected(g, e);
    }
    assert BetterEdge(g, NO_EDGE, NO_EDGE) == false;
    assert Barren(g, cell);
    assert BarrenUnder(g, filled, 1, 0, 0, 0);
    NotCoverable(g, filled, 1, 0, 0);
  }

  lemma BracketIsBare(filled: seq<Cell>, e: Edge)
    requires ChartOk(SyntaxOf(NounGrammar()), Lexicon([Bracket()]), filled, 1) && e in At(filled, 1, 0, 0)
    ensures IsBare(NounGrammar(), e.head)
  {
    var g, lex := NounGrammar(), Lexicon([Bracket()]);
    assert CellOk(SyntaxOf(g), lex, filled, 1, 0, 0);
    BracketReadings();
    if StartedIn(SyntaxOf(g), At(filled, 1, 0, 0), 0, 0, e) {
      var r, y :| StartsOn(SyntaxOf(g), At(filled, 1, 0, 0), 0, 0, e, r, y);
      BracketStartsNothing(filled, y, r);
    }
  }

  lemma BracketStartsNothing(filled: seq<Cell>, y: Edge, r: Rule)
    requires ChartOk(SyntaxOf(NounGrammar()), Lexicon([Bracket()]), filled, 1) && y in At(filled, 1, 0, 0)
    ensures !NounGrammar().Starts(r, y.head)
  {
    var g, lex := SyntaxOf(NounGrammar()), Lexicon([Bracket()]);
    BracketReadings();
    assert CellOk(g, lex, filled, 1, 0, 0);
    if StartedIn(g, At(filled, 1, 0, 0), 0, 0, y) {
      var q, z :| StartsOn(g, At(filled, 1, 0, 0), 0, 0, y, q, z);
      assert q in NounGrammar().rules;
    }
  }
}
