/** Partial parses for which the completer does what it should not: a word is lost, a head is missing
    and made up for, the program stops. */
module CompleterCases {
  import opened SyntaxTrees
  import opened Merging
  import opened CompleterRules
  import opened CompleterRuns
  import opened RunResults
  import opened Completers

  function LabelIs(cat: string): Tree -> bool {
    (t: Tree) => t.cat == cat
  }

  /** A rule for which only the label of the node it needs matters. */
  function RuleFor(line: nat, op: Operation, cat: string): Rule {
    Rule(line, 1, op, "-", "-", {"-"}, (trees: seq<Tree>, chk: nat) => true, LabelIs(cat), {}, {})
  }

  function Leaf(cat: string, head: bool, word: nat): Tree {
    Tree(cat, head, 0, word, [])
  }

  function Phrase(cat: string, kid: Tree): Tree {
    Tree(cat, false, 0, 0, [kid])
  }

  lemma {:induction false} PlacesOfChain(t: Tree)
    requires |t.kids| == 1
    ensures Places(t) == [[]] + Below(0, Places(t.kids[0]))
  {
    assert PlacesFrom(t, 1) == [];
  }

  /** The places of a node with one leaf. */
  lemma PlacesOfPhrase(t: Tree)
    requires |t.kids| == 1 && t.kids[0].kids == []
    ensures Places(t) == [[], [0]]
  {
    PlacesOfChain(t);
    var ps := Places(t.kids[0]);
    assert ps == [[]];
    assert Below(0, ps)[0] == [0] + ps[0] == [0];
    assert Below(0, ps) == [[0]];
  }

  lemma FirstKidPlace(t: Tree)
    requires t.kids != []
    ensures IsPlace(t, [0]) && Sub(t, [0]) == t.kids[0]
  {
    assert [0][1..] == [] && Sub(t.kids[0], []) == t.kids[0];
  }

  lemma IsMatchAt(t: Tree, cat: string, p: Path, k: nat)
    requires k < |Places(t)| && Places(t)[k] == p && IsPlace(t, p) && Sub(t, p).cat == cat
    requires forall j :: k < j < |Places(t)| ==> IsPlace(t, Places(t)[j]) && Sub(t, Places(t)[j]).cat != cat
    ensures IsLastMatch(t, LabelIs(cat), Places(t), At(p)) && HasMatch(t, LabelIs(cat))
  {
    assert LastMatchIs(t, LabelIs(cat), Places(t), p, k);
    assert MatchesAt(t, LabelIs(cat), Places(t)[k]);
  }

  /** The only rule for the first two chunks is the next to be applied, if there is none for others. */
  lemma OnlyRuleIsNext(g: Grammar, flags: set<string>, trees: seq<Tree>, r: Rule, cat: string, place: Path)
    requires 2 <= |trees| <= 3 && Candidates(g, trees, 0) == [r] && r == RuleFor(r.line, r.op, cat) && NeedsNode(r.op)
    requires |trees| == 3 ==> Candidates(g, trees, 1) == []
    requires IsLastMatch(Target(trees, 0, r.op), LabelIs(cat), Places(Target(trees, 0, r.op)), At(place))
    ensures IsNext(g, flags, trees, Merger(r, 0, place))
  {
    LastMatchIsMatch(Target(trees, 0, r.op), LabelIs(cat), At(place));
    assert Suits(flags, trees, 0, r);
    assert BestRuleIs(flags, trees, 0, [r], r, 0);
    assert IsBestRule(flags, trees, 0, [r], r);
    assert HasWeight(g, flags, trees, 0, 1);
    var ws := if |trees| == 2 then [1] else [1, 0];
    if |trees| == 3 {
      assert IsBestRule(flags, trees, 1, [], DEFAULT_RULE);
      assert HasWeight(g, flags, trees, 1, 0);
    }
    assert IsFirstChoice(g, flags, trees, ws, 0);
  }

  /** A rule that hangs the chunk of a verb below the last node labelled NC of the chunk before it. */
  function LastNoun(): Rule {
    RuleFor(1, LastLeft, "NC")
  }

  function NounGrammar(): Grammar {
    map[("NC", "VM") := [LastNoun()]]
  }

  /** A noun and a verb, each a chunk of its own. */
  function NounVerb(): seq<Tree> {
    [Leaf("NC", false, 0), Leaf("VM", false, 1)]
  }

  function NounChunk(): Tree {
    Tree("NC", false, 1, 0, [Leaf("NC", true, 0)])
  }

  function VerbChunk(): Tree {
    Tree("VM", false, 2, 0, [Leaf("VM", true, 1)])
  }

  lemma NounVerbChunks()
    ensures Chunks(NounVerb(), 1) == [NounChunk(), VerbChunk()]
  {
  }

  /** The last node labelled NC is the noun itself: it is the leaf that the verb is hung below. */
  lemma NounIsNext()
    ensures IsNext(NounGrammar(), {}, [NounChunk(), VerbChunk()], Merger(LastNoun(), 0, [0]))
  {
    var t := NounChunk();
    PlacesOfPhrase(t);
    FirstKidPlace(t);
    IsMatchAt(t, "NC", [0], 1);
    OnlyRuleIsNext(NounGrammar(), {}, [NounChunk(), VerbChunk()], LastNoun(), "NC", [0]);
  }

  /** Hanging a tree below the only child of a node. */
  lemma HungBelowKid(t: Tree, c: Tree)
    requires |t.kids| == 1
    ensures var kid := t.kids[0].(kids := t.kids[0].kids + [c]);
            IsPlace(t, [0]) && Sub(t, [0]) == t.kids[0] && HangAt(t, [0], c, true) == t.(kids := [kid])
  {
    var kid := t.kids[0].(kids := t.kids[0].kids + [c]);
    assert [0][1..] == [] && Sub(t, [0]) == t.kids[0];
    assert Replace(t.kids[0], [], kid) == kid;
    assert t.kids[0 := kid] == [kid];
  }

  lemma WordsOfPhrase(t: Tree)
    requires |t.kids| == 1
    ensures Words(t) == Words(t.kids[0])
  {
    WordsOfOne(t.kids[0]);
  }

  lemma NounVerbMerged()
    ensures var trees, m := [NounChunk(), VerbChunk()], Merger(LastNoun(), 0, [0]);
            Fits(trees, m) && !IsInside(trees, m) && LostAt(trees, m) == [0] && WordsOf(After(trees, m)) == [1]
  {
    var trees, m := [NounChunk(), VerbChunk()], Merger(LastNoun(), 0, [0]);
    var t := NounChunk();
    FirstKidPlace(t);
    var verb := VerbChunk().(head := false);
    var noun := t.kids[0].(kids := [verb]);
    HungBelowKid(t, verb);
    assert t.kids[0].kids + [verb] == [verb];
    WordsOfPhrase(verb);
    WordsOfPhrase(noun);
    WordsOfPhrase(t.(kids := [noun]));
    WordsOfOne(Merged(trees, m));
    assert After(trees, m) == [Merged(trees, m)];
  }

  /** A noun and a verb are completed to a tree without the noun. */
  lemma NounIsLost(run: Run)
    requires IsRun(NounGrammar(), run) && First(run) == State(Chunks(NounVerb(), 1), {}) && |Last(run).trees| == 1
    ensures WordsOf(Last(run).trees) == [1] && LostWords(run, |run.merges|) == [0] && !AllInside(run)
  {
    var g, m := NounGrammar(), Merger(LastNoun(), 0, [0]);
    NounVerbChunks();
    NounIsNext();
    NounVerbMerged();
    TreesLeft(g, run, |run.merges|);
    assert IsStepAt(g, run, 0);
    NextIsUnique(g, {}, First(run).trees, run.merges[0], m);
    assert LostWords(run, 0) == [];
  }

  /** Such a run there is. */
  lemma NounVerbRun() returns (run: Run)
    ensures IsRun(NounGrammar(), run) && First(run) == State(Chunks(NounVerb(), 1), {}) && |Last(run).trees| == 1
  {
    var a, m := State([NounChunk(), VerbChunk()], {}), Merger(LastNoun(), 0, [0]);
    NounVerbChunks();
    NounIsNext();
    NounVerbMerged();
    var b := State(After(a.trees, m), {});
    assert IsStep(NounGrammar(), a, m, b);
    run := Extended(Run([a], []), m, b);
    RunOneMore(NounGrammar(), Run([a], []), m, b);
  }

  /** A rule that puts the chunk of a preposition where the last node labelled sn of the chunk before
      it is. */
  function CoverNoun(): Rule {
    RuleFor(2, CoverLastLeft, "sn")
  }

  function CoverGrammar(): Grammar {
    map[("sn", "sp") := [CoverNoun()]]
  }

  /** The chunks of a noun and a preposition. */
  function NounPrep(): seq<Tree> {
    [Phrase("sn", Leaf("N", true, 0)), Phrase("sp", Leaf("P", true, 1))]
  }

  lemma StopsAtOnce(g: Grammar, s: State, m: Merger)
    requires IsNext(g, s.flags, s.trees, m) && CoversRoot(m)
    ensures MayStop(g, s)
  {
    var run := Run([s], []);
    assert IsStopped(g, run) && First(run) == s;
  }

  lemma RootIsNext(trees: seq<Tree>)
    requires |trees| == 2 && trees[0].cat == "sn" && trees[1].cat == "sp" && trees[0].kids == [Leaf("N", true, 0)]
    ensures IsNext(CoverGrammar(), {}, trees, Merger(CoverNoun(), 0, []))
  {
    var t := trees[0];
    PlacesOfPhrase(t);
    FirstKidPlace(t);
    IsMatchAt(t, "sn", [], 0);
    OnlyRuleIsNext(CoverGrammar(), {}, trees, CoverNoun(), "sn", []);
  }

  /** The last such node is the root of the chunk, and the program stops. */
  lemma RootIsCovered()
    ensures MayStop(CoverGrammar(), State(Chunks(NounPrep(), 1), {}))
  {
    var trees := Chunks(NounPrep(), 1);
    RootIsNext(trees);
    StopsAtOnce(CoverGrammar(), State(trees, {}), Merger(CoverNoun(), 0, []));
  }

  /** A rule that hangs the chunk of a noun below the last node labelled NC of the chunk before it. */
  function BothGrammar(): Grammar {
    map[("NC", "sn") := [LastNoun()], ("NC", "sp") := [CoverNoun()]]
  }

  /** A noun that is a chunk of its own, and the chunks of a noun and a preposition. */
  function Nouns(): seq<Tree> {
    [Leaf("NC", false, 0), Phrase("sn", Leaf("N", true, 1)), Phrase("sp", Leaf("P", true, 2))]
  }

  function NounPhrase(): Tree {
    Tree("sn", false, 2, 0, [Leaf("N", true, 1)])
  }

  function PrepPhrase(): Tree {
    Tree("sp", false, 3, 0, [Leaf("P", true, 2)])
  }

  lemma NounsChunks()
    ensures Chunks(Nouns(), 1) == [NounChunk(), NounPhrase(), PrepPhrase()]
  {
  }

  /** After the first merge the second noun is below the leaf of the first one. */
  function Hung(): Tree {
    NounChunk().(kids := [Leaf("NC", true, 0).(kids := [NounPhrase()])])
  }

  /** After the second merge the preposition is in between. */
  function Covered(): Tree {
    NounChunk().(kids := [Leaf("NC", true, 0).(kids := [PrepPhrase().(head := true, kids := [Leaf("P", true, 2), NounPhrase()])])])
  }

  lemma FirstMerge()
    ensures IsStep(BothGrammar(), State([NounChunk(), NounPhrase(), PrepPhrase()], {}), Merger(LastNoun(), 0, [0]),
                   State([Hung(), PrepPhrase()], {}))
  {
    var trees, t := [NounChunk(), NounPhrase(), PrepPhrase()], NounChunk();
    PlacesOfPhrase(t);
    HungBelowKid(t, NounPhrase());
    assert t.kids[0].kids + [NounPhrase()] == [NounPhrase()];
    IsMatchAt(t, "NC", [0], 1);
    OnlyRuleIsNext(BothGrammar(), {}, trees, LastNoun(), "NC", [0]);
    assert After(trees, Merger(LastNoun(), 0, [0])) == [Hung(), PrepPhrase()];
  }

  lemma PlacesOfHung()
    ensures Places(Hung()) == [[], [0], [0, 0], [0, 0, 0]]
  {
    var t := Hung();
    var u := t.kids[0];
    PlacesOfPhrase(u.kids[0]);
    PlacesOfChain(u);
    var ps: seq<Path> := [[], [0]];
    assert [0] + ps[0] == [0] && [0] + ps[1] == [0, 0];
    assert Below(0, ps) == [[0], [0, 0]];
    PlacesOfChain(t);
    var qs: seq<Path> := [[], [0], [0, 0]];
    assert [0] + qs[0] == [0] && [0] + qs[1] == [0, 0] && [0] + qs[2] == [0, 0, 0];
    assert Below(0, qs) == [[0], [0, 0], [0, 0, 0]];
  }

  lemma PlacesInHung()
    ensures var t := Hung();
            && IsPlace(t, [0, 0]) && Sub(t, [0, 0]) == NounPhrase() && IsPlace(t, [0]) && Sub(t, [0]) == t.kids[0]
            && IsPlace(t, [0, 0, 0]) && Sub(t, [0, 0, 0]) == Leaf("N", true, 1)
  {
    var t := Hung();
    assert [0, 0, 0][1..] == [0, 0] && [0, 0][1..] == [0] && [0][1..] == [];
    assert t.kids[0].kids[0] == NounPhrase();
  }

  lemma CoverInHung()
    ensures IsPlace(Hung(), [0, 0]) && CoverAt(Hung(), [0, 0], PrepPhrase().(head := true)) == Covered()
  {
    var t, c := Hung(), PrepPhrase().(head := true);
    PlacesInHung();
    var p := t.kids[0];
    var d := c.(kids := c.kids + [NounPhrase()]);
    assert [0, 0][..1] == [0];
    assert c.kids + [NounPhrase()] == [Leaf("P", true, 2), NounPhrase()];
    assert p.kids[..0] + p.kids[1..] + [d] == [d];
    assert [0][1..] == [];
    assert Replace(p, [], p.(kids := [d])) == p.(kids := [d]);
    assert t.kids[0 := p.(kids := [d])] == [p.(kids := [d])];
  }

  lemma SecondMerge()
    ensures IsStep(BothGrammar(), State([Hung(), PrepPhrase()], {}), Merger(CoverNoun(), 0, [0, 0]), State([Covered()], {}))
  {
    var trees, t := [Hung(), PrepPhrase()], Hung();
    PlacesOfHung();
    PlacesInHung();
    IsMatchAt(t, "sn", [0, 0], 2);
    OnlyRuleIsNext(BothGrammar(), {}, trees, CoverNoun(), "sn", [0, 0]);
    CoverInHung();
    assert t.(head := false) == t;
    assert After(trees, Merger(CoverNoun(), 0, [0, 0])) == [Covered()];
  }

  /** Both merges of the run. */
  function TwoMerges(): Run {
    var a, b, c := [NounChunk(), NounPhrase(), PrepPhrase()], [Hung(), PrepPhrase()], [Covered()];
    Run([State(a, {}), State(b, {}), State(c, {})], [Merger(LastNoun(), 0, [0]), Merger(CoverNoun(), 0, [0, 0])])
  }

  lemma RunOfTwo(g: Grammar, run: Run)
    requires |run.states| == 3 && |run.merges| == 2
    requires IsStep(g, run.states[0], run.merges[0], run.states[1]) && IsStep(g, run.states[1], run.merges[1], run.states[2])
    ensures IsRun(g, run)
  {
    assert IsStepAt(g, run, 0) && IsStepAt(g, run, 1);
  }

  lemma TwoMergesIsRun()
    ensures IsRun(BothGrammar(), TwoMerges())
  {
    FirstMerge();
    SecondMerge();
    RunOfTwo(BothGrammar(), TwoMerges());
  }

  lemma FirstIsOutside()
    ensures !IsInside([NounChunk(), NounPhrase(), PrepPhrase()], Merger(LastNoun(), 0, [0]))
  {
    HungBelowKid(NounChunk(), NounPhrase());
  }

  /** A word is lost, which leaves a node without head, and a node covered, which makes up for it: heads
      alone do not tell. */
  lemma HeadsAreMadeUpFor()
    ensures var run := TwoMerges();
            && IsRun(BothGrammar(), run) && First(run) == State(Chunks(Nouns(), 1), {})
            && AllOneHead(Nouns()) && AllOneHead(Last(run).trees) && !AllInside(run) && !NoneCovers(run)
  {
    var run := TwoMerges();
    NounsChunks();
    TwoMergesIsRun();
    FirstIsOutside();
    HeadsOfCovered();
    assert !IsInside(run.states[0].trees, run.merges[0]) && run.merges[1].rule.op.CoverLastLeft?;
  }

  lemma HeadsOfOne(t: Tree)
    ensures Heads([t]) == if t.head then 1 else 0
  {
    assert [t][..0] == [];
  }

  lemma HeadsOfCovered()
    ensures AllOneHead(Nouns()) && OneHead(Covered())
  {
    var d := PrepPhrase().(head := true, kids := [Leaf("P", true, 2), NounPhrase()]);
    HeadsOfOne(Leaf("N", true, 1));
    HeadsOfOne(Leaf("P", true, 2));
    HeadsOfOne(Leaf("NC", true, 0).(kids := [d]));
    HeadsOfOne(d);
    assert [Leaf("P", true, 2), NounPhrase()][..1] == [Leaf("P", true, 2)];
    assert OneHead(d);
  }
}
