/** Completing a partial parse: neighbouring chunks are merged, by the best rule, until one tree is left. */
module Completers {
  import opened SyntaxTrees
  import opened Merging
  import opened WordOrder
  import opened CompleterRules
  import opened CompleterRuns
  import opened RunResults
  import opened SafeLeaves

  /** A chunk of the partial parse, as the `n`-th tree to be merged: a lone word gets a node above it. */
  function Chunk(t: Tree, n: nat): Tree {
    if t.kids == [] then Tree(t.cat, false, n, 0, [t.(head := true)]) else t.(chunk := n)
  }

  function Chunks(ts: seq<Tree>, n: nat): (cs: seq<Tree>)
    ensures |cs| == |ts|
  {
    seq(|ts|, i requires 0 <= i < |ts| => Chunk(ts[i], n + i))
  }

  lemma ChunksOneMore(ts: seq<Tree>, i: nat)
    requires i < |ts|
    ensures Chunks(ts[..i + 1], 1) == Chunks(ts[..i], 1) + [Chunk(ts[i], i + 1)]
  {
  }

  lemma {:induction false} ChunksKeepWords(ts: seq<Tree>, n: nat)
    ensures WordsOf(Chunks(ts, n)) == WordsOf(ts)
  {
    if ts != [] {
      var m := |ts| - 1;
      ChunksKeepWords(ts[..m], n);
      assert Chunks(ts, n)[..m] == Chunks(ts[..m], n);
      ChunkKeepsWords(ts[m], n + m);
    }
  }

  lemma ChunkKeepsWords(t: Tree, n: nat)
    ensures Words(Chunk(t, n)) == Words(t)
  {
    WordsOfOne(t.(head := true));
  }

  lemma ChunkIsOneHead(t: Tree, n: nat)
    requires OneHead(t)
    ensures OneHead(Chunk(t, n))
  {
    if t.kids == [] {
      MarksKeepOneHead(t, "-", true);
      assert [t.(head := true)][..0] == [];
    }
  }

  lemma ChunksAreOneHead(ts: seq<Tree>)
    requires AllOneHead(ts)
    ensures AllOneHead(Chunks(ts, 1))
  {
    forall i | 0 <= i < |ts|
      ensures OneHead(Chunks(ts, 1)[i])
    {
      ChunkIsOneHead(ts[i], i + 1);
    }
  }

  lemma ChunksAreSafe(g: Grammar, ts: seq<Tree>)
    requires AllSafe(g, ts)
    ensures AllSafe(g, Chunks(ts, 1))
  {
    forall i | 0 <= i < |ts|
      ensures LeavesAreSafe(g, Chunks(ts, 1)[i])
    {
      MarkedIsSafe(g, ts[i], true, "-");
    }
  }

  /** What a run from the chunks of a partial parse to one tree keeps of it: all words but those lost, */
  ghost predicate KeepsWords(g: Grammar, ts: seq<Tree>, run: Run, t: Tree)
    requires IsRun(g, run)
  {
    && multiset(Words(t)) + multiset(LostWords(run, |run.merges|)) == multiset(WordsOf(ts))
    && (multiset(Words(t)) == multiset(WordsOf(ts)) <==> AllInside(run))
    && (AllSafe(g, ts) ==> AllInside(run))
  }

  /** their order, */
  ghost predicate KeepsOrder(g: Grammar, ts: seq<Tree>, run: Run, t: Tree)
    requires IsRun(g, run)
  {
    Increasing(WordsOf(ts)) ==> (Words(t) == WordsOf(ts) <==> AllInside(run) && AllInOrder(run))
  }

  /** and one head everywhere. */
  ghost predicate KeepsHeads(g: Grammar, ts: seq<Tree>, run: Run, t: Tree)
    requires IsRun(g, run)
  {
    AllOneHead(ts) ==>
      && (AllInside(run) || NoneCovers(run) ==> (OneHead(t) <==> AllInside(run) && NoneCovers(run)))
      && (multiset(Words(t)) == multiset(WordsOf(ts)) && OneHead(t) <==> AllInside(run) && NoneCovers(run))
  }

  /** MAIN RESULT: what a run keeps can be told from its merges. */
  lemma RunKeepsWords(g: Grammar, ts: seq<Tree>, run: Run, t: Tree)
    requires IsRun(g, run) && First(run).trees == Chunks(ts, 1) && Last(run).trees == [t]
    ensures KeepsWords(g, ts, run, t)
  {
    ChunksKeepWords(ts, 1);
    WordsOfOne(t);
    RunLosesWords(g, run, |run.merges|);
    RunKeepsWordsIff(g, run);
    if AllSafe(g, ts) {
      ChunksAreSafe(g, ts);
      SafeRunIsInside(g, run);
    }
  }

  lemma RunKeepsOrder(g: Grammar, ts: seq<Tree>, run: Run, t: Tree)
    requires IsRun(g, run) && First(run).trees == Chunks(ts, 1) && Last(run).trees == [t]
    ensures KeepsOrder(g, ts, run, t)
  {
    ChunksKeepWords(ts, 1);
    WordsOfOne(t);
    if Increasing(WordsOf(ts)) {
      RunKeepsOrderIff(g, run);
    }
  }

  lemma RunKeepsHeads(g: Grammar, ts: seq<Tree>, run: Run, t: Tree)
    requires IsRun(g, run) && First(run).trees == Chunks(ts, 1) && Last(run).trees == [t]
    ensures KeepsHeads(g, ts, run, t)
  {
    ChunksKeepWords(ts, 1);
    WordsOfOne(t);
    if AllOneHead(ts) {
      ChunksAreOneHead(ts);
      RunKeepsOneHeadIff(g, run);
      assert AllOneHead([t]) <==> OneHead([t][0]);
    }
  }

  /** The rule chosen, at the node remembered for it, is the merge that comes next. */
  lemma ChosenIsNext(g: Grammar, flags: set<string>, trees: seq<Tree>, chk: nat, r: Rule, last: map<(nat, nat), Found>)
    requires chk + 1 < |trees| && IsBestRule(flags, trees, chk, Candidates(g, trees, chk), r)
    requires Recovered(last, trees, chk, r) && exists ws :: IsFirstChoice(g, flags, trees, ws, chk)
    ensures var m := Merger(r, chk, NodeIn(last, chk, r));
            IsNext(g, flags, trees, m) && (Fits(trees, m) <==> !CoversRoot(m))
  {
    NextFitsIff(g, flags, trees, Merger(r, chk, NodeIn(last, chk, r)));
  }

  function NodeIn(last: map<(nat, nat), Found>, chk: nat, r: Rule): Path {
    if NeedsNode(r.op) then PlaceIn(last, chk, r) else []
  }

  /** The choice among the first pairs of chunks: `ws` are the weights of their best rules. */
  ghost predicate IsChosen(g: Grammar, flags: set<string>, trees: seq<Tree>, last: map<(nat, nat), Found>, ws: seq<int>,
                           chk: nat, r: Rule)
  {
    && chk < |ws| < |trees| && r.weight == ws[chk] && AreWeights(g, flags, trees, ws) && FirstChoice(ws, chk)
    && IsBestRule(flags, trees, chk, Candidates(g, trees, chk), r) && Recovered(last, trees, chk, r)
  }

  lemma ChosenOneMore(g: Grammar, flags: set<string>, trees: seq<Tree>, was: map<(nat, nat), Found>,
                      now: map<(nat, nat), Found>, ws: seq<int>, chk: nat, r: Rule, c: Rule)
    requires WellFormed(g) && |ws| + 1 < |trees| && IsChosen(g, flags, trees, was, ws, chk, r)
    requires IsBestRule(flags, trees, |ws|, Candidates(g, trees, |ws|), c)
    requires Recovered(now, trees, |ws|, c) && SameElsewhere(was, now, |ws|)
    ensures var better := 0 < c.weight < r.weight || (r.weight <= 0 && c.weight > r.weight);
            IsChosen(g, flags, trees, now, ws + [c.weight], if better then |ws| else chk, if better then c else r)
  {
    BestWeight(g, flags, trees, |ws|, c);
    assert HasWeight(g, flags, trees, chk, ws[chk]);
    MoreWeights(g, flags, trees, ws, c.weight);
    ChoiceOneMore(ws, chk, c.weight);
  }

  class Completer {
    const gram: Grammar
    var flags: set<string>
    var last: map<(nat, nat), Found>

    constructor (g: Grammar, initial: set<string>)
      ensures gram == g && flags == initial && last == map[]
    {
      gram, flags, last := g, initial, map[];
    }

    /** Whether the node that the operation needs exists. Where it is, is remembered. */
    method MatchingOperation(trees: seq<Tree>, chk: nat, r: Rule) returns (b: bool)
      requires chk + 1 < |trees|
      modifies this`last
      ensures b == (NeedsNode(r.op) ==> HasMatch(Target(trees, chk, r.op), r.matching))
      ensures b ==> Recovered(last, trees, chk, r)
      ensures forall key :: key in old(last) && key != (r.line, chk) ==> key in last && last[key] == old(last)[key]
    {
      b := true;
      if NeedsNode(r.op) {
        var t := Target(trees, chk, r.op);
        var f := LastMatch(t, r.matching);
        LastMatchIsMatch(t, r.matching, f);
        last := last[(r.line, chk) := f];
        b := f.At?;
      }
    }

    /** Whether a candidate suits. */
    method Check(trees: seq<Tree>, chk: nat, r: Rule) returns (b: bool)
      requires chk + 1 < |trees|
      modifies this`last
      ensures b == Suits(flags, trees, chk, r)
      ensures b ==> Recovered(last, trees, chk, r)
      ensures forall key :: key in old(last) && key != (r.line, chk) ==> key in last && last[key] == old(last)[key]
    {
      b := ("-" in r.enabling || r.enabling * flags != {}) && r.applies(trees, chk);
      assert r.enabling * flags != {} <==> exists x :: x in r.enabling && x in flags by {
        if x :| x in r.enabling && x in flags {
          assert x in r.enabling * flags;
        }
      }
      if b {
        b := MatchingOperation(trees, chk, r);
      }
    }

    /** The best rule for chunk `chk` and the next one, or the default rule. */
    method FindGrammarRule(trees: seq<Tree>, chk: nat) returns (r: Rule)
      requires chk + 1 < |trees| && WellFormed(gram)
      modifies this`last
      ensures IsBestRule(flags, trees, chk, Candidates(gram, trees, chk), r)
      ensures Recovered(last, trees, chk, r) && SameElsewhere(old(last), last, chk)
    {
      var rs := Candidates(gram, trees, chk);
      assert Numbered(rs);
      var found := false;
      r := DEFAULT_RULE;
      for i := 0 to |rs|
        invariant Searched(flags, trees, chk, rs, i, found, r)
        invariant !found ==> r == DEFAULT_RULE
        invariant found ==> exists k :: 0 <= k < i && r == rs[k]
        invariant Recovered(last, trees, chk, r) && SameElsewhere(old(last), last, chk)
      {
        SearchOneMore(flags, trees, chk, rs, i, found, r);
        var b := Check(trees, chk, rs[i]);
        if b && (!found || r.weight > rs[i].weight) {
          found, r := true, rs[i];
        }
      }
      assert rs[..|rs|] == rs;
    }

    /** The best rule over all pairs of neighbouring chunks, and where it applies. */
    method ChooseRule(trees: seq<Tree>) returns (r: Rule, chk: nat)
      requires |trees| > 1 && WellFormed(gram)
      modifies this`last
      ensures chk + 1 < |trees| && IsBestRule(flags, trees, chk, Candidates(gram, trees, chk), r)
      ensures Recovered(last, trees, chk, r)
      ensures exists ws :: IsFirstChoice(gram, flags, trees, ws, chk)
    {
      chk := 0;
      r := FindGrammarRule(trees, 0);
      ghost var ws := [r.weight];
      BestWeight(gram, flags, trees, 0, r);
      for k := 1 to |trees| - 1
        invariant |ws| == k && IsChosen(gram, flags, trees, last, ws, chk, r)
      {
        ghost var was := last;
        var c := FindGrammarRule(trees, k);
        ChosenOneMore(gram, flags, trees, was, last, ws, chk, r, c);
        ws := ws + [c.weight];
        if (c.weight == r.weight && k < chk) || 0 < c.weight < r.weight || (r.weight <= 0 && c.weight > r.weight) {
          r, chk := c, k;
        }
      }
      assert IsFirstChoice(gram, flags, trees, ws, chk);
    }

    /** Applies a rule to two chunks: switches flags, and merges the trees. */
    method ApplyRule(r: Rule, chk: nat, left: Tree, right: Tree) returns (t: Tree)
      requires NeedsNode(r.op) ==> (r.line, chk) in last && last[(r.line, chk)].At?
      requires Mergeable(r.op, left, right, PlaceIn(last, chk, r))
      modifies this`flags
      ensures flags == old(flags) + r.on - r.off
      ensures t == Merge(r.op, r.new1, r.new2, left, right, PlaceIn(last, chk, r))
    {
      flags := flags + r.on;
      flags := flags - r.off;
      match r.op
      case TopRight =>
        t := Relabel(right.(head := true), r.new2);
        t := t.(kids := [Relabel(left.(head := false), r.new1)] + t.kids);
      case TopLeft =>
        t := Relabel(left.(head := true), r.new1);
        t := t.(kids := t.kids + [Relabel(right.(head := false), r.new2)]);
      case LastLeft =>
        t := HangAt(left, last[(r.line, chk)].place, right.(head := false), true);
      case LastRight =>
        t := HangAt(right, last[(r.line, chk)].place, left.(head := false), false);
      case CoverLastLeft =>
        PlaceInHeadless(left, last[(r.line, chk)].place);
        t := CoverAt(left.(head := false), last[(r.line, chk)].place, right.(head := true));
    }

    /** Merges two neighbouring chunks by the best rule, and forgets the nodes remembered. Fails, as
        the program stops, where the root of a chunk would be covered. */
    method MergeOnce(trees: seq<Tree>) returns (ok: bool, more: seq<Tree>, ghost m: Merger)
      requires |trees| > 1 && WellFormed(gram)
      modifies this
      ensures IsNext(gram, old(flags), trees, m) && (ok <==> !CoversRoot(m))
      ensures ok ==> IsStep(gram, State(trees, old(flags)), m, State(more, flags)) && last == map[]
    {
      var r, chk := ChooseRule(trees);
      var place := NodeIn(last, chk, r);
      m := Merger(r, chk, place);
      ChosenIsNext(gram, flags, trees, chk, r, last);
      ok, more := !r.op.CoverLastLeft? || place != [], trees;
      if ok {
        more := MergePair(trees, r, chk);
        last := map[];
      }
    }

    /** Applies a rule to a chunk and the next one, which it takes the place of. */
    method MergePair(trees: seq<Tree>, r: Rule, chk: nat) returns (more: seq<Tree>)
      requires Fits(trees, Merger(r, chk, NodeIn(last, chk, r)))
      requires NeedsNode(r.op) ==> (r.line, chk) in last && last[(r.line, chk)].At?
      modifies this`flags
      ensures flags == old(flags) + r.on - r.off
      ensures more == After(trees, Merger(r, chk, NodeIn(last, chk, r)))
    {
      var t := ApplyRule(r, chk, trees[chk], trees[chk + 1]);
      more := trees[..chk] + [t] + trees[chk + 2..];
    }

    /** One merge of a run. */
    method MergeNext(trees: seq<Tree>, ghost run: Run) returns (ok: bool, more: seq<Tree>, ghost longer: Run)
      requires |trees| > 1 && WellFormed(gram) && IsRun(gram, run) && Last(run) == State(trees, flags)
      modifies this
      ensures IsRun(gram, longer) && First(longer) == First(run)
      ensures if ok then Last(longer) == State(more, flags) && |more| == |trees| - 1 else IsStopped(gram, longer)
    {
      ghost var m: Merger;
      ok, more, m := MergeOnce(trees);
      longer := run;
      if ok {
        RunOneMore(gram, run, m, State(more, flags));
        longer := Extended(run, m, State(more, flags));
      }
    }

    /** Merges chunks, as often as there are chunks, less one. */
    method MergeAll(chunks: seq<Tree>) returns (ok: bool, t: Tree, ghost run: Run)
      requires chunks != [] && WellFormed(gram)
      modifies this
      ensures IsRun(gram, run) && First(run) == State(chunks, old(flags))
      ensures if ok then Last(run) == State([t], flags) else IsStopped(gram, run)
    {
      var trees := chunks;
      ok, t := true, chunks[0];
      run := Run([State(trees, flags)], []);
      for n := 1 to |chunks|
        invariant IsRun(gram, run) && First(run) == State(chunks, old(flags))
        invariant |trees| == |chunks| - n + 1 && Last(run) == State(trees, flags)
      {
        ok, trees, run := MergeNext(trees, run);
        if !ok {
          return;
        }
      }
      t := trees[0];
      ok := true;
      assert trees == [t];
    }

    /** Makes a full parse of a partial one: as many merges, each by the best rule, as there are
        chunks, less one. Fails exactly if there is no chunk, or a merge would cover the root of one. */
    method Complete(tr: Tree, start: string) returns (ok: bool, t: Tree, ghost run: Run)
      requires WellFormed(gram)
      modifies this
      ensures tr.cat != start ==> ok && t == tr && flags == old(flags)
      ensures tr.cat == start ==> (ok <==> tr.kids != [] && !MayStop(gram, State(Chunks(tr.kids, 1), old(flags))))
      ensures tr.cat == start && ok ==>
        && IsRun(gram, run) && First(run) == State(Chunks(tr.kids, 1), old(flags)) && Last(run) == State([t], flags)
        && KeepsWords(gram, tr.kids, run, t) && KeepsOrder(gram, tr.kids, run, t) && KeepsHeads(gram, tr.kids, run, t)
    {
      ok, t, run := true, tr, Run([], []);
      if tr.cat != start {
        return;
      }
      var trees := [];
      for i := 0 to |tr.kids|
        invariant trees == Chunks(tr.kids[..i], 1) && flags == old(flags)
      {
        ChunksOneMore(tr.kids, i);
        trees := trees + [Chunk(tr.kids[i], i + 1)];
      }
      assert tr.kids[..|tr.kids|] == tr.kids;
      ok := trees != [];
      if ok {
        ok, t, run := MergeAll(trees);
      }
      if ok {
        FullRunIsNotStopped(gram, run);
        RunKeepsWords(gram, tr.kids, run, t);
        RunKeepsOrder(gram, tr.kids, run, t);
        RunKeepsHeads(gram, tr.kids, run, t);
      }
    }
  }
}
