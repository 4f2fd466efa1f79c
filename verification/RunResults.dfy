/** What a run of the completer keeps: the words, their order, the heads. */
module RunResults {
  import opened SyntaxTrees
  import opened Merging
  import opened HeadCounts
  import opened WordOrder
  import opened CompleterRules
  import opened CompleterRuns

  ghost predicate AllOneHead(trees: seq<Tree>) {
    forall i :: 0 <= i < |trees| ==> OneHead(trees[i])
  }

  /** The merge hangs no tree below a leaf. */
  predicate IsInside(trees: seq<Tree>, m: Merger) {
    Fits(trees, m) && MatchedInside(m.rule.op, trees[m.chk], trees[m.chk + 1], m.place)
  }

  /** The merge leaves the words as they follow each other. */
  predicate IsInOrder(trees: seq<Tree>, m: Merger) {
    Fits(trees, m) && InOrder(m.rule.op, trees[m.chk], trees[m.chk + 1], m.place)
  }

  function LostAt(trees: seq<Tree>, m: Merger): (ws: seq<nat>)
    ensures Fits(trees, m) ==> |ws| == if IsInside(trees, m) then 0 else 1
  {
    if Fits(trees, m) then Lost(m.rule.op, trees[m.chk], trees[m.chk + 1], m.place) else []
  }

  /** The first `n` merges hang no tree below a leaf. */
  ghost predicate InsideUpTo(run: Run, n: nat)
    requires n <= |run.merges| < |run.states|
  {
    forall i :: 0 <= i < n ==> IsInside(run.states[i].trees, run.merges[i])
  }

  ghost predicate AllInside(run: Run)
    requires |run.merges| < |run.states|
  {
    InsideUpTo(run, |run.merges|)
  }

  ghost predicate InOrderUpTo(run: Run, n: nat)
    requires n <= |run.merges| < |run.states|
  {
    forall i :: 0 <= i < n ==> IsInOrder(run.states[i].trees, run.merges[i])
  }

  ghost predicate AllInOrder(run: Run)
    requires |run.merges| < |run.states|
  {
    InOrderUpTo(run, |run.merges|)
  }

  ghost predicate NoneCovers(run: Run) {
    forall i :: 0 <= i < |run.merges| ==> !run.merges[i].rule.op.CoverLastLeft?
  }

  /** The words lost in the first `n` merges. */
  function LostWords(run: Run, n: nat): seq<nat>
    requires n <= |run.merges| < |run.states|
  {
    if n == 0 then [] else LostWords(run, n - 1) + LostAt(run.states[n - 1].trees, run.merges[n - 1])
  }

  /** How many of the first `n` merges cover a node. */
  function Covers(run: Run, n: nat): (k: nat)
    requires n <= |run.merges|
    ensures k == 0 <==> forall i :: 0 <= i < n ==> !run.merges[i].rule.op.CoverLastLeft?
  {
    if n == 0 then 0 else Covers(run, n - 1) + OneIf(run.merges[n - 1].rule.op.CoverLastLeft?)
  }

  lemma NothingLostAt(trees: seq<Tree>, m: Merger)
    requires Fits(trees, m)
    ensures LostAt(trees, m) == [] <==> IsInside(trees, m)
  {
  }

  lemma InsideOneMore(run: Run, n: nat)
    requires n < |run.merges| < |run.states|
    ensures InsideUpTo(run, n + 1) <==> InsideUpTo(run, n) && IsInside(run.states[n].trees, run.merges[n])
  {
  }

  lemma {:induction false} NothingLostIff(g: Grammar, run: Run, n: nat)
    requires IsRun(g, run) && n <= |run.merges|
    ensures LostWords(run, n) == [] <==> InsideUpTo(run, n)
  {
    if n > 0 {
      NothingLostIff(g, run, n - 1);
      NextState(g, run, n - 1);
      NothingLostAt(run.states[n - 1].trees, run.merges[n - 1]);
      InsideOneMore(run, n - 1);
    }
  }

  lemma SplitPair(trees: seq<Tree>, chk: nat)
    requires chk + 1 < |trees|
    ensures trees[..chk] + [trees[chk]] + ([trees[chk + 1]] + trees[chk + 2..]) == trees
  {
  }

  lemma Reassociate(a: seq<nat>, x: seq<nat>, y: seq<nat>, b: seq<nat>)
    ensures a + x + (y + b) == a + (x + y) + b
  {
  }

  lemma WordsOfFour(a: seq<Tree>, x: Tree, y: Tree, b: seq<Tree>)
    ensures WordsOf(a + [x] + ([y] + b)) == WordsOf(a) + (Words(x) + Words(y)) + WordsOf(b)
  {
    WordsOfThree(a, x, [y] + b);
    WordsOfSum([y], b);
    WordsOfOne(y);
    Reassociate(WordsOf(a), Words(x), Words(y), WordsOf(b));
  }

  lemma WordsOfMerged(trees: seq<Tree>, chk: nat, t: Tree)
    requires chk + 1 < |trees|
    ensures WordsOf(trees) == WordsOf(trees[..chk]) + (Words(trees[chk]) + Words(trees[chk + 1])) + WordsOf(trees[chk + 2..])
    ensures WordsOf(trees[..chk] + [t] + trees[chk + 2..]) == WordsOf(trees[..chk]) + Words(t) + WordsOf(trees[chk + 2..])
  {
    WordsOfThree(trees[..chk], t, trees[chk + 2..]);
    WordsOfFour(trees[..chk], trees[chk], trees[chk + 1], trees[chk + 2..]);
    SplitPair(trees, chk);
  }

  lemma MergedLosesWords(trees: seq<Tree>, m: Merger)
    requires Fits(trees, m) && AreInner(trees)
    ensures multiset(Words(Merged(trees, m))) + multiset(LostAt(trees, m))
         == multiset(Words(trees[m.chk])) + multiset(Words(trees[m.chk + 1]))
  {
    MergeLosesWords(m.rule.op, m.rule.new1, m.rule.new2, trees[m.chk], trees[m.chk + 1], m.place);
  }

  lemma Balance(a: seq<nat>, t: seq<nat>, l: seq<nat>, r: seq<nat>, lost: seq<nat>, b: seq<nat>)
    requires multiset(t) + multiset(lost) == multiset(l) + multiset(r)
    ensures multiset(a + t + b) + multiset(lost) == multiset(a + (l + r) + b)
  {
  }

  lemma StepLosesWords(trees: seq<Tree>, m: Merger)
    requires Fits(trees, m) && AreInner(trees)
    ensures multiset(WordsOf(After(trees, m))) + multiset(LostAt(trees, m)) == multiset(WordsOf(trees))
  {
    var a, b := WordsOf(trees[..m.chk]), WordsOf(trees[m.chk + 2..]);
    MergedLosesWords(trees, m);
    WordsOfMerged(trees, m.chk, Merged(trees, m));
    Balance(a, Words(Merged(trees, m)), Words(trees[m.chk]), Words(trees[m.chk + 1]), LostAt(trees, m), b);
  }

  lemma LostInTwo(now: seq<nat>, mid: seq<nat>, was: seq<nat>, lost: seq<nat>, more: seq<nat>)
    requires multiset(now) + multiset(more) == multiset(mid) && multiset(mid) + multiset(lost) == multiset(was)
    ensures multiset(now) + multiset(lost + more) == multiset(was)
  {
  }

  /** MAIN RESULT: over a run no word is lost but those of the leaves that trees are hung below. */
  lemma {:induction false} RunLosesWords(g: Grammar, run: Run, n: nat)
    requires IsRun(g, run) && AreInner(First(run).trees) && n <= |run.merges|
    ensures multiset(WordsOf(run.states[n].trees)) + multiset(LostWords(run, n)) == multiset(WordsOf(First(run).trees))
  {
    if n > 0 {
      var was, now, m := run.states[n - 1].trees, run.states[n].trees, run.merges[n - 1];
      RunLosesWords(g, run, n - 1);
      StatesAreInner(g, run, n - 1);
      NextState(g, run, n - 1);
      StepLosesWords(was, m);
      LostInTwo(WordsOf(now), WordsOf(was), WordsOf(First(run).trees), LostWords(run, n - 1), LostAt(was, m));
    }
  }

  lemma NothingMissingIff(a: seq<nat>, lost: seq<nat>, b: seq<nat>)
    requires multiset(a) + multiset(lost) == multiset(b)
    ensures multiset(a) == multiset(b) <==> lost == []
  {
    assert |multiset(a) + multiset(lost)| == |a| + |lost| && |multiset(b)| == |b|;
  }

  /** MAIN RESULT: a run keeps all words exactly when none of its merges hangs a tree below a leaf. */
  lemma RunKeepsWordsIff(g: Grammar, run: Run)
    requires IsRun(g, run) && AreInner(First(run).trees)
    ensures multiset(WordsOf(Last(run).trees)) == multiset(WordsOf(First(run).trees)) <==> AllInside(run)
  {
    var n := |run.merges|;
    RunLosesWords(g, run, n);
    NothingLostIff(g, run, n);
    NothingMissingIff(WordsOf(Last(run).trees), LostWords(run, n), WordsOf(First(run).trees));
  }

  lemma ExcessOfMerged(trees: seq<Tree>, chk: nat, t: Tree)
    requires chk + 1 < |trees|
    ensures ExcessOf(trees) == ExcessOf(trees[..chk]) + Excess(trees[chk]) + Excess(trees[chk + 1]) + ExcessOf(trees[chk + 2..])
    ensures ExcessOf(trees[..chk] + [t] + trees[chk + 2..]) == ExcessOf(trees[..chk]) + Excess(t) + ExcessOf(trees[chk + 2..])
  {
    ExcessOfThree(trees[..chk], t, trees[chk + 2..]);
    ExcessOfThree(trees[..chk], trees[chk], [trees[chk + 1]] + trees[chk + 2..]);
    ExcessOfThree([], trees[chk + 1], trees[chk + 2..]);
    assert [] + [trees[chk + 1]] == [trees[chk + 1]];
    SplitPair(trees, chk);
  }

  lemma StepExcess(trees: seq<Tree>, m: Merger)
    requires Fits(trees, m) && AreInner(trees)
    ensures ExcessOf(After(trees, m)) == ExcessOf(trees) + OneIf(m.rule.op.CoverLastLeft?) - |LostAt(trees, m)|
  {
    MergeExcess(m.rule.op, m.rule.new1, m.rule.new2, trees[m.chk], trees[m.chk + 1], m.place);
    ExcessOfMerged(trees, m.chk, Merged(trees, m));
  }

  /** MAIN RESULT: over a run the heads that are too many are one for every node covered, less one for
      every word lost. */
  lemma {:induction false} RunExcess(g: Grammar, run: Run, n: nat)
    requires IsRun(g, run) && AreInner(First(run).trees) && n <= |run.merges|
    ensures ExcessOf(run.states[n].trees) == ExcessOf(First(run).trees) + Covers(run, n) - |LostWords(run, n)|
  {
    if n > 0 {
      RunExcess(g, run, n - 1);
      StatesAreInner(g, run, n - 1);
      NextState(g, run, n - 1);
      StepExcess(run.states[n - 1].trees, run.merges[n - 1]);
    }
  }

  /** One head everywhere at both ends: as many nodes were covered as words were lost. */
  lemma OneHeadBalances(g: Grammar, run: Run)
    requires IsRun(g, run) && AreInner(First(run).trees)
    requires AllOneHead(First(run).trees) && AllOneHead(Last(run).trees)
    ensures Covers(run, |run.merges|) == |LostWords(run, |run.merges|)|
  {
    RunExcess(g, run, |run.merges|);
    OneHeadsHaveNoExcess(First(run).trees);
    OneHeadsHaveNoExcess(Last(run).trees);
  }

  lemma StepKeepsOneHead(trees: seq<Tree>, m: Merger)
    requires IsInside(trees, m) && AreInner(trees) && AllOneHead(trees) && !m.rule.op.CoverLastLeft?
    ensures AllOneHead(After(trees, m))
  {
    MergeKeepsOneHeadIff(m.rule.op, m.rule.new1, m.rule.new2, trees[m.chk], trees[m.chk + 1], m.place);
  }

  lemma {:induction false} RunKeepsOneHead(g: Grammar, run: Run, n: nat)
    requires IsRun(g, run) && AreInner(First(run).trees) && AllOneHead(First(run).trees) && n <= |run.merges|
    requires AllInside(run) && NoneCovers(run)
    ensures AllOneHead(run.states[n].trees)
  {
    if n > 0 {
      RunKeepsOneHead(g, run, n - 1);
      StatesAreInner(g, run, n - 1);
      NextState(g, run, n - 1);
      StepKeepsOneHead(run.states[n - 1].trees, run.merges[n - 1]);
    }
  }

  /** MAIN RESULT: a run keeps all words and one head everywhere exactly when none of its merges hangs
      a tree below a leaf or covers a node. Of a run that does only one of these, heads alone tell. */
  lemma RunKeepsOneHeadIff(g: Grammar, run: Run)
    requires IsRun(g, run) && AreInner(First(run).trees) && AllOneHead(First(run).trees)
    ensures AllInside(run) || NoneCovers(run) ==> (AllOneHead(Last(run).trees) <==> AllInside(run) && NoneCovers(run))
    ensures multiset(WordsOf(Last(run).trees)) == multiset(WordsOf(First(run).trees)) && AllOneHead(Last(run).trees)
       <==> AllInside(run) && NoneCovers(run)
  {
    RunKeepsWordsIff(g, run);
    NothingLostIff(g, run, |run.merges|);
    if AllInside(run) && NoneCovers(run) {
      RunKeepsOneHead(g, run, |run.merges|);
    } else if AllOneHead(Last(run).trees) {
      OneHeadBalances(g, run);
    }
  }

  /** The words of a tree come before those of the trees after it. */
  ghost predicate AreSeparate(trees: seq<Tree>) {
    forall i, j :: 0 <= i < j < |trees| ==> Precede(Words(trees[i]), Words(trees[j]))
  }

  lemma {:induction false} WordsInList(ts: seq<Tree>, i: nat, x: nat)
    requires i < |ts| && x in Words(ts[i])
    ensures x in WordsOf(ts)
  {
    WordsAround(ts, i, ts[i]);
  }

  lemma IncreasingIsSeparate(trees: seq<Tree>)
    requires Increasing(WordsOf(trees))
    ensures AreSeparate(trees)
  {
    forall i, j | 0 <= i < j < |trees|
      ensures Precede(Words(trees[i]), Words(trees[j]))
    {
      var a, b := trees[..j], trees[j..];
      assert a + b == trees && a[i] == trees[i] && b[0] == trees[j];
      WordsOfSum(a, b);
      forall x, y | x in Words(trees[i]) && y in Words(trees[j])
        ensures x < y
      {
        WordsInList(a, i, x);
        WordsInList(b, 0, y);
        IncreasingParts(WordsOf(a), WordsOf(b));
      }
    }
  }

  lemma FromEither(x: nat, t: seq<nat>, l: seq<nat>, r: seq<nat>, lost: seq<nat>)
    requires multiset(t) + multiset(lost) == multiset(l) + multiset(r) && x in t
    ensures x in l || x in r
  {
    assert x in multiset(t) + multiset(lost);
  }

  lemma MergedWords(trees: seq<Tree>, m: Merger, x: nat)
    requires Fits(trees, m) && AreInner(trees) && x in Words(Merged(trees, m))
    ensures x in Words(trees[m.chk]) || x in Words(trees[m.chk + 1])
  {
    MergedLosesWords(trees, m);
    FromEither(x, Words(Merged(trees, m)), Words(trees[m.chk]), Words(trees[m.chk + 1]), LostAt(trees, m));
  }

  lemma AfterIsSeparate(trees: seq<Tree>, m: Merger)
    requires Fits(trees, m) && AreInner(trees) && AreSeparate(trees)
    ensures AreSeparate(After(trees, m))
  {
    var more := After(trees, m);
    forall i, j | 0 <= i < j < |more|
      ensures Precede(Words(more[i]), Words(more[j]))
    {
      forall x, y | x in Words(more[i]) && y in Words(more[j])
        ensures x < y
      {
        var p := FromTree(trees, m, i, x);
        var q := FromTree(trees, m, j, y);
        assert Precede(Words(trees[p]), Words(trees[q]));
      }
    }
  }

  /** The tree that a word was in before a merge. */
  lemma FromTree(trees: seq<Tree>, m: Merger, i: nat, x: nat) returns (p: nat)
    requires Fits(trees, m) && AreInner(trees) && i < |trees| - 1 && x in Words(After(trees, m)[i])
    ensures p < |trees| && x in Words(trees[p])
    ensures if i < m.chk then p == i else if i == m.chk then p == i || p == i + 1 else p == i + 1
  {
    if i < m.chk {
      p := i;
    } else if i > m.chk {
      p := i + 1;
    } else {
      MergedWords(trees, m, x);
      p := if x in Words(trees[i]) then i else i + 1;
    }
  }

  lemma {:induction false} StatesAreSeparate(g: Grammar, run: Run, n: nat)
    requires IsRun(g, run) && AreInner(First(run).trees) && AreSeparate(First(run).trees) && n <= |run.merges|
    ensures AreSeparate(run.states[n].trees)
  {
    if n > 0 {
      StatesAreSeparate(g, run, n - 1);
      StatesAreInner(g, run, n - 1);
      NextState(g, run, n - 1);
      AfterIsSeparate(run.states[n - 1].trees, run.merges[n - 1]);
    }
  }

  lemma IncreasingMiddle(a: seq<nat>, x: seq<nat>, b: seq<nat>)
    requires Increasing(a + x + b)
    ensures Increasing(x)
  {
    forall i, j | 0 <= i < j < |x|
      ensures x[i] < x[j]
    {
      assert (a + x + b)[|a| + i] == x[i] && (a + x + b)[|a| + j] == x[j];
    }
  }

  lemma StepKeepsOrderIff(trees: seq<Tree>, m: Merger)
    requires IsInside(trees, m) && AreInner(trees) && AreSeparate(trees)
    ensures Increasing(WordsOf(After(trees, m))) ==> IsInOrder(trees, m)
    ensures IsInOrder(trees, m) ==> WordsOf(After(trees, m)) == WordsOf(trees)
  {
    var left, right, t := trees[m.chk], trees[m.chk + 1], Merged(trees, m);
    MergeKeepsOrderIff(m.rule.op, m.rule.new1, m.rule.new2, left, right, m.place);
    WordsOfMerged(trees, m.chk, t);
    if Increasing(WordsOf(After(trees, m))) {
      IncreasingMiddle(WordsOf(trees[..m.chk]), Words(t), WordsOf(trees[m.chk + 2..]));
    }
  }

  lemma {:induction false} RunInOrder(g: Grammar, run: Run, n: nat)
    requires IsRun(g, run) && AreInner(First(run).trees) && AreSeparate(First(run).trees)
    requires n <= |run.merges| && InsideUpTo(run, n)
    ensures Increasing(WordsOf(run.states[n].trees)) ==> InOrderUpTo(run, n)
    ensures InOrderUpTo(run, n) ==> WordsOf(run.states[n].trees) == WordsOf(First(run).trees)
  {
    if n > 0 {
      RunInOrder(g, run, n - 1);
      MergeInOrder(g, run, n - 1);
    }
  }

  lemma MergeInOrder(g: Grammar, run: Run, i: nat)
    requires IsRun(g, run) && AreInner(First(run).trees) && AreSeparate(First(run).trees)
    requires i < |run.merges| && IsInside(run.states[i].trees, run.merges[i])
    ensures var trees, more, m := run.states[i].trees, run.states[i + 1].trees, run.merges[i];
            && (Increasing(WordsOf(more)) ==> IsInOrder(trees, m))
            && (IsInOrder(trees, m) ==> WordsOf(more) == WordsOf(trees))
  {
    StatesAreInner(g, run, i);
    StatesAreSeparate(g, run, i);
    NextState(g, run, i);
    StepKeepsOrderIff(run.states[i].trees, run.merges[i]);
  }

  /** MAIN RESULT: a run keeps the words of a sentence and their order exactly when each of its merges
      is made at the edge between the two trees, and none hangs a tree below a leaf. */
  lemma RunKeepsOrderIff(g: Grammar, run: Run)
    requires IsRun(g, run) && AreInner(First(run).trees) && Increasing(WordsOf(First(run).trees))
    ensures WordsOf(Last(run).trees) == WordsOf(First(run).trees) <==> AllInside(run) && AllInOrder(run)
  {
    IncreasingIsSeparate(First(run).trees);
    RunKeepsWordsIff(g, run);
    if AllInside(run) {
      RunInOrder(g, run, |run.merges|);
    }
  }
}
