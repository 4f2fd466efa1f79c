/** A word that is tagged, analysed again and tagged once more: marks of the first tagging can hide
    the tags of the second. */
module Retagging {
  import opened LogProbs
  import opened Trellises
  import opened Viterbi
  import opened HmmTaggers
  import opened TaggedSentences
  import opened Tagging
  import opened SequenceProbs

  /** A model without any tables but that of tags; the logarithm is any increasing function. */
  function SmallHmm(log: real -> LogProb): Hmm {
    Hmm(t => if t == "N" then "N" else if t == "A" then "A" else "V", map["x" := 1.0], map[], map[], map[], map[],
        Fin(0.0), Fin(0.0), 1.0, 0.0, 0.0, log, (key, readings, t) => false, 2)
  }

  lemma SmallHmmIsWellFormed(log: real -> LogProb)
    requires IsLog(log)
    ensures SmallHmm(log).WellFormed()
  {
    DotFreeKeysAgree(SmallHmm(log), SmallHmm(log).Tags());
  }

  /** A word with two readings, both selected. */
  function Saw(): Word {
    Word("saw", [Analysis("saw", "N", 0.5, {0}), Analysis("see", "V", 0.3, {0})])
  }

  /** The word after tagging: one reading in the best sequence, the other in the next. */
  function SawTagged(): Word {
    Word("saw", [Analysis("saw", "N", 0.5, {0}), Analysis("see", "V", 0.3, {1})])
  }

  /** Another reading has been added, and all readings have been selected again. */
  function SawAgain(): Word {
    Word("saw", [Analysis("saw", "N", 0.5, {0}), Analysis("see", "V", 0.3, {0, 1}), Analysis("saw", "A", 0.4, {0})])
  }

  /** Selecting all readings in sequence 0. */
  function SelectAll(readings: seq<Analysis>): (r: seq<Analysis>)
    ensures |r| == |readings|
  {
    seq(|readings|, i requires 0 <= i < |readings| => readings[i].(marks := readings[i].marks + {0}))
  }

  lemma AddedAndSelected()
    ensures SawAgain().analyses == SelectAll(SawTagged().analyses + [Analysis("saw", "A", 0.4, {})])
  {
    assert {1} + {0} == {0, 1} && {} + {0} == {0};
  }

  /** The path of a sentence of one word through a tag. */
  function OneTag(tag: Tag): seq<Bigram> {
    [Bigram("0", tag), END_STATE]
  }

  lemma OneTagScore(h: Hmm, w: Word, states: seq<seq<Bigram>>, tag: Tag)
    requires h.WellFormed()
    ensures var s := Bigram("0", tag);
            LatticeOf(h, [w], states).Score(OneTag(tag)) == h.ProbPi(s).Plus(h.ProbB(s, w)).Plus(ONE)
  {
    var p := OneTag(tag);
    assert p[..1] == [Bigram("0", tag)];
  }

  /** The paths of a sentence of one word: one for each selected tag. */
  lemma OneWordPaths(h: Hmm, w: Word, states: seq<seq<Bigram>>, p: seq<Bigram>)
    requires h.WellFormed() && EmissionStates(h, [w], states)
    ensures var l := LatticeOf(h, [w], states);
            IsPathTo(l, 1, END_STATE, p) <==> |p| == 2 && p == OneTag(p[0].second) && p[0].second in SelectedTags(h, w.analyses)
  {
    var l := LatticeOf(h, [w], states);
    assert StatesAt(h, [w], states, 0);
    if |p| == 2 {
      assert p[..1] == [p[0]];
      assert MayEmit(h, [w], 0, p[0]) <==> p[0].first == "0" && p[0].second in SelectedTags(h, w.analyses);
      assert l.IsPath(p[..1]) <==> p[0] in states[0];
    }
  }

  /** Tags of a word by the scores of their paths, best first and all different. */
  ghost predicate RanksTags(h: Hmm, w: Word, tags: seq<Tag>) {
    && (forall tag :: tag in tags <==> tag in SelectedTags(h, w.analyses))
    && h.WellFormed()
    && forall i, j :: 0 <= i < j < |tags| ==>
         LatticeOf(h, [w], []).Score(OneTag(tags[j])).Below(LatticeOf(h, [w], []).Score(OneTag(tags[i])))
  }

  ghost function Paths(tags: seq<Tag>): (all: seq<seq<Bigram>>)
    ensures |all| == |tags|
  {
    seq(|tags|, i requires 0 <= i < |tags| => OneTag(tags[i]))
  }

  lemma SameScore(h: Hmm, w: Word, states: seq<seq<Bigram>>, tag: Tag)
    requires h.WellFormed()
    ensures LatticeOf(h, [w], states).Score(OneTag(tag)) == LatticeOf(h, [w], []).Score(OneTag(tag))
  {
    OneTagScore(h, w, states, tag);
    OneTagScore(h, w, [], tag);
  }

  lemma OneWordRanking(h: Hmm, w: Word, states: seq<seq<Bigram>>, tags: seq<Tag>)
    requires RanksTags(h, w, tags) && EmissionStates(h, [w], states)
    ensures RanksAllPaths(LatticeOf(h, [w], states), 1, END_STATE, Paths(tags))
  {
    var l, all := LatticeOf(h, [w], states), Paths(tags);
    forall i, j | 0 <= i < j < |all|
      ensures all[i] != all[j] && l.Score(all[j]).AtMost(l.Score(all[i]))
    {
      SameScore(h, w, states, tags[i]);
      SameScore(h, w, states, tags[j]);
    }
    forall p: seq<Bigram>
      ensures p in all <==> IsPathTo(l, 1, END_STATE, p)
    {
      OneWordPaths(h, w, states, p);
      if p in all {
        var i :| 0 <= i < |all| && all[i] == p;
        assert tags[i] in tags;
      }
      if IsPathTo(l, 1, END_STATE, p) {
        var i :| 0 <= i < |tags| && tags[i] == p[0].second;
        assert all[i] == p;
      }
    }
  }

  /** Different ranks have different scores. */
  lemma SameRank(h: Hmm, w: Word, tags: seq<Tag>, i: nat, j: nat)
    requires RanksTags(h, w, tags) && i < |tags| && j < |tags|
    requires LatticeOf(h, [w], []).Score(OneTag(tags[i])) == LatticeOf(h, [w], []).Score(OneTag(tags[j]))
    ensures i == j
  {
  }

  lemma TraceIsRanked(h: Hmm, w: Word, states: seq<seq<Bigram>>, cols: Columns, tags: seq<Tag>, bp: nat) returns (i: nat)
    requires RanksTags(h, w, tags) && IsTrellisOf(h, [w], states, cols) && bp < |cols[1][END_STATE]|
    ensures i < |tags| && Traces(cols, 1, END_STATE)[bp] == OneTag(tags[i])
    ensures LatticeOf(h, [w], []).Score(OneTag(tags[i])) == cols[1][END_STATE][bp].prob
  {
    var l := LatticeOf(h, [w], states);
    OneWordRanking(h, w, states, tags);
    FilledIsBest(l, h.Paths(), cols);
    TracesAreScoredPaths(l, h.Paths(), cols, 1, END_STATE, bp);
    var p := Trace(cols, 1, END_STATE, bp);
    assert p in Paths(tags);
    i :| i < |tags| && Paths(tags)[i] == p;
    SameScore(h, w, states, tags[i]);
  }

  /** The tags that a word is given in each sequence, when no two have the same score. */
  lemma OneWordTags(h: Hmm, w: Word, states: seq<seq<Bigram>>, cols: Columns, tags: seq<Tag>)
    requires RanksTags(h, w, tags) && IsTrellisOf(h, [w], states, cols)
    ensures |cols[1][END_STATE]| == if |tags| < h.Paths() then |tags| else h.Paths()
    ensures forall bp :: 0 <= bp < |cols[1][END_STATE]| ==> Traces(cols, 1, END_STATE)[bp] == OneTag(tags[bp])
  {
    var l := LatticeOf(h, [w], states);
    OneWordRanking(h, w, states, tags);
    TrellisHoldsTheKBest(l, h.Paths(), cols, 1, END_STATE, Paths(tags));
    forall bp: nat | bp < |cols[1][END_STATE]|
      ensures Traces(cols, 1, END_STATE)[bp] == OneTag(tags[bp])
    {
      var i := TraceIsRanked(h, w, states, cols, tags, bp);
      SameScore(h, w, states, tags[bp]);
      SameRank(h, w, tags, i, bp);
    }
  }

  /** What tagging a sentence of one word leaves. */
  ghost predicate Tagged(h: Hmm, w: Word, now: seq<Word>)
    requires h.WellFormed()
  {
    exists states, cols :: IsTrellisOf(h, [w], states, cols) && Annotated(h, [w], now, Traces(cols, 1, END_STATE))
  }

  /** The tags of the sequences kept. */
  function Kept(h: Hmm, tags: seq<Tag>): seq<Tag> {
    if |tags| < h.Paths() then tags else tags[..h.Paths()]
  }

  lemma TaggedIsRemarked(h: Hmm, w: Word, now: seq<Word>, tags: seq<Tag>)
    requires RanksTags(h, w, tags) && Tagged(h, w, now)
    ensures |now| == 1 && Remarked(h, w, now[0], Kept(h, tags))
  {
    var states, cols :| IsTrellisOf(h, [w], states, cols) && Annotated(h, [w], now, Traces(cols, 1, END_STATE));
    OneWordTags(h, w, states, cols, tags);
    var paths := Traces(cols, 1, END_STATE);
    assert RemarkedAt(h, [w], now, paths, 0);
    assert TagsAt(paths, 0) == Kept(h, tags);
  }

  lemma {:induction false} SmallScores(log: real -> LogProb, w: Word, tag: Tag)
    requires IsLog(log) && w.lcForm == "saw"
    ensures var h := SmallHmm(log);
            h.WellFormed() && LatticeOf(h, [w], []).Score(OneTag(tag)) == log(h.MatchingMass(tag, w.analyses)).Minus(log(1.0))
  {
    SmallHmmIsWellFormed(log);
    OneTagScore(SmallHmm(log), w, [], tag);
  }

  /** The readings of a word before place `n`, and the next. */
  lemma OneReadingMore(h: Hmm, readings: seq<Analysis>, n: nat, tag: Tag)
    requires n < |readings|
    ensures h.MatchingMass(tag, readings[..n + 1])
         == h.MatchingMass(tag, readings[..n]) + if h.shortTag(readings[n].tag) == tag then readings[n].prob else 0.0
    ensures SelectedTags(h, readings[..n + 1])
         == SelectedTags(h, readings[..n]) + if 0 in readings[n].marks then {h.shortTag(readings[n].tag)} else {}
  {
    assert readings[..n + 1][..n] == readings[..n];
  }

  lemma SawReadings(log: real -> LogProb, tag: Tag)
    ensures var h, a := SmallHmm(log), Saw().analyses;
            && h.MatchingMass(tag, a) == (if tag == "N" then 0.5 else 0.0) + (if tag == "V" then 0.3 else 0.0)
            && SelectedTags(h, a) == {"N", "V"}
  {
    var h, a := SmallHmm(log), Saw().analyses;
    OneReadingMore(h, a, 0, tag);
    OneReadingMore(h, a, 1, tag);
    assert a[..2] == a && a[..0] == [];
  }

  lemma SawRanking(log: real -> LogProb)
    requires IsLog(log)
    ensures RanksTags(SmallHmm(log), Saw(), ["N", "V"])
  {
    forall tag: Tag
    {
      SawReadings(log, tag);
    }
    SmallScores(log, Saw(), "N");
    SmallScores(log, Saw(), "V");
  }

  lemma SawAgainReadings(log: real -> LogProb, tag: Tag)
    ensures var h, a := SmallHmm(log), SawAgain().analyses;
            && h.MatchingMass(tag, a)
               == (if tag == "N" then 0.5 else 0.0) + (if tag == "V" then 0.3 else 0.0) + (if tag == "A" then 0.4 else 0.0)
            && SelectedTags(h, a) == {"N", "V", "A"}
  {
    var h, a := SmallHmm(log), SawAgain().analyses;
    OneReadingMore(h, a, 0, tag);
    OneReadingMore(h, a, 1, tag);
    OneReadingMore(h, a, 2, tag);
    assert a[..3] == a && a[..0] == [];
  }

  lemma ScoresDescend(log: real -> LogProb, w: Word, s: Tag, t: Tag)
    requires IsLog(log) && w.lcForm == "saw"
    requires 0.0 < SmallHmm(log).MatchingMass(t, w.analyses) < SmallHmm(log).MatchingMass(s, w.analyses)
    ensures SmallHmm(log).WellFormed()
    ensures var l := LatticeOf(SmallHmm(log), [w], []);
            l.Score(OneTag(t)).Below(l.Score(OneTag(s)))
  {
    SmallScores(log, w, s);
    SmallScores(log, w, t);
  }

  lemma SawAgainRanking(log: real -> LogProb)
    requires IsLog(log)
    ensures RanksTags(SmallHmm(log), SawAgain(), ["N", "A", "V"])
  {
    var w, tags: seq<Tag> := SawAgain(), ["N", "A", "V"];
    SawAgainReadings(log, "N");
    SawAgainReadings(log, "A");
    SawAgainReadings(log, "V");
    ScoresDescend(log, w, "N", "A");
    ScoresDescend(log, w, "A", "V");
    ScoresDescend(log, w, "N", "V");
    assert forall tag :: tag in tags <==> tag in {"N", "V", "A"};
  }

  lemma SawIsBest(log: real -> LogProb, tag: Tag, j: nat)
    ensures IsBestReading(SmallHmm(log), Saw().analyses, tag, j) <==> (tag == "N" && j == 0) || (tag == "V" && j == 1)
  {
    var a := Saw().analyses;
    assert SmallHmm(log).shortTag(a[0].tag) == "N" && SmallHmm(log).shortTag(a[1].tag) == "V";
  }

  lemma SawSelections(log: real -> LogProb, tags: seq<Tag>, j: nat)
    requires tags == ["N", "V"] && j < 2
    ensures Selections(SmallHmm(log), Saw().analyses, tags, j) == {j}
  {
    forall bp: nat | bp < |tags|
      ensures bp in Selections(SmallHmm(log), Saw().analyses, tags, j) <==> bp == j
    {
      SawIsBest(log, tags[bp], j);
    }
  }

  lemma SawIsMarked(log: real -> LogProb, now: Word)
    requires Remarked(SmallHmm(log), Saw(), now, ["N", "V"])
    ensures now == SawTagged()
  {
    SawSelections(log, ["N", "V"], 0);
    SawSelections(log, ["N", "V"], 1);
    var a := Saw().analyses;
    var none: set<nat> := a[0].marks - {0};
    assert none == {} && none + {0} == {0} && none + {1} == {1};
    assert now.analyses[0] == a[0].(marks := {0}) && now.analyses[1] == a[1].(marks := {1});
    assert now.analyses == SawTagged().analyses;
  }

  /** The first tagging. */
  lemma FirstTagging(log: real -> LogProb, now: seq<Word>)
    requires IsLog(log) && SmallHmm(log).WellFormed() && Tagged(SmallHmm(log), Saw(), now)
    ensures now == [SawTagged()]
  {
    var tags := ["N", "V"];
    SawRanking(log);
    TaggedIsRemarked(SmallHmm(log), Saw(), now, tags);
    assert Kept(SmallHmm(log), tags) == tags;
    SawIsMarked(log, now[0]);
  }

  lemma SawAgainIsStale(log: real -> LogProb)
    ensures var h, a := SmallHmm(log), SawAgain().analyses;
            && FirstSelected(a, 1) == 1 && h.shortTag(a[1].tag) == "V"
            && IsBestReading(h, a, "A", 2) && !BestBefore(h, a, "A", 1)
  {
    var a := SawAgain().analyses;
    assert 1 in a[1].marks && 1 !in a[0].marks && 1 !in a[2].marks;
    assert SmallHmm(log).shortTag(a[0].tag) == "N" && SmallHmm(log).shortTag(a[1].tag) == "V";
    assert SmallHmm(log).shortTag(a[2].tag) == "A";
  }

  lemma SawAgainIsMisread(log: real -> LogProb, now: Word)
    requires Remarked(SmallHmm(log), SawAgain(), now, ["N", "A"])
    ensures InSequence(now, 1) && SelectedTag(SmallHmm(log), now, 1) == "V"
  {
    var h, a := SmallHmm(log), SawAgain().analyses;
    SawAgainIsStale(log);
    MarkedIffStaleOrBest(h, SawAgain(), now, ["N", "A"], 1);
    assert !IsBestReading(h, a, "A", 0);
    assert 1 !in now.analyses[0].marks && 1 in now.analyses[1].marks;
  }

  lemma SawAgainIsNotStaleFree(log: real -> LogProb)
    ensures !StaleFree(SmallHmm(log), SawAgain(), 1)
  {
    SawAgainIsStale(log);
    SawAgainReadings(log, "A");
  }

  /** MAIN RESULT: a word is tagged, gets another reading, has all readings selected again, and is
      tagged a second time. Its second sequence is that of the added reading, but reads back as
      the one of the first tagging. */
  lemma SecondTaggingMisreads(log: real -> LogProb, now: seq<Word>)
    requires IsLog(log) && SmallHmm(log).WellFormed() && Tagged(SmallHmm(log), SawAgain(), now)
    ensures |now| == 1 && Remarked(SmallHmm(log), SawAgain(), now[0], ["N", "A"])
    ensures InSequence(now[0], 1) && SelectedTag(SmallHmm(log), now[0], 1) == "V"
    ensures !StaleFree(SmallHmm(log), SawAgain(), 1)
  {
    SawAgainRanking(log);
    TaggedIsRemarked(SmallHmm(log), SawAgain(), now, ["N", "A", "V"]);
    assert Kept(SmallHmm(log), ["N", "A", "V"]) == ["N", "A"];
    SawAgainIsMisread(log, now[0]);
    SawAgainIsNotStaleFree(log);
  }
}
