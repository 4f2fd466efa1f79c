/** The result of tagging, and its agreement with the score of a tagged sentence. */
module SequenceProbs {
  import opened LogProbs
  import opened Trellises
  import opened Viterbi
  import opened HmmTaggers
  import opened TaggedSentences
  import opened Tagging
  import Rankings

  /** The sequences, among those for which `tags` are the tags of this word, that select reading `j`. */
  ghost function Selections(h: Hmm, readings: seq<Analysis>, tags: seq<Tag>, j: nat): set<nat> {
    set bp: nat | bp < |tags| && IsBestReading(h, readings, tags[bp], j)
  }

  /** `now` is `was` with its old selection for sequence 0 erased, and the best readings for
      the `bp`-th of `tags` selected in sequence `bp`. */
  ghost predicate Remarked(h: Hmm, was: Word, now: Word, tags: seq<Tag>) {
    && now.lcForm == was.lcForm && |now.analyses| == |was.analyses|
    && forall j :: 0 <= j < |was.analyses| ==>
         now.analyses[j] == was.analyses[j].(marks := was.analyses[j].marks - {0} + Selections(h, was.analyses, tags, j))
  }

  lemma RemarkedOneMore(h: Hmm, was: Word, before: Word, now: Word, tags: seq<Tag>, tag: Tag)
    requires Remarked(h, was, before, tags) && SelectedIn(h, before, now, tag, |tags|)
    ensures Remarked(h, was, now, tags + [tag])
  {
    forall j: nat | j < |was.analyses|
      ensures now.analyses[j] == was.analyses[j].(marks := was.analyses[j].marks - {0} + Selections(h, was.analyses, tags + [tag], j))
    {
      assert IsBestReading(h, before.analyses, tag, j) == IsBestReading(h, was.analyses, tag, j);
      assert Selections(h, was.analyses, tags + [tag], j)
          == Selections(h, was.analyses, tags, j) + if IsBestReading(h, was.analyses, tag, j) then {|tags|} else {};
    }
  }

  /** The tags that the first `n` of the recovered paths give to word `t`. */
  ghost function TagsAt(paths: seq<seq<Bigram>>, t: nat): seq<Tag>
    requires forall bp :: 0 <= bp < |paths| ==> t < |paths[bp]|
  {
    seq(|paths|, bp requires 0 <= bp < |paths| => paths[bp][t].second)
  }

  ghost predicate RemarkedAt(h: Hmm, was: seq<Word>, now: seq<Word>, paths: seq<seq<Bigram>>, t: nat)
    requires t < |was| == |now| && forall bp :: 0 <= bp < |paths| ==> t < |paths[bp]|
  {
    Remarked(h, was[t], now[t], TagsAt(paths, t))
  }

  /** A sentence marked with the readings selected by each of `paths`. */
  ghost predicate Annotated(h: Hmm, was: seq<Word>, now: seq<Word>, paths: seq<seq<Bigram>>) {
    && |was| == |now|
    && (forall bp :: 0 <= bp < |paths| ==> |paths[bp]| == |was| + 1)
    && (forall t {:trigger RemarkedAt(h, was, now, paths, t)} :: 0 <= t < |was| ==> RemarkedAt(h, was, now, paths, t))
  }

  lemma AnnotatedOneMore(h: Hmm, was: seq<Word>, before: seq<Word>, now: seq<Word>, paths: seq<seq<Bigram>>, p: seq<Bigram>)
    requires Annotated(h, was, before, paths) && |p| == |was| + 1 && |now| == |before|
    requires SelectedFrom(h, before, now, p, 0, |paths|)
    ensures Annotated(h, was, now, paths + [p])
  {
    var more := paths + [p];
    forall t | 0 <= t < |was|
      ensures RemarkedAt(h, was, now, more, t)
    {
      assert RemarkedAt(h, was, before, paths, t) && SelectedAt(h, before, now, p, t, |paths|);
      RemarkedOneMore(h, was[t], before[t], now[t], TagsAt(paths, t), p[t].second);
      assert TagsAt(more, t) == TagsAt(paths, t) + [p[t].second];
    }
  }

  method Unselect(h: Hmm, se: Sentence)
    modifies se
    ensures Annotated(h, old(se.words), se.words, [])
  {
    ghost var was := se.words;
    var n := |se.words|;
    for t := 0 to n
      invariant |se.words| == n
      invariant forall i :: 0 <= i < t ==> Remarked(h, was[i], se.words[i], [])
      invariant forall i :: t <= i < n ==> se.words[i] == was[i]
    {
      var readings := se.words[t].analyses;
      var bare := seq(|readings|, j requires 0 <= j < |readings| => readings[j].(marks := readings[j].marks - {0}));
      se.words := se.words[t := se.words[t].(analyses := bare)];
    }
    forall t | 0 <= t < n
      ensures RemarkedAt(h, was, se.words, [], t)
    {
      assert TagsAt([], t) == [];
    }
  }

  /** `cols` is a trellis of the sentence: the k best paths through its lattice. */
  ghost predicate IsTrellisOf(h: Hmm, ws: seq<Word>, states: seq<seq<Bigram>>, cols: Columns)
    requires h.WellFormed()
  {
    && EmissionStates(h, ws, states)
    && LatticeOf(h, ws, states).Connected()
    && Filled(LatticeOf(h, ws, states), h.Paths(), cols)
    && |cols| == |ws| + 1 && END_STATE in cols[|ws|]
  }

  /** Replaces the selection made before tagging by the readings of the stored paths. */
  method MarkPaths(h: Hmm, tr: Trellis, ghost l: Lattice, se: Sentence)
    requires Best(l, h.Paths(), tr.trl) && |tr.trl| == |se.words| + 1 && se.words != []
    requires END_STATE in tr.trl[|se.words|]
    modifies se
    ensures Annotated(h, old(se.words), se.words, Traces(tr.trl, |old(se.words)|, END_STATE))
  {
    ghost var was := se.words;
    var n := |se.words|;
    ghost var cols := tr.trl;
    ghost var paths := Traces(cols, n, END_STATE);
    Unselect(h, se);
    var best := tr.NBest(n, END_STATE);
    assert paths[..0] == [];
    for bp := 0 to best
      invariant tr.trl == cols
      invariant Annotated(h, was, se.words, paths[..bp])
    {
      ghost var before := se.words;
      RecoverPath(h, tr, l, se, bp);
      AnnotatedOneMore(h, was, before, se.words, paths[..bp], paths[bp]);
      assert paths[..bp + 1] == paths[..bp] + [paths[bp]];
    }
    assert paths[..best] == paths;
  }

  lemma EndIsFilled(h: Hmm, ws: seq<Word>, states: seq<seq<Bigram>>, cols: Columns)
    requires h.WellFormed() && |states| == |ws| && Filled(LatticeOf(h, ws, states), h.Paths(), cols)
    ensures |cols| == |ws| + 1 && END_STATE in cols[|ws|]
  {
    var l := LatticeOf(h, ws, states);
    assert FilledColumn(l, h.Paths(), cols, |ws|);
    assert END_STATE in Members(l.states[|ws|]);
  }

  /** Tags a sentence: every reading selected by one of the k best paths is marked with its rank. */
  method Annotate(tagger: HmmTagger, se: Sentence)
    requires tagger.Valid() && Ready(tagger.hmm, se.words)
    modifies tagger`cache, se
    ensures tagger.Valid()
    ensures exists states, cols :: IsTrellisOf(tagger.hmm, old(se.words), states, cols)
                                && Annotated(tagger.hmm, old(se.words), se.words, Traces(cols, |old(se.words)|, END_STATE))
  {
    ghost var was := se.words;
    var tr, states := FillTrellis(tagger, se.words);
    ghost var l := LatticeOf(tagger.hmm, was, states);
    FilledIsBest(l, tagger.hmm.Paths(), tr.trl);
    EndIsFilled(tagger.hmm, was, states, tr.trl);
    assert IsTrellisOf(tagger.hmm, was, states, tr.trl);
    MarkPaths(tagger.hmm, tr, l, se);
  }

  /** The first reading selected in sequence `k`, or the number of readings if there is none. */
  function FirstSelected(readings: seq<Analysis>, k: nat): (j: nat)
    ensures j <= |readings|
    ensures j < |readings| ==> k in readings[j].marks
    ensures forall i :: 0 <= i < j ==> k !in readings[i].marks
  {
    if readings == [] || k in readings[0].marks then 0 else 1 + FirstSelected(readings[1..], k)
  }

  ghost predicate InSequence(w: Word, k: nat) {
    FirstSelected(w.analyses, k) < |w.analyses|
  }

  /** Every word has a reading selected in sequence `k`. */
  ghost predicate HasSequence(ws: seq<Word>, k: nat) {
    forall t {:trigger InSequence(ws[t], k)} :: 0 <= t < |ws| ==> InSequence(ws[t], k)
  }

  function SelectedTag(h: Hmm, w: Word, k: nat): (tag: Tag)
    requires InSequence(w, k)
    ensures tag in h.Tags()
  {
    assert h.IsShort(h.shortTag(w.analyses[FirstSelected(w.analyses, k)].tag));
    h.shortTag(w.analyses[FirstSelected(w.analyses, k)].tag)
  }

  /** The states that the selected tags of sequence `k` go through. */
  ghost function TagPath(h: Hmm, ws: seq<Word>, k: nat): (p: seq<Bigram>)
    requires HasSequence(ws, k)
    ensures |p| == |ws|
  {
    seq(|ws|, t requires 0 <= t < |ws| => TagState(h, ws, k, t))
  }

  ghost function TagState(h: Hmm, ws: seq<Word>, k: nat, t: nat): Bigram
    requires HasSequence(ws, k) && t < |ws|
  {
    assert InSequence(ws[t], k) && (t == 0 || InSequence(ws[t - 1], k));
    Bigram(if t == 0 then "0" else SelectedTag(h, ws[t - 1], k), SelectedTag(h, ws[t], k))
  }

  lemma ScoreOneMore(l: Lattice, p: seq<Bigram>, t: nat)
    requires 1 <= t < |p|
    ensures l.Score(p[..t + 1]) == l.Score(p[..t]).Plus(l.arc(t, p[t - 1], p[t]))
  {
    assert p[..t + 1][..t] == p[..t];
  }

  /** The score of the first `n` words in sequence `k`. */
  ghost function PrefixScore(h: Hmm, ws: seq<Word>, k: nat, n: nat): LogProb
    requires h.WellFormed() && HasSequence(ws, k) && n <= |ws|
  {
    LatticeOf(h, ws, []).Score(TagPath(h, ws, k)[..n])
  }

  lemma PrefixScoreOfOne(h: Hmm, ws: seq<Word>, k: nat)
    requires h.WellFormed() && ws != [] && HasSequence(ws, k)
    ensures var st := TagState(h, ws, k, 0);
            PrefixScore(h, ws, k, 1) == h.ProbPi(st).Plus(h.ProbB(st, ws[0]))
  {
    assert TagPath(h, ws, k)[0] == TagState(h, ws, k, 0);
  }

  lemma TagStatesOverlap(h: Hmm, ws: seq<Word>, k: nat, n: nat)
    requires h.WellFormed() && HasSequence(ws, k) && 1 <= n < |ws|
    ensures Overlap(h.Tags(), TagState(h, ws, k, n - 1), TagState(h, ws, k, n))
  {
    assert InSequence(ws[n], k) && InSequence(ws[n - 1], k);
    assert n > 1 ==> InSequence(ws[n - 2], k) && SelectedTag(h, ws[n - 2], k) in h.Tags();
    assert SelectedTag(h, ws[n - 1], k) in h.Tags() && SelectedTag(h, ws[n], k) in h.Tags();
  }

  lemma PrefixScoreOneMore(h: Hmm, ws: seq<Word>, k: nat, n: nat, st: Bigram, next: Bigram)
    requires h.WellFormed() && HasSequence(ws, k) && 1 <= n < |ws|
    requires st == TagState(h, ws, k, n - 1) && next == TagState(h, ws, k, n)
    ensures PrefixScore(h, ws, k, n + 1)
         == PrefixScore(h, ws, k, n).Plus(h.ProbA(st, next, ws, n).Plus(h.ProbB(next, ws[n])))
  {
    var path := TagPath(h, ws, k);
    assert path[n - 1] == st && path[n] == next;
    ScoreOneMore(LatticeOf(h, ws, []), path, n);
  }

  /** Adds one word to the score of sequence `k`. */
  method ScoreOfNextWord(tagger: HmmTagger, ws: seq<Word>, k: nat, t: nat, st: Bigram, next: Bigram, p: LogProb)
    returns (q: LogProb)
    requires tagger.Valid() && HasSequence(ws, k) && 1 <= t < |ws|
    requires st == TagState(tagger.hmm, ws, k, t - 1) && next == TagState(tagger.hmm, ws, k, t)
    requires p == PrefixScore(tagger.hmm, ws, k, t)
    modifies tagger`cache
    ensures tagger.Valid()
    ensures q == PrefixScore(tagger.hmm, ws, k, t + 1)
  {
    TagStatesOverlap(tagger.hmm, ws, k, t);
    PrefixScoreOneMore(tagger.hmm, ws, k, t, st, next);
    var transition := tagger.ProbALog(st, next, ws, t);
    var emission := tagger.ProbBLog(next, ws[t]);
    PlusAssociates(p, transition, emission);
    q := p.Plus(transition).Plus(emission);
  }

  /** The score of the `k`-th tag sequence of a tagged sentence. */
  method SequenceProbLog(tagger: HmmTagger, ws: seq<Word>, k: nat) returns (p: LogProb)
    requires tagger.Valid() && ws != [] && HasSequence(ws, k)
    modifies tagger`cache
    ensures tagger.Valid()
    ensures p == LatticeOf(tagger.hmm, ws, []).Score(TagPath(tagger.hmm, ws, k))
  {
    assert InSequence(ws[0], k);
    var tag := SelectedTag(tagger.hmm, ws[0], k);
    var st := Bigram("0", tag);
    p := tagger.hmm.ProbPi(st);
    var emission := tagger.ProbBLog(st, ws[0]);
    p := p.Plus(emission);
    PrefixScoreOfOne(tagger.hmm, ws, k);
    for t := 1 to |ws|
      invariant tagger.Valid()
      invariant st == TagState(tagger.hmm, ws, k, t - 1) && tag == st.second
      invariant p == PrefixScore(tagger.hmm, ws, k, t)
    {
      assert InSequence(ws[t], k) && InSequence(ws[t - 1], k);
      var nextTag := SelectedTag(tagger.hmm, ws[t], k);
      var next := Bigram(tag, nextTag);
      p := ScoreOfNextWord(tagger, ws, k, t, st, next, p);
      tag, st := nextTag, next;
    }
    assert TagPath(tagger.hmm, ws, k)[..|ws|] == TagPath(tagger.hmm, ws, k);
  }

  ghost predicate SameReadings(ws: seq<Word>, vs: seq<Word>) {
    && |ws| == |vs|
    && Readings(ws) == Readings(vs)
    && forall t :: 0 <= t < |ws| ==> SameButMarks(ws[t], vs[t])
  }

  ghost predicate SameButMarks(w: Word, v: Word) {
    && w.lcForm == v.lcForm && |w.analyses| == |v.analyses|
    && forall j :: 0 <= j < |w.analyses| ==> v.analyses[j] == w.analyses[j].(marks := v.analyses[j].marks)
  }

  lemma {:induction false} MassIgnoresMarks(h: Hmm, tag: Tag, a: seq<Analysis>, b: seq<Analysis>)
    requires |a| == |b| && forall j :: 0 <= j < |a| ==> b[j] == a[j].(marks := b[j].marks)
    ensures h.MatchingMass(tag, a) == h.MatchingMass(tag, b)
  {
    if a != [] {
      MassIgnoresMarks(h, tag, a[..|a| - 1], b[..|a| - 1]);
    }
  }

  /** Selecting readings changes no score, and neither does the choice of emission states. */
  lemma {:induction false} ScoresIgnoreMarks(h: Hmm, ws: seq<Word>, a: seq<seq<Bigram>>, vs: seq<Word>, b: seq<seq<Bigram>>,
                                             p: seq<Bigram>)
    requires h.WellFormed() && SameReadings(ws, vs)
    ensures LatticeOf(h, ws, a).Score(p) == LatticeOf(h, vs, b).Score(p)
  {
    if p != [] {
      var t := |p| - 1;
      if t < |ws| {
        assert SameButMarks(ws[t], vs[t]);
        MassIgnoresMarks(h, p[t].second, ws[t].analyses, vs[t].analyses);
        assert h.ProbB(p[t], ws[t]) == h.ProbB(p[t], vs[t]);
      }
      ScoresIgnoreMarks(h, ws, a, vs, b, p[..t]);
    }
  }

  lemma AnnotationKeepsReadings(h: Hmm, was: seq<Word>, now: seq<Word>, paths: seq<seq<Bigram>>)
    requires Annotated(h, was, now, paths)
    ensures SameReadings(was, now)
  {
    forall t | 0 <= t < |was|
      ensures SameButMarks(was[t], now[t]) && WordReadings(was[t].analyses) == WordReadings(now[t].analyses)
    {
      assert RemarkedAt(h, was, now, paths, t);
    }
  }

  /** No reading is still selected in a sequence other than 0, the only one that tagging clears. */
  ghost predicate Unmarked(ws: seq<Word>) {
    forall t, j :: 0 <= t < |ws| && 0 <= j < |ws[t].analyses| ==> ws[t].analyses[j].marks <= {0}
  }

  /** Some best reading for the tag comes before place `n`. */
  ghost predicate BestBefore(h: Hmm, readings: seq<Analysis>, tag: Tag, n: nat) {
    exists i: nat :: i < n && IsBestReading(h, readings, tag, i)
  }

  /** The word carries no mark of an earlier tagging that hides a tag it may be given: marks for
      sequences other than 0 survive, and the first reading with one must not come before the best
      readings for another selectable tag. */
  ghost predicate StaleFree(h: Hmm, w: Word, bp: nat) {
    var stale := FirstSelected(w.analyses, bp);
    bp == 0 || stale == |w.analyses|
    || forall tag {:trigger BestBefore(h, w.analyses, tag, stale)} ::
         tag in SelectedTags(h, w.analyses) && tag != h.shortTag(w.analyses[stale].tag) ==> BestBefore(h, w.analyses, tag, stale)
  }

  ghost predicate AllStaleFree(h: Hmm, ws: seq<Word>, bp: nat) {
    forall t {:trigger StaleFree(h, ws[t], bp)} :: 0 <= t < |ws| ==> StaleFree(h, ws[t], bp)
  }

  /** No word that has never been tagged carries such a mark. */
  lemma UnmarkedIsStaleFree(h: Hmm, ws: seq<Word>, bp: nat)
    requires Unmarked(ws)
    ensures AllStaleFree(h, ws, bp)
  {
    forall t | 0 <= t < |ws|
      ensures StaleFree(h, ws[t], bp)
    {
      var stale := FirstSelected(ws[t].analyses, bp);
      assert stale < |ws[t].analyses| ==> ws[t].analyses[stale].marks <= {0};
    }
  }

  lemma {:induction false} PathAt(l: Lattice, p: seq<Bigram>, t: nat)
    requires l.IsPath(p) && t < |p|
    ensures p[t] in l.states[t]
    ensures t > 0 ==> l.linked(t, p[t - 1], p[t])
  {
    if t < |p| - 1 {
      PathAt(l, p[..|p| - 1], t);
    }
  }

  lemma {:induction false} SomeReadingHasTag(h: Hmm, readings: seq<Analysis>, tag: Tag) returns (j: nat)
    requires tag in SelectedTags(h, readings)
    ensures j < |readings| && h.shortTag(readings[j].tag) == tag
  {
    var n := |readings| - 1;
    if tag in SelectedTags(h, readings[..n]) {
      j := SomeReadingHasTag(h, readings[..n], tag);
    } else {
      j := n;
    }
  }

  /** If some reading has the tag, some reading is a best one for it. */
  lemma {:induction false} SomeBestReading(h: Hmm, readings: seq<Analysis>, tag: Tag, n: nat, j: nat) returns (best: nat)
    requires j < n <= |readings| && h.shortTag(readings[j].tag) == tag
    requires forall i :: 0 <= i < |readings| ==> readings[i].prob >= 0.0
    ensures best < n && IsBestReading(h, readings[..n], tag, best)
  {
    var last := n - 1;
    if j == last && forall i :: 0 <= i < last ==> h.shortTag(readings[i].tag) != tag {
      best := last;
    } else {
      var k := j;
      if j == last {
        k :| 0 <= k < last && h.shortTag(readings[k].tag) == tag;
      }
      best := SomeBestReading(h, readings, tag, last, k);
      assert readings[..n][best] == readings[..last][best];
      forall i | 0 <= i < last && h.shortTag(readings[i].tag) == tag
        ensures readings[i].prob <= readings[best].prob
      {
        assert readings[..last][i] == readings[i];
      }
      if h.shortTag(readings[last].tag) == tag && readings[best].prob < readings[last].prob {
        best := last;
      }
    }
  }

  /** When a word that may carry marks of an earlier tagging reads back the tag it was given. */
  lemma ReadsBackIffNoStaleMarkBefore(h: Hmm, was: Word, now: Word, tags: seq<Tag>, bp: nat)
    requires bp < |tags| && Remarked(h, was, now, tags)
    requires exists j: nat :: IsBestReading(h, was.analyses, tags[bp], j)
    ensures InSequence(now, bp)
    ensures var stale := FirstSelected(was.analyses, bp);
            SelectedTag(h, now, bp) == tags[bp] <==>
              || bp == 0 || stale == |was.analyses| || h.shortTag(was.analyses[stale].tag) == tags[bp]
              || exists i :: 0 <= i < stale && IsBestReading(h, was.analyses, tags[bp], i)
  {
    MarkedIffStaleOrBest(h, was, now, tags, bp);
    var j: nat :| IsBestReading(h, was.analyses, tags[bp], j);
    var first, stale := FirstSelected(now.analyses, bp), FirstSelected(was.analyses, bp);
    assert first <= j;
    if bp > 0 && stale < |was.analyses| {
      assert first <= stale;
      if first < stale {
        assert IsBestReading(h, was.analyses, tags[bp], first);
      } else {
        NoneBefore(h, was, now, tags, bp);
      }
    } else {
      assert IsBestReading(h, was.analyses, tags[bp], first);
    }
  }

  lemma NoneBefore(h: Hmm, was: Word, now: Word, tags: seq<Tag>, bp: nat)
    requires bp < |tags| && Remarked(h, was, now, tags)
    ensures forall i: nat :: i < FirstSelected(now.analyses, bp) && i < |was.analyses| ==> !IsBestReading(h, was.analyses, tags[bp], i)
  {
    MarkedIffStaleOrBest(h, was, now, tags, bp);
  }

  lemma MarkedIffStaleOrBest(h: Hmm, was: Word, now: Word, tags: seq<Tag>, bp: nat)
    requires bp < |tags| && Remarked(h, was, now, tags)
    ensures forall j: nat :: j < |was.analyses| ==>
              (bp in now.analyses[j].marks <==>
                 (bp > 0 && bp in was.analyses[j].marks) || IsBestReading(h, was.analyses, tags[bp], j))
  {
    forall j: nat | j < |was.analyses|
      ensures bp in Selections(h, was.analyses, tags, j) <==> IsBestReading(h, was.analyses, tags[bp], j)
    {
    }
  }

  /** Whatever selectable tag the word is given in sequence `bp`, it reads back. */
  ghost predicate ReadsBack(h: Hmm, was: Word, bp: nat) {
    forall now, tags {:trigger Remarked(h, was, now, tags)} ::
      bp < |tags| && tags[bp] in SelectedTags(h, was.analyses) && Remarked(h, was, now, tags) ==>
        InSequence(now, bp) && SelectedTag(h, now, bp) == tags[bp]
  }

  /** The word after marking the best readings for some tags. */
  ghost function MarkedWord(h: Hmm, was: Word, tags: seq<Tag>): (now: Word)
    ensures Remarked(h, was, now, tags)
  {
    Word(was.lcForm, seq(|was.analyses|, j requires 0 <= j < |was.analyses| =>
      was.analyses[j].(marks := was.analyses[j].marks - {0} + Selections(h, was.analyses, tags, j))))
  }

  ghost predicate HasProbs(w: Word) {
    forall j :: 0 <= j < |w.analyses| ==> w.analyses[j].prob >= 0.0
  }

  lemma SomeBestOf(h: Hmm, w: Word, tag: Tag)
    requires tag in SelectedTags(h, w.analyses) && HasProbs(w)
    ensures exists j: nat :: IsBestReading(h, w.analyses, tag, j)
  {
    var j := SomeReadingHasTag(h, w.analyses, tag);
    var best := SomeBestReading(h, w.analyses, tag, |w.analyses|, j);
    assert w.analyses[..|w.analyses|] == w.analyses;
  }

  lemma StaleFreeReadsBack(h: Hmm, was: Word, now: Word, tags: seq<Tag>, bp: nat)
    requires HasProbs(was) && StaleFree(h, was, bp)
    requires bp < |tags| && tags[bp] in SelectedTags(h, was.analyses) && Remarked(h, was, now, tags)
    ensures InSequence(now, bp) && SelectedTag(h, now, bp) == tags[bp]
  {
    SomeBestOf(h, was, tags[bp]);
    ReadsBackIffNoStaleMarkBefore(h, was, now, tags, bp);
    var stale := FirstSelected(was.analyses, bp);
    assert bp > 0 && stale < |was.analyses| && tags[bp] != h.shortTag(was.analyses[stale].tag) ==>
      BestBefore(h, was.analyses, tags[bp], stale);
  }

  lemma ReadBackIsBestBefore(h: Hmm, was: Word, bp: nat, tag: Tag)
    requires HasProbs(was) && ReadsBack(h, was, bp) && bp > 0 && tag in SelectedTags(h, was.analyses)
    requires var stale := FirstSelected(was.analyses, bp);
             stale < |was.analyses| && tag != h.shortTag(was.analyses[stale].tag)
    ensures BestBefore(h, was.analyses, tag, FirstSelected(was.analyses, bp))
  {
    var tags := seq(bp + 1, i => tag);
    var now := MarkedWord(h, was, tags);
    assert tags[bp] == tag;
    SomeBestOf(h, was, tag);
    ReadsBackIffNoStaleMarkBefore(h, was, now, tags, bp);
  }

  /** MAIN RESULT: a word reads back every tag it may be given exactly when it carries no mark that
      hides one, which can be seen before tagging. */
  lemma ReadsBackIffStaleFree(h: Hmm, was: Word, bp: nat)
    requires HasProbs(was)
    ensures ReadsBack(h, was, bp) <==> StaleFree(h, was, bp)
  {
    if StaleFree(h, was, bp) {
      forall now, tags | bp < |tags| && tags[bp] in SelectedTags(h, was.analyses) && Remarked(h, was, now, tags)
        ensures InSequence(now, bp) && SelectedTag(h, now, bp) == tags[bp]
      {
        StaleFreeReadsBack(h, was, now, tags, bp);
      }
    }
    var stale := FirstSelected(was.analyses, bp);
    if ReadsBack(h, was, bp) && bp > 0 && stale < |was.analyses| {
      forall tag | tag in SelectedTags(h, was.analyses) && tag != h.shortTag(was.analyses[stale].tag)
        ensures BestBefore(h, was.analyses, tag, stale)
      {
        ReadBackIsBestBefore(h, was, bp, tag);
      }
    }
  }

  /** The readings selected for word `t` in sequence `bp` have the tag of the `bp`-th path. */
  lemma SelectedTagIsPathTag(h: Hmm, was: seq<Word>, now: seq<Word>, paths: seq<seq<Bigram>>, bp: nat, t: nat)
    requires Ready(h, was) && AllStaleFree(h, was, bp) && Annotated(h, was, now, paths) && bp < |paths| && t < |was|
    requires paths[bp][t].second in SelectedTags(h, was[t].analyses)
    ensures InSequence(now[t], bp)
    ensures SelectedTag(h, now[t], bp) == paths[bp][t].second
  {
    assert RemarkedAt(h, was, now, paths, t) && TagsAt(paths, t)[bp] == paths[bp][t].second;
    assert ReadyWord(h, was[t]) && StaleFree(h, was[t], bp);
    ReadsBackIffStaleFree(h, was[t], bp);
  }

  /** Word `t`, read in sequence `bp`, is where path `p` is. */
  ghost predicate ReadsAlong(h: Hmm, now: seq<Word>, bp: nat, p: seq<Bigram>, t: nat)
    requires t < |now| && t < |p|
  {
    && InSequence(now[t], bp) && SelectedTag(h, now[t], bp) == p[t].second
    && p[t].first == if t == 0 then "0" else p[t - 1].second
  }

  lemma MarkedWordReadsAlong(h: Hmm, was: seq<Word>, now: seq<Word>, states: seq<seq<Bigram>>, paths: seq<seq<Bigram>>,
                             bp: nat, t: nat)
    requires h.WellFormed() && Ready(h, was) && AllStaleFree(h, was, bp) && EmissionStates(h, was, states)
    requires Annotated(h, was, now, paths) && bp < |paths| && LatticeOf(h, was, states).IsPath(paths[bp]) && t < |was|
    ensures ReadsAlong(h, now, bp, paths[bp], t)
  {
    PathAt(LatticeOf(h, was, states), paths[bp], t);
    assert StatesAt(h, was, states, t);
    assert MayEmit(h, was, t, paths[bp][t]);
    SelectedTagIsPathTag(h, was, now, paths, bp, t);
  }

  lemma ReadingAlongIsTagPath(h: Hmm, now: seq<Word>, bp: nat, p: seq<Bigram>)
    requires |now| <= |p|
    requires forall t :: 0 <= t < |now| ==> ReadsAlong(h, now, bp, p, t)
    ensures HasSequence(now, bp) && TagPath(h, now, bp) == p[..|now|]
  {
    forall t | 0 <= t < |now|
      ensures InSequence(now[t], bp)
    {
      assert ReadsAlong(h, now, bp, p, t);
    }
    forall t | 0 <= t < |now|
      ensures TagState(h, now, bp, t) == p[t]
    {
      assert ReadsAlong(h, now, bp, p, t) && (t == 0 || ReadsAlong(h, now, bp, p, t - 1));
    }
  }

  /** Tagging lets a sentence be read along each of the paths it was marked with. */
  lemma TagPathIsPath(h: Hmm, was: seq<Word>, now: seq<Word>, states: seq<seq<Bigram>>, paths: seq<seq<Bigram>>, bp: nat)
    requires h.WellFormed() && Ready(h, was) && AllStaleFree(h, was, bp) && EmissionStates(h, was, states)
    requires Annotated(h, was, now, paths) && bp < |paths| && LatticeOf(h, was, states).IsPath(paths[bp])
    ensures HasSequence(now, bp)
    ensures TagPath(h, now, bp) == paths[bp][..|was|]
  {
    var p := paths[bp];
    forall t | 0 <= t < |now|
      ensures ReadsAlong(h, now, bp, p, t)
    {
      MarkedWordReadsAlong(h, was, now, states, paths, bp, t);
    }
    ReadingAlongIsTagPath(h, now, bp, p);
  }

  lemma EndStateIsFree(h: Hmm, ws: seq<Word>, states: seq<seq<Bigram>>, p: seq<Bigram>)
    requires h.WellFormed() && |p| == |ws| + 1 >= 2
    ensures LatticeOf(h, ws, states).Score(p) == LatticeOf(h, ws, states).Score(p[..|ws|])
  {
    var l := LatticeOf(h, ws, states);
    assert l.arc(|ws|, p[|ws| - 1], p[|ws|]) == ONE;
    assert l.Score(p) == l.Score(p[..|ws|]).Plus(ONE);
  }

  /** MAIN RESULT: after tagging, the score of the `bp`-th tag sequence read off the sentence is
      the `bp`-th score in the trellis. */
  lemma TaggedSequenceHasTrellisScore(h: Hmm, was: seq<Word>, now: seq<Word>, states: seq<seq<Bigram>>, cols: Columns, bp: nat)
    requires h.WellFormed() && Ready(h, was) && AllStaleFree(h, was, bp) && IsTrellisOf(h, was, states, cols)
    requires Annotated(h, was, now, Traces(cols, |was|, END_STATE))
    requires bp < |cols[|was|][END_STATE]|
    ensures HasSequence(now, bp)
    ensures LatticeOf(h, now, []).Score(TagPath(h, now, bp)) == cols[|was|][END_STATE][bp].prob
  {
    var n := |was|;
    var l := LatticeOf(h, was, states);
    var p := Trace(cols, n, END_STATE, bp);
    FilledIsBest(l, h.Paths(), cols);
    TracesAreScoredPaths(l, h.Paths(), cols, n, END_STATE, bp);
    TagPathIsPath(h, was, now, states, Traces(cols, n, END_STATE), bp);
    EndStateIsFree(h, was, states, p);
    AnnotationKeepsReadings(h, was, now, Traces(cols, n, END_STATE));
    ScoresIgnoreMarks(h, was, states, now, [], p[..n]);
  }

  /** MAIN RESULT: the scores of the tag sequences read off a tagged sentence are the best of
      all tag sequences of the sentence, in order. */
  lemma TaggedSequencesAreTheBest(h: Hmm, was: seq<Word>, now: seq<Word>, states: seq<seq<Bigram>>, cols: Columns,
                                  all: seq<seq<Bigram>>)
    requires h.WellFormed() && Ready(h, was) && IsTrellisOf(h, was, states, cols)
    requires forall bp: nat :: bp < h.Paths() ==> AllStaleFree(h, was, bp)
    requires Annotated(h, was, now, Traces(cols, |was|, END_STATE))
    requires RanksAllPaths(LatticeOf(h, was, states), |was|, END_STATE, all)
    ensures |cols[|was|][END_STATE]| == if |all| < h.Paths() then |all| else h.Paths()
    ensures forall bp: nat :: bp < |all| && bp < h.Paths() ==>
              && HasSequence(now, bp)
              && LatticeOf(h, now, []).Score(TagPath(h, now, bp)) == LatticeOf(h, was, states).Score(all[bp])
  {
    TrellisHoldsTheKBest(LatticeOf(h, was, states), h.Paths(), cols, |was|, END_STATE, all);
    forall bp: nat | bp < |all| && bp < h.Paths()
      ensures HasSequence(now, bp)
      ensures LatticeOf(h, now, []).Score(TagPath(h, now, bp)) == LatticeOf(h, was, states).Score(all[bp])
    {
      TaggedSequenceHasTrellisScore(h, was, now, states, cols, bp);
    }
  }

  /** There is a ranking of all tag sequences, and those read off have its first scores. */
  lemma TaggedSequencesAreFirstOfRanking(h: Hmm, was: seq<Word>, now: seq<Word>, states: seq<seq<Bigram>>, cols: Columns)
    returns (all: seq<seq<Bigram>>)
    requires h.WellFormed() && Ready(h, was) && IsTrellisOf(h, was, states, cols)
    requires forall bp: nat :: bp < h.Paths() ==> AllStaleFree(h, was, bp)
    requires Annotated(h, was, now, Traces(cols, |was|, END_STATE))
    ensures RanksAllPaths(LatticeOf(h, was, states), |was|, END_STATE, all)
    ensures forall bp: nat :: bp < |all| && bp < h.Paths() ==>
              && HasSequence(now, bp)
              && LatticeOf(h, now, []).Score(TagPath(h, now, bp)) == LatticeOf(h, was, states).Score(all[bp])
  {
    all := Rankings.RankingExists(LatticeOf(h, was, states), |was|, END_STATE);
    TaggedSequencesAreTheBest(h, was, now, states, cols, all);
  }
}
