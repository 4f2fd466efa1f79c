/** What the scores of the tagger are made of: the tables, each with its own weight. */
module TransitionScores {
  import opened LogProbs
  import opened Trellises
  import opened Viterbi
  import opened HmmTaggers
  import opened TaggedSentences
  import opened Tagging

  /** The model with other weights for unigrams, bigrams and trigrams. */
  function Reweighted(h: Hmm, a: real, b: real, c: real): Hmm {
    h.(c0 := a, c1 := b, c2 := c)
  }

  /** The entries of the three tables for a transition. */
  function UnigramEntry(h: Hmm, s: Bigram): real
    requires "x" in h.pTag
  {
    h.pTag[if s.second in h.pTag then s.second else "x"]
  }

  function BigramEntry(h: Hmm, s: Bigram): real {
    if s in h.pBg.Keys then h.pBg[s] else 0.0
  }

  function TrigramEntry(h: Hmm, u: Bigram, s: Bigram): real {
    var key := u.first + "." + u.second + "." + s.second;
    if key in h.pTrg.Keys then h.pTrg[key] else 0.0
  }

  /** With all weight on one table, the mass is the entry of that table. */
  lemma OneTable(h: Hmm, u: Bigram, s: Bigram)
    requires "x" in h.pTag
    ensures Reweighted(h, 1.0, 0.0, 0.0).Interpolated(u, s) == UnigramEntry(h, s)
    ensures Reweighted(h, 0.0, 1.0, 0.0).Interpolated(u, s) == BigramEntry(h, s)
    ensures Reweighted(h, 0.0, 0.0, 1.0).Interpolated(u, s) == TrigramEntry(h, u, s)
  {
  }

  lemma MassOfThree(h: Hmm, u: Bigram, s: Bigram)
    requires "x" in h.pTag
    ensures h.Interpolated(u, s) == h.c0 * UnigramEntry(h, s) + h.c1 * BigramEntry(h, s) + h.c2 * TrigramEntry(h, u, s)
  {
    var key := u.first + "." + u.second + "." + s.second;
    assert key == TrigramKey(u, s);
    assert (if key in h.pTrg then h.c2 * h.pTrg[key] else 0.0) == h.c2 * TrigramEntry(h, u, s);
    assert (if s in h.pBg then h.c1 * h.pBg[s] else 0.0) == h.c1 * BigramEntry(h, s);
  }

  lemma AddWeights(a: real, b: real, x: real)
    ensures (a + b) * x == a * x + b * x
  {
  }

  /** The mass is additive in the weights. */
  lemma MassIsAdditive(h: Hmm, u: Bigram, s: Bigram, a: real, b: real, c: real, a': real, b': real, c': real)
    requires "x" in h.pTag
    ensures Reweighted(h, a + a', b + b', c + c').Interpolated(u, s)
         == Reweighted(h, a, b, c).Interpolated(u, s) + Reweighted(h, a', b', c').Interpolated(u, s)
  {
    MassOfThree(Reweighted(h, a + a', b + b', c + c'), u, s);
    MassOfThree(Reweighted(h, a, b, c), u, s);
    MassOfThree(Reweighted(h, a', b', c'), u, s);
    AddWeights(a, a', UnigramEntry(h, s));
    AddWeights(b, b', BigramEntry(h, s));
    AddWeights(c, c', TrigramEntry(h, u, s));
  }

  /** MAIN RESULT: a transition that is not forbidden scores the sum of the three entries, each with its
      own weight; with all weight on one table, it scores that entry. */
  lemma TransitionIsMixture(h: Hmm, u: Bigram, s: Bigram, ws: seq<Word>, t: nat)
    requires "x" in h.pTag && !h.IsForbidden(u, s, ws, t)
    ensures h.ProbA(u, s, ws, t) == h.log(h.c0 * UnigramEntry(h, s) + h.c1 * BigramEntry(h, s) + h.c2 * TrigramEntry(h, u, s))
    ensures Answer(h, map[], u, s, ws, t) == h.ProbA(u, s, ws, t)
    ensures Reweighted(h, 1.0, 0.0, 0.0).ProbA(u, s, ws, t) == h.log(UnigramEntry(h, s))
    ensures Reweighted(h, 0.0, 1.0, 0.0).ProbA(u, s, ws, t) == h.log(BigramEntry(h, s))
    ensures Reweighted(h, 0.0, 0.0, 1.0).ProbA(u, s, ws, t) == h.log(TrigramEntry(h, u, s))
  {
    OneTable(h, u, s);
    MassOfThree(h, u, s);
  }

  /** A forbidden transition has no probability, and what forbids it: its trigram, or its bigram after
      whatever tag. */
  lemma ForbiddenIsImpossible(h: Hmm, u: Bigram, s: Bigram, ws: seq<Word>, t: nat)
    requires h.WellFormed()
    ensures h.forbidden(u.first + "." + u.second + "." + s.second, Readings(ws), t) ==> h.ProbA(u, s, ws, t) == NegInf
    ensures h.forbidden("*." + s.first + "." + s.second, Readings(ws), t) ==> h.ProbA(u, s, ws, t) == NegInf
    ensures h.IsForbidden(u, s, ws, t) ==>
              || h.forbidden(u.first + "." + u.second + "." + s.second, Readings(ws), t)
              || h.forbidden("*." + s.first + "." + s.second, Readings(ws), t)
  {
    assert "*." + BigramKey(s) == "*." + s.first + "." + s.second;
  }

  /** A model with a different weight for each table. */
  function WeightedHmm(log: real -> LogProb): Hmm {
    Hmm(t => t, map["x" := 0.1, "B" := 0.2], map[Bigram("A", "B") := 0.5], map["0.A.B" := 0.9], map[], map[],
        Fin(0.0), Fin(0.0), 0.1, 0.3, 0.6, log, (key, readings, t) => false, 1)
  }

  /** 0.1 times 0.2, 0.3 times 0.5 and 0.6 times 0.9. */
  lemma ThreeWeights(log: real -> LogProb, ws: seq<Word>, t: nat)
    ensures WeightedHmm(log).ProbA(Bigram("0", "A"), Bigram("A", "B"), ws, t) == log(0.71)
  {
    var u, s := Bigram("0", "A"), Bigram("A", "B");
    assert TrigramKey(u, s) == "0.A.B";
  }

  /** The mass of the readings with a tag: it adds up over readings, each of which counts if it has the tag. */
  lemma {:induction false} MassOfConcat(h: Hmm, tag: Tag, a: seq<Analysis>, b: seq<Analysis>)
    ensures h.MatchingMass(tag, a + b) == h.MatchingMass(tag, a) + h.MatchingMass(tag, b)
  {
    if b == [] {
      assert a + b == a;
    } else {
      assert (a + b)[..|a + b| - 1] == a + b[..|b| - 1];
      MassOfConcat(h, tag, a, b[..|b| - 1]);
    }
  }

  lemma MassOfOne(h: Hmm, tag: Tag, r: Analysis)
    ensures h.MatchingMass(tag, []) == 0.0
    ensures h.MatchingMass(tag, [r]) == if h.shortTag(r.tag) == tag then r.prob else 0.0
  {
    assert [r][..0] == [];
  }

  /** The emission score is the one that makes P(word | tag) P(tag) equal P(tag | word) P(word). */
  lemma EmissionIsInverted(h: Hmm, s: Bigram, w: Word)
    requires h.WellFormed()
    ensures var word := if w.lcForm in h.pWord.Keys then h.pWord[w.lcForm] else h.probUnobserved;
            h.ProbB(s, w).Plus(h.log(UnigramEntry(h, s))) == h.log(h.MatchingMass(s.second, w.analyses)).Plus(word)
  {
  }

  /** A sentence may begin with any tag, unless the table gives the state no probability, and with no
      state that is not at its beginning, unless the table gives it one. */
  lemma BeginningIsInitial(h: Hmm, s: Bigram)
    ensures s in h.pInitial.Keys ==> h.ProbPi(s) == h.pInitial[s]
    ensures s !in h.pInitial.Keys && s.first == "0" ==> h.ProbPi(s) == h.probInitial
    ensures s !in h.pInitial.Keys && s.first != "0" ==> h.ProbPi(s) == NegInf
  {
  }

  /** The emission score of a known word with a known tag. */
  function KnownEmission(h: Hmm, tag: Tag, w: Word): LogProb
    requires w.lcForm in h.pWord && tag in h.pTag && h.log(h.pTag[tag]).Fin?
  {
    h.log(h.MatchingMass(tag, w.analyses)).Plus(h.pWord[w.lcForm]).Minus(h.log(h.pTag[tag]))
  }

  lemma ScoreOfThree(l: Lattice, a: Bigram, b: Bigram, c: Bigram)
    ensures l.Score([a, b, c]) == l.init(a).Plus(l.arc(1, a, b)).Plus(l.arc(2, b, c))
  {
    var one, two, three := [a], [a, b], [a, b, c];
    assert three[..2] == two && two[..1] == one;
    assert l.Score(one) == l.init(a);
    assert l.Score(two) == l.Score(one).Plus(l.arc(1, a, b));
    assert l.Score(three) == l.Score(two).Plus(l.arc(2, b, c));
  }

  /** The score of two known words, in full: that of beginning with the first tag, both emissions, and the
      transition between the tags; reaching the end is free. */
  lemma TwoWords(h: Hmm, ws: seq<Word>, states: seq<seq<Bigram>>, s: Bigram, r: Bigram)
    requires h.WellFormed() && |ws| == 2 && !h.IsForbidden(s, r, ws, 1)
    requires s in h.pInitial && ws[0].lcForm in h.pWord && ws[1].lcForm in h.pWord && s.second in h.pTag && r.second in h.pTag
    ensures LatticeOf(h, ws, states).Score([s, r, END_STATE]) == h.pInitial[s]
      .Plus(KnownEmission(h, s.second, ws[0]))
      .Plus(h.log(h.c0 * UnigramEntry(h, r) + h.c1 * BigramEntry(h, r) + h.c2 * TrigramEntry(h, s, r))
             .Plus(KnownEmission(h, r.second, ws[1])))
  {
    var l := LatticeOf(h, ws, states);
    TransitionIsMixture(h, s, r, ws, 1);
    ScoreOfThree(l, s, r, END_STATE);
    assert l.init(s) == h.pInitial[s].Plus(KnownEmission(h, s.second, ws[0]));
    assert l.arc(1, s, r) == h.ProbA(s, r, ws, 1).Plus(KnownEmission(h, r.second, ws[1]));
    assert l.arc(2, r, END_STATE) == ONE;
  }
}
