/** The HMM part-of-speech tagger: smoothed transition scores behind a cache, k-best
    Viterbi over the states each word may have, and the marking of the selected analyses. */
module HmmTaggers {
  import opened LogProbs
  import opened Trellises
  import opened Viterbi

  /** One reading of a word; `marks` are the k-best sequences it is selected in. */
  datatype Analysis = Analysis(lem: string, tag: Tag, prob: real, marks: set<nat>)

  datatype Word = Word(lcForm: string, analyses: seq<Analysis>)

  /** The probability tables of the model. `log` stands for the logarithm, and `forbidden`
      for the lookup in the table of forbidden transitions, which may depend on the
      lemmas and tags around the word at the given position. */
  datatype Hmm = Hmm(shortTag: Tag -> Tag,
                     pTag: map<Tag, real>, pBg: map<Bigram, real>, pTrg: map<string, real>,
                     pInitial: map<Bigram, LogProb>, pWord: map<string, LogProb>,
                     probInitial: LogProb, probUnobserved: LogProb,
                     c0: real, c1: real, c2: real,
                     log: real -> LogProb,
                     forbidden: (string, seq<seq<(string, Tag)>>, nat) -> bool,
                     kbest: nat)
  {
    /** There is an entry for unseen tags, no tag has probability zero, and transitions between short
        tags that share a key have the same score. */
    ghost predicate WellFormed() {
      && "x" in pTag
      && (forall t :: t in pTag ==> log(pTag[t]).Fin?)
      && log(0.0) == NegInf
      && KeysAgree(Tags())
    }

    /** The tags of states: the mark of the beginning, and all short tags. */
    ghost function Tags(): iset<Tag> {
      iset t: Tag | t == "0" || IsShort(t)
    }

    ghost predicate IsShort(t: Tag) {
      exists x :: shortTag(x) == t
    }

    ghost predicate IsState(s: Bigram) {
      s.first in Tags() && s.second in Tags()
    }

    /** The transition is not forbidden everywhere. */
    ghost predicate MayPass(u: Bigram, s: Bigram) {
      exists ws, t :: !IsForbidden(u, s, ws, t)
    }

    /** Transitions that share a key, and are not forbidden everywhere, have the same score. */
    ghost predicate KeysAgree(tags: iset<Tag>)
      requires "x" in pTag
    {
      forall u, s, v, r {:trigger AgreeOn(tags, u, s, v, r)} :: AgreeOn(tags, u, s, v, r)
    }

    ghost predicate AgreeOn(tags: iset<Tag>, u: Bigram, s: Bigram, v: Bigram, r: Bigram)
      requires "x" in pTag
    {
      Overlap(tags, u, s) && Overlap(tags, v, r) && MayPass(u, s) && MayPass(v, r) && TrigramKey(u, s) == TrigramKey(v, r) ==>
        Smoothed(u, s) == Smoothed(v, r)
    }

    function TagProb(t: Tag): real
      requires "x" in pTag
    {
      if t in pTag then pTag[t] else pTag["x"]
    }

    /** The interpolation of the unigram, bigram and trigram tables. */
    function Interpolated(u: Bigram, s: Bigram): real
      requires "x" in pTag
    {
      c0 * TagProb(s.second)
      + (if s in pBg then c1 * pBg[s] else 0.0)
      + (if TrigramKey(u, s) in pTrg then c2 * pTrg[TrigramKey(u, s)] else 0.0)
    }

    /** The transition score from the tables alone. */
    function Smoothed(u: Bigram, s: Bigram): LogProb
      requires "x" in pTag
    {
      log(Interpolated(u, s))
    }

    predicate IsForbidden(u: Bigram, s: Bigram, ws: seq<Word>, t: nat) {
      forbidden("*." + BigramKey(s), Readings(ws), t) || forbidden(TrigramKey(u, s), Readings(ws), t)
    }

    /** The transition score at word `t`: zero probability if forbidden there. */
    function ProbA(u: Bigram, s: Bigram, ws: seq<Word>, t: nat): LogProb
      requires "x" in pTag
    {
      if IsForbidden(u, s, ws, t) then log(0.0) else Smoothed(u, s)
    }

    function MatchingMass(tag: Tag, analyses: seq<Analysis>): real {
      if analyses == [] then 0.0 else
      var a := analyses[|analyses| - 1];
      MatchingMass(tag, analyses[..|analyses| - 1]) + (if shortTag(a.tag) == tag then a.prob else 0.0)
    }

    /** The emission score P(word | state), by inversion of P(tag | word). */
    function ProbB(s: Bigram, w: Word): LogProb
      requires "x" in pTag && log(TagProb(s.second)).Fin?
    {
      log(MatchingMass(s.second, w.analyses))
        .Plus(if w.lcForm in pWord then pWord[w.lcForm] else probUnobserved)
        .Minus(log(TagProb(s.second)))
    }

    function ProbPi(s: Bigram): LogProb {
      if s in pInitial then pInitial[s] else if s.first == "0" then probInitial else NegInf
    }

    /** How many paths a trellis for this tagger keeps. */
    function Paths(): (k: nat)
      ensures k >= 1
    {
      if kbest == 0 then 1 else kbest
    }
  }

  /** An increasing function, infinite only at zero. */
  ghost predicate IsLog(log: real -> LogProb) {
    && log(0.0) == NegInf && (forall p :: p > 0.0 ==> log(p).Fin?)
    && forall p, q :: 0.0 < p < q ==> log(p).Below(log(q))
  }

  predicate DotFree(s: string) {
    '.' !in s
  }

  function BigramKey(s: Bigram): string {
    s.first + "." + s.second
  }

  function TrigramKey(u: Bigram, s: Bigram): string {
    u.first + "." + u.second + "." + s.second
  }

  /** What forbidden-transition rules may look at: the (lemma, tag) pairs of each word. */
  function Readings(ws: seq<Word>): seq<seq<(string, Tag)>> {
    seq(|ws|, i requires 0 <= i < |ws| => WordReadings(ws[i].analyses))
  }

  function WordReadings(readings: seq<Analysis>): seq<(string, Tag)> {
    seq(|readings|, i requires 0 <= i < |readings| => (readings[i].lem, readings[i].tag))
  }

  /** Dots separate the parts of a key unambiguously. */
  lemma DotsSeparate(a: string, x: string, b: string, y: string)
    requires DotFree(a) && DotFree(b) && a + "." + x == b + "." + y
    ensures a == b && x == y
  {
    var s, t := a + "." + x, b + "." + y;
    assert s[|a|] == '.' && t[|b|] == '.';
    assert forall i :: 0 <= i < |a| ==> s[i] == a[i];
    assert forall i :: 0 <= i < |b| ==> t[i] == b[i];
    assert |a| == |b|;
    assert s[..|a|] == a && t[..|b|] == b && s[|a| + 1..] == x && t[|b| + 1..] == y;
  }

  /** Two overlapping states over some tags. */
  ghost predicate Overlap(tags: iset<Tag>, u: Bigram, s: Bigram) {
    u.second == s.first && u.first in tags && u.second in tags && s.second in tags
  }

  ghost predicate AreDotFree(tags: iset<Tag>) {
    forall t :: t in tags ==> DotFree(t)
  }

  lemma KeysAreUnique(tags: iset<Tag>, u: Bigram, s: Bigram, v: Bigram, r: Bigram)
    requires AreDotFree(tags) && Overlap(tags, u, s) && Overlap(tags, v, r) && TrigramKey(u, s) == TrigramKey(v, r)
    ensures u == v && s == r
  {
    assert TrigramKey(u, s) == u.first + "." + (u.second + "." + s.second);
    assert TrigramKey(v, r) == v.first + "." + (v.second + "." + r.second);
    DotsSeparate(u.first, u.second + "." + s.second, v.first, v.second + "." + r.second);
    DotsSeparate(u.second, s.second, v.second, r.second);
  }

  /** Tags without dots, which separate them in the key, never share one. */
  lemma DotFreeKeysAgree(h: Hmm, tags: iset<Tag>)
    requires "x" in h.pTag && AreDotFree(tags)
    ensures h.KeysAgree(tags)
  {
    forall u, s, v, r
      ensures h.AgreeOn(tags, u, s, v, r)
    {
      if Overlap(tags, u, s) && Overlap(tags, v, r) && TrigramKey(u, s) == TrigramKey(v, r) {
        KeysAreUnique(tags, u, s, v, r);
      }
    }
  }

  /** What a transition is answered with, given the scores in the cache: a forbidden one is not
      looked up. */
  function Answer(h: Hmm, cache: map<string, LogProb>, u: Bigram, s: Bigram, ws: seq<Word>, t: nat): LogProb
    requires "x" in h.pTag
  {
    if h.IsForbidden(u, s, ws, t) then h.log(0.0)
    else if TrigramKey(u, s) in cache then cache[TrigramKey(u, s)]
    else h.Smoothed(u, s)
  }

  /** The cache afterwards: a forbidden transition is not stored. */
  function CacheAfter(h: Hmm, cache: map<string, LogProb>, u: Bigram, s: Bigram, ws: seq<Word>, t: nat): map<string, LogProb>
    requires "x" in h.pTag
  {
    if h.IsForbidden(u, s, ws, t) || TrigramKey(u, s) in cache then cache
    else cache[TrigramKey(u, s) := h.Smoothed(u, s)]
  }

  class HmmTagger {
    const hmm: Hmm
    /** Transition scores already computed, by trigram. */
    var cache: map<string, LogProb>

    constructor (h: Hmm)
      requires h.WellFormed()
      ensures hmm == h && Valid()
    {
      hmm := h;
      cache := map[];
    }

    /** Whatever is cached is what the tables give, for transitions that are asked for. */
    ghost predicate Valid()
      reads this
    {
      hmm.WellFormed() &&
      forall u, s {:trigger hmm.Smoothed(u, s)} :: IsCached(u, s) ==> cache[TrigramKey(u, s)] == hmm.Smoothed(u, s)
    }

    ghost predicate IsCached(u: Bigram, s: Bigram)
      reads this`cache
    {
      TrigramKey(u, s) in cache && Overlap(hmm.Tags(), u, s) && hmm.MayPass(u, s)
    }

    /** The transition score, served from the cache when possible. */
    method ProbALog(u: Bigram, s: Bigram, ws: seq<Word>, t: nat) returns (p: LogProb)
      requires "x" in hmm.pTag
      modifies this`cache
      ensures p == Answer(hmm, old(cache), u, s, ws, t) && cache == CacheAfter(hmm, old(cache), u, s, ws, t)
      ensures old(Valid()) && Overlap(hmm.Tags(), u, s) ==> Valid() && p == hmm.ProbA(u, s, ws, t)
    {
      ghost var was := cache;
      var t3 := s.second;
      var t2t3 := s.first + "." + s.second;
      var t1t2t3 := u.first + "." + u.second + "." + t3;
      var prob := 0.0;
      if hmm.forbidden("*." + t2t3, Readings(ws), t) || hmm.forbidden(t1t2t3, Readings(ws), t) {
        return hmm.log(0.0);
      }
      if t1t2t3 in cache {
        return cache[t1t2t3];
      }
      if t3 in hmm.pTag {
        prob := prob + hmm.c0 * hmm.pTag[t3];
      } else {
        prob := prob + hmm.c0 * hmm.pTag["x"];
      }
      if s in hmm.pBg {
        prob := prob + hmm.c1 * hmm.pBg[s];
      }
      if t1t2t3 in hmm.pTrg {
        prob := prob + hmm.c2 * hmm.pTrg[t1t2t3];
      }
      assert t1t2t3 == TrigramKey(u, s) && prob == hmm.Interpolated(u, s);
      p := hmm.log(prob);
      cache := cache[t1t2t3 := p];
      assert !hmm.IsForbidden(u, s, ws, t);
      forall v, r | Overlap(hmm.Tags(), u, s) && hmm.WellFormed() && IsCached(v, r) && TrigramKey(v, r) == t1t2t3
        ensures hmm.Smoothed(v, r) == hmm.Smoothed(u, s)
      {
        assert hmm.AgreeOn(hmm.Tags(), u, s, v, r);
      }
    }

    /** The emission score of a word from a state. */
    method ProbBLog(s: Bigram, w: Word) returns (p: LogProb)
      requires hmm.WellFormed()
      ensures p == hmm.ProbB(s, w)
    {
      var word := if w.lcForm in hmm.pWord then hmm.pWord[w.lcForm] else hmm.probUnobserved;
      var state := if s.second in hmm.pTag then hmm.pTag[s.second] else hmm.pTag["x"];
      var pa := 0.0;
      for i := 0 to |w.analyses|
        invariant pa == hmm.MatchingMass(s.second, w.analyses[..i])
      {
        if hmm.shortTag(w.analyses[i].tag) == s.second {
          pa := pa + w.analyses[i].prob;
        }
        assert w.analyses[..i + 1][..i] == w.analyses[..i];
      }
      assert w.analyses[..|w.analyses|] == w.analyses;
      p := hmm.log(pa).Plus(word).Minus(hmm.log(state));
    }

    /** Offers, for state `s` at word `t`, the `kb`-th path stored for the previous state `u`;
        `offers` are those already made. */
    method OfferTransition(tr: Trellis, ghost l: Lattice, ws: seq<Word>, t: nat, u: Bigram, s: Bigram, emm: LogProb, kb: nat,
                           ghost was: Columns, ghost offers: seq<Element>, ghost more: seq<Element>)
      requires Valid() && tr.Valid() && tr.Capacity() == hmm.Paths()
      requires 1 <= t < |was| && u in was[t - 1] && s !in was[t] && Overlap(hmm.Tags(), u, s) && kb < |was[t - 1][u]|
      requires l.arc(t, u, s) == hmm.ProbA(u, s, ws, t).Plus(emm)
      requires more == offers + [Element(u, kb, was[t - 1][u][kb].prob.Plus(l.arc(t, u, s)))]
      requires tr.trl == Offered(hmm.Paths(), was, t, s, offers)
      modifies tr, this`cache
      ensures Valid() && tr.Valid()
      ensures tr.trl == Offered(hmm.Paths(), was, t, s, more)
    {
      var pant := tr.Delta(t - 1, u, kb);
      var ptrans := ProbALog(u, s, ws, t);
      PlusAssociates(pant, ptrans, emm);
      OfferPath(tr, t, s, u, kb, pant.Plus(ptrans).Plus(emm), was, offers, more);
    }

    /** Offers, for state `s` at word `t`, every path stored for the previous state `u`. */
    method OfferTransitions(tr: Trellis, ghost l: Lattice, ws: seq<Word>, t: nat, u: Bigram, s: Bigram, emm: LogProb,
                            ghost was: Columns, ghost before: seq<Element>)
      requires Valid() && tr.Valid() && tr.Capacity() == hmm.Paths()
      requires 1 <= t < |was| && u in was[t - 1] && s !in was[t] && Overlap(hmm.Tags(), u, s)
      requires l.linked(t, u, s) && l.arc(t, u, s) == hmm.ProbA(u, s, ws, t).Plus(emm)
      requires tr.trl == Offered(hmm.Paths(), was, t, s, before)
      modifies tr, this`cache
      ensures Valid() && tr.Valid()
      ensures tr.trl == Offered(hmm.Paths(), was, t, s, before + OffersVia(l, t, u, s, was[t - 1][u]))
    {
      ghost var via := OffersVia(l, t, u, s, was[t - 1][u]);
      var n := tr.NBest(t - 1, u);
      assert before + via[..0] == before;
      for kb := 0 to n
        invariant Valid() && tr.Valid()
        invariant tr.trl == Offered(hmm.Paths(), was, t, s, before + via[..kb])
      {
        OffersViaAt(l, t, u, s, was[t - 1][u], kb);
        OneMoreTaken(before, via, kb);
        OfferTransition(tr, l, ws, t, u, s, emm, kb, was, before + via[..kb], before + via[..kb + 1]);
      }
      assert via[..n] == via;
    }

    /** Offers, for state `s` at word `t`, every path stored for every compatible previous state. */
    method FillState(tr: Trellis, ghost l: Lattice, ws: seq<Word>, t: nat, us: seq<Bigram>, s: Bigram, ghost was: Columns)
      requires Valid() && tr.Valid() && tr.Capacity() == hmm.Paths() && tr.trl == was
      requires 1 <= t < |was| && t < |ws| && s !in was[t] && hmm.IsState(s)
      requires forall u :: u in us ==> u in was[t - 1] && hmm.IsState(u)
      requires FollowsTables(hmm, ws, l, t)
      modifies tr, this`cache
      ensures Valid() && tr.Valid()
      ensures tr.trl == Offered(hmm.Paths(), was, t, s, Offers(l, t, us, s, was[t - 1]))
    {
      var emm := ProbBLog(s, ws[t]);
      for i := 0 to |us|
        invariant Valid() && tr.Valid()
        invariant tr.trl == Offered(hmm.Paths(), was, t, s, Offers(l, t, us[..i], s, was[t - 1]))
      {
        var u := us[i];
        assert u in us;
        ghost var offers := Offers(l, t, us[..i], s, was[t - 1]);
        OffersOneMore(l, t, us, i, s, was[t - 1]);
        assert l.linked(t, u, s) == (u.second == s.first);
        if u.second == s.first {
          OfferTransitions(tr, l, ws, t, u, s, emm, was, offers);
        } else {
          assert offers + OffersVia(l, t, u, s, Entry(was[t - 1], u)) == offers;
        }
      }
      assert us[..|us|] == us;
    }

    /** Scores the states of the first word. */
    method FillFirst(tr: Trellis, ghost l: Lattice, ws: seq<Word>, states: seq<Bigram>)
      requires Valid() && tr.Valid() && tr.Capacity() == hmm.Paths()
      requires |tr.trl| > 0 && tr.trl[0] == map[] && ws != [] && Distinct(states)
      requires forall s :: s in states ==> l.init(s) == hmm.ProbPi(s).Plus(hmm.ProbB(s, ws[0]))
      modifies tr
      ensures tr.Valid() && tr.trl == old(tr.trl)[0 := FirstColumn(l, states)]
    {
      ghost var was := tr.trl;
      for i := 0 to |states|
        invariant tr.Valid() && tr.trl == was[0 := FirstColumn(l, states[..i])]
      {
        var s := states[i];
        var emm := ProbBLog(s, ws[0]);
        var aux := hmm.ProbPi(s).Plus(emm);
        assert s in states && s !in states[..i];
        FirstColumnOneMore(l, hmm.Paths(), states, i, Element(INIT_STATE, 0, aux));
        tr.Insert(0, s, INIT_STATE, 0, aux);
      }
      assert states[..|states|] == states;
    }

    /** Fills the entry of the `i`-th state of word `t`. */
    method FillNextState(tr: Trellis, ghost l: Lattice, ws: seq<Word>, t: nat, us: seq<Bigram>, states: seq<Bigram>, i: nat,
                         ghost was: Columns)
      requires Valid() && tr.Valid() && tr.Capacity() == hmm.Paths()
      requires 1 <= t < |was| && t < |ws| && i < |states| && Distinct(states) && hmm.IsState(states[i])
      requires forall u :: u in us ==> u in was[t - 1] && hmm.IsState(u)
      requires exists u :: u in us && u.second == states[i].first
      requires FollowsTables(hmm, ws, l, t)
      requires tr.trl == was[t := NextColumn(l, hmm.Paths(), t, us, states[..i], was[t - 1])]
      modifies tr, this`cache
      ensures Valid() && tr.Valid()
      ensures tr.trl == was[t := NextColumn(l, hmm.Paths(), t, us, states[..i + 1], was[t - 1])]
    {
      var s := states[i];
      assert s !in states[..i];
      FillState(tr, l, ws, t, us, s, tr.trl);
      OffersAreNotEmpty(l, t, us, s, was[t - 1]);
      NextColumnOneMore(l, hmm.Paths(), t, us, states, i, was[t - 1]);
    }

    /** Fills the column of word `t` from the one before. */
    method FillColumn(tr: Trellis, ghost l: Lattice, ws: seq<Word>, t: nat, us: seq<Bigram>, states: seq<Bigram>)
      requires Valid() && tr.Valid() && tr.Capacity() == hmm.Paths()
      requires 1 <= t < |tr.trl| && t < |ws| && tr.trl[t] == map[]
      requires forall u :: u in us ==> u in tr.trl[t - 1] && hmm.IsState(u)
      requires Distinct(states) && forall s :: s in states ==> hmm.IsState(s) && exists u :: u in us && u.second == s.first
      requires FollowsTables(hmm, ws, l, t)
      modifies tr, this`cache
      ensures Valid() && tr.Valid()
      ensures tr.trl == old(tr.trl)[t := NextColumn(l, hmm.Paths(), t, us, states, old(tr.trl[t - 1]))]
    {
      ghost var was := tr.trl;
      for i := 0 to |states|
        invariant Valid() && tr.Valid()
        invariant tr.trl == was[t := NextColumn(l, hmm.Paths(), t, us, states[..i], was[t - 1])]
      {
        assert states[i] in states;
        FillNextState(tr, l, ws, t, us, states, i, was);
      }
      assert states[..|states|] == states;
    }

    /** Offers, for the end state, every path stored for a state of the last word. */
    method OfferFinal(tr: Trellis, ghost l: Lattice, n: nat, u: Bigram, ghost was: Columns, ghost before: seq<Element>)
      requires tr.Valid() && tr.Capacity() == hmm.Paths()
      requires 1 <= n < |was| && u in was[n - 1] && END_STATE !in was[n]
      requires l.linked(n, u, END_STATE) && l.arc(n, u, END_STATE) == ONE
      requires tr.trl == Offered(hmm.Paths(), was, n, END_STATE, before)
      modifies tr
      ensures tr.Valid()
      ensures tr.trl == Offered(hmm.Paths(), was, n, END_STATE, before + OffersVia(l, n, u, END_STATE, was[n - 1][u]))
    {
      ghost var via := OffersVia(l, n, u, END_STATE, was[n - 1][u]);
      var m := tr.NBest(n - 1, u);
      assert before + via[..0] == before;
      for kb := 0 to m
        invariant tr.Valid()
        invariant tr.trl == Offered(hmm.Paths(), was, n, END_STATE, before + via[..kb])
      {
        var aux := tr.Delta(n - 1, u, kb);
        OffersViaAt(l, n, u, END_STATE, was[n - 1][u], kb);
        OneMoreTaken(before, via, kb);
        OfferPath(tr, n, END_STATE, u, kb, aux, was, before + via[..kb], before + via[..kb + 1]);
      }
      assert via[..m] == via;
    }

    /** Collects the paths into all states of the last word under the end state. */
    method FillEnd(tr: Trellis, ghost l: Lattice, n: nat, us: seq<Bigram>)
      requires tr.Valid() && tr.Capacity() == hmm.Paths()
      requires 1 <= n < |tr.trl| && tr.trl[n] == map[] && us != []
      requires forall u :: u in us ==> u in tr.trl[n - 1] && l.linked(n, u, END_STATE) && l.arc(n, u, END_STATE) == ONE
      modifies tr
      ensures tr.Valid()
      ensures tr.trl == old(tr.trl)[n := NextColumn(l, hmm.Paths(), n, us, [END_STATE], old(tr.trl[n - 1]))]
    {
      ghost var was := tr.trl;
      for i := 0 to |us|
        invariant tr.Valid()
        invariant tr.trl == Offered(hmm.Paths(), was, n, END_STATE, Offers(l, n, us[..i], END_STATE, was[n - 1]))
      {
        var u := us[i];
        assert u in us;
        ghost var before := Offers(l, n, us[..i], END_STATE, was[n - 1]);
        OfferFinal(tr, l, n, u, was, before);
        OffersOneMore(l, n, us, i, END_STATE, was[n - 1]);
      }
      assert us[..|us|] == us;
      assert us[0] in us;
      EndColumn(l, hmm.Paths(), n, us, was);
    }
  }

  /** What the first column holds for a state: nothing, unless it is one of those to fill. */
  function FirstEntry(l: Lattice, states: seq<Bigram>, s: Bigram): seq<Element> {
    if s in states then [Element(INIT_STATE, 0, l.init(s))] else []
  }

  function FirstColumn(l: Lattice, states: seq<Bigram>): map<Bigram, seq<Element>> {
    map s | s in states :: FirstEntry(l, states, s)
  }

  lemma FirstColumnOneMore(l: Lattice, k: nat, states: seq<Bigram>, i: nat, e: Element)
    requires k >= 1 && i < |states| && states[i] !in states[..i] && e == Element(INIT_STATE, 0, l.init(states[i]))
    ensures var c := FirstColumn(l, states[..i]);
            FirstColumn(l, states[..i + 1]) == c[states[i] := Keep(k, Entry(c, states[i]), e)]
  {
    assert states[..i + 1] == states[..i] + [states[i]];
    assert Inserted([], e) == [e];
  }

  /** What a column holds for a state: the best offers, if it is one of those to fill. */
  function NextEntry(l: Lattice, k: nat, t: nat, us: seq<Bigram>, states: seq<Bigram>,
                     before: map<Bigram, seq<Element>>, s: Bigram): seq<Element> {
    if s in states then KeepAll(k, Offers(l, t, us, s, before)) else []
  }

  function NextColumn(l: Lattice, k: nat, t: nat, us: seq<Bigram>, states: seq<Bigram>,
                      before: map<Bigram, seq<Element>>): map<Bigram, seq<Element>> {
    map s | s in states :: NextEntry(l, k, t, us, states, before, s)
  }

  lemma NextColumnOneMore(l: Lattice, k: nat, t: nat, us: seq<Bigram>, states: seq<Bigram>, i: nat,
                          before: map<Bigram, seq<Element>>)
    requires i < |states|
    ensures NextColumn(l, k, t, us, states[..i + 1], before)
         == NextColumn(l, k, t, us, states[..i], before)[states[i] := KeepAll(k, Offers(l, t, us, states[i], before))]
  {
    assert states[..i + 1] == states[..i] + [states[i]];
  }

  lemma EndColumn(l: Lattice, k: nat, n: nat, us: seq<Bigram>, was: Columns)
    requires 1 <= n < |was| && was[n] == map[]
    requires exists u :: u in us && l.linked(n, u, END_STATE) && Entry(was[n - 1], u) != []
    ensures Offered(k, was, n, END_STATE, Offers(l, n, us, END_STATE, was[n - 1]))
         == was[n := NextColumn(l, k, n, us, [END_STATE], was[n - 1])]
  {
    OffersAreNotEmpty(l, n, us, END_STATE, was[n - 1]);
    var offers := Offers(l, n, us, END_STATE, was[n - 1]);
    assert NextColumn(l, k, n, us, [END_STATE], was[n - 1]) == map[END_STATE := KeepAll(k, offers)];
    assert was[n][END_STATE := KeepAll(k, offers)] == map[END_STATE := KeepAll(k, offers)];
  }

  lemma OffersAreNotEmpty(l: Lattice, t: nat, us: seq<Bigram>, s: Bigram, before: map<Bigram, seq<Element>>)
    requires exists u :: u in us && l.linked(t, u, s) && Entry(before, u) != []
    ensures Offers(l, t, us, s, before) != []
  {
    var u :| u in us && l.linked(t, u, s) && Entry(before, u) != [];
    var i :| 0 <= i < |us| && us[i] == u;
    OffersOfStateAt(l, t, us, i, s, before);
  }

  lemma {:induction false} OffersOfStateAt(l: Lattice, t: nat, us: seq<Bigram>, i: nat, s: Bigram, before: map<Bigram, seq<Element>>)
    requires i < |us| && l.linked(t, us[i], s) && Entry(before, us[i]) != []
    ensures Offers(l, t, us, s, before) != []
  {
    if i < |us| - 1 {
      OffersOfStateAt(l, t, us[..|us| - 1], i, s, before);
    }
  }

  /** At word `t` the lattice links states that share a tag, and scores arcs by the tables. */
  ghost predicate FollowsTables(hmm: Hmm, ws: seq<Word>, l: Lattice, t: nat)
    requires hmm.WellFormed() && t < |ws|
  {
    forall u, s {:trigger l.linked(t, u, s)} {:trigger l.arc(t, u, s)} ::
      && l.linked(t, u, s) == (u.second == s.first)
      && l.arc(t, u, s) == hmm.ProbA(u, s, ws, t).Plus(hmm.ProbB(s, ws[t]))
  }

  lemma OneMoreTaken<T>(before: seq<T>, more: seq<T>, i: nat)
    requires i < |more|
    ensures before + more[..i + 1] == before + more[..i] + [more[i]]
  {
  }

  /** Offers one path; `offers` are those already made. */
  method OfferPath(tr: Trellis, t: nat, s: Bigram, u: Bigram, kb: nat, p: LogProb,
                   ghost was: Columns, ghost offers: seq<Element>, ghost more: seq<Element>)
    requires more == offers + [Element(u, kb, p)]
    requires tr.Valid() && t < |was| && s !in was[t]
    requires tr.trl == Offered(tr.Capacity(), was, t, s, offers)
    modifies tr
    ensures tr.Valid()
    ensures tr.trl == Offered(tr.Capacity(), was, t, s, more)
  {
    OfferedOneMore(tr.Capacity(), was, t, s, offers, Element(u, kb, p));
    tr.Insert(t, s, u, kb, p);
  }

  type Columns = seq<map<Bigram, seq<Element>>>

  /** A trellis after `offers` have been made to state `s` at time `t`. */
  function Offered(k: nat, was: Columns, t: nat, s: Bigram, offers: seq<Element>): (now: Columns)
    requires t < |was|
    ensures |now| == |was| && forall i :: 0 <= i < |was| && i != t ==> now[i] == was[i]
  {
    if offers == [] then was else was[t := was[t][s := KeepAll(k, offers)]]
  }

  lemma OfferedOneMore(k: nat, was: Columns, t: nat, s: Bigram, offers: seq<Element>, e: Element)
    requires t < |was| && s !in was[t]
    ensures var now := Offered(k, was, t, s, offers);
            Offered(k, was, t, s, offers + [e]) == now[t := now[t][s := Keep(k, Entry(now[t], s), e)]]
  {
    assert (offers + [e])[..|offers|] == offers;
    var now := Offered(k, was, t, s, offers);
    assert Entry(now[t], s) == KeepAll(k, offers);
    assert was[t][s := KeepAll(k, offers)][s := KeepAll(k, offers + [e])] == was[t][s := KeepAll(k, offers + [e])];
  }
}
