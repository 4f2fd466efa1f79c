/** Tagging a sentence: filling the trellis for it, recovering the k best tag sequences,
    marking the readings they select, and scoring a sequence that has been marked. */
module Tagging {
  import opened LogProbs
  import opened Trellises
  import opened Viterbi
  import opened HmmTaggers
  import opened TaggedSentences

  /** The lattice a sentence gives rise to: the emission states of each word, then the end state. */
  ghost function LatticeOf(h: Hmm, ws: seq<Word>, states: seq<seq<Bigram>>): Lattice
    requires h.WellFormed()
  {
    Lattice(states + [[END_STATE]],
            (s: Bigram) => if ws != [] then h.ProbPi(s).Plus(h.ProbB(s, ws[0])) else NegInf,
            (t: nat, u: Bigram, s: Bigram) => t >= |ws| || u.second == s.first,
            (t: nat, u: Bigram, s: Bigram) => if t < |ws| then h.ProbA(u, s, ws, t).Plus(h.ProbB(s, ws[t])) else ONE)
  }

  lemma LatticeIsConnected(h: Hmm, ws: seq<Word>, states: seq<seq<Bigram>>)
    requires h.WellFormed() && Ready(h, ws) && EmissionStates(h, ws, states)
    ensures LatticeOf(h, ws, states).Connected()
    ensures forall t, s :: 0 <= t < |ws| && s in states[t] ==> h.IsState(s)
  {
    var l := LatticeOf(h, ws, states);
    var n := |ws|;
    forall t, s | 0 <= t < n && s in states[t]
      ensures h.IsState(s)
    {
      assert StatesAt(h, ws, states, t);
      SelectedTagsAreTags(h, ws[t].analyses);
      if t > 0 { SelectedTagsAreTags(h, ws[t - 1].analyses); }
    }
    forall t | 0 <= t < n
      ensures states[t] != [] && Distinct(states[t])
    {
      assert StatesAt(h, ws, states, t);
      var s := SomeState(h, ws, t);
      assert s in states[t];
    }
    forall t, s | 1 <= t <= n && s in l.states[t]
      ensures l.HasPredecessor(t, s)
    {
      assert StatesAt(h, ws, states, t - 1);
      if t < n {
        assert StatesAt(h, ws, states, t);
        var u := Bigram(SomeState(h, ws, t - 1).first, s.first);
        assert u in states[t - 1] && l.linked(t, u, s);
      } else {
        assert states[n - 1][0] in states[n - 1] && l.linked(n, states[n - 1][0], s);
      }
    }
  }

  lemma {:induction false} SelectedTagsAreTags(h: Hmm, readings: seq<Analysis>)
    ensures forall t :: t in SelectedTags(h, readings) ==> t in h.Tags()
  {
    if readings != [] {
      SelectedTagsAreTags(h, readings[..|readings| - 1]);
      assert h.IsShort(h.shortTag(readings[|readings| - 1].tag));
    }
  }

  ghost function SomeState(h: Hmm, ws: seq<Word>, t: nat): (s: Bigram)
    requires Ready(h, ws) && t < |ws|
    ensures MayEmit(h, ws, t, s)
  {
    assert ReadyWord(h, ws[t]);
    var tag :| tag in SelectedTags(h, ws[t].analyses);
    if t == 0 then Bigram("0", tag) else
    assert ReadyWord(h, ws[t - 1]);
    var before :| before in SelectedTags(h, ws[t - 1].analyses);
    Bigram(before, tag)
  }

  /** Columns below `n` are final, the others still empty. */
  ghost predicate FilledUpTo(l: Lattice, k: nat, cols: Columns, n: nat)
    requires 0 < n <= |cols| == |l.states|
  {
    && cols[0] == FirstColumn(l, l.states[0])
    && (forall t :: 1 <= t < n ==> FilledAt(l, k, cols, t))
    && (forall t :: n <= t < |cols| ==> cols[t] == map[])
  }

  ghost predicate FilledAt(l: Lattice, k: nat, cols: Columns, t: nat)
    requires 1 <= t < |cols| == |l.states|
  {
    cols[t] == NextColumn(l, k, t, l.states[t - 1], l.states[t], cols[t - 1])
  }

  lemma FilledStays(l: Lattice, k: nat, cols: Columns, more: Columns, t: nat)
    requires 1 <= t < |cols| == |l.states| == |more| && FilledAt(l, k, cols, t)
    requires more[t - 1] == cols[t - 1] && more[t] == cols[t]
    ensures FilledAt(l, k, more, t)
  {
  }

  lemma FilledNow(l: Lattice, k: nat, cols: Columns, t: nat)
    requires 1 <= t < |cols| == |l.states|
    ensures FilledAt(l, k, cols[t := NextColumn(l, k, t, l.states[t - 1], l.states[t], cols[t - 1])], t)
  {
  }

  lemma FilledOneMore(l: Lattice, k: nat, cols: Columns, n: nat)
    requires 1 <= n < |cols| == |l.states| && FilledUpTo(l, k, cols, n)
    ensures FilledUpTo(l, k, cols[n := NextColumn(l, k, n, l.states[n - 1], l.states[n], cols[n - 1])], n + 1)
  {
    var more := cols[n := NextColumn(l, k, n, l.states[n - 1], l.states[n], cols[n - 1])];
    forall t | 1 <= t < n + 1
      ensures FilledAt(l, k, more, t)
    {
      if t < n {
        FilledStays(l, k, cols, more, t);
      } else {
        FilledNow(l, k, cols, n);
      }
    }
    assert forall t :: n + 1 <= t < |cols| ==> more[t] == cols[t];
  }

  lemma FilledToTheEnd(l: Lattice, k: nat, cols: Columns)
    requires 1 <= |cols| == |l.states| && FilledUpTo(l, k, cols, |cols|)
    ensures Filled(l, k, cols)
  {
    forall t | 0 <= t < |cols|
      ensures FilledColumn(l, k, cols, t)
    {
      assert t > 0 ==> FilledAt(l, k, cols, t);
    }
  }

  /** Runs the k-best Viterbi recursion over a whole sentence. */
  method FillTrellis(tagger: HmmTagger, ws: seq<Word>) returns (tr: Trellis, ghost states: seq<seq<Bigram>>)
    requires tagger.Valid() && Ready(tagger.hmm, ws)
    modifies tagger`cache
    ensures tagger.Valid() && fresh(tr)
    ensures EmissionStates(tagger.hmm, ws, states)
    ensures LatticeOf(tagger.hmm, ws, states).Connected()
    ensures Filled(LatticeOf(tagger.hmm, ws, states), tagger.hmm.Paths(), tr.trl)
  {
    var n := |ws|;
    var k := tagger.hmm.Paths();
    tr := new Trellis(n + 1, tagger.hmm.kbest);
    var emission := FindStates(tagger.hmm, ws);
    states := emission;
    ghost var l := LatticeOf(tagger.hmm, ws, states);
    LatticeIsConnected(tagger.hmm, ws, states);
    assert StatesAt(tagger.hmm, ws, states, 0);
    tagger.FillFirst(tr, l, ws, emission[0]);
    for t := 1 to n
      invariant tagger.Valid() && tr.Valid() && fresh(tr)
      invariant |tr.trl| == n + 1 && FilledUpTo(l, k, tr.trl, t)
    {
      FilledOneMore(l, k, tr.trl, t);
      PreviousStates(l, k, tr.trl, t, emission[t - 1]);
      StatesHavePredecessors(tagger.hmm, ws, states, t);
      assert StatesAt(tagger.hmm, ws, states, t);
      tagger.FillColumn(tr, l, ws, t, emission[t - 1], emission[t]);
    }
    FilledOneMore(l, k, tr.trl, n);
    PreviousStates(l, k, tr.trl, n, emission[n - 1]);
    tagger.FillEnd(tr, l, n, emission[n - 1]);
    FilledToTheEnd(l, k, tr.trl);
  }

  lemma PreviousStates(l: Lattice, k: nat, cols: Columns, n: nat, us: seq<Bigram>)
    requires 1 <= n < |cols| == |l.states| && FilledUpTo(l, k, cols, n)
    requires us == l.states[n - 1]
    ensures forall u :: u in us ==> u in cols[n - 1]
  {
    assert n > 1 ==> FilledAt(l, k, cols, n - 1);
  }

  lemma StatesHavePredecessors(h: Hmm, ws: seq<Word>, states: seq<seq<Bigram>>, t: nat)
    requires h.WellFormed() && Ready(h, ws) && EmissionStates(h, ws, states) && 1 <= t < |ws|
    ensures forall s :: s in states[t] ==> exists u :: u in states[t - 1] && u.second == s.first
    ensures FollowsTables(h, ws, LatticeOf(h, ws, states), t)
  {
    forall s | s in states[t]
      ensures exists u :: u in states[t - 1] && u.second == s.first
    {
      assert StatesAt(h, ws, states, t) && StatesAt(h, ws, states, t - 1);
      var u := Bigram(SomeState(h, ws, t - 1).first, s.first);
      assert MayEmit(h, ws, t, s) && MayEmit(h, ws, t - 1, u) && u in states[t - 1];
    }
  }

  /** The reading at `j` has the tag, and no reading with that tag is more likely. */
  predicate IsBestReading(h: Hmm, readings: seq<Analysis>, tag: Tag, j: nat) {
    && j < |readings| && h.shortTag(readings[j].tag) == tag && readings[j].prob >= 0.0
    && forall i :: 0 <= i < |readings| && h.shortTag(readings[i].tag) == tag ==> readings[i].prob <= readings[j].prob
  }

  /** The most likely readings with a given short tag. */
  method BestReadings(h: Hmm, readings: seq<Analysis>, tag: Tag) returns (best: seq<nat>)
    ensures forall j: nat :: j in best <==> IsBestReading(h, readings, tag, j)
  {
    var max := 0.0;
    best := [];
    for i := 0 to |readings|
      invariant max >= 0.0
      invariant forall j :: 0 <= j < i && h.shortTag(readings[j].tag) == tag ==> readings[j].prob <= max
      invariant max == 0.0 || exists j :: 0 <= j < i && h.shortTag(readings[j].tag) == tag && readings[j].prob == max
      invariant forall j: nat :: j in best <==> j < i && h.shortTag(readings[j].tag) == tag && readings[j].prob == max
    {
      if h.shortTag(readings[i].tag) == tag {
        if readings[i].prob > max {
          max := readings[i].prob;
          best := [i];
        } else if readings[i].prob == max {
          best := best + [i];
        }
      }
    }
  }

  /** A word whose best readings for `tag` have been added to sequence `bp`. */
  ghost predicate SelectedIn(h: Hmm, was: Word, now: Word, tag: Tag, bp: nat) {
    && now.lcForm == was.lcForm && |now.analyses| == |was.analyses|
    && forall j :: 0 <= j < |was.analyses| ==>
         now.analyses[j] == was.analyses[j].(marks := was.analyses[j].marks +
                                                      if IsBestReading(h, was.analyses, tag, j) then {bp} else {})
  }

  method SelectReadings(h: Hmm, w: Word, tag: Tag, bp: nat) returns (marked: Word)
    ensures SelectedIn(h, w, marked, tag, bp)
  {
    var best := BestReadings(h, w.analyses, tag);
    var readings := w.analyses;
    for i := 0 to |best|
      invariant |readings| == |w.analyses|
      invariant forall j :: 0 <= j < |readings| ==>
        readings[j] == w.analyses[j].(marks := w.analyses[j].marks + if j in best[..i] then {bp} else {})
    {
      var j := best[i];
      assert j in best;
      readings := readings[j := readings[j].(marks := readings[j].marks + {bp})];
      assert best[..i + 1] == best[..i] + [j];
    }
    assert best[..|best|] == best;
    marked := w.(analyses := readings);
  }

  ghost predicate SelectedAt(h: Hmm, was: seq<Word>, now: seq<Word>, p: seq<Bigram>, t: nat, bp: nat)
    requires t < |was| == |now| && t < |p|
  {
    SelectedIn(h, was[t], now[t], p[t].second, bp)
  }

  /** From word `m` on, the best readings for the tags of path `p` have been selected. */
  ghost predicate SelectedFrom(h: Hmm, was: seq<Word>, now: seq<Word>, p: seq<Bigram>, m: nat, bp: nat)
    requires |was| == |now| <= |p|
  {
    forall t {:trigger SelectedAt(h, was, now, p, t, bp)} :: m <= t < |was| ==> SelectedAt(h, was, now, p, t, bp)
  }

  /** Words from `m` on have been marked for path `p`, the others not yet. */
  ghost predicate MarkedFrom(h: Hmm, was: seq<Word>, now: seq<Word>, p: seq<Bigram>, m: nat, bp: nat) {
    && m <= |was| == |now| <= |p|
    && now[..m] == was[..m]
    && SelectedFrom(h, was, now, p, m, bp)
  }

  /** Marks the best readings of word `m`. */
  method MarkWord(h: Hmm, se: Sentence, m: nat, tag: Tag, bp: nat, ghost was: seq<Word>, ghost p: seq<Bigram>)
    requires m < |was| && MarkedFrom(h, was, se.words, p, m + 1, bp) && tag == p[m].second
    modifies se
    ensures MarkedFrom(h, was, se.words, p, m, bp)
  {
    assert se.words[m] == se.words[..m + 1][m] == was[m];
    var marked := SelectReadings(h, se.words[m], tag, bp);
    ghost var before := se.words;
    se.words := se.words[m := marked];
    ghost var now := se.words;
    assert now[..m] == before[..m + 1][..m] == was[..m];
    forall t | m <= t < |was|
      ensures SelectedAt(h, was, now, p, t, bp)
    {
      if t > m {
        assert SelectedAt(h, was, before, p, t, bp);
      }
    }
  }

  /** Rank `r` of state `s` at time `t` is stored, and path `p` starts with its trace. */
  ghost predicate StartsWith(cols: Columns, t: nat, s: Bigram, r: nat, p: seq<Bigram>) {
    t < |cols| && s in cols[t] && r < |cols[t][s]| && Trace(cols, t, s, r) <= p
  }

  /** The predecessor of a stored path, which is always there. */
  method StepBack(tr: Trellis, ghost l: Lattice, ghost k: nat, ghost cols: Columns, t: nat, s: Bigram, r: nat,
                  ghost p: seq<Bigram>)
    returns (from: Bigram, rank: nat)
    requires tr.trl == cols && Best(l, k, cols) && 1 <= t && StartsWith(cols, t, s, r, p)
    ensures StartsWith(cols, t - 1, from, rank, p)
    ensures t <= |p| && p[t - 1] == from
  {
    TraceStep(l, k, cols, t, s, r);
    ghost var q := Trace(cols, t, s, r);
    from, rank := tr.Phi(t, s, r);
    assert q[..t] <= q;
  }

  /** Follows the pointers back from rank `bp` of the end state, selecting, word by word,
      the best readings for the tags met. */
  method RecoverPath(h: Hmm, tr: Trellis, ghost l: Lattice, se: Sentence, bp: nat)
    requires Best(l, h.Paths(), tr.trl)
    requires |tr.trl| == |se.words| + 1 && se.words != []
    requires END_STATE in tr.trl[|se.words|] && bp < |tr.trl[|se.words|][END_STATE]|
    modifies se
    ensures |se.words| == |old(se.words)|
    ensures |Trace(tr.trl, |se.words|, END_STATE, bp)| == |se.words| + 1
    ensures SelectedFrom(h, old(se.words), se.words, Trace(tr.trl, |se.words|, END_STATE, bp), 0, bp)
  {
    var n := |se.words|;
    ghost var was := se.words;
    ghost var cols := tr.trl;
    ghost var p := Trace(cols, n, END_STATE, bp);
    TracesAreScoredPaths(l, h.Paths(), cols, n, END_STATE, bp);
    var t: nat, st: Bigram, kb: nat := n, END_STATE, bp;
    while t > 0
      invariant 0 <= t <= n && tr.trl == cols
      invariant StartsWith(cols, t, st, kb, p)
      invariant MarkedFrom(h, was, se.words, p, t, bp)
    {
      st, kb := StepBack(tr, l, h.Paths(), cols, t, st, kb, p);
      t := t - 1;
      MarkWord(h, se, t, st.second, bp, was, p);
    }
  }
}
