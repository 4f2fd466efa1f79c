/** Which states may have emitted each word of a sentence, and which of its readings a
    recovered path selects. */
module TaggedSentences {
  import opened LogProbs
  import opened Trellises
  import opened Viterbi
  import opened HmmTaggers
  import Strings

  /** A sentence, updated in place by the tagger. */
  class Sentence {
    var words: seq<Word>

    constructor (ws: seq<Word>)
      ensures words == ws
    {
      words := ws;
    }
  }

  predicate StateBefore(a: Bigram, b: Bigram) {
    Strings.Alphabetical(a.first, b.first) || (a.first == b.first && Strings.Alphabetical(a.second, b.second))
  }

  function Place(st: seq<Bigram>, b: Bigram): (n: nat)
    ensures n <= |st|
  {
    if st == [] || StateBefore(b, st[0]) then 0 else 1 + Place(st[1..], b)
  }

  /** Insertion into an ordered set. */
  function SetInsert(st: seq<Bigram>, b: Bigram): seq<Bigram> {
    if b in st then st else st[..Place(st, b)] + [b] + st[Place(st, b)..]
  }

  lemma SetInsertAdds(st: seq<Bigram>, b: Bigram)
    requires Distinct(st)
    ensures Distinct(SetInsert(st, b))
    ensures forall x :: x in SetInsert(st, b) <==> x in st || x == b
  {
    SpliceAddsOne(st, Place(st, b), b);
  }

  /** The short tags of the readings selected before tagging. */
  function SelectedTags(h: Hmm, readings: seq<Analysis>): set<Tag> {
    if readings == [] then {} else
    var a := readings[|readings| - 1];
    SelectedTags(h, readings[..|readings| - 1]) + (if 0 in a.marks then {h.shortTag(a.tag)} else {})
  }

  lemma SelectedTagsOneMore(h: Hmm, readings: seq<Analysis>, i: nat)
    requires i < |readings|
    ensures SelectedTags(h, readings[..i + 1])
         == SelectedTags(h, readings[..i]) + (if 0 in readings[i].marks then {h.shortTag(readings[i].tag)} else {})
  {
    assert readings[..i + 1][..i] == readings[..i];
  }

  /** The word has a selected reading, and all its readings have been given a probability. */
  ghost predicate ReadyWord(h: Hmm, w: Word) {
    && SelectedTags(h, w.analyses) != {}
    && (forall j :: 0 <= j < |w.analyses| ==> w.analyses[j].prob >= 0.0)
  }

  ghost predicate Ready(h: Hmm, ws: seq<Word>) {
    ws != [] && forall t {:trigger ReadyWord(h, ws[t])} :: 0 <= t < |ws| ==> ReadyWord(h, ws[t])
  }

  /** Exactly the pairs of tags that two consecutive words may have. */
  ghost predicate EmissionStates(h: Hmm, ws: seq<Word>, states: seq<seq<Bigram>>) {
    |states| == |ws| && forall t {:trigger StatesAt(h, ws, states, t)} :: 0 <= t < |ws| ==> StatesAt(h, ws, states, t)
  }

  ghost predicate StatesAt(h: Hmm, ws: seq<Word>, states: seq<seq<Bigram>>, t: nat)
    requires t < |ws| == |states|
  {
    Distinct(states[t]) && forall s :: s in states[t] <==> MayEmit(h, ws, t, s)
  }

  ghost predicate MayEmit(h: Hmm, ws: seq<Word>, t: nat, s: Bigram)
    requires t < |ws|
  {
    && s.second in SelectedTags(h, ws[t].analyses)
    && (if t == 0 then s.first == "0" else s.first in SelectedTags(h, ws[t - 1].analyses))
  }

  method FindStates(h: Hmm, ws: seq<Word>) returns (states: seq<seq<Bigram>>)
    requires ws != []
    ensures EmissionStates(h, ws, states)
  {
    var st: seq<Bigram> := [];
    var w2 := ws[0].analyses;
    for i := 0 to |w2|
      invariant Distinct(st)
      invariant forall s :: s in st <==> s.first == "0" && s.second in SelectedTags(h, w2[..i])
    {
      SelectedTagsOneMore(h, w2, i);
      if 0 in w2[i].marks {
        SetInsertAdds(st, Bigram("0", h.shortTag(w2[i].tag)));
        st := SetInsert(st, Bigram("0", h.shortTag(w2[i].tag)));
      }
    }
    assert w2[..|w2|] == w2;
    states := [st];
    for t := 1 to |ws|
      invariant EmissionStates(h, ws[..t], states)
    {
      st := PairStates(h, ws[t - 1].analyses, ws[t].analyses);
      EmissionStatesOneMore(h, ws, t, states, st);
      states := states + [st];
    }
    assert ws[..|ws|] == ws;
  }

  lemma EmissionStatesOneMore(h: Hmm, ws: seq<Word>, t: nat, states: seq<seq<Bigram>>, st: seq<Bigram>)
    requires 1 <= t < |ws| && EmissionStates(h, ws[..t], states) && Distinct(st)
    requires forall s :: s in st <==> MayEmit(h, ws, t, s)
    ensures EmissionStates(h, ws[..t + 1], states + [st])
  {
    var more, all := ws[..t + 1], states + [st];
    forall i | 0 <= i < |more|
      ensures StatesAt(h, more, all, i)
    {
      if i < t {
        assert StatesAt(h, ws[..t], states, i);
        assert forall s :: MayEmit(h, ws[..t], i, s) <==> MayEmit(h, more, i, s);
      } else {
        assert forall s :: MayEmit(h, ws, i, s) <==> MayEmit(h, more, i, s);
      }
    }
  }

  method PairStates(h: Hmm, w1: seq<Analysis>, w2: seq<Analysis>) returns (st: seq<Bigram>)
    ensures Distinct(st)
    ensures forall s :: s in st <==> s.first in SelectedTags(h, w1) && s.second in SelectedTags(h, w2)
  {
    st := [];
    for i := 0 to |w1|
      invariant Distinct(st)
      invariant forall s :: s in st <==> s.first in SelectedTags(h, w1[..i]) && s.second in SelectedTags(h, w2)
    {
      SelectedTagsOneMore(h, w1, i);
      if 0 in w1[i].marks {
        var t1 := h.shortTag(w1[i].tag);
        for j := 0 to |w2|
          invariant Distinct(st)
          invariant forall s :: s in st <==>
            || (s.first in SelectedTags(h, w1[..i]) && s.second in SelectedTags(h, w2))
            || (s.first == t1 && s.second in SelectedTags(h, w2[..j]))
        {
          SelectedTagsOneMore(h, w2, j);
          if 0 in w2[j].marks {
            SetInsertAdds(st, Bigram(t1, h.shortTag(w2[j].tag)));
            st := SetInsert(st, Bigram(t1, h.shortTag(w2[j].tag)));
          }
        }
        assert w2[..|w2|] == w2;
      }
    }
    assert w1[..|w1|] == w1;
  }
}
