/** Splitting words into sentences, keeping the words of the last one for the next call. */
module Splitters {
  import opened Splitting

  lemma SentencesOneMore(full: seq<seq<Item>>, s: seq<Item>)
    ensures Sentences(full + [s]) == Sentences(full) + [WordsOf(s)]
  {
  }

  lemma RunOneItem(c: Config, before: seq<Item>, items: seq<Item>, i: nat, full: seq<seq<Item>>, kept: seq<Item>)
    returns (now: seq<seq<Item>>)
    requires i < |items| && Run(c, before + items[..i]) == Split(full, kept)
    ensures var more := kept + [items[i]];
            if IsEnd(c, Scan(c, kept), items[i])
            then Run(c, before + items[..i + 1]) == Split(now, []) && Sentences(now) == Sentences(full) + [WordsOf(more)]
            else Run(c, before + items[..i + 1]) == Split(now, more) && now == full
  {
    RunOfFirst(c, before, items, i);
    now := full;
    if IsEnd(c, Scan(c, kept), items[i]) {
      now := full + [kept + [items[i]]];
      SentencesOneMore(full, kept + [items[i]]);
    }
  }

  lemma RunOfFirst(c: Config, before: seq<Item>, items: seq<Item>, i: nat)
    requires i < |items|
    ensures Run(c, before + items[..i + 1]) == Add(c, Run(c, before + items[..i]), items[i])
  {
    assert items[..i + 1][..i] == items[..i];
    RunOneMore(c, before, items[..i + 1]);
  }

  class Splitter {
    const c: Config
    var buffer: seq<Word>
    var betweenMarkers: bool
    var noSplitCount: nat
    var markType: seq<int>
    var markForm: seq<string>
    /** The words of the buffer, with whether a sentence might have ended there. */
    ghost var kept: seq<Item>

    ghost predicate Valid()
      reads this
    {
      && buffer == WordsOf(kept)
      && MarksAre(Scan(c, kept))
      && NoBoundary(c, kept)
    }

    ghost predicate MarksAre(m: Marks)
      reads this
    {
      && markType == m.stack && noSplitCount == m.count
      && betweenMarkers == (markType != []) && |markForm| == |markType|
    }

    constructor (config: Config)
      ensures Valid() && c == config && kept == []
    {
      c := config;
      buffer, betweenMarkers, noSplitCount, markType, markForm := [], false, 0, [], [];
      kept := [];
    }

    /** Empties the buffer. */
    method Reset()
      modifies this
      ensures Valid() && kept == []
    {
      buffer, betweenMarkers, noSplitCount, markType, markForm := [], false, 0, [], [];
      kept := [];
    }

    /** Opens and closes markers, and tells whether a sentence might end. */
    method CheckMarkers(form: string) returns (checkSplit: bool)
      requires MarksAre(Marks(markType, noSplitCount))
      modifies `betweenMarkers, `noSplitCount, `markType, `markForm
      ensures MarksAre(Next(c, old(Marks(markType, noSplitCount)), form))
      ensures forall ends, w: Word :: w.form == form ==>
        (IsEnd(c, old(Marks(markType, noSplitCount)), Item(w, ends)) <==> ends && checkSplit)
    {
      checkSplit := true;
      if betweenMarkers && !c.allowBetweenMarkers && form in c.markers &&
         c.markers[form] == (if c.markers[form] > SAME then markType[0] else -markType[0])
      {
        markType, markForm := markType[1..], markForm[1..];
        if markType == [] {
          betweenMarkers, noSplitCount := false, 0;
        } else {
          noSplitCount := noSplitCount + 1;
        }
        checkSplit := false;
      } else if form in c.markers && c.markers[form] > 0 && !c.allowBetweenMarkers {
        markForm, markType := [form] + markForm, [c.markers[form]] + markType;
        betweenMarkers, noSplitCount := true, noSplitCount + 1;
        checkSplit := false;
      } else if betweenMarkers {
        noSplitCount := noSplitCount + 1;
        if c.maxWords == 0 || noSplitCount <= c.maxWords {
          checkSplit := false;
        }
      }
    }

    /** Takes the next word of a list, and gives the sentence that it ends, if it ends one. */
    method Take(v: seq<Word>, i: nat) returns (ls: seq<seq<Word>>)
      requires Valid() && i < |v|
      modifies this
      ensures Valid()
      ensures var more := old(kept) + [Items(c, v)[i]];
              if IsEnd(c, Scan(c, old(kept)), Items(c, v)[i]) then ls == [WordsOf(more)] && kept == []
              else ls == [] && kept == more
    {
      ghost var x := Items(c, v)[i];
      ghost var m := Scan(c, kept);
      NoBoundaryOneMore(c, kept, x);
      WordsOfConcat(kept, [x]);
      assert WordsOf([x]) == [v[i]];
      var checkSplit := CheckMarkers(v[i].form);
      assert m == Marks(m.stack, m.count);
      assert IsEnd(c, m, Item(v[i], x.ends)) <==> x.ends && checkSplit;
      buffer := buffer + [v[i]];
      kept := kept + [x];
      assert kept[..|kept| - 1] == old(kept);
      ls := [];
      if checkSplit && v[i].form in c.enders && (c.enders[v[i].form] || EndOfSentence(v, i)) {
        ls := [buffer];
        Reset();
      }
    }

    /** Whether the words after some word allow that a sentence ends there. */
    function EndOfSentence(v: seq<Word>, i: nat): bool
      requires i < |v|
    {
      i == |v| - 1 || c.capitalized(v[i + 1].form) || v[i + 1].form in c.starters
    }

    /** Splits a list of words, after those that were kept. */
    method SplitWords(v: seq<Word>, flush: bool) returns (ls: seq<seq<Word>>)
      requires Valid()
      modifies this
      ensures Valid()
      ensures var r := AfterCall(c, old(kept), Call(v, flush)); ls == Sentences(r.full) && kept == r.rest
      ensures flush ==> buffer == []
    {
      ghost var before := kept;
      ghost var full: seq<seq<Item>> := [];
      ls := [];
      RunOfRest(c, kept);
      assert kept + Items(c, v)[..0] == kept;
      for i := 0 to |v|
        invariant Valid() && Run(c, before + Items(c, v)[..i]) == Split(full, kept) && ls == Sentences(full)
      {
        ghost var last := kept;
        var more := Take(v, i);
        full := RunOneItem(c, before, Items(c, v), i, full, last);
        ls := ls + more;
      }
      assert Items(c, v)[..|v|] == Items(c, v);
      if flush && buffer != [] {
        SentencesOneMore(full, kept);
        ls := ls + [buffer];
        Reset();
      }
    }
  }
}
