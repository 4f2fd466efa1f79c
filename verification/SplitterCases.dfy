/** When a word ends a sentence: what follows it, and how long a marker has been open. */
module SplitterCases {
  import opened Splitting
  import opened Splitters

  /** Markers have been open since place `p`: none was before it, and some was after every word from there on. */
  ghost predicate OpenSince(c: Config, s: seq<Item>, p: nat) {
    && p < |s| && Scan(c, s[..p]).stack == []
    && forall q {:trigger Scan(c, s[..q])} :: p < q <= |s| ==> Scan(c, s[..q]).stack != []
  }

  /** The count is that of the words from the first open marker on. */
  lemma {:induction false} CountIsOpenSince(c: Config, s: seq<Item>)
    ensures Scan(c, s).stack == [] ==> Scan(c, s).count == 0
    ensures Scan(c, s).stack != [] ==> exists p: nat :: OpenSince(c, s, p) && Scan(c, s).count == |s| - p
  {
    if s != [] {
      var n := |s| - 1;
      var t, x := s[..n], s[n];
      CountIsOpenSince(c, t);
      if Scan(c, s).stack != [] {
        var p: nat := n;
        if Scan(c, t).stack != [] {
          p :| OpenSince(c, t, p) && Scan(c, t).count == |t| - p;
        }
        forall q | p < q <= |s|
          ensures Scan(c, s[..q]).stack != []
        {
          if q < |s| {
            assert s[..q] == t[..q];
          } else {
            assert s[..q] == s;
          }
        }
        assert s[..p] == t[..p];
        assert p == n ==> t[..p] == t;
        assert OpenSince(c, s, p);
      }
    }
  }

  lemma OpenSinceIsUnique(c: Config, s: seq<Item>, p: nat, q: nat)
    requires OpenSince(c, s, p) && OpenSince(c, s, q)
    ensures p == q
  {
    assert Scan(c, s[..p]).stack == [] && Scan(c, s[..q]).stack == [];
  }

  /** MAIN RESULT: inside markers a word that may end a sentence, and is no marker itself, ends it exactly
      if there is a limit, and it is exceeded by the words from the first open marker to this one. */
  lemma EndsInsideIff(c: Config, s: seq<Item>, p: nat, x: Item)
    requires OpenSince(c, s, p) && x.ends && !c.allowBetweenMarkers && x.word.form !in c.markers
    ensures IsEnd(c, Scan(c, s), x) <==> c.maxWords != 0 && |s| + 1 - p > c.maxWords
  {
    assert s[..|s|] == s;
    assert Scan(c, s[..|s|]).stack != [];
    CountIsOpenSince(c, s);
    var q: nat :| OpenSince(c, s, q) && Scan(c, s).count == |s| - q;
    OpenSinceIsUnique(c, s, p, q);
  }

  /** Outside markers such a word always ends the sentence. */
  lemma EndsOutside(c: Config, s: seq<Item>, x: Item)
    requires Scan(c, s).stack == [] && x.ends && x.word.form !in c.markers
    ensures IsEnd(c, Scan(c, s), x)
  {
  }

  /** A full stop ends a sentence if a capital or a starter follows, a question mark always does. */
  function StopConfig(): Config {
    Config(false, 0, map[], map["." := false, "?" := true], {"f"}, form => form == "D")
  }

  function WordsFrom(forms: seq<string>): (v: seq<Word>)
    ensures |v| == |forms|
  {
    seq(|forms|, i requires 0 <= i < |forms| => Word(forms[i], i))
  }

  function Text(): seq<string> {
    ["b", ".", "c", ".", "D", "?", "e", ".", "f"]
  }

  /** The full stop before c ends nothing; those before D and f do, and so does the question mark. */
  lemma EndsInText()
    ensures forall i :: 0 <= i < 9 ==> Items(StopConfig(), WordsFrom(Text()))[i] == Item(Word(Text()[i], i), i in {3, 5, 7})
  {
    var c, v := StopConfig(), WordsFrom(Text());
    assert v[1].form == "." && v[3].form == "." && v[5].form == "?" && v[7].form == ".";
    assert v[2].form == "c" && v[4].form == "D" && v[6].form == "e" && v[8].form == "f" && v[0].form == "b";
    forall i | 0 <= i < 9
      ensures EndsAt(c, v, i) <==> i in {3, 5, 7}
    {
    }
  }

  lemma {:induction false} NoMarkersNoMarks(c: Config, s: seq<Item>)
    requires c.markers == map[]
    ensures Scan(c, s) == Marks([], 0)
  {
    if s != [] {
      NoMarkersNoMarks(c, s[..|s| - 1]);
    }
  }

  lemma BoundaryIffEnds(c: Config, s: seq<Item>, p: nat)
    requires c.markers == map[] && p < |s|
    ensures Boundary(c, s, p) <==> s[p].ends
  {
    NoMarkersNoMarks(c, s[..p]);
  }

  lemma SentenceIffEnds(c: Config, s: seq<Item>)
    requires c.markers == map[] && s != []
    ensures IsSentence(c, s) <==> s[|s| - 1].ends && forall p :: 0 <= p < |s| - 1 ==> !s[p].ends
    ensures NoBoundary(c, s) <==> forall p :: 0 <= p < |s| ==> !s[p].ends
  {
    var t := s[..|s| - 1];
    forall p | 0 <= p < |s|
      ensures Boundary(c, s, p) <==> s[p].ends
      ensures p < |t| ==> (Boundary(c, t, p) <==> s[p].ends)
    {
      BoundaryIffEnds(c, s, p);
      if p < |t| {
        BoundaryIffEnds(c, t, p);
      }
    }
  }

  /** The text makes three sentences, and a word is left. */
  lemma TextIsSplit()
    ensures var all := Items(StopConfig(), WordsFrom(Text()));
            Run(StopConfig(), all) == Split([all[..4], all[4..6], all[6..8]], all[8..])
  {
    var c, all := StopConfig(), Items(StopConfig(), WordsFrom(Text()));
    EndsInText();
    var a, b, d, rest := all[..4], all[4..6], all[6..8], all[8..];
    assert a[3].ends && b[1].ends && d[1].ends;
    SentenceIffEnds(c, a);
    SentenceIffEnds(c, b);
    SentenceIffEnds(c, d);
    SentenceIffEnds(c, rest);
    FlattenThree(a, b, d);
    assert a + b + d + rest == all;
    assert AreSentences(c, [a, b, d]);
    SplittingIsUnique(c, all, [a, b, d], rest);
  }

  /** The text is split by a call. */
  method SplitText() returns (ls: seq<seq<Word>>)
    ensures var v := WordsFrom(Text()); ls == [v[..4], v[4..6], v[6..8]]
  {
    var v := WordsFrom(Text());
    var s := new Splitter(StopConfig());
    ls := s.SplitWords(v, false);
    ghost var all := Items(StopConfig(), v);
    TextIsSplit();
    assert [] + all == all;
    assert WordsOf(all[..4]) == v[..4] && WordsOf(all[4..6]) == v[4..6] && WordsOf(all[6..8]) == v[6..8];
  }

  lemma FlattenThree<T>(a: seq<T>, b: seq<T>, d: seq<T>)
    ensures Flatten([a, b, d]) == a + b + d
  {
    assert [a, b, d][..2] == [a, b] && [a, b][..1] == [a] && [a][..0] == [];
    assert Flatten([a]) == [] + a == a;
  }

  /** A marker that opens is closed by one with the opposite code, or, if its code is above 100, by one
      with the same code; otherwise it opens again. */
  lemma WhatCloses(c: Config, a: Item, b: Item)
    requires !c.allowBetweenMarkers && a.word.form in c.markers && b.word.form in c.markers && c.markers[a.word.form] > 0
    ensures Scan(c, [a]) == Marks([c.markers[a.word.form]], 1)
    ensures c.markers[b.word.form] > 100 && c.markers[b.word.form] == c.markers[a.word.form] ==> Scan(c, [a, b]) == Marks([], 0)
    ensures c.markers[b.word.form] == -c.markers[a.word.form] ==> Scan(c, [a, b]) == Marks([], 0)
    ensures 0 < c.markers[b.word.form] <= 100 ==>
      Scan(c, [a, b]) == Marks([c.markers[b.word.form], c.markers[a.word.form]], 2)
  {
    assert [a, b][..1] == [a] && [a][..0] == [];
  }
}
