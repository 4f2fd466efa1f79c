/** Reading and writing the text of dictionary entries. */
module EntryText {
  import opened DictEntries
  import opened Preferences
  import opened StoredEntries
  import opened Strings

  /** The lemmas and tags seen so far. */
  ghost predicate Collected(ps: seq<Pair>, ll: seq<string>, aux: map<string, seq<string>>) {
    && ll == Lemmas(ps) && (forall l :: l in aux <==> l in ll)
    && forall l :: l in aux ==> aux[l] == TagsOf(ps, l)
  }

  lemma CollectedOneMore(ps: seq<Pair>, p: Pair, ll: seq<string>, aux: map<string, seq<string>>)
    requires Collected(ps, ll, aux)
    ensures p.0 !in aux ==> Collected(ps + [p], ll + [p.0], aux[p.0 := [p.1]])
    ensures p.0 in aux ==> Collected(ps + [p], ll, aux[p.0 := aux[p.0] + [p.1]])
  {
    assert (ps + [p])[..|ps|] == ps;
    LemmasAreDistinct(ps);
    forall l
      ensures TagsOf(ps + [p], l) == TagsOf(ps, l) + if l == p.0 then [p.1] else []
    {
    }
  }

  lemma PairsOneMore(d: seq<string>, i: nat)
    requires i % 2 == 0 && i + 2 <= |d|
    ensures Pairs(d[..i + 2]) == Pairs(d[..i]) + [(d[i], d[i + 1])]
  {
  }

  /** The lemmas of some words that alternate with tags, and the tags of each. */
  method Collect(d: seq<string>) returns (ok: bool, ll: seq<string>, aux: map<string, seq<string>>)
    ensures ok <==> |d| % 2 == 0
    ensures ok ==> Collected(Pairs(d), ll, aux)
  {
    ok, ll, aux := true, [], map[];
    var i := 0;
    while i < |d|
      invariant i % 2 == 0 && i <= |d| && Collected(Pairs(d[..i]), ll, aux)
    {
      if i + 1 == |d| {
        return false, ll, aux;
      }
      CollectedOneMore(Pairs(d[..i]), (d[i], d[i + 1]), ll, aux);
      PairsOneMore(d, i);
      if d[i] !in aux {
        ll, aux := ll + [d[i]], aux[d[i] := [d[i + 1]]];
      } else {
        aux := aux[d[i] := aux[d[i]] + [d[i + 1]]];
      }
      i := i + 2;
    }
    assert d[..i] == d;
  }

  /** Tags are those of a lemma, and in order exactly if the preferences allow one. */
  ghost predicate TagsInOrder(tags: seq<string>, all: seq<string>, tagPrefs: Prefs) {
    multiset(tags) == multiset(all) && (Sorted(tags, tagPrefs) <==> Ordered(multiset(all), tagPrefs))
  }

  /** Entries that group pairs, with lemmas and tags in order exactly where the preferences allow one. */
  ghost predicate GroupedInOrder(ps: seq<Pair>, es: seq<Entry>, lemmaPrefs: Prefs, tagPrefs: Prefs) {
    && multiset(LemmasOf(es)) == multiset(Lemmas(ps))
    && (Sorted(LemmasOf(es), lemmaPrefs) <==> Ordered(multiset(Lemmas(ps)), lemmaPrefs))
    && EachInOrder(ps, es, tagPrefs)
  }

  ghost predicate EachInOrder(ps: seq<Pair>, es: seq<Entry>, tagPrefs: Prefs) {
    forall i :: 0 <= i < |es| ==> TagsInOrder(es[i].tags, TagsOf(ps, es[i].lem), tagPrefs)
  }

  lemma InOrderGroups(ps: seq<Pair>, es: seq<Entry>, lemmaPrefs: Prefs, tagPrefs: Prefs)
    requires GroupedInOrder(ps, es, lemmaPrefs, tagPrefs)
    ensures Groups(ps, es)
  {
    forall i | 0 <= i < |es|
      ensures multiset(es[i].tags) == multiset(TagsOf(ps, es[i].lem))
    {
      assert TagsInOrder(es[i].tags, TagsOf(ps, es[i].lem), tagPrefs);
    }
  }

  /** Entries for lemmas in order, with the tags of each. */
  method SortTags(ghost ps: seq<Pair>, sorted: seq<string>, aux: map<string, seq<string>>, tagPrefs: Prefs)
    returns (es: seq<Entry>)
    requires forall k :: 0 <= k < |sorted| ==> sorted[k] in aux && aux[sorted[k]] == TagsOf(ps, sorted[k])
    ensures LemmasOf(es) == sorted && EachInOrder(ps, es, tagPrefs)
  {
    es := [];
    for k := 0 to |sorted|
      invariant LemmasOf(es) == sorted[..k] && EachInOrder(ps, es, tagPrefs)
    {
      var tags := SortList(aux[sorted[k]], tagPrefs);
      var e := Entry(sorted[k], tags);
      assert LemmasOf(es + [e]) == LemmasOf(es) + [e.lem];
      es := es + [e];
    }
    assert sorted[..|sorted|] == sorted;
  }

  /** Reads the pairs of a text, and groups them by lemma, unless a lemma has no tag. */
  method ParseDictEntry(data: string, lemmaPrefs: Prefs, tagPrefs: Prefs) returns (ok: bool, es: seq<Entry>)
    ensures ok <==> IsPaired(data)
    ensures ok ==> GroupedInOrder(Pairs(Cut(data, ' ')), es, lemmaPrefs, tagPrefs)
  {
    var d := Cut(data, ' ');
    es := [];
    var ll, aux;
    ok, ll, aux := Collect(d);
    if ok {
      var sorted := SortList(ll, lemmaPrefs);
      forall k | 0 <= k < |sorted|
        ensures sorted[k] in ll
      {
        assert sorted[k] in multiset(ll);
      }
      es := SortTags(Pairs(d), sorted, aux, tagPrefs);
    }
  }

  lemma TokensOneMore(es: seq<Entry>, i: nat)
    requires i < |es|
    ensures Tokens(es[..i + 1]) == Tokens(es[..i]) + [es[i].lem, Join(es[i].tags, '|')]
  {
    assert (2 * i) / 2 == i && (2 * i + 1) / 2 == i;
  }

  lemma TextOneMore(es: seq<Entry>, i: nat)
    requires i < |es|
    ensures Compact(es[..i + 1]) ==
            Compact(es[..i]) + (if i == 0 then "" else " ") + es[i].lem + " " + Join(es[i].tags, '|')
  {
    var last := [es[i].lem, Join(es[i].tags, '|')];
    TokensOneMore(es, i);
    assert Join(last, ' ') == es[i].lem + " " + Join(es[i].tags, '|');
    if i > 0 {
      JoinOfTwo(Tokens(es[..i]), last, ' ');
      ConcatAll(Compact(es[..i]), " ", es[i].lem, " ", Join(es[i].tags, '|'));
    } else {
      assert Tokens(es[..0]) + last == last;
      ConcatAll("", "", es[i].lem, " ", Join(es[i].tags, '|'));
    }
  }

  lemma ConcatAll(a: string, b: string, c: string, d: string, e: string)
    ensures a + b + (c + d + e) == a + b + c + d + e
  {
  }

  /** Writes entries as text. */
  method CompactData(es: seq<Entry>) returns (data: string)
    ensures data == Compact(es)
  {
    data := "";
    for i := 0 to |es|
      invariant data == Compact(es[..i])
    {
      TextOneMore(es, i);
      data := data + (if i == 0 then "" else " ") + es[i].lem + " " + Join(es[i].tags, '|');
    }
    assert es[..|es|] == es;
  }

  /** The place of the next space, or -1. */
  function NextSpace(s: string, p: nat): (q: int)
    requires p <= |s|
    ensures q == -1 || p <= q < |s|
    ensures q >= 0 ==> s[q] == ' ' && Free(s[p..q], ' ')
    ensures q < 0 ==> Free(s[p..], ' ')
    decreases |s| - p
  {
    if p == |s| then -1 else if s[p] == ' ' then p else
    var q := NextSpace(s, p + 1);
    assert s[p..] == [s[p]] + s[p + 1..];
    assert q >= 0 ==> s[p..q] == [s[p]] + s[p + 1..q];
    q
  }

  /** The pairs of some words that alternate. */
  function ReadTokens(d: seq<string>): seq<Pair>
    requires |d| % 2 == 0
  {
    Flat(EntriesOf(Pairs(d)))
  }

  lemma ReadTwo(d: seq<string>, l: string, t: string, more: seq<string>)
    requires |d| % 2 == 0 && d == [l] + ([t] + more)
    ensures |more| % 2 == 0 && ReadTokens(d) == PairsOf(Entry(l, Cut(t, '|'))) + ReadTokens(more)
  {
    var e := Entry(l, Cut(t, '|'));
    assert EntriesOf(Pairs(d)) == [e] + EntriesOf(Pairs(more));
    FlatConcat([e], EntriesOf(Pairs(more)));
    FlatOne(e);
  }

  /** A text cut at its first space. */
  lemma FirstPiece(s: string, p: nat)
    requires p <= |s|
    ensures var q := NextSpace(s, p);
            Pieces(s[p..], ' ') == if q < 0 then [s[p..]] else [s[p..q]] + Pieces(s[q + 1..], ' ')
  {
    var q := NextSpace(s, p);
    if q < 0 {
      PiecesOfFree(s[p..], ' ');
    } else {
      assert s[p..] == s[p..q] + [' '] + s[q + 1..];
      PiecesOfTwo(s[p..q], s[q + 1..], ' ');
      PiecesOfFree(s[p..q], ' ');
    }
  }

  /** The words of a text after a place, which may be none. */
  function TokensFrom(s: string, p: int): seq<string>
    requires -1 <= p <= |s|
  {
    if p < 0 then [] else Pieces(s[p..], ' ')
  }

  function After(q: int): int {
    if q < 0 then -1 else q + 1
  }

  /** The text between two places, or up to the end. */
  function Between(s: string, p: nat, q: int): string
    requires p <= |s| && (q < 0 || p <= q <= |s|)
  {
    if q < 0 then s[p..] else s[p..q]
  }

  lemma FirstToken(s: string, p: nat)
    requires p <= |s|
    ensures var q := NextSpace(s, p);
            TokensFrom(s, p) == [Between(s, p, q)] + TokensFrom(s, After(q))
  {
    FirstPiece(s, p);
  }

  /** A lemma and the text of its tags, and the words after them. */
  lemma FirstTwoTokens(s: string, p: nat)
    requires p <= |s| && |TokensFrom(s, p)| % 2 == 0
    ensures var q := NextSpace(s, p);
            q >= 0 &&
            var r := NextSpace(s, q + 1);
            TokensFrom(s, p) == [s[p..q]] + ([Between(s, q + 1, r)] + TokensFrom(s, After(r)))
  {
    FirstToken(s, p);
    FirstToken(s, NextSpace(s, p) + 1);
  }

  /** Adds an analysis for each tag of a lemma. */
  method AddTags(la: seq<Pair>, lem: string, tags: seq<string>) returns (more: seq<Pair>)
    ensures more == la + PairsOf(Entry(lem, tags))
  {
    more := la;
    ghost var ps := PairsOf(Entry(lem, tags));
    for t := 0 to |tags|
      invariant more == la + ps[..t]
    {
      assert ps[..t + 1] == ps[..t] + [(lem, tags[t])];
      more := more + [(lem, tags[t])];
    }
    assert ps[..|tags|] == ps;
  }

  /** What is read so far, and what is left to read, are all the pairs. */
  ghost predicate ReadSoFar(all: seq<Pair>, la: seq<Pair>, left: seq<string>) {
    |left| % 2 == 0 && la + ReadTokens(left) == all
  }

  lemma ReadOneMore(all: seq<Pair>, la: seq<Pair>, left: seq<string>, l: string, t: string, more: seq<string>)
    requires ReadSoFar(all, la, left) && left == [l] + ([t] + more)
    ensures ReadSoFar(all, la + PairsOf(Entry(l, Cut(t, '|'))), more)
  {
    ReadTwo(left, l, t, more);
    Regroup(la, PairsOf(Entry(l, Cut(t, '|'))), ReadTokens(more));
  }

  lemma Regroup(a: seq<Pair>, b: seq<Pair>, c: seq<Pair>)
    ensures a + (b + c) == a + b + c
  {
  }

  lemma NothingLeft(all: seq<Pair>, la: seq<Pair>)
    requires ReadSoFar(all, la, [])
    ensures la == all
  {
    assert la + [] == la;
  }

  lemma NothingRead(data: string)
    requires data != "" && IsPaired(data)
    ensures ReadSoFar(Read(data), [], TokensFrom(data, 0))
  {
    assert data[0..] == data;
    assert [] + Read(data) == Read(data);
  }

  /** Reads a lemma and its tags from some place, and gives the place after them. */
  method ReadLemma(data: string, p: nat, la: seq<Pair>, ghost all: seq<Pair>) returns (next: int, more: seq<Pair>)
    requires p <= |data| && ReadSoFar(all, la, TokensFrom(data, p))
    ensures -1 <= next <= |data| && (next >= 0 ==> p < next) && ReadSoFar(all, more, TokensFrom(data, next))
  {
    FirstTwoTokens(data, p);
    var q := NextSpace(data, p);
    var lem := data[p..q];
    var r := NextSpace(data, q + 1);
    var text := Between(data, q + 1, r);
    ReadOneMore(all, la, TokensFrom(data, p), lem, text, TokensFrom(data, After(r)));
    more := AddTags(la, lem, Cut(text, '|'));
    next := After(r);
  }

  /** Reads the analyses of a text. */
  method ReadText(data: string) returns (la: seq<Pair>)
    requires data != "" && IsPaired(data)
    ensures la == Read(data)
  {
    la := [];
    var p: int := 0;
    NothingRead(data);
    while p != -1
      invariant -1 <= p <= |data| && ReadSoFar(Read(data), la, TokensFrom(data, p))
      decreases if p < 0 then 0 else |data| + 1 - p
    {
      p, la := ReadLemma(data, p, la, Read(data));
    }
    NothingLeft(Read(data), la);
  }
}
