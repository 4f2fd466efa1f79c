/** Dictionary entries: pairs of lemma and tag, grouped by lemma, and their text. */
module DictEntries {
  import opened Strings

  /** A lemma and its tags. */
  datatype Entry = Entry(lem: string, tags: seq<string>)

  type Pair = (string, string)

  /** The pairs of lemma and tag that some words alternate. */
  function Pairs(d: seq<string>): (ps: seq<Pair>)
    requires |d| % 2 == 0
    ensures |ps| == |d| / 2
  {
    seq(|d| / 2, i requires 0 <= i < |d| / 2 => (d[2 * i], d[2 * i + 1]))
  }

  /** The tags of a lemma. */
  function TagsOf(ps: seq<Pair>, l: string): seq<string> {
    if ps == [] then [] else
    var p := ps[|ps| - 1];
    TagsOf(ps[..|ps| - 1], l) + if p.0 == l then [p.1] else []
  }

  /** The lemmas of some pairs, each once, by first occurrence. */
  function Lemmas(ps: seq<Pair>): seq<string> {
    if ps == [] then [] else
    var before := Lemmas(ps[..|ps| - 1]);
    if ps[|ps| - 1].0 in before then before else before + [ps[|ps| - 1].0]
  }

  function LemmasOf(es: seq<Entry>): (ls: seq<string>)
    ensures |ls| == |es|
  {
    seq(|es|, i requires 0 <= i < |es| => es[i].lem)
  }

  function PairsOf(e: Entry): (ps: seq<Pair>)
    ensures |ps| == |e.tags|
  {
    seq(|e.tags|, i requires 0 <= i < |e.tags| => (e.lem, e.tags[i]))
  }

  /** The pairs that entries stand for. */
  function Flat(es: seq<Entry>): seq<Pair> {
    if es == [] then [] else Flat(es[..|es| - 1]) + PairsOf(es[|es| - 1])
  }

  /** Entries that group pairs: each lemma once, with all its tags, in any order. */
  ghost predicate Groups(ps: seq<Pair>, es: seq<Entry>) {
    && multiset(LemmasOf(es)) == multiset(Lemmas(ps))
    && forall i :: 0 <= i < |es| ==> multiset(es[i].tags) == multiset(TagsOf(ps, es[i].lem))
  }

  ghost predicate Distinct(ls: seq<string>) {
    forall i, j :: 0 <= i < j < |ls| ==> ls[i] != ls[j]
  }

  lemma {:induction false} LemmasAreDistinct(ps: seq<Pair>)
    ensures Distinct(Lemmas(ps))
    ensures forall l :: l in Lemmas(ps) <==> TagsOf(ps, l) != []
  {
    if ps != [] {
      LemmasAreDistinct(ps[..|ps| - 1]);
    }
  }

  lemma {:induction false} TagsOfCount(ps: seq<Pair>, l: string, t: string)
    ensures multiset(TagsOf(ps, l))[t] == multiset(ps)[(l, t)]
  {
    if ps != [] {
      var front, p := ps[..|ps| - 1], ps[|ps| - 1];
      TagsOfCount(front, l, t);
      assert ps == front + [p];
      assert TagsOf(front, l) + [] == TagsOf(front, l);
    }
  }

  lemma PairsOfTags(e: Entry, l: string)
    ensures TagsOf(PairsOf(e), l) == if l == e.lem then e.tags else []
  {
    TagsOfOne(e, l, |e.tags|);
    assert PairsOf(e)[..|e.tags|] == PairsOf(e) && e.tags[..|e.tags|] == e.tags;
  }

  lemma {:induction false} TagsOfOne(e: Entry, l: string, n: nat)
    requires n <= |e.tags|
    ensures TagsOf(PairsOf(e)[..n], l) == if l == e.lem then e.tags[..n] else []
  {
    if n > 0 {
      TagsOfOne(e, l, n - 1);
      assert PairsOf(e)[..n][..n - 1] == PairsOf(e)[..n - 1];
      assert e.tags[..n] == e.tags[..n - 1] + [e.tags[n - 1]];
    }
  }

  lemma {:induction false} TagsOfConcat(a: seq<Pair>, b: seq<Pair>, l: string)
    ensures TagsOf(a + b, l) == TagsOf(a, l) + TagsOf(b, l)
  {
    if b == [] {
      assert a + b == a;
    } else {
      assert (a + b)[..|a + b| - 1] == a + b[..|b| - 1];
      TagsOfConcat(a, b[..|b| - 1], l);
    }
  }

  lemma TagsOfFlatOneMore(es: seq<Entry>, l: string)
    requires es != []
    ensures var n := |es| - 1;
            TagsOf(Flat(es), l) == TagsOf(Flat(es[..n]), l) + if l == es[n].lem then es[n].tags else []
  {
    var n := |es| - 1;
    TagsOfConcat(Flat(es[..n]), PairsOf(es[n]), l);
    PairsOfTags(es[n], l);
  }

  lemma {:induction false} TagsOfOthers(es: seq<Entry>, l: string)
    requires forall i :: 0 <= i < |es| ==> es[i].lem != l
    ensures TagsOf(Flat(es), l) == []
  {
    if es != [] {
      TagsOfOthers(es[..|es| - 1], l);
      TagsOfFlatOneMore(es, l);
    }
  }

  /** The tags of a lemma in entries that have each lemma once. */
  lemma {:induction false} TagsOfFlat(es: seq<Entry>, i: nat)
    requires i < |es| && Distinct(LemmasOf(es))
    ensures TagsOf(Flat(es), es[i].lem) == es[i].tags
  {
    var n, l := |es| - 1, es[i].lem;
    assert LemmasOf(es)[i] == l;
    TagsOfFlatOneMore(es, l);
    if i == n {
      forall j | 0 <= j < n
        ensures es[..n][j].lem != l
      {
        assert LemmasOf(es)[j] != LemmasOf(es)[n];
      }
      TagsOfOthers(es[..n], l);
    } else {
      assert LemmasOf(es)[i] != LemmasOf(es)[n];
      assert LemmasOf(es)[..n] == LemmasOf(es[..n]);
      TagsOfFlat(es[..n], i);
    }
  }

  lemma SameItemsDistinct(a: seq<string>, b: seq<string>)
    requires multiset(a) == multiset(b) && Distinct(a)
    ensures Distinct(b) && forall x :: x in a <==> x in b
  {
    forall x
      ensures x in a <==> x in b
    {
      assert x in a <==> x in multiset(a);
      assert x in b <==> x in multiset(b);
    }
    forall i, j | 0 <= i < j < |b|
      ensures b[i] != b[j]
    {
      if b[i] == b[j] {
        TwiceIn(b, i, j);
        OnceIn(a, b[i]);
      }
    }
  }

  lemma TwiceIn(b: seq<string>, i: nat, j: nat)
    requires i < j < |b| && b[i] == b[j]
    ensures multiset(b)[b[i]] >= 2
  {
    assert b == b[..j] + b[j..];
    assert b[..j][i] in multiset(b[..j]);
    assert b[j..][0] in multiset(b[j..]);
  }

  lemma {:induction false} OnceIn(a: seq<string>, x: string)
    requires Distinct(a)
    ensures multiset(a)[x] <= 1
  {
    if a != [] {
      var front := a[..|a| - 1];
      assert a == front + [a[|a| - 1]];
      OnceIn(front, x);
      if x == a[|a| - 1] {
        assert x !in front;
      }
    }
  }

  lemma SameTags(ps: seq<Pair>, es: seq<Entry>, l: string)
    requires Groups(ps, es) && Distinct(LemmasOf(es)) && (l in LemmasOf(es) <==> TagsOf(ps, l) != [])
    ensures multiset(TagsOf(Flat(es), l)) == multiset(TagsOf(ps, l))
  {
    if l in LemmasOf(es) {
      var i :| 0 <= i < |es| && LemmasOf(es)[i] == l;
      TagsOfFlat(es, i);
    } else {
      forall i | 0 <= i < |es|
        ensures es[i].lem != l
      {
        assert LemmasOf(es)[i] in LemmasOf(es);
      }
      TagsOfOthers(es, l);
    }
  }

  /** Grouping loses no pair and makes none. */
  lemma GroupingKeepsPairs(ps: seq<Pair>, es: seq<Entry>)
    requires Groups(ps, es)
    ensures multiset(Flat(es)) == multiset(ps)
  {
    LemmasAreDistinct(ps);
    SameItemsDistinct(Lemmas(ps), LemmasOf(es));
    forall p: Pair
      ensures multiset(Flat(es))[p] == multiset(ps)[p]
    {
      TagsOfCount(Flat(es), p.0, p.1);
      TagsOfCount(ps, p.0, p.1);
      SameTags(ps, es, p.0);
    }
  }

  /** The words of the text of entries: each lemma, and its tags with bars between them. */
  function Tokens(es: seq<Entry>): (d: seq<string>)
    ensures |d| == 2 * |es|
  {
    seq(2 * |es|, i requires 0 <= i < 2 * |es| => if i % 2 == 0 then es[i / 2].lem else Join(es[i / 2].tags, '|'))
  }

  /** The text of entries. */
  function Compact(es: seq<Entry>): string {
    Join(Tokens(es), ' ')
  }

  /** Pairs of a lemma and the text of its tags, as entries. */
  function EntriesOf(ps: seq<Pair>): (es: seq<Entry>)
    ensures |es| == |ps|
  {
    seq(|ps|, i requires 0 <= i < |ps| => Entry(ps[i].0, Cut(ps[i].1, '|')))
  }

  /** A text has a tag for each lemma. */
  predicate IsPaired(data: string) {
    |Cut(data, ' ')| % 2 == 0
  }

  /** The pairs that a text stands for. */
  function Read(data: string): seq<Pair>
    requires IsPaired(data)
  {
    Flat(EntriesOf(Pairs(Cut(data, ' '))))
  }

  /** No lemma or tag has a space, and every lemma has a tag. */
  ghost predicate AreEntries(es: seq<Entry>) {
    forall i :: 0 <= i < |es| ==> Free(es[i].lem, ' ') && AllFree(es[i].tags, ' ') && es[i].tags != []
  }

  /** The tags of a lemma can be read again: none has a bar, and they are not one empty tag. */
  predicate CanBeRead(tags: seq<string>) {
    AllFree(tags, '|') && tags != [""]
  }

  lemma CompactTokens(es: seq<Entry>)
    requires AreEntries(es)
    ensures Cut(Compact(es), ' ') == Tokens(es)
  {
    if es != [] {
      forall i | 0 <= i < 2 * |es|
        ensures Free(Tokens(es)[i], ' ')
      {
        JoinIsFree(es[i / 2].tags, '|', ' ');
      }
      CutOfJoin(Tokens(es), ' ');
    }
  }

  /** Reading the text of entries gives their lemmas, with the tags cut again at the bars. */
  lemma ReadOfCompact(es: seq<Entry>)
    requires AreEntries(es)
    ensures IsPaired(Compact(es)) && |EntriesOf(Pairs(Cut(Compact(es), ' ')))| == |es|
    ensures forall i :: 0 <= i < |es| ==>
      EntriesOf(Pairs(Cut(Compact(es), ' ')))[i] == Entry(es[i].lem, Cut(Join(es[i].tags, '|'), '|'))
  {
    CompactTokens(es);
    forall i | 0 <= i < |es|
      ensures Pairs(Tokens(es))[i] == (es[i].lem, Join(es[i].tags, '|'))
    {
      PairOfTokens(es, i);
    }
  }

  lemma PairOfTokens(es: seq<Entry>, i: nat)
    requires i < |es|
    ensures Tokens(es)[2 * i] == es[i].lem && Tokens(es)[2 * i + 1] == Join(es[i].tags, '|')
  {
    assert (2 * i) / 2 == i && (2 * i + 1) / 2 == i;
  }

  /** Tags are the same when they are joined and cut, in any order, only if they can be read. */
  lemma CutKeepsTags(ts: seq<string>)
    requires ts != [] && multiset(Cut(Join(ts, '|'), '|')) == multiset(ts)
    ensures CanBeRead(ts)
  {
    var again := Cut(Join(ts, '|'), '|');
    CutOfJoin(ts, '|');
    PiecesAreFree(Join(ts, '|'), '|');
    forall i | 0 <= i < |ts|
      ensures Free(ts[i], '|')
    {
      assert ts[i] in multiset(again);
    }
    assert ts[0] in multiset(again);
  }

  lemma TagsInSameItems(a: seq<Entry>, b: seq<Entry>, i: nat)
    requires i < |a| == |b| && a[i].lem == b[i].lem && multiset(Flat(a)) == multiset(Flat(b))
    requires Distinct(LemmasOf(a)) && Distinct(LemmasOf(b))
    ensures multiset(a[i].tags) == multiset(b[i].tags)
  {
    TagsOfFlat(a, i);
    TagsOfFlat(b, i);
    forall t
      ensures multiset(a[i].tags)[t] == multiset(b[i].tags)[t]
    {
      TagsOfCount(Flat(a), a[i].lem, t);
      TagsOfCount(Flat(b), b[i].lem, t);
    }
  }

  ghost predicate AllReadable(es: seq<Entry>) {
    forall i :: 0 <= i < |es| ==> CanBeRead(es[i].tags)
  }

  /** Entries whose tags can be read are read as they were written. */
  lemma {:induction false} ReadableText(es: seq<Entry>)
    requires AreEntries(es) && AllReadable(es)
    ensures IsPaired(Compact(es)) && Read(Compact(es)) == Flat(es)
  {
    ReadOfCompact(es);
    forall i | 0 <= i < |es|
      ensures EntriesOf(Pairs(Cut(Compact(es), ' ')))[i] == es[i]
    {
      CutOfJoin(es[i].tags, '|');
    }
    assert EntriesOf(Pairs(Cut(Compact(es), ' '))) == es;
  }

  /** Exactly the entries whose tags can be read are read as they were written, be it in any order. */
  lemma {:induction false} RoundTrip(es: seq<Entry>)
    requires AreEntries(es) && Distinct(LemmasOf(es))
    ensures IsPaired(Compact(es))
    ensures AllReadable(es) ==> Read(Compact(es)) == Flat(es)
    ensures multiset(Read(Compact(es))) == multiset(Flat(es)) ==> AllReadable(es)
  {
    ReadOfCompact(es);
    var again := EntriesOf(Pairs(Cut(Compact(es), ' ')));
    assert LemmasOf(again) == LemmasOf(es);
    if multiset(Flat(again)) == multiset(Flat(es)) {
      forall i | 0 <= i < |es|
        ensures CanBeRead(es[i].tags)
      {
        TagsInSameItems(again, es, i);
        CutKeepsTags(es[i].tags);
      }
    }
    if AllReadable(es) {
      ReadableText(es);
    }
  }

  /** The pairs of a text are the same after grouping, writing and reading them exactly when no tag
      has a bar, or is empty and the only one of its lemma. */
  lemma {:induction false} GroupedRoundTrip(data: string, es: seq<Entry>)
    requires IsPaired(data) && Groups(Pairs(Cut(data, ' ')), es)
    ensures AreEntries(es) && IsPaired(Compact(es))
    ensures multiset(Read(Compact(es))) == multiset(Pairs(Cut(data, ' '))) <==> AllReadable(es)
  {
    var ps := Pairs(Cut(data, ' '));
    GroupedAreEntries(data, es);
    LemmasAreDistinct(ps);
    SameItemsDistinct(Lemmas(ps), LemmasOf(es));
    RoundTrip(es);
    GroupingKeepsPairs(ps, es);
  }

  /** A lemma with one tag, which has a bar, comes back with two tags. */
  lemma BarredTagIsLost(es: seq<Entry>)
    requires IsPaired("be V|S") && Groups(Pairs(Cut("be V|S", ' ')), es)
    ensures Pairs(Cut("be V|S", ' ')) == [("be", "V|S")]
    ensures IsPaired(Compact(es)) && Read(Compact(es)) == [("be", "V"), ("be", "S")]
  {
    BarredLine();
    GroupedAreEntries("be V|S", es);
    GroupsOfOne("be", "V|S", es);
    ReadOfCompact(es);
    BarredTags();
    ReadOfOne(es, ["V", "S"]);
    assert PairsOf(Entry("be", ["V", "S"])) == [("be", "V"), ("be", "S")];
  }

  lemma GroupsOfOne(lem: string, tag: string, es: seq<Entry>)
    requires Groups([(lem, tag)], es)
    ensures es == [Entry(lem, [tag])]
  {
    var ps := [(lem, tag)];
    assert ps[..0] == [];
    assert Lemmas(ps) == [lem];
    OneItem(LemmasOf(es), lem);
    assert es[0].lem == LemmasOf(es)[0] == lem;
    assert TagsOf(ps, lem) == [tag];
    OneItem(es[0].tags, tag);
  }

  lemma ReadOfOne(es: seq<Entry>, tags: seq<string>)
    requires |es| == 1 && IsPaired(Compact(es)) && |EntriesOf(Pairs(Cut(Compact(es), ' ')))| == 1
    requires EntriesOf(Pairs(Cut(Compact(es), ' ')))[0] == Entry(es[0].lem, tags)
    ensures Read(Compact(es)) == PairsOf(Entry(es[0].lem, tags))
  {
    assert EntriesOf(Pairs(Cut(Compact(es), ' '))) == [Entry(es[0].lem, tags)];
    FlatOfOne(Entry(es[0].lem, tags));
  }

  lemma BarredLine()
    ensures Cut("be V|S", ' ') == ["be", "V|S"] && Pairs(Cut("be V|S", ' ')) == [("be", "V|S")]
  {
    assert "be V|S" == "be" + [' '] + "V|S";
    PiecesOfTwo("be", "V|S", ' ');
    PiecesOfFree("be", ' ');
    PiecesOfFree("V|S", ' ');
  }

  lemma BarredTags()
    ensures Cut(Join(["V|S"], '|'), '|') == ["V", "S"]
  {
    assert "V|S" == "V" + ['|'] + "S";
    PiecesOfTwo("V", "S", '|');
    PiecesOfFree("V", '|');
    PiecesOfFree("S", '|');
  }

  lemma OneItem(s: seq<string>, x: string)
    requires multiset(s) == multiset([x])
    ensures s == [x]
  {
    assert |multiset(s)| == |s| == 1;
    assert s[0] in multiset(s);
  }

  lemma FlatOfOne(e: Entry)
    ensures Flat([e]) == PairsOf(e)
  {
    assert [e][..0] == [];
  }

  lemma {:induction false} TagsAreSeconds(ps: seq<Pair>, l: string, t: string)
    requires t in TagsOf(ps, l)
    ensures exists i :: 0 <= i < |ps| && ps[i] == (l, t)
  {
    TagsOfCount(ps, l, t);
    assert t in multiset(TagsOf(ps, l));
    assert (l, t) in multiset(ps);
  }

  lemma GroupedAreEntries(data: string, es: seq<Entry>)
    requires IsPaired(data) && Groups(Pairs(Cut(data, ' ')), es)
    ensures AreEntries(es)
  {
    var d := Cut(data, ' ');
    var ps := Pairs(d);
    PiecesAreFree(data, ' ');
    LemmasAreDistinct(ps);
    SameItemsDistinct(Lemmas(ps), LemmasOf(es));
    forall i | 0 <= i < |es|
      ensures Free(es[i].lem, ' ') && AllFree(es[i].tags, ' ') && es[i].tags != []
    {
      assert LemmasOf(es)[i] in Lemmas(ps);
      TagsOfFree(d, es[i]);
    }
  }

  lemma TagsOfFree(d: seq<string>, e: Entry)
    requires |d| % 2 == 0 && AllFree(d, ' ')
    requires multiset(e.tags) == multiset(TagsOf(Pairs(d), e.lem)) && TagsOf(Pairs(d), e.lem) != []
    ensures Free(e.lem, ' ') && AllFree(e.tags, ' ') && e.tags != []
  {
    var ts := TagsOf(Pairs(d), e.lem);
    TagsAreSeconds(Pairs(d), e.lem, ts[0]);
    assert |e.tags| == |multiset(e.tags)| == |multiset(ts)| == |ts|;
    forall j | 0 <= j < |e.tags|
      ensures Free(e.tags[j], ' ')
    {
      assert e.tags[j] in multiset(ts);
      TagsAreSeconds(Pairs(d), e.lem, e.tags[j]);
    }
  }
}
