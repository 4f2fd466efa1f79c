/** Entries that a dictionary stores, and their text. */
module StoredEntries {
  import opened DictEntries
  import opened Strings

  /** A tag that can be stored: not empty, and without spaces, bars and number signs. */
  predicate IsTag(t: string) {
    t != "" && Free(t, ' ') && Free(t, '|') && Free(t, '#')
  }

  ghost predicate AreStorable(es: seq<Entry>) {
    forall i :: 0 <= i < |es| ==>
      Free(es[i].lem, ' ') && es[i].tags != [] && forall j :: 0 <= j < |es[i].tags| ==> IsTag(es[i].tags[j])
  }

  lemma StorableIsReadable(es: seq<Entry>)
    requires AreStorable(es)
    ensures AreEntries(es) && AllReadable(es)
    ensures IsPaired(Compact(es)) && Read(Compact(es)) == Flat(es)
    ensures Cut(Compact(es), ' ') == Tokens(es) && (es != [] ==> Compact(es) != "")
  {
    forall i | 0 <= i < |es|
      ensures CanBeRead(es[i].tags)
    {
      assert IsTag(es[i].tags[0]);
    }
    ReadableText(es);
    CompactTokens(es);
  }

  lemma {:induction false} FlatTags(es: seq<Entry>)
    requires AreStorable(es)
    ensures forall p :: p in Flat(es) ==> IsTag(p.1)
  {
    if es != [] {
      FlatTags(es[..|es| - 1]);
    }
  }

  /** The place of the first entry for a lemma, or the number of entries. */
  function PlaceOf(es: seq<Entry>, lem: string): (n: nat)
    ensures n <= |es| && (n < |es| ==> es[n].lem == lem) && forall i :: 0 <= i < n ==> es[i].lem != lem
  {
    if es == [] || es[0].lem == lem then 0 else
    var n := PlaceOf(es[1..], lem);
    assert forall i :: 0 < i <= n ==> es[i] == es[1..][i - 1];
    n + 1
  }

  /** Entries with an analysis more. */
  function WithAnalysis(es: seq<Entry>, lem: string, tag: string): seq<Entry> {
    var n := PlaceOf(es, lem);
    if n == |es| then es + [Entry(lem, [tag])]
    else if tag in es[n].tags then es
    else es[n := Entry(lem, es[n].tags + [tag])]
  }

  lemma {:induction false} FlatConcat(a: seq<Entry>, b: seq<Entry>)
    ensures Flat(a + b) == Flat(a) + Flat(b)
  {
    if b == [] {
      assert a + b == a;
    } else {
      assert (a + b)[..|a + b| - 1] == a + b[..|b| - 1];
      FlatConcat(a, b[..|b| - 1]);
    }
  }

  lemma FlatOne(e: Entry)
    ensures Flat([e]) == PairsOf(e)
  {
    assert [e][..0] == [];
  }

  lemma SplitAt(es: seq<Entry>, n: nat)
    requires n < |es|
    ensures es == es[..n] + [es[n]] + es[n + 1..]
  {
  }

  lemma FlatSplit(es: seq<Entry>, n: nat)
    requires n < |es|
    ensures Flat(es) == Flat(es[..n]) + PairsOf(es[n]) + Flat(es[n + 1..])
  {
    SplitAt(es, n);
    FlatConcat(es[..n] + [es[n]], es[n + 1..]);
    FlatConcat(es[..n], [es[n]]);
    FlatOne(es[n]);
  }

  /** An analysis is added unless the first entry for its lemma has its tag. */
  lemma WithAnalysisAdds(es: seq<Entry>, lem: string, tag: string)
    ensures var now := WithAnalysis(es, lem, tag);
            && (lem, tag) in Flat(now)
            && multiset(Flat(now)) == multiset(Flat(es)) + if now == es then multiset{} else multiset{(lem, tag)}
  {
    var n := PlaceOf(es, lem);
    if n == |es| {
      FlatConcat(es, [Entry(lem, [tag])]);
      FlatOne(Entry(lem, [tag]));
      assert PairsOf(Entry(lem, [tag])) == [(lem, tag)];
    } else if tag in es[n].tags {
      FlatSplit(es, n);
      var j :| 0 <= j < |es[n].tags| && es[n].tags[j] == tag;
      assert PairsOf(es[n])[j] == (lem, tag);
    } else {
      TagAdded(es, n, tag);
    }
  }

  lemma TagAdded(es: seq<Entry>, n: nat, tag: string)
    requires n < |es|
    ensures var now := es[n := Entry(es[n].lem, es[n].tags + [tag])];
            multiset(Flat(now)) == multiset(Flat(es)) + multiset{(es[n].lem, tag)} && (es[n].lem, tag) in Flat(now)
  {
    var e := Entry(es[n].lem, es[n].tags + [tag]);
    var now := es[n := e];
    assert now[..n] == es[..n] && now[n + 1..] == es[n + 1..];
    FlatSplit(es, n);
    FlatSplit(now, n);
    assert PairsOf(e) == PairsOf(es[n]) + [(es[n].lem, tag)];
    Middle(Flat(es[..n]), PairsOf(es[n]), Flat(es[n + 1..]), (es[n].lem, tag));
  }

  lemma Middle(a: seq<Pair>, b: seq<Pair>, c: seq<Pair>, p: Pair)
    ensures multiset(a + (b + [p]) + c) == multiset(a + b + c) + multiset{p} && p in a + (b + [p]) + c
  {
    assert (b + [p])[|b|] == p;
    assert (a + (b + [p]) + c)[|a| + |b|] == p;
  }

  lemma WithAnalysisStorable(es: seq<Entry>, lem: string, tag: string)
    requires AreStorable(es) && Free(lem, ' ') && IsTag(tag)
    ensures AreStorable(WithAnalysis(es, lem, tag))
  {
  }

  lemma ConcatStorable(a: seq<Entry>, b: seq<Entry>)
    requires AreStorable(a) && AreStorable(b)
    ensures AreStorable(a + b)
  {
  }

  /** The text of entries that are added to others. */
  lemma CompactOfTwo(a: seq<Entry>, b: seq<Entry>)
    requires a != [] && b != []
    ensures Compact(a + b) == Compact(a) + " " + Compact(b)
  {
    assert Tokens(a + b) == Tokens(a) + Tokens(b);
    JoinOfTwo(Tokens(a), Tokens(b), ' ');
  }

  lemma TokensWithTag(es: seq<Entry>, n: nat, tag: string)
    requires n < |es| && es[n].tags != []
    ensures Tokens(es)[2 * n + 1 := Join(es[n].tags, '|') + "|" + tag]
         == Tokens(es[n := Entry(es[n].lem, es[n].tags + [tag])])
  {
    JoinOfTwo(es[n].tags, [tag], '|');
    assert (2 * n) / 2 == n && (2 * n + 1) / 2 == n;
  }

  lemma TokensWithEntry(es: seq<Entry>, lem: string, tag: string)
    ensures Tokens(es) + [lem, tag] == Tokens(es + [Entry(lem, [tag])])
  {
    var n := |es|;
    assert (2 * n) / 2 == n && (2 * n + 1) / 2 == n;
  }
}
