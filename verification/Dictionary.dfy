/** A dictionary of forms, kept as text, with an index from lemmas and tags to forms. */
module Dictionaries {
  import opened Databases
  import opened DictEntries
  import opened EntryText
  import opened InverseIndex
  import opened Preferences
  import opened StoredEntries
  import opened Strings

  /** A line of the dictionary can be loaded: its tags can be stored. */
  ghost predicate IsData(data: string) {
    data != "" && (IsPaired(data) ==> forall i :: 0 <= i < |Pairs(Cut(data, ' '))| ==> IsTag(Pairs(Cut(data, ' '))[i].1))
  }

  lemma LoadedIsStorable(data: string, es: seq<Entry>)
    requires IsData(data) && IsPaired(data) && Groups(Pairs(Cut(data, ' ')), es)
    ensures es != [] && AreStorable(es)
  {
    var ps := Pairs(Cut(data, ' '));
    GroupedAreEntries(data, es);
    forall i, j | 0 <= i < |es| && 0 <= j < |es[i].tags|
      ensures IsTag(es[i].tags[j])
    {
      assert es[i].tags[j] in multiset(TagsOf(ps, es[i].lem));
      TagsAreSeconds(ps, es[i].lem, es[i].tags[j]);
    }
    LemmasAreDistinct(ps);
    assert |ps| >= 1;
    GroupingKeepsPairs(ps, es);
    assert ps[0] in multiset(Flat(es));
  }

  /** What is listed after a form is added for some lemmas and tags. */
  ghost predicate ListedMore(was: Store, now: Store, form: string, ps: seq<Pair>) {
    forall l, t, f {:trigger Listed(now, l, t, f)} :: Free(t, '#') ==>
      (Listed(now, l, t, f) <==> Listed(was, l, t, f) || (f == form && (l, t) in ps))
  }

  lemma ListOneMore(was: Store, now: Store, lex: Lexicon, form: string, ps: seq<Pair>, p: Pair)
    requires Sound(now, lex) && ListedMore(was, now, form, ps)
    requires IsForm(form) && Free(p.1, '#') && HasAnalysis(lex, form, p.0, p.1)
    ensures Sound(Added(now, Key(p.0, p.1), form), lex)
    ensures ListedMore(was, Added(now, Key(p.0, p.1), form), form, ps + [p])
  {
    AddKeepsSound(now, lex, p.0, p.1, form);
    var next := Added(now, Key(p.0, p.1), form);
    forall l, t, f | Free(t, '#')
      ensures Listed(next, l, t, f) <==> Listed(was, l, t, f) || (f == form && (l, t) in ps + [p])
    {
      assert Listed(next, l, t, f) <==> Listed(now, l, t, f) || (l, t, f) == (p.0, p.1, form);
      assert Listed(now, l, t, f) <==> Listed(was, l, t, f) || (f == form && (l, t) in ps);
    }
  }

  lemma FirstPairs(es: seq<Entry>, i: nat, j: nat)
    requires i < |es| && j < |es[i].tags|
    ensures Flat(es[..i]) + PairsOf(es[i])[..j + 1] == Flat(es[..i]) + PairsOf(es[i])[..j] + [(es[i].lem, es[i].tags[j])]
    ensures (es[i].lem, es[i].tags[j]) in Flat(es)
  {
    var p := (es[i].lem, es[i].tags[j]);
    assert PairsOf(es[i])[..j + 1] == PairsOf(es[i])[..j] + [p];
    FlatSplit(es, i);
    assert PairsOf(es[i])[j] == p;
  }

  lemma FlatFirst(es: seq<Entry>, i: nat)
    requires i < |es|
    ensures Flat(es[..i]) + PairsOf(es[i])[..|es[i].tags|] == Flat(es[..i + 1])
  {
    assert es[..i + 1][..i] == es[..i] && PairsOf(es[i])[..|es[i].tags|] == PairsOf(es[i]);
  }

  /** Lists a form for the lemmas and tags of its entries. */
  method ListEntries(inv: Store, form: string, es: seq<Entry>, ghost lex: Lexicon) returns (now: Store)
    requires Sound(inv, lex) && IsForm(form) && AreStorable(es)
    requires form in lex && forall p :: p in Flat(es) ==> p in Flat(lex[form])
    ensures Sound(now, lex) && ListedMore(inv, now, form, Flat(es))
  {
    now := inv;
    for i := 0 to |es|
      invariant Sound(now, lex) && ListedMore(inv, now, form, Flat(es[..i]))
    {
      assert Flat(es[..i]) + PairsOf(es[i])[..0] == Flat(es[..i]);
      for j := 0 to |es[i].tags|
        invariant Sound(now, lex) && ListedMore(inv, now, form, Flat(es[..i]) + PairsOf(es[i])[..j])
      {
        var tag := es[i].tags[j];
        FirstPairs(es, i, j);
        assert IsTag(tag);
        ListOneMore(inv, now, lex, form, Flat(es[..i]) + PairsOf(es[i])[..j], (es[i].lem, tag));
        now := Added(now, Key(es[i].lem, tag), form);
      }
      FlatFirst(es, i);
    }
    assert es[..|es|] == es;
  }

  lemma TokensAt(es: seq<Entry>, n: nat)
    requires n < |es|
    ensures Tokens(es)[2 * n] == es[n].lem && Tokens(es)[2 * n + 1] == Join(es[n].tags, '|')
  {
    assert (2 * n) / 2 == n && (2 * n + 1) / 2 == n;
  }

  lemma FoundPlace(es: seq<Entry>, lem: string, n: nat)
    requires n < |es| && n <= PlaceOf(es, lem) && es[n].lem == lem
    ensures PlaceOf(es, lem) == n
  {
  }

  lemma CutOfTags(es: seq<Entry>, n: nat)
    requires AreStorable(es) && n < |es|
    ensures Cut(Join(es[n].tags, '|'), '|') == es[n].tags
  {
    assert IsTag(es[n].tags[0]);
    CutOfJoin(es[n].tags, '|');
  }

  /** Adds a tag to the words of the text of a form, and tells whether they changed. */
  method AddToText(lan: seq<string>, lem: string, tag: string, ghost es: seq<Entry>)
    returns (now: seq<string>, changed: bool)
    requires AreStorable(es) && lan == Tokens(es) && IsTag(tag)
    ensures now == Tokens(WithAnalysis(es, lem, tag)) && changed == (WithAnalysis(es, lem, tag) != es)
  {
    now := lan;
    var lFound, tFound := false, false;
    var lm := 0;
    ghost var n := 0;
    while lm < |lan| && !lFound
      invariant !lFound ==> lm == 2 * n && n <= PlaceOf(es, lem) && now == lan
      invariant lFound ==> now == Tokens(WithAnalysis(es, lem, tag)) && PlaceOf(es, lem) < |es|
      invariant lFound ==> tFound == (WithAnalysis(es, lem, tag) == es)
    {
      TokensAt(es, n);
      if lan[lm] == lem {
        lFound := true;
        FoundPlace(es, lem, n);
        CutOfTags(es, n);
        tFound := tag in Cut(lan[lm + 1], '|');
        if !tFound {
          TokensWithTag(es, n, tag);
          now := now[lm + 1 := lan[lm + 1] + "|" + tag];
        }
      }
      lm := lm + 2;
      n := n + 1;
    }
    if !lFound {
      TokensWithEntry(es, lem, tag);
      now := now + [lem, tag];
    }
    changed := !lFound || !tFound;
  }

  /** A form is stored with the text of its entries. */
  ghost predicate StoredAs(form: string, es: seq<Entry>, text: string) {
    IsForm(form) && es != [] && AreStorable(es) && text == Compact(es)
  }

  function EntriesFor(lex: Lexicon, form: string): seq<Entry> {
    if form in lex then lex[form] else []
  }

  function Extended(lex: Lexicon, form: string, es: seq<Entry>): Lexicon {
    lex[form := EntriesFor(lex, form) + es]
  }

  /** All forms are stored with the text of their entries. */
  ghost predicate AllStored(lex: Lexicon, morfo: Store) {
    morfo.Keys == lex.Keys && forall f :: f in lex ==> StoredAs(f, lex[f], morfo[f])
  }

  lemma StoredText(lex: Lexicon, morfo: Store, form: string)
    requires AllStored(lex, morfo)
    ensures var es, text := EntriesFor(lex, form), Answer(morfo, form);
            && AreStorable(es) && (text != "" <==> form in lex)
            && (form in lex ==> text == Compact(es) && Cut(text, ' ') == Tokens(es) && IsPaired(text) && Read(text) == Flat(es))
  {
    StorableIsReadable(EntriesFor(lex, form));
    if form in lex {
      assert StoredAs(form, lex[form], morfo[form]);
    }
  }

  lemma StoreOne(lex: Lexicon, morfo: Store, form: string, es: seq<Entry>, text: string)
    requires AllStored(lex, morfo) && StoredAs(form, es, text)
    ensures AllStored(lex[form := es], morfo[form := text])
  {
  }

  lemma StoreLess(lex: Lexicon, morfo: Store, form: string)
    requires AllStored(lex, morfo)
    ensures AllStored(lex - {form}, morfo - {form})
  {
  }

  /** More entries for a form leave the index sound. */
  lemma ExtendedKeepsSound(inv: Store, lex: Lexicon, form: string, es: seq<Entry>)
    requires Sound(inv, lex)
    ensures Sound(inv, Extended(lex, form, es))
    ensures forall p :: p in Flat(es) ==> p in Flat(Extended(lex, form, es)[form])
  {
    FlatConcat(EntriesFor(lex, form), es);
    MoreKeepsSound(inv, lex, Extended(lex, form, es));
  }

  /** The text of more entries for a form. */
  lemma ExtendedIsStored(lex: Lexicon, morfo: Store, form: string, es: seq<Entry>)
    requires AllStored(lex, morfo) && IsForm(form) && es != [] && AreStorable(es)
    ensures AllStored(Extended(lex, form, es), Added(morfo, form, Compact(es)))
  {
    var was := EntriesFor(lex, form);
    StoredText(lex, morfo, form);
    ConcatStorable(was, es);
    if form in lex {
      CompactOfTwo(was, es);
    } else {
      assert was + es == es;
    }
    StoreOne(lex, morfo, form, was + es, Added(morfo, form, Compact(es))[form]);
  }

  /** The entries of the forms after adding an analysis. */
  function LexWith(lex: Lexicon, form: string, lem: string, tag: string): Lexicon {
    lex[form := WithAnalysis(EntriesFor(lex, form), lem, tag)]
  }

  lemma WithAnalysisKeepsSound(inv: Store, lex: Lexicon, form: string, lem: string, tag: string)
    requires Sound(inv, lex)
    ensures Sound(inv, LexWith(lex, form, lem, tag)) && HasAnalysis(LexWith(lex, form, lem, tag), form, lem, tag)
  {
    var es := EntriesFor(lex, form);
    WithAnalysisAdds(es, lem, tag);
    forall p | p in Flat(es)
      ensures p in Flat(WithAnalysis(es, lem, tag))
    {
      assert p in multiset(Flat(WithAnalysis(es, lem, tag)));
    }
    MoreKeepsSound(inv, lex, LexWith(lex, form, lem, tag));
  }

  lemma WithAnalysisIsStored(lex: Lexicon, morfo: Store, form: string, lem: string, tag: string, text: string)
    requires AllStored(lex, morfo) && IsForm(form) && Free(lem, ' ') && IsTag(tag)
    requires text == Compact(WithAnalysis(EntriesFor(lex, form), lem, tag))
    ensures AllStored(LexWith(lex, form, lem, tag), morfo[form := text])
  {
    StoredText(lex, morfo, form);
    WithAnalysisStorable(EntriesFor(lex, form), lem, tag);
    StoreOne(lex, morfo, form, WithAnalysis(EntriesFor(lex, form), lem, tag), text);
  }

  lemma SameLex(lex: Lexicon, form: string, lem: string, tag: string)
    ensures lex == LexWith(lex, form, lem, tag) <==> form in lex && WithAnalysis(lex[form], lem, tag) == lex[form]
  {
  }

  lemma OneEntryText(lem: string, tag: string)
    ensures WithAnalysis([], lem, tag) == [Entry(lem, [tag])] && Compact([Entry(lem, [tag])]) == lem + " " + tag
  {
    var d := Tokens([Entry(lem, [tag])]);
    TokensAt([Entry(lem, [tag])], 0);
    assert d == [lem, tag] && d[1..] == [tag];
    assert Join(d, ' ') == lem + [' '] + Join(d[1..], ' ');
  }

  lemma EmptyIsSound(lex: Lexicon)
    ensures Sound(map[], lex)
  {
  }

  lemma NotEmptyForm(lex: Lexicon, morfo: Store)
    requires AllStored(lex, morfo)
    ensures "" !in lex
  {
  }

  /** Takes a form from the index for some analyses. */
  method UnlistAll(inv: Store, la: seq<Pair>, form: string, ghost lex: Lexicon) returns (now: Store)
    requires Sound(inv, lex) && "" !in lex && forall p :: p in la ==> IsTag(p.1)
    ensures UnlistedUpTo(inv, now, form, la)
  {
    now := inv;
    for i := 0 to |la|
      invariant UnlistedUpTo(inv, now, form, la[..i])
    {
      assert la[..i + 1] == la[..i] + [la[i]];
      assert IsTag(la[i].1);
      assert !Listed(inv, la[i].0, la[i].1, "");
      UnlistedOneMore(inv, now, form, la[..i], la[i]);
      now := Unlist(now, la[i].0, la[i].1, form);
    }
    assert la[..|la|] == la;
  }

  class Dictionary {
    const inverse: bool
    const lower: string -> string
    const lemmaPrefs: Prefs
    const tagPrefs: Prefs
    var morfo: Store
    var inver: Store
    /** The entries whose text is stored for each form. */
    ghost var lex: Lexicon

    ghost predicate Valid()
      reads this
    {
      AllStored(lex, morfo) && Sound(inver, lex) && (!inverse ==> inver == map[])
    }

    constructor (inv: bool, low: string -> string, lemmas: Prefs, tags: Prefs)
      ensures Valid() && lex == map[] && inver == map[]
      ensures inverse == inv && lower == low && lemmaPrefs == lemmas && tagPrefs == tags
    {
      inverse, lower, lemmaPrefs, tagPrefs := inv, low, lemmas, tags;
      morfo, inver, lex := map[], map[], map[];
    }

    /** The analyses of a form, in lower case. */
    method SearchForm(s: string) returns (la: seq<Pair>)
      requires Valid()
      ensures la == if lower(s) in lex then Flat(lex[lower(s)]) else []
    {
      var data := Answer(morfo, lower(s));
      la := [];
      StoredText(lex, morfo, lower(s));
      if data != "" {
        la := ReadText(data);
      }
    }

    /** Loads a form and its pairs of lemma and tag, and gives the entries that it has added. */
    method LoadEntry(key: string, data: string) returns (ok: bool, es: seq<Entry>)
      requires Valid() && IsForm(key) && IsData(data)
      modifies this
      ensures Valid() && (ok <==> IsPaired(data))
      ensures !ok ==> lex == old(lex) && inver == old(inver)
      ensures ok ==> Groups(Pairs(Cut(data, ' ')), es) && lex == Extended(old(lex), key, es)
      ensures ok && inverse ==> ListedMore(old(inver), inver, key, Flat(es))
      ensures !inverse ==> inver == old(inver)
    {
      ok, es := ParseDictEntry(data, lemmaPrefs, tagPrefs);
      if !ok {
        return;
      }
      InOrderGroups(Pairs(Cut(data, ' ')), es, lemmaPrefs, tagPrefs);
      LoadedIsStorable(data, es);
      var text := CompactData(es);
      ExtendedIsStored(lex, morfo, key, es);
      ExtendedKeepsSound(inver, lex, key, es);
      morfo := Added(morfo, key, text);
      lex := Extended(lex, key, es);
      if inverse {
        inver := ListEntries(inver, key, es, lex);
      }
    }

    /** Adds an analysis to a form. */
    method AddAnalysis(form: string, lem: string, tag: string)
      requires Valid() && IsForm(form) && Free(lem, ' ') && IsTag(tag)
      modifies this
      ensures Valid()
      ensures lex == LexWith(old(lex), form, lem, tag)
      ensures if inverse && form in old(lex) && lex != old(lex) then ListedMore(old(inver), inver, form, [(lem, tag)])
              else inver == old(inver)
    {
      var data := Answer(morfo, form);
      StoredText(lex, morfo, form);
      WithAnalysisKeepsSound(inver, lex, form, lem, tag);
      SameLex(lex, form, lem, tag);
      if data == "" {
        OneEntryText(lem, tag);
        WithAnalysisIsStored(lex, morfo, form, lem, tag, lem + " " + tag);
        morfo := Added(morfo, form, lem + " " + tag);
      } else {
        var lan, changed := AddToText(Cut(data, ' '), lem, tag, EntriesFor(lex, form));
        if changed {
          WithAnalysisIsStored(lex, morfo, form, lem, tag, Join(lan, ' '));
          morfo := morfo[form := Join(lan, ' ')];
          if inverse {
            ListOneMore(inver, inver, LexWith(lex, form, lem, tag), form, [], (lem, tag));
            inver := Added(inver, Key(lem, tag), form);
          }
        }
      }
      lex := LexWith(lex, form, lem, tag);
    }

    /** Removes a form, and takes it from the index for the analyses of its lower case: the index is
        sound after this exactly when these are all that list the form, as they are in lower case. */
    method RemoveEntry(form: string)
      requires Valid()
      modifies this
      ensures AllStored(lex, morfo) && lex == old(lex) - {form}
      ensures inverse ==> UnlistedUpTo(old(inver), inver, form, Flat(EntriesFor(old(lex), lower(form))))
      ensures !inverse ==> inver == old(inver)
      ensures Valid() <==> !inverse || ListedOnlyFor(old(inver), form, Flat(EntriesFor(old(lex), lower(form))))
      ensures lower(form) == form ==> Valid()
    {
      StoreLess(lex, morfo, form);
      StoredText(lex, morfo, lower(form));
      NotEmptyForm(lex, morfo);
      SoundListsAnalyses(inver, lex, form);
      EmptyIsSound(lex - {form});
      if inverse {
        var la := SearchForm(form);
        FlatTags(EntriesFor(lex, lower(form)));
        ghost var was := inver;
        inver := UnlistAll(inver, la, form, lex);
        UnlistedIsSound(was, inver, lex, form, la);
      }
      morfo := morfo - {form};
      lex := lex - {form};
    }

    /** The forms for a lemma and a tag. */
    method GetForms(lem: string, tag: string) returns (fs: seq<string>)
      ensures fs == if inverse then FormsOf(inver, lem, tag) else []
      ensures Valid() && Free(tag, '#') ==> forall f :: f in fs ==> HasAnalysis(lex, f, lem, tag)
    {
      fs := [];
      if inverse {
        fs := Cut(Answer(inver, Key(lem, tag)), ' ');
        forall f | f in fs && Valid() && Free(tag, '#')
          ensures HasAnalysis(lex, f, lem, tag)
        {
          assert Listed(inver, lem, tag, f);
        }
      }
    }
  }
}
