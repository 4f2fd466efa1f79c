/** The index of a dictionary from lemmas and tags to forms, and when it is sound. */
module InverseIndex {
  import opened Databases
  import opened DictEntries
  import opened Strings

  /** The key of a lemma and a tag. */
  function Key(lem: string, tag: string): string {
    lem + "#" + tag
  }

  lemma KeyIsInjective(l: string, t: string, l': string, t': string)
    requires Free(t, '#') && Free(t', '#') && Key(l, t) == Key(l', t')
    ensures l == l' && t == t'
  {
    var k := Key(l, t);
    assert k[|l|] == '#' && k[|l'|] == '#';
    assert forall i :: |l| < i < |k| ==> k[i] == t[i - |l| - 1];
    assert forall i :: |l'| < i < |k| ==> k[i] == t'[i - |l'| - 1];
    assert |l| == |l'|;
    assert l == k[..|l|] == l' && t == k[|l| + 1..] == t';
  }

  /** The forms that the index lists for a lemma and a tag. */
  function FormsOf(inv: Store, lem: string, tag: string): seq<string> {
    Cut(Answer(inv, Key(lem, tag)), ' ')
  }

  predicate Listed(inv: Store, lem: string, tag: string, form: string) {
    form in FormsOf(inv, lem, tag)
  }

  /** The analyses of forms. */
  type Lexicon = map<string, seq<Entry>>

  predicate HasAnalysis(lex: Lexicon, form: string, lem: string, tag: string) {
    form in lex && (lem, tag) in Flat(lex[form])
  }

  predicate IsForm(form: string) {
    form != "" && Free(form, ' ')
  }

  /** Every form that is listed has that analysis. */
  ghost predicate Sound(inv: Store, lex: Lexicon) {
    && (forall k :: k in inv ==> inv[k] != "")
    && forall l, t, f {:trigger Listed(inv, l, t, f)} :: Free(t, '#') && Listed(inv, l, t, f) ==> HasAnalysis(lex, f, l, t)
  }

  /** Listing a form for a lemma and a tag. */
  lemma FormsAfterAdd(inv: Store, lem: string, tag: string, form: string, l: string, t: string)
    requires (forall k :: k in inv ==> inv[k] != "") && IsForm(form) && Free(tag, '#') && Free(t, '#')
    ensures FormsOf(Added(inv, Key(lem, tag), form), l, t) ==
            FormsOf(inv, l, t) + if (l, t) == (lem, tag) then [form] else []
  {
    if Key(l, t) == Key(lem, tag) {
      KeyIsInjective(l, t, lem, tag);
      PiecesOfFree(form, ' ');
      PiecesOfTwo(Answer(inv, Key(l, t)), form, ' ');
    }
  }

  /** A form that has the analysis may be listed. */
  lemma AddKeepsSound(inv: Store, lex: Lexicon, lem: string, tag: string, form: string)
    requires Sound(inv, lex) && IsForm(form) && Free(tag, '#') && HasAnalysis(lex, form, lem, tag)
    ensures Sound(Added(inv, Key(lem, tag), form), lex)
    ensures forall l, t, f {:trigger Listed(Added(inv, Key(lem, tag), form), l, t, f)} :: Free(t, '#') ==>
      (Listed(Added(inv, Key(lem, tag), form), l, t, f) <==> Listed(inv, l, t, f) || (l, t, f) == (lem, tag, form))
  {
    var now := Added(inv, Key(lem, tag), form);
    forall l, t, f | Free(t, '#')
      ensures Listed(now, l, t, f) <==> Listed(inv, l, t, f) || (l, t, f) == (lem, tag, form)
    {
      FormsAfterAdd(inv, lem, tag, form, l, t);
    }
  }

  /** More analyses of forms leave the index sound. */
  lemma MoreKeepsSound(inv: Store, lex: Lexicon, more: Lexicon)
    requires Sound(inv, lex)
    requires forall f, l, t :: HasAnalysis(lex, f, l, t) ==> HasAnalysis(more, f, l, t)
    ensures Sound(inv, more)
  {
  }

  function Without(fs: seq<string>, form: string): seq<string> {
    if fs == [] then [] else Without(fs[..|fs| - 1], form) + if fs[|fs| - 1] == form then [] else [fs[|fs| - 1]]
  }

  lemma {:induction false} WithoutKeepsOthers(fs: seq<string>, form: string)
    ensures forall f :: f in Without(fs, form) <==> f in fs && f != form
  {
    if fs != [] {
      WithoutKeepsOthers(fs[..|fs| - 1], form);
    }
  }

  /** No longer listing a form for a lemma and a tag. */
  function Unlist(inv: Store, lem: string, tag: string, form: string): Store {
    var left := Without(FormsOf(inv, lem, tag), form);
    if left == [] then inv - {Key(lem, tag)} else inv[Key(lem, tag) := Join(left, ' ')]
  }

  lemma FormsAfterUnlist(inv: Store, lem: string, tag: string, form: string, l: string, t: string)
    requires Free(tag, '#') && Free(t, '#') && !Listed(inv, lem, tag, "")
    ensures FormsOf(Unlist(inv, lem, tag, form), l, t) ==
            if (l, t) == (lem, tag) then Without(FormsOf(inv, l, t), form) else FormsOf(inv, l, t)
  {
    if Key(l, t) == Key(lem, tag) {
      KeyIsInjective(l, t, lem, tag);
      var fs := FormsOf(inv, lem, tag);
      var left := Without(fs, form);
      WithoutKeepsOthers(fs, form);
      PiecesAreFree(Answer(inv, Key(l, t)), ' ');
      if left != [] {
        forall i | 0 <= i < |left|
          ensures Free(left[i], ' ') && left[i] != ""
        {
          assert left[i] in fs;
        }
        CutOfJoin(left, ' ');
      }
    }
  }

  /** What is listed after some of the analyses of a form have been taken from the index. */
  ghost predicate UnlistedUpTo(was: Store, now: Store, form: string, ps: seq<Pair>) {
    && (forall k :: k in now ==> now[k] != "")
    && forall l, t, f {:trigger Listed(now, l, t, f)} :: Free(t, '#') ==>
         (Listed(now, l, t, f) <==> Listed(was, l, t, f) && (f == form ==> (l, t) !in ps))
  }

  lemma UnlistedOneMore(was: Store, now: Store, form: string, ps: seq<Pair>, p: Pair)
    requires UnlistedUpTo(was, now, form, ps) && Free(p.1, '#') && !Listed(was, p.0, p.1, "")
    ensures UnlistedUpTo(was, Unlist(now, p.0, p.1, form), form, ps + [p])
  {
    var next := Unlist(now, p.0, p.1, form);
    WithoutKeepsOthers(FormsOf(now, p.0, p.1), form);
    forall l, t, f | Free(t, '#')
      ensures Listed(next, l, t, f) <==> Listed(was, l, t, f) && (f == form ==> (l, t) !in ps + [p])
    {
      FormsAfterUnlist(now, p.0, p.1, form, l, t);
      assert Listed(now, l, t, f) <==> Listed(was, l, t, f) && (f == form ==> (l, t) !in ps);
    }
    NoEmptyText(now, p.0, p.1, form);
  }

  lemma NoEmptyText(now: Store, lem: string, tag: string, form: string)
    requires (forall k :: k in now ==> now[k] != "") && !Listed(now, lem, tag, "")
    ensures forall k :: k in Unlist(now, lem, tag, form) ==> Unlist(now, lem, tag, form)[k] != ""
  {
    var left := Without(FormsOf(now, lem, tag), form);
    WithoutKeepsOthers(FormsOf(now, lem, tag), form);
    if left != [] {
      assert left[0] in left;
    }
  }

  /** Every lemma and tag that list a form are among some pairs. */
  ghost predicate ListedOnlyFor(inv: Store, form: string, ps: seq<Pair>) {
    forall l, t {:trigger Listed(inv, l, t, form)} :: Free(t, '#') && Listed(inv, l, t, form) ==> (l, t) in ps
  }

  /** After taking a form from the index for some pairs the form may go, exactly when it was listed
      for no others. */
  lemma UnlistedIsSound(was: Store, now: Store, lex: Lexicon, form: string, ps: seq<Pair>)
    requires Sound(was, lex) && UnlistedUpTo(was, now, form, ps)
    ensures Sound(now, lex - {form}) <==> ListedOnlyFor(was, form, ps)
  {
    if !ListedOnlyFor(was, form, ps) {
      var l, t :| Free(t, '#') && Listed(was, l, t, form) && (l, t) !in ps;
      assert Listed(now, l, t, form);
    }
  }

  /** A sound index lists a form only for its analyses. */
  lemma SoundListsAnalyses(inv: Store, lex: Lexicon, form: string)
    requires Sound(inv, lex)
    ensures ListedOnlyFor(inv, form, if form in lex then Flat(lex[form]) else [])
  {
  }
}
