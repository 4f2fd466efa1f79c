/** A form that differs from its lower case is still listed after it has been removed. */
module CapitalForms {
  import opened Databases
  import opened DictEntries
  import opened Dictionaries
  import opened InverseIndex
  import opened StoredEntries
  import opened Strings

  /** The text of one lemma and one tag. */
  lemma OnePair(lem: string, tag: string)
    requires Free(lem, ' ') && IsTag(tag)
    ensures var data := lem + " " + tag;
            Cut(data, ' ') == [lem, tag] && Pairs(Cut(data, ' ')) == [(lem, tag)] && IsPaired(data) && IsData(data)
  {
    var data := lem + " " + tag;
    PiecesOfTwo(lem, tag, ' ');
    PiecesOfFree(lem, ' ');
    PiecesOfFree(tag, ' ');
    assert Cut(data, ' ') == [lem, tag];
  }

  /** A form is loaded into a new dictionary, for one lemma and one tag. */
  method LoadOne(lower: string -> string, form: string, lem: string, tag: string) returns (d: Dictionary)
    requires IsForm(form) && Free(lem, ' ') && IsTag(tag)
    ensures fresh(d) && d.Valid() && d.inverse && d.lower == lower && d.lex.Keys == {form}
    ensures Listed(d.inver, lem, tag, form)
  {
    d := new Dictionary(true, lower, map[], map[]);
    OnePair(lem, tag);
    ghost var empty := d.inver;
    var ok, es := d.LoadEntry(form, lem + " " + tag);
    GroupingKeepsPairs([(lem, tag)], es);
    assert (lem, tag) in multiset(Flat(es));
    assert Listed(d.inver, lem, tag, form) <==> Listed(empty, lem, tag, form) || (lem, tag) in Flat(es);
  }

  lemma NothingIsUnlisted(was: Store, now: Store, form: string, lem: string, tag: string)
    requires UnlistedUpTo(was, now, form, Flat([])) && Free(tag, '#') && Listed(was, lem, tag, form)
    ensures form in FormsOf(now, lem, tag)
  {
    assert Listed(now, lem, tag, form);
  }

  /** The only form is removed: its lower case is not found, and so it is taken from no list. */
  method RemoveOnly(d: Dictionary, form: string, ghost lem: string, ghost tag: string)
    requires d.Valid() && d.inverse && d.lex.Keys == {form} && d.lower(form) != form
    requires IsTag(tag) && Listed(d.inver, lem, tag, form)
    modifies d
    ensures d.lex == map[] && form in FormsOf(d.inver, lem, tag)
  {
    ghost var was := d.inver;
    assert EntriesFor(d.lex, d.lower(form)) == [];
    d.RemoveEntry(form);
    assert d.lex.Keys == {};
    NothingIsUnlisted(was, d.inver, form, lem, tag);
  }

  /** Removed again, it is not in the dictionary, but is still given for that lemma and tag. */
  method LoadAndRemove(lower: string -> string, form: string, lem: string, tag: string)
    returns (d: Dictionary, forms: seq<string>)
    requires IsForm(form) && Free(lem, ' ') && IsTag(tag) && lower(form) != form
    ensures d.lex == map[] && form in forms
  {
    d := LoadOne(lower, form, lem, tag);
    RemoveOnly(d, form, lem, tag);
    forms := d.GetForms(lem, tag);
  }

  /** Such a form: Casa, for the lemma casa. */
  method LoadAndRemoveCasa() returns (forms: seq<string>)
    ensures "Casa" in forms
  {
    var d: Dictionary;
    d, forms := LoadAndRemove(s => if s == "Casa" then "casa" else s, "Casa", "casa", "NC");
  }
}
