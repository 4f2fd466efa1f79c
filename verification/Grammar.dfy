/** Context-free grammars for the chart parser: rules indexed by the first symbol of their
    right-hand side, with wildcards, file lists and tree directives. */
module Grammars {

  type Symbol = string

  datatype Rule = Rule(head: Symbol, right: seq<Symbol>, gov: nat)

  /** The governor of a rule that has none. */
  const NOGOV: nat := 99999

  datatype Grammar = Grammar(rules: seq<Rule>, wild: seq<Rule>,
                             nonterminal: set<Symbol>, start: Symbol,
                             filemap: set<(string, string)>, prior: map<Symbol, int>,
                             hidden: set<Symbol>, flat: set<Symbol>, notop: set<Symbol>, onlytop: set<Symbol>)
  {
    predicate IsTerminal(s: Symbol) {
      s !in nonterminal
    }

    /** Rules whose right-hand side begins with the given symbol. */
    function RulesRight(s: Symbol): seq<Rule> {
      FirstIs(rules, s)
    }

    /** Wildcarded rules, looked up by the first character of their first symbol. */
    function RulesRightWildcard(c: string): seq<Rule> {
      FirstCharIs(wild, c)
    }

    /** Lower is more specific: form, lemma, bare tag. */
    function Specificity(s: Symbol): nat {
      if FirstOf(s, "(") < |s| && FirstOf(s, ")") == |s| - 1 then 0
      else if FirstOf(s, "<") < |s| && FirstOf(s, ">") == |s| - 1 then 1
      else 2
    }

    /** Lower is better. */
    function Priority(s: Symbol): int {
      if s in prior then prior[s] else 9999
    }

    /** Whether a possibly wildcarded symbol of a rule matches a symbol found in the chart. */
    predicate CheckMatch(searched: Symbol, found: Symbol) {
      searched == found ||
      (var n := FirstOf(searched, "*");
       n < |searched| && searched[..n] <= found &&
       var q := FirstOf(found, "(<");
       var m := searched[FirstOf(searched, "(<")..];
       if '"' !in m then found[..q] + m == found else (found[q..], m) in filemap)
    }

    /** Whether a symbol found in the chart can be the first of a rule: rules are looked up by
        that symbol, and, for terminals only, among the wildcarded rules. */
    predicate Starts(r: Rule, found: Symbol) {
      r.right != [] &&
      ((r in rules && r.right[0] == found) ||
       (r in wild && IsTerminal(found) && Initial(r.right[0]) == Initial(found) && CheckMatch(r.right[0], found)))
    }
  }

  /** The position of the first character of `s` that is in `chars`, or its length. */
  function FirstOf(s: string, chars: string): (n: nat)
    ensures n <= |s|
    ensures n < |s| ==> s[n] in chars
    ensures forall i :: 0 <= i < n ==> s[i] !in chars
  {
    if s == [] || s[0] in chars then 0 else 1 + FirstOf(s[1..], chars)
  }

  function Initial(s: string): string {
    if s == [] then [] else s[..1]
  }

  function FirstIs(rules: seq<Rule>, s: Symbol): (found: seq<Rule>)
    ensures forall r :: r in found <==> r in rules && r.right != [] && r.right[0] == s
  {
    if rules == [] then [] else
    var n := |rules| - 1;
    assert rules == rules[..n] + [rules[n]];
    FirstIs(rules[..n], s) + (if rules[n].right != [] && rules[n].right[0] == s then [rules[n]] else [])
  }

  function FirstCharIs(rules: seq<Rule>, c: string): (found: seq<Rule>)
    ensures forall r :: r in found <==> r in rules && r.right != [] && Initial(r.right[0]) == c
  {
    if rules == [] then [] else
    var n := |rules| - 1;
    assert rules == rules[..n] + [rules[n]];
    FirstCharIs(rules[..n], c) + (if rules[n].right != [] && Initial(rules[n].right[0]) == c then [rules[n]] else [])
  }

  /** What the parser relies on: right-hand sides are not empty, heads are non-terminals,
      wildcarded rules are rules, and the start symbol is a proper symbol that is never matched. */
  ghost predicate WellFormed(g: Grammar) {
    && (forall r :: r in g.rules ==> r.right != [] && r.head in g.nonterminal && g.start !in r.right && "" !in r.right)
    && (forall r :: r in g.wild ==> r in g.rules)
    && "" !in g.nonterminal && g.start in g.nonterminal && g.start !in g.notop && g.start !in g.hidden
  }

  /** Unary rules are acyclic: they go strictly up in some ranking of the symbols. */
  ghost predicate Ranked(g: Grammar, rank: Symbol -> nat, top: nat) {
    forall r :: r in g.rules && |r.right| == 1 ==> rank(r.right[0]) < rank(r.head) <= top
  }

  /** The governor of every rule is one of its components. */
  ghost predicate Governed(g: Grammar) {
    forall r :: r in g.rules ==> r.gov < |r.right|
  }

  /** Wildcards are recorded for the rules that begin with one, and stand for terminals. */
  ghost predicate WellFlagged(g: Grammar) {
    && (forall r :: r in g.rules && r.right != [] && '*' in r.right[0] ==> r in g.wild)
    && (forall r, s :: r in g.rules && s in r.right ==> Initial(s) != "*" && WildcardsAreTerminal(g, s))
  }

  /** A wildcarded symbol is not a non-terminal itself and matches none. */
  ghost predicate WildcardsAreTerminal(g: Grammar, s: Symbol) {
    '*' in s ==> g.IsTerminal(s) && forall found :: g.CheckMatch(s, found) ==> g.IsTerminal(found)
  }

  /** When wildcards are flagged correctly, looking a rule up by its first symbol finds every
      rule whose first symbol matches. */
  lemma StartsIffMatches(g: Grammar, r: Rule, found: Symbol)
    requires WellFormed(g) && WellFlagged(g) && r in g.rules
    ensures g.Starts(r, found) <==> g.CheckMatch(r.right[0], found)
  {
    var s := r.right[0];
    assert s in r.right && WildcardsAreTerminal(g, s);
    if g.CheckMatch(s, found) && s != found {
      var n := FirstOf(s, "*");
      assert s[n] == '*' && n > 0;
      assert s[..n][0] == found[0] && found[..1] == [found[0]];
    }
  }

  /** A wildcard pattern without file list matches exactly the tags that begin with its stem
      and carry the same lemma or form condition. */
  lemma WildcardMeaning(g: Grammar, stem: string, cond: string, tag: string, info: string)
    requires '*' !in stem && FirstOf(stem, "(<") == |stem| && FirstOf(cond, "(<") == 0 && '"' !in cond
    requires FirstOf(tag, "(<") == |tag| && FirstOf(info, "(<") == 0
    ensures g.CheckMatch(stem + "*" + cond, tag + info) <==> stem <= tag && cond == info
  {
    var searched, found := stem + "*" + cond, tag + info;
    assert searched[|stem|] == '*';
    assert FirstOf(searched, "*") == |stem|;
    assert searched[..|stem|] == stem;
    FirstOfAppend(tag, info, "(<");
    FirstOfAppend(stem + "*", cond, "(<");
    assert found[..|tag|] == tag && found[|tag|..] == info;
    assert searched[|stem| + 1..] == cond;
    if stem <= found {
      StemIsInTag(stem, tag, info);
    }
    if found[..|tag|] + cond == found {
      assert cond == found[|tag|..];
    }
    if searched == found {
      SplitIsUnique(stem + "*", cond, tag, info);
      assert (stem + "*")[..|stem|] == stem;
    }
  }

  lemma FirstOfAppend(a: string, b: string, chars: string)
    requires FirstOf(a, chars) == |a| && FirstOf(b, chars) == 0
    ensures FirstOf(a + b, chars) == |a|
  {
    var n := FirstOf(a + b, chars);
    assert forall i :: 0 <= i < |a| ==> (a + b)[i] == a[i];
    assert b != [] ==> (a + b)[|a|] == b[0];
  }

  lemma StemIsInTag(stem: string, tag: string, info: string)
    requires FirstOf(stem, "(<") == |stem| && FirstOf(info, "(<") == 0 && stem <= tag + info
    ensures stem <= tag
  {
    assert info != [] ==> (tag + info)[|tag|] == info[0];
    assert |stem| <= |tag|;
    assert stem == (tag + info)[..|stem|] == tag[..|stem|];
  }

  lemma SplitIsUnique(a: string, b: string, c: string, d: string)
    requires a + b == c + d
    requires FirstOf(a, "(<") == |a| && FirstOf(b, "(<") == 0 && FirstOf(c, "(<") == |c| && FirstOf(d, "(<") == 0
    ensures a == c && b == d
  {
    FirstOfAppend(a, b, "(<");
    FirstOfAppend(c, d, "(<");
    assert a == (a + b)[..|a|] && c == (c + d)[..|c|] && b == (a + b)[|a|..] && d == (c + d)[|c|..];
  }

  lemma FirstIsLast(s: string, c: char)
    ensures FirstOf(s + [c], [c]) == |s| <==> c !in s
  {
    var n := FirstOf(s + [c], [c]);
    assert (s + [c])[|s|] == c;
    assert forall i :: 0 <= i < |s| ==> (s + [c])[i] == s[i];
  }

  /** A reading by form is the most specific, unless its tag or form has a closing bracket of its
      own; then it counts as a bare tag. One by lemma comes second, under the same condition. */
  lemma SpecificIff(g: Grammar, tag: string, form: string, lem: string)
    ensures g.Specificity(tag + "(" + form + ")") == if ')' !in tag + "(" + form then 0 else 2
    ensures g.Specificity(tag + "<" + lem + ">") == if '>' !in tag + "<" + lem then 1 else 2
  {
    var a, b := tag + "(" + form, tag + "<" + lem;
    FirstIsLast(a, ')');
    FirstIsLast(b, '>');
    assert (a + ")")[|tag|] == '(' && (b + ">")[|tag|] == '<';
    assert (a + ")")[|a|] == ')' && (b + ">")[|b|] == '>';
  }

  /** One alternative of a rule as written: its symbols and the position of the governor mark. */
  datatype Alternative = Alternative(right: seq<Symbol>, gov: Governor)

  datatype Governor = Unset | Marked(position: nat)

  /** The first component governs when no governor is marked. */
  function GovernorOf(a: Alternative): nat {
    match a.gov
    case Unset => 0
    case Marked(p) => p
  }

  function RulesOf(head: Symbol, alts: seq<Alternative>): seq<Rule> {
    seq(|alts|, i requires 0 <= i < |alts| => Rule(head, alts[i].right, GovernorOf(alts[i])))
  }

  class GrammarLoader {
    var gram: Grammar

    constructor (g: Grammar)
      ensures gram == g
    {
      gram := g;
    }

    /** Stores a rule, and stores it again among the wildcarded ones if told so. */
    method NewRule(head: Symbol, right: seq<Symbol>, wildcard: bool, gov: nat)
      requires right != []
      modifies this
      ensures gram == old(gram).(rules := old(gram).rules + [Rule(head, right, gov)],
                                 wild := old(gram).wild + if wildcard then [Rule(head, right, gov)] else [])
    {
      var r := Rule(head, right, gov);
      gram := gram.(rules := gram.rules + [r]);
      if wildcard {
        gram := gram.(wild := gram.wild + [r]);
      } else {
        assert gram.wild + [] == gram.wild;
      }
    }

    /** Loads `head ==> alternative | ... | alternative`. The wildcard flag is raised by the very
        first symbol and kept for all alternatives. */
    method LoadRule(head: Symbol, alts: seq<Alternative>)
      requires alts != [] && forall i :: 0 <= i < |alts| ==> alts[i].right != []
      modifies this
      ensures gram == old(gram).(nonterminal := old(gram).nonterminal + {head},
                                 rules := old(gram).rules + RulesOf(head, alts),
                                 wild := old(gram).wild + if '*' in alts[0].right[0] then RulesOf(head, alts) else [])
    {
      gram := gram.(nonterminal := gram.nonterminal + {head});
      ghost var g := gram;
      ghost var added := RulesOf(head, alts);
      var first, wildcard := true, false;
      assert g.rules + added[..0] == g.rules && g.wild + [] == g.wild;
      for i := 0 to |alts|
        invariant first == (i == 0) && (i > 0 ==> wildcard == ('*' in alts[0].right[0])) && (i == 0 ==> !wildcard)
        invariant gram == g.(rules := g.rules + added[..i], wild := g.wild + if wildcard then added[..i] else [])
      {
        if first && '*' in alts[i].right[0] {
          wildcard := true;
        }
        first := false;
        NewRule(head, alts[i].right, wildcard, GovernorOf(alts[i]));
        assert added[..i + 1] == added[..i] + [added[i]];
        assert g.rules + added[..i + 1] == g.rules + added[..i] + [added[i]];
        assert wildcard ==> g.wild + added[..i + 1] == g.wild + added[..i] + [added[i]];
      }
      assert added[..|alts|] == added;
    }
  }

  /** The loader flags a new rule correctly exactly when its alternative begins with a wildcard
      just as the first one does. */
  lemma FlaggedIffLikeFirst(head: Symbol, alts: seq<Alternative>, g: Grammar, i: nat)
    requires i < |alts| && forall j :: 0 <= j < |alts| ==> alts[j].right != []
    requires g.wild == if '*' in alts[0].right[0] then RulesOf(head, alts) else []
    ensures (RulesOf(head, alts)[i] in g.wild <==> '*' in alts[i].right[0])
        <==> ('*' in alts[i].right[0] <==> '*' in alts[0].right[0])
  {
    var added := RulesOf(head, alts);
    assert added[i] in added;
  }

  /** A rule with two alternatives, of which only the second one begins with a wildcard. */
  function OneWildcard(): seq<Alternative> {
    [Alternative(["N"], Unset), Alternative(["V*"], Unset)]
  }

  /** It is not flagged; and with the alternatives exchanged, both are. */
  lemma SecondIsNotFlagged(head: Symbol, loaded: Grammar, exchanged: Grammar)
    requires loaded.wild == if '*' in OneWildcard()[0].right[0] then RulesOf(head, OneWildcard()) else []
    requires var alts := [OneWildcard()[1], OneWildcard()[0]];
             exchanged.wild == if '*' in alts[0].right[0] then RulesOf(head, alts) else []
    ensures '*' in OneWildcard()[1].right[0] && RulesOf(head, OneWildcard())[1] !in loaded.wild
    ensures '*' !in OneWildcard()[0].right[0] && Rule(head, ["N"], GovernorOf(OneWildcard()[0])) in exchanged.wild
  {
    var alts := [OneWildcard()[1], OneWildcard()[0]];
    assert "V*"[1] == '*';
    assert RulesOf(head, alts)[1] == Rule(head, ["N"], GovernorOf(OneWildcard()[0]));
  }

  /** The component marked governs its rule, and the first one where none is marked. */
  lemma LoadedGovernors(head: Symbol)
    ensures RulesOf(head, [Alternative(["A", "B"], Marked(1)), Alternative(["C", "D"], Unset)])
         == [Rule(head, ["A", "B"], 1), Rule(head, ["C", "D"], 0)]
  {
  }

  /** A wildcard pattern with a file list matches the tags that begin with its stem and whose lemma or form
      is in the list. */
  lemma WildcardWithFile(g: Grammar, stem: string, file: string, tag: string, info: string)
    requires '*' !in stem && FirstOf(stem, "(<") == |stem| && FirstOf(file, "(<") == 0 && '"' in file
    requires FirstOf(tag, "(<") == |tag| && FirstOf(info, "(<") == 0 && stem + "*" + file != tag + info
    ensures g.CheckMatch(stem + "*" + file, tag + info) <==> stem <= tag && (info, file) in g.filemap
  {
    var searched, found := stem + "*" + file, tag + info;
    assert searched[|stem|] == '*';
    assert FirstOf(searched, "*") == |stem|;
    assert searched[..|stem|] == stem;
    FirstOfAppend(tag, info, "(<");
    FirstOfAppend(stem + "*", file, "(<");
    assert found[..|tag|] == tag && found[|tag|..] == info;
    assert searched[|stem| + 1..] == file;
    if stem <= found {
      StemIsInTag(stem, tag, info);
    }
    if stem <= tag {
      assert found[..|stem|] == tag[..|stem|] == stem;
    }
  }
}
