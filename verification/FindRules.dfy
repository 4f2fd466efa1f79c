/** Completing a cell: all rules that a new constituent starts, directly or through unary rules. */
module FindRules {
  import opened Grammars
  import opened ChartSpec

  /** The rules whose right-hand side is `s` alone, by their heads. */
  function UnaryHeads(rules: seq<Rule>, s: Symbol): seq<Symbol> {
    if rules == [] then [] else
    UnaryHeads(rules[..|rules| - 1], s)
    + (if rules[|rules| - 1].right == [s] then [rules[|rules| - 1].head] else [])
  }

  lemma UnaryHeadsAreHigher(g: Grammar, rank: Symbol -> nat, top: nat, rules: seq<Rule>, s: Symbol)
    requires Ranked(g, rank, top) && forall r :: r in rules ==> r in g.rules
    ensures forall h :: h in UnaryHeads(rules, s) ==> rank(s) < rank(h) <= top
  {
    if rules != [] {
      assert rules[|rules| - 1] in rules;
      UnaryHeadsAreHigher(g, rank, top, rules[..|rules| - 1], s);
    }
  }

  /** How many symbols the worklist takes up for `s`: itself, and those reached by unary rules. */
  ghost function Weight(g: Grammar, rank: Symbol -> nat, top: nat, s: Symbol): nat
    requires Ranked(g, rank, top)
    decreases top - rank(s), 1, 0
  {
    UnaryHeadsAreHigher(g, rank, top, g.rules, s);
    1 + Weights(g, rank, top, s, UnaryHeads(g.rules, s))
  }

  ghost function Weights(g: Grammar, rank: Symbol -> nat, top: nat, s: Symbol, hs: seq<Symbol>): nat
    requires Ranked(g, rank, top) && forall h :: h in hs ==> rank(s) < rank(h) <= top
    decreases top - rank(s), 0, |hs|
  {
    if hs == [] then 0 else
    Weights(g, rank, top, s, hs[..|hs| - 1]) + Weight(g, rank, top, hs[|hs| - 1])
  }

  ghost function TotalWeight(g: Grammar, rank: Symbol -> nat, top: nat, d: seq<Symbol>): nat
    requires Ranked(g, rank, top)
  {
    if d == [] then 0 else TotalWeight(g, rank, top, d[..|d| - 1]) + Weight(g, rank, top, d[|d| - 1])
  }

  lemma {:induction false} WeightsAreTotal(g: Grammar, rank: Symbol -> nat, top: nat, s: Symbol, hs: seq<Symbol>)
    requires Ranked(g, rank, top) && forall h :: h in hs ==> rank(s) < rank(h) <= top
    ensures Weights(g, rank, top, s, hs) == TotalWeight(g, rank, top, hs)
  {
    if hs != [] {
      WeightsAreTotal(g, rank, top, s, hs[..|hs| - 1]);
    }
  }

  lemma {:induction false} TotalWeightOfSum(g: Grammar, rank: Symbol -> nat, top: nat, a: seq<Symbol>, b: seq<Symbol>)
    requires Ranked(g, rank, top)
    ensures TotalWeight(g, rank, top, a + b) == TotalWeight(g, rank, top, a) + TotalWeight(g, rank, top, b)
  {
    if b == [] {
      assert a + b == a;
    } else {
      var n := |b| - 1;
      assert (a + b)[..|a + b| - 1] == a + b[..n];
      TotalWeightOfSum(g, rank, top, a, b[..n]);
    }
  }

  /** Taking one symbol off the worklist and adding the heads of its unary rules lowers the weight. */
  lemma WorklistShrinks(g: Grammar, rank: Symbol -> nat, top: nat, d: seq<Symbol>)
    requires Ranked(g, rank, top) && d != []
    ensures TotalWeight(g, rank, top, d[1..] + UnaryHeads(g.rules, d[0])) < TotalWeight(g, rank, top, d)
  {
    var s, rest := d[0], d[1..];
    var hs := UnaryHeads(g.rules, s);
    UnaryHeadsAreHigher(g, rank, top, g.rules, s);
    WeightsAreTotal(g, rank, top, s, hs);
    TotalWeightOfSum(g, rank, top, rest, hs);
    TotalWeightOfSum(g, rank, top, [s], rest);
    assert d == [s] + rest;
    assert [s][..0] == [];
  }

  /** The edges started, in cell (k,i), by the rules of a list. */
  function StartAll(rules: seq<Rule>, k: int, i: int): seq<Edge>
    requires forall r :: r in rules ==> r.right != []
  {
    if rules == [] then [] else
    StartAll(rules[..|rules| - 1], k, i) + [Started(rules[|rules| - 1], k, i)]
  }

  lemma {:induction false} StartAllStartsEach(rules: seq<Rule>, k: int, i: int)
    requires forall r :: r in rules ==> r.right != []
    ensures forall e :: e in StartAll(rules, k, i) <==> exists r :: r in rules && e == Started(r, k, i)
  {
    if rules != [] {
      var n := |rules| - 1;
      StartAllStartsEach(rules[..n], k, i);
      assert rules == rules[..n] + [rules[n]];
    }
  }

  function CompleteHeads(es: seq<Edge>): seq<Symbol> {
    if es == [] then [] else
    CompleteHeads(es[..|es| - 1]) + (if es[|es| - 1].Active() then [] else [es[|es| - 1].head])
  }

  lemma {:induction false} CompleteHeadsAreThose(es: seq<Edge>)
    ensures forall h :: h in CompleteHeads(es) <==> HasComplete(es, h)
  {
    if es != [] {
      var n := |es| - 1;
      CompleteHeadsAreThose(es[..n]);
      assert es == es[..n] + [es[n]];
      forall h
        ensures HasComplete(es, h) <==> HasComplete(es[..n], h) || (!es[n].Active() && es[n].head == h)
      {
        if HasComplete(es[..n], h) {
          var y :| y in es[..n] && !y.Active() && y.head == h;
          assert y in es;
        }
      }
    }
  }

  /** Unary rules found for `s` are the ones that complete at once. */
  lemma {:induction false} StartedUnaryHeads(rules: seq<Rule>, s: Symbol, k: int, i: int)
    requires forall r :: r in rules ==> r.right != []
    ensures forall r :: r in FirstIs(rules, s) ==> r.right != []
    ensures CompleteHeads(StartAll(FirstIs(rules, s), k, i)) == UnaryHeads(rules, s)
  {
    if rules != [] {
      var n := |rules| - 1;
      var r := rules[n];
      StartedUnaryHeads(rules[..n], s, k, i);
      assert r in rules;
      var before := FirstIs(rules[..n], s);
      if r.right[0] == s {
        assert (before + [r])[..|before|] == before;
        var es := StartAll(before, k, i);
        assert (es + [Started(r, k, i)])[..|es|] == es;
        assert r.right == [s] <==> r.right[1..] == [];
      } else {
        assert before + [] == before;
      }
    }
  }

  /** What completing cell (k,i) for a constituent with head `h` must add to it: only started
      rules, and all rules that `h`, or a constituent added, can start. */
  ghost predicate Closed(g: Syntax, k: int, i: int, h: Symbol, added: seq<Edge>) {
    && (forall e :: e in added ==> JustStarted(g, k, i, h, added, e))
    && StartsAllOf(g, k, i, h, added)
    && (forall y :: y in added && !y.Active() ==> StartsAllOf(g, k, i, y.head, added))
  }

  ghost predicate JustStarted(g: Syntax, k: int, i: int, h: Symbol, added: seq<Edge>, e: Edge) {
    exists r, found :: StartedBy(g, k, i, h, added, e, r, found)
  }

  ghost predicate StartedBy(g: Syntax, k: int, i: int, h: Symbol, added: seq<Edge>, e: Edge, r: Rule, found: Symbol) {
    && r.right != [] && e == Started(r, k, i) && g.starts(r, found)
    && (found == h || HasComplete(added, found))
  }

  ghost predicate HasComplete(es: seq<Edge>, h: Symbol) {
    exists y :: y in es && !y.Active() && y.head == h
  }

  ghost predicate StartsAllOf(g: Syntax, k: int, i: int, found: Symbol, added: seq<Edge>) {
    forall r: Rule :: r.right != [] && g.starts(r, found) ==> Started(r, k, i) in added
  }

  /** All rules stored under `s` have been started. */
  ghost predicate Expanded(g: Grammar, k: int, i: int, s: Symbol, added: seq<Edge>) {
    forall r :: r in g.rules && r.right != [] && r.right[0] == s ==> Started(r, k, i) in added
  }

  /** The state of the worklist: what has been added is justified, and the rules of every
      constituent have been started unless it still waits in `d`. */
  ghost predicate Pending(g: Grammar, k: int, i: int, h: Symbol, added: seq<Edge>, d: seq<Symbol>) {
    && (forall e :: e in added ==> JustStarted(SyntaxOf(g), k, i, h, added, e) && e.head in g.nonterminal)
    && (forall y :: y in added && !y.Active() ==> y.head in d || Expanded(g, k, i, y.head, added))
    && (h in d || Expanded(g, k, i, h, added))
    && (forall s :: s in d ==> s == h || HasComplete(added, s))
    && (forall r :: r in WildcardStarts(g, h) ==> r.right != [] && Started(r, k, i) in added)
  }

  /** The wildcarded rules that a terminal starts. */
  function WildcardStarts(g: Grammar, h: Symbol): (rs: seq<Rule>)
    ensures forall r :: r in rs ==> r.right != [] && g.Starts(r, h)
    ensures forall r :: (r in g.wild && r.right != [] && g.IsTerminal(h)
                         && Initial(r.right[0]) == Initial(h) && g.CheckMatch(r.right[0], h)) ==> r in rs
  {
    if g.IsTerminal(h) then Matching(g, g.RulesRightWildcard(Initial(h)), h) else []
  }

  function Matching(g: Grammar, rules: seq<Rule>, h: Symbol): (rs: seq<Rule>)
    ensures forall r :: r in rs <==> r in rules && r.right != [] && g.CheckMatch(r.right[0], h)
  {
    if rules == [] then [] else
    var n := |rules| - 1;
    assert rules == rules[..n] + [rules[n]];
    Matching(g, rules[..n], h) + (if rules[n].right != [] && g.CheckMatch(rules[n].right[0], h) then [rules[n]] else [])
  }

  lemma MatchingOneMore(g: Grammar, rules: seq<Rule>, h: Symbol, j: nat)
    requires j < |rules| && rules[j].right != []
    ensures g.CheckMatch(rules[j].right[0], h) ==> Matching(g, rules[..j + 1], h) == Matching(g, rules[..j], h) + [rules[j]]
    ensures !g.CheckMatch(rules[j].right[0], h) ==> Matching(g, rules[..j + 1], h) == Matching(g, rules[..j], h)
    ensures forall r :: r in Matching(g, rules[..j], h) ==> r.right != []
  {
    assert rules[..j + 1][..j] == rules[..j];
  }

  lemma EmptyWorklistIsClosed(g: Grammar, k: int, i: int, h: Symbol, added: seq<Edge>)
    requires WellFormed(g) && Pending(g, k, i, h, added, [])
    ensures Closed(SyntaxOf(g), k, i, h, added)
  {
    forall y | y in added && !y.Active()
      ensures StartsAllOf(SyntaxOf(g), k, i, y.head, added)
    {
      assert Expanded(g, k, i, y.head, added);
    }
    forall r: Rule | r.right != [] && SyntaxOf(g).starts(r, h)
      ensures Started(r, k, i) in added
    {
      if !(r in g.rules && r.right[0] == h) {
        assert r in WildcardStarts(g, h);
      }
    }
  }

  lemma HasCompleteStays(a: seq<Edge>, b: seq<Edge>, h: Symbol)
    ensures HasComplete(a, h) ==> HasComplete(a + b, h) && HasComplete(b + a, h)
  {
    if HasComplete(a, h) {
      var y :| y in a && !y.Active() && y.head == h;
      assert y in a + b && y in b + a;
    }
  }

  lemma StaysJustified(g: Syntax, k: int, i: int, h: Symbol, added: seq<Edge>, es: seq<Edge>, e: Edge)
    requires JustStarted(g, k, i, h, added, e)
    ensures JustStarted(g, k, i, h, added + es, e)
  {
    var r, found :| StartedBy(g, k, i, h, added, e, r, found);
    HasCompleteStays(added, es, found);
    assert StartedBy(g, k, i, h, added + es, e, r, found);
  }

  lemma StartIsJustified(g: Syntax, k: int, i: int, h: Symbol, added: seq<Edge>, es: seq<Edge>, r: Rule, s: Symbol)
    requires r.right != [] && g.starts(r, s)
    requires s == h || HasComplete(added, s)
    ensures JustStarted(g, k, i, h, added + es, Started(r, k, i))
  {
    HasCompleteStays(added, es, s);
    assert StartedBy(g, k, i, h, added + es, Started(r, k, i), r, s);
  }

  /** More started edges, and their heads on the worklist, keep it in order. */
  lemma PendingOneMore(g: Grammar, k: int, i: int, h: Symbol, added: seq<Edge>, d: seq<Symbol>, s: Symbol)
    requires WellFormed(g) && d != [] && d[0] == s && Pending(g, k, i, h, added, d)
    requires forall r :: r in FirstIs(g.rules, s) ==> r.right != []
    ensures var new_ := StartAll(FirstIs(g.rules, s), k, i);
            Pending(g, k, i, h, added + new_, d[1..] + CompleteHeads(new_))
  {
    var rs := FirstIs(g.rules, s);
    var es := StartAll(rs, k, i);
    var more := added + es;
    var rest := d[1..] + CompleteHeads(es);
    StartAllStartsEach(rs, k, i);
    CompleteHeadsAreThose(es);
    assert d == [s] + d[1..];
    assert Expanded(g, k, i, s, more);
    assert s in d;
    forall e | e in more
      ensures JustStarted(SyntaxOf(g), k, i, h, more, e) && e.head in g.nonterminal
    {
      if e in added {
        StaysJustified(SyntaxOf(g), k, i, h, added, es, e);
      } else {
        var r :| r in rs && e == Started(r, k, i);
        assert r in g.rules && r.right[0] == s;
        StartIsJustified(SyntaxOf(g), k, i, h, added, es, r, s);
      }
    }
    forall q | q in rest
      ensures q == h || HasComplete(more, q)
    {
      if q in d[1..] {
        assert q in d;
        HasCompleteStays(added, es, q);
      } else {
        HasCompleteStays(es, added, q);
      }
    }
    forall y | y in more && !y.Active()
      ensures y.head in rest || Expanded(g, k, i, y.head, more)
    {
      if y in added && y.head !in d {
        assert Expanded(g, k, i, y.head, added);
      }
    }
  }

  /** Starts the wildcarded rules that a terminal matches. */
  method StartWildcards(g: Grammar, h: Symbol, k: int, i: int) returns (added: seq<Edge>, d: seq<Symbol>)
    requires WellFormed(g)
    ensures added == StartAll(WildcardStarts(g, h), k, i) && d == CompleteHeads(added)
  {
    added, d := [], [];
    if g.IsTerminal(h) {
      var rules := g.RulesRightWildcard(Initial(h));
      for j := 0 to |rules|
        invariant added == StartAll(Matching(g, rules[..j], h), k, i) && d == CompleteHeads(added)
      {
        MatchingOneMore(g, rules, h, j);
        if g.CheckMatch(rules[j].right[0], h) {
          var e := Started(rules[j], k, i);
          StartOneMore(Matching(g, rules[..j], h), rules[j], k, i);
          added := added + [e];
          if !e.Active() {
            d := d + [e.head];
          }
        }
      }
      assert rules[..|rules|] == rules;
    }
  }

  /** Starts the rules stored under `s`. */
  method StartRules(g: Grammar, s: Symbol, k: int, i: int) returns (added: seq<Edge>, heads: seq<Symbol>)
    requires WellFormed(g)
    ensures added == StartAll(FirstIs(g.rules, s), k, i) && heads == CompleteHeads(added)
  {
    var rules := g.RulesRight(s);
    added, heads := [], [];
    for j := 0 to |rules|
      invariant added == StartAll(rules[..j], k, i) && heads == CompleteHeads(added)
    {
      var e := Started(rules[j], k, i);
      StartOneMore(rules[..j], rules[j], k, i);
      assert rules[..j + 1] == rules[..j] + [rules[j]];
      added := added + [e];
      if !e.Active() {
        heads := heads + [e.head];
      }
    }
    assert rules[..|rules|] == rules;
  }

  /** The edges to add to cell (k,i) when it gets a constituent with head `h`. Terminates because
      unary rules are acyclic. */
  method FindAllRules(g: Grammar, h: Symbol, k: int, i: int, ghost rank: Symbol -> nat, ghost top: nat)
    returns (added: seq<Edge>)
    requires WellFormed(g) && Ranked(g, rank, top)
    ensures Closed(SyntaxOf(g), k, i, h, added)
  {
    var d;
    added, d := StartWildcards(g, h, k, i);
    d := d + [h];
    WildcardsArePending(g, h, k, i);
    while d != []
      invariant Pending(g, k, i, h, added, d)
      decreases TotalWeight(g, rank, top, d)
    {
      var es, heads := StartRules(g, d[0], k, i);
      PendingOneMore(g, k, i, h, added, d, d[0]);
      StartedUnaryHeads(g.rules, d[0], k, i);
      WorklistShrinks(g, rank, top, d);
      added := added + es;
      d := d[1..] + heads;
    }
    EmptyWorklistIsClosed(g, k, i, h, added);
  }

  lemma StartOneMore(rules: seq<Rule>, r: Rule, k: int, i: int)
    requires r.right != [] && forall q :: q in rules ==> q.right != []
    ensures StartAll(rules + [r], k, i) == StartAll(rules, k, i) + [Started(r, k, i)]
    ensures CompleteHeads(StartAll(rules + [r], k, i))
         == CompleteHeads(StartAll(rules, k, i)) + (if Started(r, k, i).Active() then [] else [r.head])
  {
    assert (rules + [r])[..|rules|] == rules;
    var es := StartAll(rules, k, i);
    assert (es + [Started(r, k, i)])[..|es|] == es;
  }

  lemma WildcardsArePending(g: Grammar, h: Symbol, k: int, i: int)
    requires WellFormed(g)
    ensures var es := StartAll(WildcardStarts(g, h), k, i);
            Pending(g, k, i, h, es, CompleteHeads(es) + [h])
  {
    var rs := WildcardStarts(g, h);
    var es := StartAll(rs, k, i);
    StartAllStartsEach(rs, k, i);
    CompleteHeadsAreThose(es);
    forall e | e in es
      ensures JustStarted(SyntaxOf(g), k, i, h, es, e) && e.head in g.nonterminal
    {
      var r :| r in rs && e == Started(r, k, i);
      assert StartedBy(SyntaxOf(g), k, i, h, es, e, r, h);
    }
  }
}
