/** The k-best trellis of the HMM tagger: for every time and state, the k best
    ways of reaching it, best first. */
module Trellises {
  import opened LogProbs

  type Tag = string

  /** A state of the tagger: the tags of two consecutive words. */
  datatype Bigram = Bigram(first: Tag, second: Tag)

  /** A path arriving at some state: where it comes from, which of the paths
      stored there it extends, and its score. */
  datatype Element = Element(state: Bigram, kbest: nat, prob: LogProb)

  const INIT_STATE := Bigram("0", "0")
  const END_STATE := Bigram("ENDSTATE", "ENDSTATE")

  predicate Sorted(es: seq<Element>) {
    forall i, j :: 0 <= i < j < |es| ==> es[j].prob.AtMost(es[i].prob)
  }

  predicate Distinct<T(==)>(es: seq<T>) {
    forall i, j :: 0 <= i < j < |es| ==> es[i] != es[j]
  }

  /** Where an ordered multiset, best first, puts a new element: after every
      element that is at least as good. */
  function Position(es: seq<Element>, p: LogProb): (n: nat)
    ensures n <= |es|
    ensures forall i :: 0 <= i < n ==> p.AtMost(es[i].prob)
    ensures n < |es| ==> es[n].prob.Below(p)
  {
    if es == [] || es[0].prob.Below(p) then 0 else 1 + Position(es[1..], p)
  }

  function Inserted(es: seq<Element>, e: Element): seq<Element> {
    var n := Position(es, e.prob);
    es[..n] + [e] + es[n..]
  }

  /** The best `k` elements after one more candidate has been offered. */
  function Keep(k: nat, es: seq<Element>, e: Element): seq<Element> {
    var more := Inserted(es, e);
    if |more| > k then more[..k] else more
  }

  /** The best `k` of a whole series of candidates. */
  function KeepAll(k: nat, offers: seq<Element>): (es: seq<Element>)
    ensures |es| == if |offers| < k then |offers| else k
  {
    if offers == [] then [] else Keep(k, KeepAll(k, offers[..|offers| - 1]), offers[|offers| - 1])
  }

  /** `es` are the `k` best of `offers`: nothing left out is better than anything kept. */
  ghost predicate AreBest(k: nat, offers: seq<Element>, es: seq<Element>) {
    && |es| == (if |offers| < k then |offers| else k)
    && Sorted(es)
    && Distinct(es)
    && (forall i :: 0 <= i < |es| ==> es[i] in offers)
    && (forall e :: e in offers && e !in es ==>
          |es| == k && forall i :: 0 <= i < |es| ==> e.prob.AtMost(es[i].prob))
  }

  lemma InsertedIsSorted(es: seq<Element>, e: Element)
    requires Sorted(es)
    ensures Sorted(Inserted(es, e))
  {
    var n := Position(es, e.prob);
    var more := Inserted(es, e);
    forall i, j | 0 <= i < j < |more|
      ensures more[j].prob.AtMost(more[i].prob)
    {
      var a := if i < n then i else i - 1;
      var b := if j < n then j else j - 1;
      assert i != n ==> more[i] == es[a];
      assert j != n ==> more[j] == es[b];
      if i < n && n < j {
        assert es[b].prob.AtMost(es[a].prob);
      } else if i == n {
        assert es[n].prob.Below(e.prob);
        assert b == n || es[b].prob.AtMost(es[n].prob);
      }
    }
  }

  lemma SpliceAddsOne<T>(es: seq<T>, n: nat, e: T)
    requires n <= |es|
    ensures var more := es[..n] + [e] + es[n..];
            && (forall x :: x in more <==> x in es || x == e)
            && (Distinct(es) && e !in es ==> Distinct(more))
  {
    var more := es[..n] + [e] + es[n..];
    forall x
      ensures x in more <==> x in es || x == e
    {
      assert es == es[..n] + es[n..];
    }
    if Distinct(es) && e !in es {
      forall i, j | 0 <= i < j < |more|
        ensures more[i] != more[j]
      {
        var a := if i < n then i else i - 1;
        var b := if j < n then j else j - 1;
        assert i != n ==> more[i] == es[a];
        assert j != n ==> more[j] == es[b];
        assert more[n] == e;
      }
    }
  }

  /** Whoever is left out by one more offer is no better than anyone kept. */
  lemma LeftOutIsNoBetter(k: nat, es: seq<Element>, e: Element, x: Element)
    requires Sorted(es) && |es| <= k
    requires x !in Keep(k, es, e)
    requires x == e || x in es || (|es| == k && forall i :: 0 <= i < k ==> x.prob.AtMost(es[i].prob))
    ensures |Keep(k, es, e)| == k
    ensures forall i :: 0 <= i < k ==> x.prob.AtMost(Keep(k, es, e)[i].prob)
  {
    var n := Position(es, e.prob);
    var more := Inserted(es, e);
    InsertedIsSorted(es, e);
    SpliceAddsOne(es, n, e);
    if x in more {
      var j :| 0 <= j < |more| && more[j] == x;
      assert j == k;
    } else {
      forall i | 0 <= i < k
        ensures x.prob.AtMost(more[i].prob)
      {
        assert i < n ==> more[i] == es[i];
        assert i > n ==> more[i] == es[i - 1];
      }
    }
  }

  lemma {:induction false} KeepAllKeepsTheBest(k: nat, offers: seq<Element>)
    requires Distinct(offers)
    ensures AreBest(k, offers, KeepAll(k, offers))
  {
    if offers != [] {
      var before, e := offers[..|offers| - 1], offers[|offers| - 1];
      assert offers == before + [e];
      KeepAllKeepsTheBest(k, before);
      var es := KeepAll(k, before);
      assert e !in before;
      InsertedIsSorted(es, e);
      SpliceAddsOne(es, Position(es, e.prob), e);
      var kept := KeepAll(k, offers);
      assert kept <= Inserted(es, e);
      assert forall i :: 0 <= i < |kept| ==> kept[i] in Inserted(es, e);
      forall x | x in offers && x !in kept
        ensures |kept| == k && forall i :: 0 <= i < |kept| ==> x.prob.AtMost(kept[i].prob)
      {
        LeftOutIsNoBetter(k, es, e, x);
      }
    }
  }

  /** The elements stored for a state, none if the state has not been reached. */
  function Entry(column: map<Bigram, seq<Element>>, s: Bigram): seq<Element> {
    if s in column then column[s] else []
  }

  class Trellis {
    var trl: seq<map<Bigram, seq<Element>>>
    const kbest: nat

    /** A trellis built for zero paths still keeps one: the size check comes after
        the first insertion. */
    function Capacity(): (k: nat)
      ensures 1 <= k
    {
      if kbest == 0 then 1 else kbest
    }

    ghost predicate Valid()
      reads this
    {
      forall t, s :: 0 <= t < |trl| && s in trl[t] ==>
        1 <= |trl[t][s]| <= Capacity() && Sorted(trl[t][s])
    }

    constructor (T: nat, kb: nat)
      ensures Valid() && kbest == kb && trl == seq(T, _ => map[])
    {
      kbest := kb;
      trl := seq(T, _ => map[]);
    }

    /** Offers one more path into state `s` at time `t`. */
    method Insert(t: nat, s: Bigram, sa: Bigram, kb: nat, p: LogProb)
      requires Valid() && t < |trl|
      modifies this
      ensures Valid()
      ensures var was := old(trl);
        trl == was[t := was[t][s := Keep(Capacity(), Entry(was[t], s), Element(sa, kb, p))]]
    {
      var e := Element(sa, kb, p);
      if s !in trl[t] {
        assert Inserted([], e) == [e];
        trl := trl[t := trl[t][s := [e]]];
      } else {
        var es := trl[t][s];
        InsertedIsSorted(es, e);
        var worst := es[|es| - 1];
        if |es| == kbest && p.Below(worst.prob) {
          assert Position(es, p) == |es|;
          assert Keep(Capacity(), es, e) == es;
          assert trl[t][s := es] == trl[t];
          return;
        }
        var more := Inserted(es, e);
        if |more| > kbest {
          more := more[..|more| - 1];
        }
        assert more == Keep(Capacity(), es, e);
        trl := trl[t := trl[t][s := more]];
      }
    }

    method Delta(t: nat, s: Bigram, k: nat) returns (p: LogProb)
      requires t < |trl| && (s in trl[t] ==> k < |trl[t][s]|)
      ensures p == if s in trl[t] then trl[t][s][k].prob else NegInf
    {
      if s !in trl[t] {
        p := NegInf;
      } else {
        p := trl[t][s][k].prob;
      }
    }

    method Phi(t: nat, s: Bigram, k: nat) returns (from: Bigram, rank: nat)
      requires t < |trl| && s in trl[t] && k < |trl[t][s]|
      ensures from == trl[t][s][k].state && rank == trl[t][s][k].kbest
    {
      from, rank := trl[t][s][k].state, trl[t][s][k].kbest;
    }

    method NBest(t: nat, s: Bigram) returns (n: nat)
      requires t < |trl| && s in trl[t]
      ensures n == |trl[t][s]|
    {
      n := |trl[t][s]|;
    }
  }
}
