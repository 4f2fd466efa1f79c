/** Edge lists, and the targets of each vertex in them. */
module EdgeLists {

  type Edge = (nat, nat)

  /** The targets of the edges that leave `v`, in the order of the list. */
  function Targets(rels: seq<Edge>, v: nat): seq<nat> {
    if rels == [] then [] else
    var last := rels[|rels| - 1];
    Targets(rels[..|rels| - 1], v) + if last.0 == v then [last.1] else []
  }

  predicate Inside(rels: seq<Edge>, n: nat) {
    forall i :: 0 <= i < |rels| ==> rels[i].0 < n && rels[i].1 < n
  }

  lemma {:induction false} TargetsOfSum(a: seq<Edge>, b: seq<Edge>, v: nat)
    ensures Targets(a + b, v) == Targets(a, v) + Targets(b, v)
  {
    if b == [] {
      assert a + b == a;
    } else {
      assert (a + b)[..|a + b| - 1] == a + b[..|b| - 1];
      TargetsOfSum(a, b[..|b| - 1], v);
    }
  }

  lemma {:induction false} NoTargets(rels: seq<Edge>, v: nat)
    requires forall e :: e in rels ==> e.0 != v
    ensures Targets(rels, v) == []
  {
    if rels != [] {
      NoTargets(rels[..|rels| - 1], v);
    }
  }

  /** The second components. */
  function Seconds(rels: seq<Edge>): (s: seq<nat>)
    ensures |s| == |rels|
  {
    seq(|rels|, i requires 0 <= i < |rels| => rels[i].1)
  }

  lemma {:induction false} AllTargets(rels: seq<Edge>, v: nat)
    requires forall e :: e in rels ==> e.0 == v
    ensures Targets(rels, v) == Seconds(rels)
  {
    if rels != [] {
      var m := |rels| - 1;
      AllTargets(rels[..m], v);
      assert Seconds(rels) == Seconds(rels[..m]) + [rels[m].1];
    }
  }

  /** How often `w` is a target of `v` is how often the edge is in the list. */
  lemma {:induction false} TargetCount(rels: seq<Edge>, v: nat, w: nat)
    ensures multiset(Targets(rels, v))[w] == multiset(rels)[(v, w)]
  {
    if rels != [] {
      var m := |rels| - 1;
      TargetCount(rels[..m], v, w);
      assert rels == rels[..m] + [rels[m]];
    }
  }

  /** The order in which edges are sorted: by source, then by target. */
  predicate AtMost(a: Edge, b: Edge) {
    a.0 < b.0 || (a.0 == b.0 && a.1 <= b.1)
  }

  predicate Sorted(rels: seq<Edge>) {
    forall i, j :: 0 <= i <= j < |rels| ==> AtMost(rels[i], rels[j])
  }

  function Inserted(s: seq<Edge>, e: Edge): seq<Edge> {
    if s == [] || AtMost(s[|s| - 1], e) then s + [e]
    else Inserted(s[..|s| - 1], e) + [s[|s| - 1]]
  }

  function SortedList(rels: seq<Edge>): seq<Edge> {
    if rels == [] then [] else Inserted(SortedList(rels[..|rels| - 1]), rels[|rels| - 1])
  }

  lemma {:induction false} InsertedIsSorted(s: seq<Edge>, e: Edge)
    requires Sorted(s)
    ensures multiset(Inserted(s, e)) == multiset(s) + multiset{e} && Sorted(Inserted(s, e))
  {
    if s != [] && !AtMost(s[|s| - 1], e) {
      var m := |s| - 1;
      InsertedIsSorted(s[..m], e);
      assert s == s[..m] + [s[m]];
      InsertedBelow(s, e, Inserted(s[..m], e));
    }
  }

  lemma InsertedBelow(s: seq<Edge>, e: Edge, t: seq<Edge>)
    requires s != [] && Sorted(s) && !AtMost(s[|s| - 1], e)
    requires Sorted(t) && multiset(t) == multiset(s[..|s| - 1]) + multiset{e}
    ensures Sorted(t + [s[|s| - 1]])
  {
    forall i | 0 <= i < |t|
      ensures AtMost(t[i], s[|s| - 1])
    {
      assert t[i] in multiset(t);
      assert t[i] in s[..|s| - 1] || t[i] == e;
    }
  }

  /** Sorting keeps the edges, each as often as before. */
  lemma {:induction false} SortedListIsSorted(rels: seq<Edge>)
    ensures multiset(SortedList(rels)) == multiset(rels) && Sorted(SortedList(rels))
  {
    if rels != [] {
      var m := |rels| - 1;
      SortedListIsSorted(rels[..m]);
      InsertedIsSorted(SortedList(rels[..m]), rels[m]);
      assert rels == rels[..m] + [rels[m]];
    }
  }

  /** In a sorted list, the edges of one source stand side by side. */
  lemma RowIsSegment(s: seq<Edge>, v: nat, lo: nat, hi: nat)
    requires lo <= hi <= |s|
    requires forall i :: 0 <= i < lo ==> s[i].0 < v
    requires forall i :: lo <= i < hi ==> s[i].0 == v
    requires forall i :: hi <= i < |s| ==> s[i].0 > v
    ensures Targets(s, v) == Seconds(s)[lo..hi]
  {
    assert s == s[..lo] + s[lo..hi] + s[hi..];
    TargetsOfSum(s[..lo] + s[lo..hi], s[hi..], v);
    TargetsOfSum(s[..lo], s[lo..hi], v);
    NoTargets(s[..lo], v);
    AllTargets(s[lo..hi], v);
    NoTargets(s[hi..], v);
    assert Seconds(s[lo..hi]) == Seconds(s)[lo..hi];
  }

  function Degree(rels: seq<Edge>, v: nat): nat {
    |Targets(rels, v)|
  }

  /** The share of its rank that a vertex gives to each neighbour. */
  function Share(degree: nat): real {
    if degree == 0 then 0.0 else 1.0 / degree as real
  }

  lemma SortedIsInside(rels: seq<Edge>, n: nat)
    requires Inside(rels, n)
    ensures Inside(SortedList(rels), n)
  {
    SortedListIsSorted(rels);
    var s := SortedList(rels);
    forall i | 0 <= i < |s|
      ensures s[i].0 < n && s[i].1 < n
    {
      assert s[i] in multiset(s);
      assert s[i] in rels;
    }
  }
}
