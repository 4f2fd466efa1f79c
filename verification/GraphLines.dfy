/** The edges that the lines of a knowledge base stand for. */
module GraphLines {
  import opened EdgeLists
  import opened PageRank

  /** All vertices of the lines are numbered. */
  predicate IsIndexed(lines: seq<(string, string)>, index: map<string, nat>) {
    forall l :: l in lines ==> l.0 in index && (l.1 == "-" || l.1 in index)
  }

  /** The edges of the lines, by the numbers of their vertices. */
  function RelsOf(lines: seq<(string, string)>, index: map<string, nat>): seq<Edge>
    requires IsIndexed(lines, index)
  {
    if lines == [] then [] else
    var l := lines[|lines| - 1];
    RelsOf(lines[..|lines| - 1], index) + EdgesOf(l, index)
  }

  function EdgesOf(l: (string, string), index: map<string, nat>): seq<Edge>
    requires l.0 in index && (l.1 == "-" || l.1 in index)
  {
    if l.1 == "-" then [] else [(index[l.0], index[l.1]), (index[l.1], index[l.0])]
  }

  /** A line keeps the list of edges mirrored, and inside. */
  lemma LineKeeps(list: seq<Edge>, l: (string, string), index: map<string, nat>, n: nat)
    requires Mirrored(list) && Inside(list, n) && l.0 in index && (l.1 == "-" || l.1 in index)
    requires forall s :: s in index ==> index[s] < n
    ensures Mirrored(list + EdgesOf(l, index)) && Inside(list + EdgesOf(l, index), n)
  {
    if l.1 == "-" {
      assert list + [] == list;
    } else {
      assert (list + EdgesOf(l, index))[..|list|] == list;
    }
  }

  lemma {:induction false} RelsStay(lines: seq<(string, string)>, index: map<string, nat>, more: map<string, nat>)
    requires IsIndexed(lines, index) && forall s :: s in index ==> s in more && more[s] == index[s]
    ensures IsIndexed(lines, more) && RelsOf(lines, more) == RelsOf(lines, index)
  {
    if lines != [] {
      RelsStay(lines[..|lines| - 1], index, more);
    }
  }

  lemma RelsOneMore(lines: seq<(string, string)>, i: nat, index: map<string, nat>, more: map<string, nat>)
    requires i < |lines| && IsIndexed(lines[..i], index)
    requires forall s :: s in index ==> s in more && more[s] == index[s]
    requires lines[i].0 in more && (lines[i].1 == "-" || lines[i].1 in more)
    ensures IsIndexed(lines[..i + 1], more)
    ensures RelsOf(lines[..i + 1], more) == RelsOf(lines[..i], index) + EdgesOf(lines[i], more)
  {
    assert lines[..i + 1] == lines[..i] + [lines[i]];
    assert lines[..i + 1][..i] == lines[..i];
    RelsStay(lines[..i], index, more);
  }

  /** No two names have the same number. */
  ghost predicate IsInjective(index: map<string, nat>) {
    forall s, t :: s in index && t in index && index[s] == index[t] ==> s == t
  }

  /** The lines that name two vertices. */
  function PairLines(lines: seq<(string, string)>): seq<(string, string)> {
    if lines == [] then [] else
    var l := lines[|lines| - 1];
    PairLines(lines[..|lines| - 1]) + if l.1 == "-" then [] else [l]
  }

  lemma {:induction false} PairLinesAre(lines: seq<(string, string)>, l: (string, string))
    ensures multiset(PairLines(lines))[l] == if l.1 == "-" then 0 else multiset(lines)[l]
  {
    if lines != [] {
      var n := |lines| - 1;
      PairLinesAre(lines[..n], l);
      assert lines == lines[..n] + [lines[n]];
    }
  }

  /** How often a list has one edge or the other. */
  lemma CountOfTwo(e: Edge, f: Edge, x: Edge)
    ensures multiset([e, f])[x] == (if e == x then 1 else 0) + if f == x then 1 else 0
  {
    assert [e, f] == [e] + [f];
  }

  lemma LineCount(l: (string, string), index: map<string, nat>, a: string, b: string)
    requires l.0 in index && (l.1 == "-" || l.1 in index) && a in index && b in index && IsInjective(index)
    ensures multiset(EdgesOf(l, index))[(index[a], index[b])]
         == (if l == (a, b) && b != "-" then 1 else 0) + if l == (b, a) && a != "-" then 1 else 0
  {
    if l.1 != "-" {
      CountOfTwo((index[l.0], index[l.1]), (index[l.1], index[l.0]), (index[a], index[b]));
    }
  }

  /** MAIN RESULT: there are as many edges from one vertex to another as lines that name both, in either
      order; and two edges for each line that names two. */
  lemma {:induction false} EdgeCount(lines: seq<(string, string)>, index: map<string, nat>, a: string, b: string)
    requires IsIndexed(lines, index) && IsInjective(index) && a in index && b in index
    ensures multiset(RelsOf(lines, index))[(index[a], index[b])]
         == multiset(PairLines(lines))[(a, b)] + multiset(PairLines(lines))[(b, a)]
    ensures |RelsOf(lines, index)| == 2 * |PairLines(lines)|
  {
    if lines != [] {
      var n := |lines| - 1;
      var l := lines[n];
      EdgeCount(lines[..n], index, a, b);
      LineCount(l, index, a, b);
      var more := if l.1 == "-" then [] else [l];
      assert multiset(more)[(a, b)] == if l == (a, b) && b != "-" then 1 else 0;
      assert multiset(more)[(b, a)] == if l == (b, a) && a != "-" then 1 else 0;
    }
  }

  /** The rows of the sorted list have each target as often as lines name it together with the source. */
  lemma RowCount(lines: seq<(string, string)>, index: map<string, nat>, a: string, b: string)
    requires IsIndexed(lines, index) && IsInjective(index) && a in index && b in index
    ensures multiset(Targets(SortedList(RelsOf(lines, index)), index[a]))[index[b]]
         == (if b == "-" then 0 else multiset(lines)[(a, b)]) + if a == "-" then 0 else multiset(lines)[(b, a)]
  {
    var rels := RelsOf(lines, index);
    SortedListIsSorted(rels);
    TargetCount(SortedList(rels), index[a], index[b]);
    EdgeCount(lines, index, a, b);
    PairLinesAre(lines, (a, b));
    PairLinesAre(lines, (b, a));
  }

  /** The edges are those that the lines name, each both ways, and no others. */
  ghost predicate ListsLines(lines: seq<(string, string)>, index: map<string, nat>, rels: seq<Edge>) {
    && |rels| == 2 * |PairLines(lines)|
    && forall a, b {:trigger HasCount(lines, index, rels, a, b)} :: a in index && b in index ==> HasCount(lines, index, rels, a, b)
  }

  ghost predicate HasCount(lines: seq<(string, string)>, index: map<string, nat>, rels: seq<Edge>, a: string, b: string)
    requires a in index && b in index
  {
    && multiset(rels)[(index[a], index[b])] == multiset(PairLines(lines))[(a, b)] + multiset(PairLines(lines))[(b, a)]
    && multiset(Targets(SortedList(rels), index[a]))[index[b]] == multiset(rels)[(index[a], index[b])]
  }

  lemma {:induction false} RelsLength(lines: seq<(string, string)>, index: map<string, nat>)
    requires IsIndexed(lines, index)
    ensures |RelsOf(lines, index)| == 2 * |PairLines(lines)|
  {
    if lines != [] {
      RelsLength(lines[..|lines| - 1], index);
    }
  }

  lemma RelsListLines(lines: seq<(string, string)>, index: map<string, nat>)
    requires IsIndexed(lines, index) && IsInjective(index)
    ensures ListsLines(lines, index, RelsOf(lines, index))
  {
    var rels := RelsOf(lines, index);
    RelsLength(lines, index);
    forall a, b | a in index && b in index
      ensures HasCount(lines, index, rels, a, b)
    {
      EdgeCount(lines, index, a, b);
      SortedListIsSorted(rels);
      TargetCount(SortedList(rels), index[a], index[b]);
    }
  }

  /** All names in some lines. */
  function NamesOf(lines: seq<(string, string)>): set<string> {
    if lines == [] then {} else
    var l := lines[|lines| - 1];
    NamesOf(lines[..|lines| - 1]) + {l.0} + if l.1 == "-" then {} else {l.1}
  }

  /** Some line names the vertex together with another, or with itself. */
  ghost predicate IsPaired(lines: seq<(string, string)>, a: string) {
    exists l :: l in PairLines(lines) && (l.0 == a || l.1 == a)
  }

  lemma {:induction false} PairLinesAreNamed(lines: seq<(string, string)>, index: map<string, nat>)
    requires IsIndexed(lines, index)
    ensures forall l :: l in PairLines(lines) ==> l.0 in index && l.1 in index
  {
    if lines != [] {
      var n := |lines| - 1;
      PairLinesAreNamed(lines[..n], index);
      assert lines[n] in lines;
    }
  }

  lemma NamesOneMore(lines: seq<(string, string)>, i: nat)
    requires i < |lines|
    ensures NamesOf(lines[..i + 1]) == NamesOf(lines[..i]) + {lines[i].0} + if lines[i].1 == "-" then {} else {lines[i].1}
  {
    assert lines[..i + 1][..i] == lines[..i];
  }

  /** Some name has the number. */
  ghost predicate IsNumber(index: map<string, nat>, v: nat) {
    exists s :: s in index && index[s] == v
  }

  lemma PairedHasEdges(lines: seq<(string, string)>, index: map<string, nat>, a: string)
    requires IsIndexed(lines, index) && ListsLines(lines, index, RelsOf(lines, index)) && a in index && IsPaired(lines, a)
    ensures Degree(SortedList(RelsOf(lines, index)), index[a]) > 0
  {
    var rels := RelsOf(lines, index);
    var l :| l in PairLines(lines) && (l.0 == a || l.1 == a);
    PairLinesAreNamed(lines, index);
    var b := if l.0 == a then l.1 else l.0;
    assert HasCount(lines, index, rels, a, b);
    assert l in multiset(PairLines(lines));
    assert index[b] in multiset(Targets(SortedList(rels), index[a]));
  }

  lemma WithEdgesIsPaired(lines: seq<(string, string)>, index: map<string, nat>, a: string, w: nat)
    requires IsIndexed(lines, index) && ListsLines(lines, index, RelsOf(lines, index)) && a in index && IsNumber(index, w)
    requires w in Targets(SortedList(RelsOf(lines, index)), index[a])
    ensures IsPaired(lines, a)
  {
    var rels := RelsOf(lines, index);
    var b :| b in index && index[b] == w;
    assert HasCount(lines, index, rels, a, b);
    assert w in multiset(Targets(SortedList(rels), index[a]));
    assert (a, b) in multiset(PairLines(lines)) || (b, a) in multiset(PairLines(lines));
    assert (a, b) in PairLines(lines) || (b, a) in PairLines(lines);
  }

  lemma {:induction false} TargetsAreInside(rels: seq<Edge>, v: nat, n: nat)
    requires Inside(rels, n)
    ensures forall w :: w in Targets(rels, v) ==> w < n
  {
    if rels != [] {
      var m := |rels| - 1;
      assert rels[m] in rels;
      TargetsAreInside(rels[..m], v, n);
    }
  }

  /** A vertex has edges exactly if some line names it together with another, or with itself. */
  lemma DegreeIff(lines: seq<(string, string)>, index: map<string, nat>, a: string, n: nat)
    requires IsIndexed(lines, index) && ListsLines(lines, index, RelsOf(lines, index)) && a in index
    requires Inside(RelsOf(lines, index), n) && forall v: nat :: v < n ==> IsNumber(index, v)
    ensures Degree(SortedList(RelsOf(lines, index)), index[a]) > 0 <==> IsPaired(lines, a)
  {
    var row := Targets(SortedList(RelsOf(lines, index)), index[a]);
    if row != [] {
      SortedIsInside(RelsOf(lines, index), n);
      TargetsAreInside(SortedList(RelsOf(lines, index)), index[a], n);
      assert row[0] in row;
      WithEdgesIsPaired(lines, index, a, row[0]);
    }
    if IsPaired(lines, a) {
      PairedHasEdges(lines, index, a);
    }
  }

  /** No vertex is isolated exactly if every name is on some line with another, or with itself. */
  lemma NoneIsolatedIff(lines: seq<(string, string)>, index: map<string, nat>, n: nat)
    requires IsIndexed(lines, index) && ListsLines(lines, index, RelsOf(lines, index))
    requires Inside(RelsOf(lines, index), n) && forall a :: a in index ==> index[a] < n
    requires forall v: nat :: v < n ==> IsNumber(index, v)
    ensures NoneIsolated(SortedList(RelsOf(lines, index)), n) <==> forall a :: a in index ==> IsPaired(lines, a)
  {
    var s := SortedList(RelsOf(lines, index));
    forall a | a in index
      ensures Degree(s, index[a]) > 0 <==> IsPaired(lines, a)
    {
      DegreeIff(lines, index, a, n);
    }
    if forall a :: a in index ==> IsPaired(lines, a) {
      forall v: nat | v < n
        ensures Degree(s, v) > 0
      {
        assert IsNumber(index, v);
        var a :| a in index && index[a] == v;
      }
    }
  }
}
