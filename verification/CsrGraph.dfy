/** Graphs in compressed rows: the targets of each vertex, one row after the other. */
module CsrGraph {
  import opened EdgeLists
  import opened Vectors
  import opened PageRank
  import opened GraphLines

  /** The edges before `r` leave vertices before `n`; those after, vertices from `n` on. */
  ghost predicate SplitAt(s: seq<Edge>, n: nat, r: nat) {
    && r <= |s|
    && (forall i :: 0 <= i < r ==> s[i].0 < n)
    && (r == |s| || (s[r].0 >= n && forall i :: r < i < |s| ==> s[i].0 >= n))
  }

  class Csr {
    var vertexIndex: map<string, nat>
    var numVertices: nat
    var firstEdge: array<nat>
    var numEdges: array<nat>
    var edges: array<nat>
    var outCoef: array<real>

    constructor ()
      ensures numVertices == 0 && vertexIndex == map[]
    {
      vertexIndex, numVertices := map[], 0;
      firstEdge, numEdges, edges, outCoef := new nat[0], new nat[0], new nat[0], new real[0];
    }

    /** Vertices are numbered from 0 on, without gaps. */
    ghost predicate Numbered()
      reads this
    {
      && (forall s :: s in vertexIndex ==> vertexIndex[s] < numVertices)
      && (forall s, t :: s in vertexIndex && t in vertexIndex && vertexIndex[s] == vertexIndex[t] ==> s == t)
      && forall v: nat :: v < numVertices ==> IsNumber(vertexIndex, v)
    }

    /** The number of a vertex, which is the next free one if it is new. */
    method AddVertex(s: string) returns (v: nat)
      requires Numbered()
      modifies this`vertexIndex, this`numVertices
      ensures Numbered() && s in vertexIndex && v == vertexIndex[s]
      ensures vertexIndex == if s in old(vertexIndex) then old(vertexIndex) else old(vertexIndex)[s := old(numVertices)]
      ensures numVertices == if s in old(vertexIndex) then old(numVertices) else old(numVertices) + 1
    {
      if s !in vertexIndex {
        ghost var before := vertexIndex;
        vertexIndex := vertexIndex[s := numVertices];
        numVertices := numVertices + 1;
        forall v: nat | v < numVertices
          ensures IsNumber(vertexIndex, v)
        {
          if v < numVertices - 1 {
            assert IsNumber(before, v);
            var t :| t in before && before[t] == v;
            assert t in vertexIndex && vertexIndex[t] == v;
          } else {
            assert vertexIndex[s] == v;
          }
        }
      }
      v := vertexIndex[s];
    }

    /** The rows of the table are the targets of the sorted list. */
    ghost predicate Represents(s: seq<Edge>, n: nat)
      reads this, firstEdge, numEdges, edges, outCoef
    {
      && firstEdge.Length == numEdges.Length == outCoef.Length == n && edges[..] == Seconds(s)
      && forall v: nat {:trigger HasRow(s, v)} :: v < n ==> HasRow(s, v)
    }

    ghost predicate HasRow(s: seq<Edge>, v: nat)
      requires v < firstEdge.Length && v < numEdges.Length && v < outCoef.Length
      reads this, firstEdge, numEdges, outCoef
    {
      && firstEdge[v] + numEdges[v] <= |s|
      && Seconds(s)[firstEdge[v]..firstEdge[v] + numEdges[v]] == Targets(s, v)
      && outCoef[v] == Share(Degree(s, v))
    }

    /** Copies the targets of vertex `n`, from position `r` on. */
    method FillRow(s: seq<Edge>, n: nat, from: nat) returns (r: nat)
      requires Sorted(s) && SplitAt(s, n, from) && edges.Length == |s| && edges[..from] == Seconds(s)[..from]
      modifies edges
      ensures from <= r && SplitAt(s, n + 1, r) && edges[..r] == Seconds(s)[..r]
      ensures Targets(s, n) == Seconds(s)[from..r]
    {
      r := from;
      while r < |s| && s[r].0 == n
        invariant from <= r <= |s| && edges[..r] == Seconds(s)[..r]
        invariant forall i :: from <= i < r ==> s[i].0 == n
      {
        edges[r] := s[r].1;
        r := r + 1;
      }
      assert forall i :: r <= i < |s| ==> AtMost(s[r], s[i]);
      RowIsSegment(s, n, from, r);
    }

    /** The tables are separate, and large enough. */
    ghost predicate Allocated(s: seq<Edge>, nv: nat)
      reads this
    {
      && firstEdge.Length == numEdges.Length == outCoef.Length == nv && edges.Length == |s|
      && firstEdge != numEdges && firstEdge != edges && numEdges != edges
    }

    /** The rows of the vertices before `n` are filled, up to position `r`; the others are still empty. */
    ghost predicate FilledTo(s: seq<Edge>, nv: nat, n: nat, r: nat)
      requires Allocated(s, nv)
      reads this, firstEdge, numEdges, edges, outCoef
    {
      && n <= nv && SplitAt(s, n, r) && edges[..r] == Seconds(s)[..r]
      && (forall v: nat {:trigger HasRow(s, v)} :: v < n ==> HasRow(s, v))
      && forall v: nat {:trigger firstEdge[v]} {:trigger numEdges[v]} {:trigger outCoef[v]} :: n <= v < nv ==>
           firstEdge[v] == numEdges[v] == 0 && outCoef[v] == 0.0
    }

    /** Makes empty tables. */
    method Allocate(s: seq<Edge>, nv: nat)
      modifies this`firstEdge, this`numEdges, this`edges, this`outCoef
      ensures fresh(firstEdge) && fresh(numEdges) && fresh(edges) && fresh(outCoef)
      ensures Allocated(s, nv) && FilledTo(s, nv, 0, 0)
    {
      firstEdge, numEdges := new nat[nv](i => 0), new nat[nv](i => 0);
      outCoef := new real[nv](i => 0.0);
      edges := new nat[|s|];
    }

    /** Fills the next row. */
    method FillNext(s: seq<Edge>, nv: nat, n: nat, from: nat) returns (r: nat)
      requires Allocated(s, nv) && Sorted(s) && n < nv && FilledTo(s, nv, n, from)
      modifies firstEdge, numEdges, edges, outCoef
      ensures FilledTo(s, nv, n + 1, r)
    {
      firstEdge[n] := from;
      r := FillRow(s, n, from);
      numEdges[n] := r - firstEdge[n];
      outCoef[n] := Share(numEdges[n]);
      forall v: nat | v <= n
        ensures HasRow(s, v)
      {
        if v < n {
          assert old(HasRow(s, v));
        }
      }
    }

    /** Builds the tables of the graph from its list of edges. */
    method FillTables(nv: nat, rels: seq<Edge>)
      requires Inside(rels, nv)
      modifies this`firstEdge, this`numEdges, this`edges, this`outCoef
      ensures fresh(firstEdge) && fresh(numEdges) && fresh(edges) && fresh(outCoef)
      ensures Represents(SortedList(rels), nv)
    {
      var s := SortedList(rels);
      SortedListIsSorted(rels);
      SortedIsInside(rels, nv);
      Allocate(s, nv);
      var n: nat, r: nat := 0, 0;
      while r < |s| && n < nv
        invariant Allocated(s, nv) && FilledTo(s, nv, n, r)
        invariant fresh(firstEdge) && fresh(numEdges) && fresh(edges) && fresh(outCoef)
        decreases nv - n
      {
        r := FillNext(s, nv, n, r);
        n := n + 1;
      }
      AllRowsFilled(s, nv, n, r);
    }

    lemma AllRowsFilled(s: seq<Edge>, nv: nat, n: nat, r: nat)
      requires Allocated(s, nv) && FilledTo(s, nv, n, r) && Inside(s, nv) && (r == |s| || n == nv)
      ensures Represents(s, nv)
    {
      assert edges[..] == edges[..r];
      forall v: nat | n <= v < nv
        ensures HasRow(s, v)
      {
        NoTargets(s, v);
      }
    }

    /** Adds the vertices of a line, and its edge both ways unless it names a single vertex. */
    method LoadLine(l: (string, string), list: seq<Edge>) returns (more: seq<Edge>)
      requires Numbered()
      modifies this`vertexIndex, this`numVertices
      ensures Numbered() && numVertices >= old(numVertices)
      ensures forall s :: s in old(vertexIndex) ==> s in vertexIndex && vertexIndex[s] == old(vertexIndex)[s]
      ensures l.0 in vertexIndex && (l.1 == "-" || l.1 in vertexIndex)
      ensures more == list + EdgesOf(l, vertexIndex)
      ensures vertexIndex.Keys == old(vertexIndex.Keys) + {l.0} + if l.1 == "-" then {} else {l.1}
    {
      var pos1 := AddVertex(l.0);
      more := list;
      if l.1 != "-" {
        var pos2 := AddVertex(l.1);
        more := list + [(pos1, pos2), (pos2, pos1)];
      } else {
        assert list + [] == list;
      }
    }

    /** Reads the lines of a knowledge base: every pair gives an edge and its reverse. */
    method LoadLines(lines: seq<(string, string)>) returns (list: seq<Edge>)
      requires vertexIndex == map[] && numVertices == 0
      modifies this`vertexIndex, this`numVertices
      ensures Numbered() && IsIndexed(lines, vertexIndex) && vertexIndex.Keys == NamesOf(lines)
      ensures list == RelsOf(lines, vertexIndex) && Inside(list, numVertices) && Mirrored(list)
    {
      list := [];
      for i := 0 to |lines|
        invariant Numbered() && IsIndexed(lines[..i], vertexIndex) && list == RelsOf(lines[..i], vertexIndex)
        invariant Inside(list, numVertices) && Mirrored(list) && vertexIndex.Keys == NamesOf(lines[..i])
      {
        ghost var before := vertexIndex;
        ghost var rest := list;
        list := LoadLine(lines[i], list);
        LineKeeps(rest, lines[i], vertexIndex, numVertices);
        RelsOneMore(lines, i, before, vertexIndex);
        NamesOneMore(lines, i);
      }
      assert lines[..|lines|] == lines;
    }

    /** Loads the relations, and builds the tables. */
    method Load(lines: seq<(string, string)>) returns (ghost rels: seq<Edge>)
      requires vertexIndex == map[] && numVertices == 0
      modifies this
      ensures Numbered() && IsIndexed(lines, vertexIndex) && rels == RelsOf(lines, vertexIndex)
      ensures vertexIndex.Keys == NamesOf(lines) && ListsLines(lines, vertexIndex, rels)
      ensures Inside(rels, numVertices) && Mirrored(rels)
      ensures Represents(SortedList(rels), numVertices) && Balanced(SortedList(rels))
      ensures fresh(firstEdge) && fresh(numEdges) && fresh(edges) && fresh(outCoef)
    {
      var list := LoadLines(lines);
      RelsListLines(lines, vertexIndex);
      SortedIsBalanced(list);
      FillTables(numVertices, list);
      rels := list;
    }

    /** The rank that a vertex gets from its neighbours. */
    method RankOf(ghost s: seq<Edge>, v: nat, cur: array<real>) returns (rank: real)
      requires Represents(s, numVertices) && Inside(s, numVertices) && v < numVertices && cur.Length == numVertices
      ensures rank == SumAt(Targets(s, v), Times(outCoef[..], cur[..]))
    {
      rank := 0.0;
      assert HasRow(s, v);
      ghost var us := Targets(s, v);
      ghost var f := Times(outCoef[..], cur[..]);
      var e := firstEdge[v];
      while e < firstEdge[v] + numEdges[v]
        invariant firstEdge[v] <= e <= firstEdge[v] + numEdges[v]
        invariant rank == SumAt(us[..e - firstEdge[v]], f)
      {
        var u := edges[e];
        ghost var k := e - firstEdge[v];
        assert us[k] == u && us[..k + 1][..k] == us[..k];
        rank := rank + Mul(outCoef[u], cur[u]);
        e := e + 1;
      }
      assert us[..|us|] == us;
    }

    /** One step: the next ranks of all vertices, and how much they change in all. */
    method OneStep(ghost s: seq<Edge>, damping: real, pv: seq<real>, cur: array<real>, nxt: array<real>) returns (change: real)
      requires Represents(s, numVertices) && Inside(s, numVertices)
      requires cur.Length == nxt.Length == |pv| == numVertices && cur != nxt && nxt != outCoef
      modifies nxt
      ensures nxt[..] == Step(s, outCoef[..], damping, pv, cur[..]) && change == Change(nxt[..], cur[..])
    {
      change := 0.0;
      ghost var coef, x := outCoef[..], cur[..];
      ghost var y := Step(s, coef, damping, pv, x);
      ghost var gaps := Gap(y, x);
      for v := 0 to numVertices
        invariant nxt[..v] == y[..v] && change == Sum(gaps[..v])
        invariant outCoef[..] == coef && cur[..] == x
      {
        var rank := RankOf(s, v, cur);
        nxt[v] := Mul(damping, rank) + Mul(1.0 - damping, pv[v]);
        SumOneMore(gaps, v);
        change := change + Abs(nxt[v] - cur[v]);
      }
      assert nxt[..] == y && gaps[..numVertices] == gaps;
    }

    /** Repeats steps, between two vectors of ranks, until the change in one of them is below the
        threshold, or as often as allowed. */
    method Iterate(ghost s: seq<Edge>, pv: seq<real>, damping: real, threshold: real, maxIterations: nat)
      returns (cur: array<real>, ghost k: nat)
      requires Represents(s, numVertices) && Inside(s, numVertices) && |pv| == numVertices
      ensures fresh(cur) && StopsAt(s, outCoef[..], damping, pv, threshold, maxIterations, k)
      ensures cur[..] == Ranks(s, outCoef[..], damping, pv, k)
    {
      ghost var coef := outCoef[..];
      cur := EqualRanks(numVertices);
      var nxt := new real[numVertices](i => 0.0);
      var change := threshold;
      k := 0;
      var nit := 0;
      while nit < maxIterations && change >= threshold
        invariant cur.Length == nxt.Length == numVertices && cur != nxt && fresh(cur) && fresh(nxt)
        invariant k == nit <= maxIterations && outCoef[..] == coef
        invariant Iterated(s, coef, damping, pv, threshold, k, cur[..], change)
        decreases maxIterations - nit
      {
        ghost var x, before := cur[..], change;
        change := OneStep(s, damping, pv, cur, nxt);
        IteratedOneMore(s, coef, damping, pv, threshold, k, x, before, nxt[..], change);
        cur, nxt := nxt, cur;
        nit := nit + 1;
        k := k + 1;
      }
      IterationStops(s, coef, damping, pv, threshold, maxIterations, k, cur[..], change);
    }

    /** Ranks the vertices, given their weights, which the ranks replace. */
    method Pagerank(ghost s: seq<Edge>, pv: array<real>, damping: real, threshold: real, maxIterations: nat) returns (ghost k: nat)
      requires Represents(s, numVertices) && Inside(s, numVertices)
      requires pv.Length == numVertices && pv != outCoef
      modifies pv
      ensures StopsAt(s, outCoef[..], damping, old(pv[..]), threshold, maxIterations, k)
      ensures pv[..] == Ranks(s, outCoef[..], damping, old(pv[..]), k)
    {
      ghost var coef := outCoef[..];
      var cur;
      cur, k := Iterate(s, pv[..], damping, threshold, maxIterations);
      forall v | 0 <= v < numVertices {
        pv[v] := cur[v];
      }
      assert pv[..] == cur[..] && outCoef[..] == coef;
    }
  }

  /** Page rank has come to `x`. The total is P + D^k (1 - P) if no vertex is isolated, and every step
      changes less than the one before. */
  ghost predicate IsRanking(s: seq<Edge>, coef: seq<real>, damping: real, pv: seq<real>, threshold: real, most: nat, k: nat,
                            x: seq<real>)
    requires |coef| == |pv|
  {
    && StopsAt(s, coef, damping, pv, threshold, most, k) && x == Ranks(s, coef, damping, pv, k)
    && (pv != [] && NoneIsolated(s, |pv|) ==> Sum(x) == Sum(pv) + Mul(Power(damping, k), 1.0 - Sum(pv)))
    && (damping >= 0.0 ==> forall j {:trigger ChangeAt(s, coef, damping, pv, j)} :: j > 0 ==> Shrinks(s, coef, damping, pv, j))
  }

  ghost predicate Shrinks(s: seq<Edge>, coef: seq<real>, damping: real, pv: seq<real>, j: nat)
    requires |coef| == |pv| && j > 0
  {
    ChangeAt(s, coef, damping, pv, j + 1) <= Mul(damping, ChangeAt(s, coef, damping, pv, j))
  }

  lemma TablesRank(s: seq<Edge>, coef: seq<real>, damping: real, pv: seq<real>, threshold: real, most: nat, k: nat, x: seq<real>)
    requires |coef| == |pv| && Inside(s, |pv|) && Balanced(s) && forall v: nat :: v < |coef| ==> coef[v] == Share(Degree(s, v))
    requires StopsAt(s, coef, damping, pv, threshold, most, k) && x == Ranks(s, coef, damping, pv, k)
    ensures IsRanking(s, coef, damping, pv, threshold, most, k, x)
  {
    TableSharesAreShares(s, coef);
    if pv != [] && NoneIsolated(s, |pv|) {
      TotalOfRanks(s, coef, damping, pv, k);
    }
    if damping >= 0.0 {
      forall j: nat | j > 0
        ensures Shrinks(s, coef, damping, pv, j)
      {
        ChangeShrinks(s, coef, damping, pv, j);
      }
    }
  }

  /** Ranks the vertices of a graph, from weights given to them. */
  method RankAll(c: Csr, ghost s: seq<Edge>, weight: nat -> real, damping: real, threshold: real, maxIterations: nat)
    returns (ranks: array<real>, ghost given: seq<real>, ghost k: nat)
    requires c.Represents(s, c.numVertices) && Inside(s, c.numVertices) && Balanced(s)
    ensures |given| == c.numVertices && forall v :: 0 <= v < |given| ==> given[v] == weight(v)
    ensures fresh(ranks) && IsRanking(s, c.outCoef[..], damping, given, threshold, maxIterations, k, ranks[..])
  {
    ranks := new real[c.numVertices](v => weight(v));
    given := ranks[..];
    k := c.Pagerank(s, ranks, damping, threshold, maxIterations);
    forall v: nat | v < |given|
      ensures c.outCoef[..][v] == Share(Degree(s, v))
    {
      assert c.HasRow(s, v);
    }
    TablesRank(s, c.outCoef[..], damping, given, threshold, maxIterations, k, ranks[..]);
  }

  /** MAIN RESULT: a graph is loaded from the lines of its file, and its vertices are ranked. */
  method LoadAndRank(lines: seq<(string, string)>, weight: nat -> real, damping: real, threshold: real, maxIterations: nat)
    returns (c: Csr, ranks: array<real>, ghost rels: seq<Edge>, ghost given: seq<real>, ghost k: nat)
    ensures c.Numbered() && IsIndexed(lines, c.vertexIndex) && rels == RelsOf(lines, c.vertexIndex)
    ensures c.vertexIndex.Keys == NamesOf(lines) && ListsLines(lines, c.vertexIndex, rels)
    ensures NoneIsolated(SortedList(rels), |given|) <==> forall a :: a in NamesOf(lines) ==> IsPaired(lines, a)
    ensures |given| == c.outCoef.Length == c.numVertices && forall v :: 0 <= v < |given| ==> given[v] == weight(v)
    ensures IsRanking(SortedList(rels), c.outCoef[..], damping, given, threshold, maxIterations, k, ranks[..])
  {
    c := new Csr();
    rels := c.Load(lines);
    SortedIsInside(rels, c.numVertices);
    NoneIsolatedIff(lines, c.vertexIndex, c.numVertices);
    ranks, given, k := RankAll(c, SortedList(rels), weight, damping, threshold, maxIterations);
  }

  method EqualRanks(n: nat) returns (x: array<real>)
    ensures fresh(x) && x[..] == Equal(n)
  {
    x := new real[n];
    for v := 0 to n
      invariant forall i :: 0 <= i < v ==> x[i] == 1.0 / n as real
    {
      x[v] := 1.0 / n as real;
    }
  }

  /** The coefficients of the tables are the shares that page rank needs. */
  lemma TableSharesAreShares(s: seq<Edge>, coef: seq<real>)
    requires forall v: nat :: v < |coef| ==> coef[v] == Share(Degree(s, v))
    ensures AreShares(s, coef)
  {
    forall v: nat | v < |coef|
      ensures ShareOk(s, coef, v)
    {
      ShareIsWhole(Degree(s, v));
    }
  }

  lemma ShareIsWhole(d: nat)
    ensures Share(d) >= 0.0 && Mul(d as real, Share(d)) == if d == 0 then 0.0 else 1.0
  {
  }

  /** The ranks and the change after `k` steps, none of them below the threshold but perhaps the last. */
  ghost predicate Iterated(s: seq<Edge>, coef: seq<real>, damping: real, pv: seq<real>, threshold: real, k: nat,
                           x: seq<real>, change: real)
    requires |coef| == |pv|
  {
    && x == Ranks(s, coef, damping, pv, k)
    && change == (if k == 0 then threshold else ChangeAt(s, coef, damping, pv, k))
    && forall j :: 0 < j < k ==> ChangeAt(s, coef, damping, pv, j) >= threshold
  }

  lemma IteratedOneMore(s: seq<Edge>, coef: seq<real>, damping: real, pv: seq<real>, threshold: real, k: nat,
                        x: seq<real>, change: real, y: seq<real>, next: real)
    requires |coef| == |pv| && Iterated(s, coef, damping, pv, threshold, k, x, change) && change >= threshold
    requires y == Step(s, coef, damping, pv, x) && next == Change(y, x)
    ensures Iterated(s, coef, damping, pv, threshold, k + 1, y, next)
  {
  }

  lemma IterationStops(s: seq<Edge>, coef: seq<real>, damping: real, pv: seq<real>, threshold: real, most: nat, k: nat,
                       x: seq<real>, change: real)
    requires |coef| == |pv| && Iterated(s, coef, damping, pv, threshold, k, x, change)
    requires k <= most && (k == most || change < threshold)
    ensures StopsAt(s, coef, damping, pv, threshold, most, k)
  {
  }

  /** The `k`-th step is the first whose change is below the threshold, or the last allowed. */
  ghost predicate StopsAt(s: seq<Edge>, coef: seq<real>, damping: real, pv: seq<real>, threshold: real, most: nat, k: nat)
    requires |coef| == |pv|
  {
    && k <= most && (k == most || (k > 0 && ChangeAt(s, coef, damping, pv, k) < threshold))
    && forall j :: 0 < j < k ==> ChangeAt(s, coef, damping, pv, j) >= threshold
  }
}
