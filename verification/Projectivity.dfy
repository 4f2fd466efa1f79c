/** Dependency trees of parse trees have every word once, and are projective. */
module Projectivity {
  import opened SyntaxTrees
  import opened Dependencies
  import opened DependencyArcs

  ghost predicate AllDistinct<A>(s: seq<A>) {
    forall i, j :: 0 <= i < j < |s| ==> s[i] != s[j]
  }

  lemma {:induction false} DistinctCount<A>(s: seq<A>, x: A)
    requires AllDistinct(s)
    ensures multiset(s)[x] == if x in s then 1 else 0
  {
    if s != [] {
      var n := |s| - 1;
      assert s == s[..n] + [s[n]];
      DistinctCount(s[..n], x);
    }
  }

  lemma SameIsDistinct<A>(a: seq<A>, b: seq<A>)
    requires Same(a, b) && AllDistinct(b)
    ensures AllDistinct(a)
  {
    forall i, j | 0 <= i < j < |a|
      ensures a[i] != a[j]
    {
      DistinctCount(b, a[i]);
      assert a == a[..j] + [a[j]] + a[j + 1..];
      assert a[i] in multiset(a[..j]) by {
        assert a[..j][i] == a[i];
      }
    }
  }

  /** The places listed are below the children of `p` from `lo` to `hi`, exclusive, from left to right. */
  ghost predicate LeftToRight(p: Path, ps: seq<Path>, lo: nat, hi: nat) {
    && (forall i :: 0 <= i < |ps| ==> IsUnder(p, ps[i], lo, hi))
    && forall i, j :: 0 <= i < j < |ps| ==> LeftOf(ps[i], ps[j])
  }

  lemma JoinLeftToRight(p: Path, a: seq<Path>, b: seq<Path>, lo: nat, mid: nat, hi: nat)
    requires LeftToRight(p, a, lo, mid) && LeftToRight(p, b, mid, hi) && lo <= mid <= hi
    ensures LeftToRight(p, a + b, lo, hi)
  {
    forall i, j | 0 <= i < |a| && 0 <= j < |b|
      ensures LeftOf(a[i], b[j])
    {
      assert IsUnder(p, a[i], lo, mid) && IsUnder(p, b[j], mid, hi);
      assert PartAt(a[i], b[j], |p|);
    }
  }

  lemma LeftToRightAbove(p: Path, i: nat, ps: seq<Path>, n: nat)
    requires LeftToRight(p + [i], ps, 0, n)
    ensures LeftToRight(p, ps, i, i + 1)
  {
    forall k | 0 <= k < |ps|
      ensures IsUnder(p, ps[k], i, i + 1)
    {
      var r := ps[k];
      assert r[..|p|] == r[..|p| + 1][..|p|] && r[|p|] == r[..|p| + 1][|p|];
    }
  }

  lemma {:induction false} LeavesAreOrdered(t: Tree, p: Path)
    ensures t.kids != [] ==> LeftToRight(p, Leaves(t, p), 0, |t.kids|)
    decreases t, 1, 0
  {
    LeavesOfAreOrdered(t, p, |t.kids|);
  }

  lemma {:induction false} LeavesOfAreOrdered(t: Tree, p: Path, n: nat)
    requires n <= |t.kids|
    ensures LeftToRight(p, LeavesOf(t, p, 0, n), 0, n)
    decreases t, 0, n
  {
    if n > 0 {
      var q := p + [n - 1];
      LeavesOfAreOrdered(t, p, n - 1);
      LeavesAreOrdered(t.kids[n - 1], q);
      if t.kids[n - 1].kids == [] {
        assert Leaves(t.kids[n - 1], q) == [q] && q[..|p|] == p;
      } else {
        LeftToRightAbove(p, n - 1, Leaves(t.kids[n - 1], q), |t.kids[n - 1].kids|);
      }
      JoinLeftToRight(p, LeavesOf(t, p, 0, n - 1), Leaves(t.kids[n - 1], q), 0, n - 1, n);
    }
  }

  lemma LeftIsOther(a: Path, b: Path)
    requires LeftOf(a, b)
    ensures a != b
  {
  }

  lemma LeavesAreDistinct(t: Tree, p: Path)
    ensures AllDistinct(Leaves(t, p))
  {
    LeavesAreOrdered(t, p);
    forall i, j | 0 <= i < j < |Leaves(t, p)|
      ensures Leaves(t, p)[i] != Leaves(t, p)[j]
    {
      LeftIsOther(Leaves(t, p)[i], Leaves(t, p)[j]);
    }
  }

  /** Every word becomes exactly one node of the dependency tree, and there is no other node. */
  lemma EachWordIsOneNode(t: Tree, p: Path, link: Path)
    ensures AllDistinct(Nodes(Depend(t, p, link)))
    ensures forall r :: r in Nodes(Depend(t, p, link)) <==> r in Leaves(t, p)
  {
    var nodes, leaves := Nodes(Depend(t, p, link)), Leaves(t, p);
    NodesAreLeaves(t, p, link);
    LeavesAreDistinct(t, p);
    SameIsDistinct(nodes, leaves);
    forall r
      ensures r in nodes <==> r in leaves
    {
      assert r in nodes <==> r in multiset(nodes);
      assert r in leaves <==> r in multiset(leaves);
    }
  }

  /** The words below `d` stand side by side in `words`. */
  ghost predicate Adjacent(d: Dep, words: seq<Path>) {
    exists lo: nat, hi: nat :: IsSpan(d, words, lo, hi)
  }

  predicate IsSpan(d: Dep, words: seq<Path>, lo: nat, hi: nat) {
    lo <= hi <= |words| && Same(Nodes(d), words[lo..hi])
  }

  /** So do those below every word under `d`. */
  ghost predicate Projective(d: Dep, words: seq<Path>) {
    Adjacent(d, words) && AllProjective(d.kids, words)
  }

  ghost predicate AllProjective(ds: seq<Dep>, words: seq<Path>) {
    forall i :: 0 <= i < |ds| ==> Projective(ds[i], words)
  }

  lemma {:induction false} ProjectiveInMore(d: Dep, a: seq<Path>, words: seq<Path>, b: seq<Path>)
    requires Projective(d, words)
    ensures Projective(d, a + words + b)
    decreases d, 0
  {
    var lo: nat, hi: nat :| IsSpan(d, words, lo, hi);
    var all := a + words + b;
    assert all[|a| + lo..|a| + hi] == words[lo..hi];
    assert IsSpan(d, all, |a| + lo, |a| + hi);
    AllProjectiveInMore(d.kids, a, words, b);
  }

  lemma {:induction false} AllProjectiveInMore(ds: seq<Dep>, a: seq<Path>, words: seq<Path>, b: seq<Path>)
    requires AllProjective(ds, words)
    ensures AllProjective(ds, a + words + b)
    decreases ds, 1
  {
    forall i | 0 <= i < |ds|
      ensures Projective(ds[i], a + words + b)
    {
      ProjectiveInMore(ds[i], a, words, b);
    }
  }

  lemma JoinProjective(a: seq<Dep>, b: seq<Dep>, words: seq<Path>)
    requires AllProjective(a, words) && AllProjective(b, words)
    ensures AllProjective(a + b, words)
  {
  }

  lemma WholeIsAdjacent(t: Tree, p: Path, link: Path)
    ensures Adjacent(Depend(t, p, link), Leaves(t, p))
  {
    NodesAreLeaves(t, p, link);
    var words := Leaves(t, p);
    assert words[0..|words|] == words;
    assert IsSpan(Depend(t, p, link), words, 0, |words|);
  }

  /** MAIN RESULT: a dependency tree is projective: the words below each of its words stand side by
      side in the sentence. */
  lemma {:induction false} DependencyTreeIsProjective(t: Tree, p: Path, link: Path)
    ensures Projective(Depend(t, p, link), Leaves(t, p))
    decreases t, 1, 0
  {
    WholeIsAdjacent(t, p, link);
    if t.kids != [] {
      var h, n := HeadIndex(t.kids), |t.kids|;
      var d := Depend(t.kids[h], p + [h], Onward(t, p, link));
      var left, right := Depends(t, p, 0, h), Depends(t, p, h + 1, n);
      DependencyTreeIsProjective(t.kids[h], p + [h], Onward(t, p, link));
      LeavesAround(t, p, h);
      AllProjectiveInMore(d.kids, LeavesOf(t, p, 0, h), Leaves(t.kids[h], p + [h]), LeavesOf(t, p, h + 1, n));
      SiblingsAreProjective(t, p, 0, h);
      SiblingsAreProjective(t, p, h + 1, n);
      JoinProjective(left, d.kids, Leaves(t, p));
      JoinProjective(left + d.kids, right, Leaves(t, p));
      assert Depend(t, p, link).kids == left + d.kids + right;
    }
  }

  lemma {:induction false} SiblingsAreProjective(t: Tree, p: Path, lo: nat, hi: nat)
    requires lo <= hi <= |t.kids|
    ensures AllProjective(Depends(t, p, lo, hi), Leaves(t, p))
    decreases t, 0, hi - lo
  {
    if lo < hi {
      var i := hi - 1;
      SiblingsAreProjective(t, p, lo, i);
      DependencyTreeIsProjective(t.kids[i], p + [i], p + [i]);
      LeavesAround(t, p, i);
      var e := Depend(t.kids[i], p + [i], p + [i]);
      ProjectiveInMore(e, LeavesOf(t, p, 0, i), Leaves(t.kids[i], p + [i]), LeavesOf(t, p, i + 1, |t.kids|));
      JoinProjective(Depends(t, p, lo, i), [e], Leaves(t, p));
    }
  }
}
