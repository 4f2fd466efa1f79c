/** What the dependency tree of a parse tree says: governors, links, spans and order. */
module DependencyArcs {
  import opened SyntaxTrees
  import opened Dependencies

  predicate IsLeaf(t: Tree, r: Path) {
    IsPlace(t, r) && Sub(t, r).kids == []
  }

  /** The lexical head: down the head children to a leaf. */
  function LexHead(t: Tree): Path {
    if t.kids == [] then [] else
    var h := HeadIndex(t.kids);
    [h] + LexHead(t.kids[h])
  }

  /** The maximal projection of a word: the highest constituent of which it is the lexical head. */
  function MaxProj(t: Tree, r: Path): (m: Path)
    requires IsLeaf(t, r)
    ensures IsPlace(t, m)
  {
    if t.kids == [] then [] else
    var m := MaxProj(t.kids[r[0]], r[1..]);
    if m == [] && r[0] == HeadIndex(t.kids) then [] else [r[0]] + m
  }

  predicate IsProjection(t: Tree, r: Path, m: Path) {
    IsPlace(t, m) && r == m + LexHead(Sub(t, m))
  }

  lemma {:induction false} LexHeadIsLeaf(t: Tree)
    ensures IsLeaf(t, LexHead(t)) && MaxProj(t, LexHead(t)) == []
  {
    if t.kids != [] {
      LexHeadIsLeaf(t.kids[HeadIndex(t.kids)]);
    }
  }

  /** The maximal projection is the highest of all constituents that the word is the head of. */
  lemma {:induction false} MaxProjIsHighest(t: Tree, r: Path)
    requires IsLeaf(t, r)
    ensures IsProjection(t, r, MaxProj(t, r))
    ensures forall m :: IsProjection(t, r, m) ==> MaxProj(t, r) <= m
  {
    if t.kids != [] {
      var i := r[0];
      MaxProjIsHighest(t.kids[i], r[1..]);
      var m := MaxProj(t, r);
      assert m != [] ==> m[1..] == MaxProj(t.kids[i], r[1..]);
      forall q | IsProjection(t, r, q)
        ensures m <= q
      {
        if q != [] {
          ProjectionBelow(t, r, q);
        } else {
          assert IsProjection(t.kids[i], r[1..], []);
        }
      }
    }
  }

  lemma ProjectionBelow(t: Tree, r: Path, q: Path)
    requires t.kids != [] && q != [] && IsProjection(t, r, q)
    ensures r != [] && r[0] == q[0] && r[0] < |t.kids| && IsProjection(t.kids[r[0]], r[1..], q[1..])
  {
    assert r[1..] == q[1..] + LexHead(Sub(t, q));
  }

  /** What a word is linked to. */
  function LinkOf(t: Tree, p: Path, link: Path): Path {
    if t.kids == [] then link else
    var h := HeadIndex(t.kids);
    LinkOf(t.kids[h], p + [h], Onward(t, p, link))
  }

  /** Every constituent on the way down to the head is marked as a head. */
  predicate MarkedDown(t: Tree) {
    t.kids == [] || (t.head && MarkedDown(t.kids[HeadIndex(t.kids)]))
  }

  lemma {:induction false} LinkStaysIff(t: Tree, p: Path, link: Path)
    requires |link| < |p|
    ensures LinkOf(t, p, link) == link <==> MarkedDown(t)
    ensures LinkOf(t, p, link) == link || |LinkOf(t, p, link)| >= |p|
  {
    if t.kids != [] {
      var h := HeadIndex(t.kids);
      if t.head {
        LinkStaysIff(t.kids[h], p + [h], link);
      } else {
        LinkStaysIff(t.kids[h], p + [h], p);
      }
    }
  }

  /** A word is linked to its maximal projection exactly when all constituents between them are
      marked as heads. */
  lemma LinkIsMaxProjIff(t: Tree, p: Path)
    ensures LinkOf(t, p, p) == p <==> t.kids == [] || MarkedDown(t.kids[HeadIndex(t.kids)])
  {
    if t.kids != [] {
      var h := HeadIndex(t.kids);
      LinkStaysIff(t.kids[h], p + [h], p);
    }
  }

  /** A sentence of one phrase that is not marked as its head. */
  function UnmarkedPhrase(): Tree {
    Tree("S", true, 0, 0, [Tree("sn", false, 0, 0, [Tree("N", true, 0, 0, [])])])
  }

  /** Its word heads the sentence, but is linked to the phrase. */
  lemma UnmarkedPhraseIsLinked()
    ensures IsLeaf(UnmarkedPhrase(), [0, 0]) && MaxProj(UnmarkedPhrase(), [0, 0]) == []
    ensures LinkOf(UnmarkedPhrase(), [], []) == [0]
  {
    var t := UnmarkedPhrase();
    assert [0, 0][1..] == [0] && [0][1..] == [];
    assert MaxProj(t.kids[0], [0]) == [];
  }

  /** Every constituent has a child marked as its head. */
  predicate Headed(t: Tree) {
    (t.kids == [] || !NoHead(t.kids)) && forall i :: 0 <= i < |t.kids| ==> Headed(t.kids[i])
  }

  lemma {:induction false} HeadedIsMarkedDown(t: Tree)
    requires Headed(t) && t.head
    ensures MarkedDown(t)
  {
    if t.kids != [] {
      HeadedIsMarkedDown(t.kids[HeadIndex(t.kids)]);
    }
  }

  /** With a head in every constituent, a word is linked to its maximal projection. */
  lemma HeadedIsLinkedToMaxProj(t: Tree, p: Path)
    requires Headed(t)
    ensures LinkOf(t, p, p) == p
  {
    LinkIsMaxProjIff(t, p);
    if t.kids != [] {
      HeadedIsMarkedDown(t.kids[HeadIndex(t.kids)]);
    }
  }

  /** The governor: the lexical head of what is above the maximal projection `m`. */
  function Governor(t: Tree, p: Path, m: Path): Path
    requires IsPlace(t, m) && m != []
  {
    PlaceAbove(t, m);
    var a := m[..|m| - 1];
    p + a + LexHead(Sub(t, a))
  }

  /** `d` stands for word `r` of `t`, and is governed by `gov`, as the parse tree says. */
  ghost predicate StandsFor(t: Tree, p: Path, d: Dep, gov: Path, r: Path) {
    && IsLeaf(t, r) && d.leaf == p + r
    && var m := MaxProj(t, r);
       && m != [] && gov == Governor(t, p, m)
       && Covers(d, Sub(t, m), p + m)
  }

  /** `d` carries the chunk of constituent `q`, is linked as it says, and has its words below it. */
  ghost predicate Covers(d: Dep, t: Tree, q: Path) {
    d.chunk == t.chunk && d.link == LinkOf(t, q, q) && Same(Nodes(d), Leaves(t, q))
  }

  ghost predicate Governed(t: Tree, p: Path, d: Dep, gov: Path)
    decreases d, 0
  {
    (exists r :: StandsFor(t, p, d, gov, r)) && AllGoverned(t, p, d.kids, d.leaf)
  }

  ghost predicate AllGoverned(t: Tree, p: Path, ds: seq<Dep>, gov: Path)
    decreases ds, 1
  {
    forall i :: 0 <= i < |ds| ==> Governed(t, p, ds[i], gov)
  }

  lemma AllGovernedSum(t: Tree, p: Path, a: seq<Dep>, b: seq<Dep>, gov: Path)
    requires AllGoverned(t, p, a, gov) && AllGoverned(t, p, b, gov)
    ensures AllGoverned(t, p, a + b, gov)
  {
  }

  lemma SubBelow(t: Tree, i: nat, m: Path)
    requires i < |t.kids| && IsPlace(t.kids[i], m)
    ensures IsPlace(t, [i] + m) && Sub(t, [i] + m) == Sub(t.kids[i], m)
  {
    assert ([i] + m)[1..] == m;
  }

  lemma GovernorBelow(t: Tree, p: Path, i: nat, m: Path)
    requires i < |t.kids| && IsPlace(t.kids[i], m) && m != []
    ensures IsPlace(t, [i] + m) && Governor(t, p, [i] + m) == Governor(t.kids[i], p + [i], m)
  {
    var a := m[..|m| - 1];
    SubBelow(t, i, m);
    PlaceAbove(t.kids[i], m);
    SubBelow(t, i, a);
    SliceBelow(i, m);
    AboveBelow(p, i, a, LexHead(Sub(t, [i] + a)));
  }

  lemma SliceBelow(i: nat, m: Path)
    requires m != []
    ensures ([i] + m)[..|[i] + m| - 1] == [i] + m[..|m| - 1]
  {
  }

  lemma AboveBelow(p: Path, i: nat, a: Path, r: Path)
    ensures p + ([i] + a) + r == p + [i] + a + r
  {
    assert p + ([i] + a) == p + [i] + a;
  }

  lemma MaxProjBelow(t: Tree, i: nat, r: Path)
    requires i < |t.kids| && IsLeaf(t.kids[i], r)
    ensures IsLeaf(t, [i] + r)
    ensures var m := MaxProj(t.kids[i], r);
            MaxProj(t, [i] + r) == if m == [] && i == HeadIndex(t.kids) then [] else [i] + m
  {
    SubBelow(t, i, r);
    assert ([i] + r)[1..] == r;
  }

  lemma Regroup(p: Path, i: nat, m: Path)
    ensures p + ([i] + m) == p + [i] + m
  {
  }

  /** What holds below a child holds below its parent. */
  lemma StandsBelow(t: Tree, p: Path, i: nat, d: Dep, gov: Path, r: Path)
    requires i < |t.kids| && StandsFor(t.kids[i], p + [i], d, gov, r)
    ensures StandsFor(t, p, d, gov, [i] + r)
  {
    var m := MaxProj(t.kids[i], r);
    SubBelow(t, i, r);
    MaxProjBelow(t, i, r);
    SubBelow(t, i, m);
    GovernorBelow(t, p, i, m);
    Regroup(p, i, r);
    Regroup(p, i, m);
  }

  lemma {:induction false} GovernedBelow(t: Tree, p: Path, i: nat, d: Dep, gov: Path)
    requires i < |t.kids| && Governed(t.kids[i], p + [i], d, gov)
    ensures Governed(t, p, d, gov)
    decreases d, 0
  {
    var r :| StandsFor(t.kids[i], p + [i], d, gov, r);
    StandsBelow(t, p, i, d, gov, r);
    AllGovernedBelow(t, p, i, d.kids, d.leaf);
  }

  lemma {:induction false} AllGovernedBelow(t: Tree, p: Path, i: nat, ds: seq<Dep>, gov: Path)
    requires i < |t.kids| && AllGoverned(t.kids[i], p + [i], ds, gov)
    ensures AllGoverned(t, p, ds, gov)
    decreases ds, 1
  {
    forall j | 0 <= j < |ds|
      ensures Governed(t, p, ds[j], gov)
    {
      GovernedBelow(t, p, i, ds[j], gov);
    }
  }

  /** A child other than the head is the maximal projection of its lexical head. */
  lemma SiblingStands(t: Tree, p: Path, i: nat, d: Dep)
    requires i < |t.kids| && i != HeadIndex(t.kids)
    requires d.leaf == p + [i] + LexHead(t.kids[i]) && Covers(d, t.kids[i], p + [i])
    ensures StandsFor(t, p, d, p + LexHead(t), [i] + LexHead(t.kids[i]))
  {
    var r := LexHead(t.kids[i]);
    LexHeadIsLeaf(t.kids[i]);
    SubBelow(t, i, r);
    MaxProjBelow(t, i, r);
    SubBelow(t, i, []);
    assert [i] + [] == [i] && p + ([i] + r) == p + [i] + r && p + [] == p && [i][..0] == [];
  }

  lemma {:induction false} RootOfDependencies(t: Tree, p: Path, link: Path)
    ensures var d := Depend(t, p, link);
            d.leaf == p + LexHead(t) && d.chunk == t.chunk && d.link == LinkOf(t, p, link)
  {
    if t.kids == [] {
      assert p + [] == p;
    } else {
      var h := HeadIndex(t.kids);
      RootOfDependencies(t.kids[h], p + [h], Onward(t, p, link));
      assert p + [h] + LexHead(t.kids[h]) == p + ([h] + LexHead(t.kids[h]));
    }
  }

  /** MAIN RESULT: the dependency tree says what the parse tree says. Its root is the lexical head;
      every other word is governed by the lexical head of what is above its maximal projection,
      carries the chunk of that projection, and has below it exactly the words of that projection. */
  lemma {:induction false} DependencyTreeIsGoverned(t: Tree, p: Path, link: Path)
    ensures var d := Depend(t, p, link);
            && d.leaf == p + LexHead(t) && AllGoverned(t, p, d.kids, d.leaf)
    decreases t, 1, 0
  {
    RootOfDependencies(t, p, link);
    if t.kids != [] {
      var h := HeadIndex(t.kids);
      var d := Depend(t.kids[h], p + [h], Onward(t, p, link));
      var left, right := Depends(t, p, 0, h), Depends(t, p, h + 1, |t.kids|);
      DependencyTreeIsGoverned(t.kids[h], p + [h], Onward(t, p, link));
      AllGovernedBelow(t, p, h, d.kids, d.leaf);
      SiblingsAreGoverned(t, p, 0, h);
      SiblingsAreGoverned(t, p, h + 1, |t.kids|);
      assert Depend(t, p, link) == Dep(d.leaf, d.link, t.chunk, left + d.kids + right);
      AllGovernedSum(t, p, left, d.kids, d.leaf);
      AllGovernedSum(t, p, left + d.kids, right, d.leaf);
    }
  }

  lemma SiblingIsGoverned(t: Tree, p: Path, i: nat, d: Dep)
    requires i < |t.kids| && i != HeadIndex(t.kids)
    requires d.leaf == p + [i] + LexHead(t.kids[i]) && Covers(d, t.kids[i], p + [i])
    requires AllGoverned(t.kids[i], p + [i], d.kids, d.leaf)
    ensures Governed(t, p, d, p + LexHead(t))
  {
    SiblingStands(t, p, i, d);
    AllGovernedBelow(t, p, i, d.kids, d.leaf);
  }

  lemma {:induction false} SiblingTreeIsGoverned(t: Tree, p: Path, i: nat)
    requires i < |t.kids| && i != HeadIndex(t.kids)
    ensures Governed(t, p, Depend(t.kids[i], p + [i], p + [i]), p + LexHead(t))
    decreases t, 0, 0
  {
    DependencyTreeIsGoverned(t.kids[i], p + [i], p + [i]);
    DependenciesCover(t.kids[i], p + [i]);
    SiblingIsGoverned(t, p, i, Depend(t.kids[i], p + [i], p + [i]));
  }

  lemma {:induction false} SiblingsAreGoverned(t: Tree, p: Path, lo: nat, hi: nat)
    requires lo <= hi <= |t.kids| && t.kids != [] && !(lo <= HeadIndex(t.kids) < hi)
    ensures AllGoverned(t, p, Depends(t, p, lo, hi), p + LexHead(t))
    decreases t, 0, hi - lo
  {
    if lo < hi {
      var i := hi - 1;
      SiblingsAreGoverned(t, p, lo, i);
      SiblingTreeIsGoverned(t, p, i);
      AllGovernedSum(t, p, Depends(t, p, lo, i), [Depend(t.kids[i], p + [i], p + [i])], p + LexHead(t));
    }
  }

  lemma DependenciesCover(t: Tree, q: Path)
    ensures Depend(t, q, q).leaf == q + LexHead(t) && Covers(Depend(t, q, q), t, q)
  {
    RootOfDependencies(t, q, q);
    NodesAreLeaves(t, q, q);
  }

  lemma {:induction false} SubIsHeaded(t: Tree, m: Path)
    requires Headed(t) && IsPlace(t, m)
    ensures Headed(Sub(t, m))
  {
    if m != [] {
      SubIsHeaded(t.kids[m[0]], m[1..]);
    }
  }

  /** `d` stands for word `r` of `t`, and is linked to its maximal projection. */
  ghost predicate IsLinkedFrom(t: Tree, p: Path, d: Dep, r: Path) {
    IsLeaf(t, r) && d.leaf == p + r && d.link == p + MaxProj(t, r)
  }

  ghost predicate Linked(t: Tree, p: Path, d: Dep)
    decreases d, 0
  {
    (exists r :: IsLinkedFrom(t, p, d, r)) && AllLinked(t, p, d.kids)
  }

  ghost predicate AllLinked(t: Tree, p: Path, ds: seq<Dep>)
    decreases ds, 1
  {
    forall i :: 0 <= i < |ds| ==> Linked(t, p, ds[i])
  }

  lemma {:induction false} GovernedIsLinked(t: Tree, p: Path, d: Dep, gov: Path)
    requires Headed(t) && Governed(t, p, d, gov)
    ensures Linked(t, p, d)
    decreases d, 0
  {
    var r :| StandsFor(t, p, d, gov, r);
    var m := MaxProj(t, r);
    SubIsHeaded(t, m);
    HeadedIsLinkedToMaxProj(Sub(t, m), p + m);
    assert IsLinkedFrom(t, p, d, r);
    AllGovernedAreLinked(t, p, d.kids, d.leaf);
  }

  lemma {:induction false} AllGovernedAreLinked(t: Tree, p: Path, ds: seq<Dep>, gov: Path)
    requires Headed(t) && AllGoverned(t, p, ds, gov)
    ensures AllLinked(t, p, ds)
    decreases ds, 1
  {
    forall i | 0 <= i < |ds|
      ensures Linked(t, p, ds[i])
    {
      GovernedIsLinked(t, p, ds[i], gov);
    }
  }

  /** MAIN RESULT: with a head in every constituent, every word of the dependency tree is linked to its
      maximal projection. */
  lemma DependencyTreeIsLinked(t: Tree, p: Path)
    requires Headed(t)
    ensures Linked(t, p, Depend(t, p, p))
  {
    RootOfDependencies(t, p, p);
    HeadedIsLinkedToMaxProj(t, p);
    LexHeadIsLeaf(t);
    assert p + [] == p;
    assert IsLinkedFrom(t, p, Depend(t, p, p), LexHead(t));
    DependencyTreeIsGoverned(t, p, p);
    AllGovernedAreLinked(t, p, Depend(t, p, p).kids, p + LexHead(t));
  }

  /** The words of a constituent stand side by side in the sentence. */
  lemma {:induction false} WordsOfSubAreAdjacent(t: Tree, p: Path, m: Path) returns (before: seq<Path>, after: seq<Path>)
    requires IsPlace(t, m)
    ensures Leaves(t, p) == before + Leaves(Sub(t, m), p + m) + after
  {
    if m == [] {
      before, after := [], [];
      assert p + m == p;
    } else {
      var i := m[0];
      var b, a := WordsOfSubAreAdjacent(t.kids[i], p + [i], m[1..]);
      assert p + [i] + m[1..] == p + m;
      LeavesAround(t, p, i);
      before, after := LeavesOf(t, p, 0, i) + b, a + LeavesOf(t, p, i + 1, |t.kids|);
    }
  }

  /** `a` is to the left of `b`: they part at some step, to the left and to the right. */
  ghost predicate LeftOf(a: Path, b: Path) {
    exists k: nat :: PartAt(a, b, k)
  }

  predicate PartAt(a: Path, b: Path, k: nat) {
    k < |a| && k < |b| && a[..k] == b[..k] && a[k] < b[k]
  }

  /** The words of a list are below the children of `p` from `lo` to `hi`, exclusive, in order. */
  ghost predicate InOrder(p: Path, ds: seq<Dep>, lo: nat, hi: nat) {
    && (forall i {:trigger ds[i]} :: 0 <= i < |ds| ==> IsUnder(p, ds[i].leaf, lo, hi) && KidsInOrder(ds[i]))
    && forall i, j :: 0 <= i < j < |ds| ==> LeftOf(ds[i].leaf, ds[j].leaf)
  }

  predicate IsUnder(p: Path, r: Path, lo: nat, hi: nat) {
    |p| < |r| && r[..|p|] == p && lo <= r[|p|] < hi
  }

  ghost predicate KidsInOrder(d: Dep) {
    && (forall i :: 0 <= i < |d.kids| ==> KidsInOrder(d.kids[i]))
    && forall i, j :: 0 <= i < j < |d.kids| ==> LeftOf(d.kids[i].leaf, d.kids[j].leaf)
  }

  lemma JoinInOrder(p: Path, a: seq<Dep>, b: seq<Dep>, lo: nat, mid: nat, hi: nat)
    requires InOrder(p, a, lo, mid) && InOrder(p, b, mid, hi) && lo <= mid <= hi
    ensures InOrder(p, a + b, lo, hi)
  {
    forall i, j | 0 <= i < |a| && 0 <= j < |b|
      ensures LeftOf(a[i].leaf, b[j].leaf)
    {
      assert IsUnder(p, a[i].leaf, lo, mid) && IsUnder(p, b[j].leaf, mid, hi);
      assert PartAt(a[i].leaf, b[j].leaf, |p|);
    }
  }

  lemma InOrderAbove(p: Path, i: nat, ds: seq<Dep>, n: nat)
    requires InOrder(p + [i], ds, 0, n)
    ensures InOrder(p, ds, i, i + 1)
  {
    forall k | 0 <= k < |ds|
      ensures IsUnder(p, ds[k].leaf, i, i + 1) && KidsInOrder(ds[k])
    {
      var r := ds[k].leaf;
      assert r[..|p|] == r[..|p| + 1][..|p|] && r[|p|] == r[..|p| + 1][|p|];
    }
  }

  /** Dependents are kept in the order of the sentence. */
  lemma {:induction false} DependentsAreInOrder(t: Tree, p: Path, link: Path)
    ensures InOrder(p, Depend(t, p, link).kids, 0, |t.kids|)
    decreases t, 1, 0
  {
    if t.kids != [] {
      var h, n := HeadIndex(t.kids), |t.kids|;
      var d := Depend(t.kids[h], p + [h], Onward(t, p, link));
      DependentsAreInOrder(t.kids[h], p + [h], Onward(t, p, link));
      InOrderAbove(p, h, d.kids, |t.kids[h].kids|);
      SiblingsAreInOrder(t, p, 0, h);
      SiblingsAreInOrder(t, p, h + 1, n);
      JoinInOrder(p, Depends(t, p, 0, h), d.kids, 0, h, h + 1);
      JoinInOrder(p, Depends(t, p, 0, h) + d.kids, Depends(t, p, h + 1, n), 0, h + 1, n);
    }
  }

  lemma {:induction false} SiblingsAreInOrder(t: Tree, p: Path, lo: nat, hi: nat)
    requires lo <= hi <= |t.kids|
    ensures InOrder(p, Depends(t, p, lo, hi), lo, hi)
    decreases t, 0, hi - lo
  {
    if lo < hi {
      var i := hi - 1;
      var d := Depend(t.kids[i], p + [i], p + [i]);
      SiblingsAreInOrder(t, p, lo, i);
      DependentsAreInOrder(t.kids[i], p + [i], p + [i]);
      RootOfDependencies(t.kids[i], p + [i], p + [i]);
      OneInOrder(p, i, d, |t.kids[i].kids|);
      JoinInOrder(p, Depends(t, p, lo, i), [d], lo, i, hi);
    }
  }

  lemma OneInOrder(p: Path, i: nat, d: Dep, n: nat)
    requires InOrder(p + [i], d.kids, 0, n) && |d.leaf| > |p| && d.leaf[..|p| + 1] == p + [i]
    ensures InOrder(p, [d], i, i + 1)
  {
    assert d.leaf[..|p|] == d.leaf[..|p| + 1][..|p|] && d.leaf[|p|] == d.leaf[..|p| + 1][|p|];
    assert KidsInOrder(d);
  }

  /** The head of a phrase is its first marked child, or its first child if none is marked. */
  lemma FirstMarkedIsHead(t: Tree, h: nat)
    requires h < |t.kids| && t.kids[h].head && forall i :: 0 <= i < h ==> !t.kids[i].head
    ensures LexHead(t) == [h] + LexHead(t.kids[h])
  {
    var k := HeadIndex(t.kids);
    assert !NoHead(t.kids) && IsFirstHead(t.kids, k);
    assert !(k < h) && !(h < k);
  }

  lemma FirstOfUnmarkedIsHead(t: Tree)
    requires t.kids != [] && forall i :: 0 <= i < |t.kids| ==> !t.kids[i].head
    ensures LexHead(t) == [0] + LexHead(t.kids[0])
  {
    assert NoHead(t.kids) && HeadIndex(t.kids) == 0;
  }
}
