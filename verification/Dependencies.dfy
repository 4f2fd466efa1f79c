/** From parse trees with marked heads to dependency trees between their words. */
module Dependencies {
  import opened SyntaxTrees

  /** A word, by the place of its leaf, the constituent it is linked to, and its dependents. */
  datatype Dep = Dep(leaf: Path, link: Path, chunk: nat, kids: seq<Dep>)

  predicate IsFirstHead(kids: seq<Tree>, h: nat) {
    h < |kids| && kids[h].head && forall i :: 0 <= i < h ==> !kids[i].head
  }

  predicate NoHead(kids: seq<Tree>) {
    forall i :: 0 <= i < |kids| ==> !kids[i].head
  }

  /** The head child: the first one marked, or the first child if none is. */
  function HeadIndex(kids: seq<Tree>): (h: nat)
    requires kids != []
    ensures h < |kids| && if NoHead(kids) then h == 0 else IsFirstHead(kids, h)
  {
    var h := FirstHead(kids, 0);
    if h == |kids| then 0 else h
  }

  function FirstHead(kids: seq<Tree>, from: nat): (h: nat)
    requires from <= |kids|
    ensures from <= h <= |kids| && (h < |kids| ==> kids[h].head) && forall i :: from <= i < h ==> !kids[i].head
    decreases |kids| - from
  {
    if from == |kids| || kids[from].head then from else FirstHead(kids, from + 1)
  }

  /** What the words below node `p` are linked to, until further down. */
  function Onward(t: Tree, p: Path, link: Path): Path {
    if t.head then link else p
  }

  /** The dependency tree of the words below node `p`: that of the head child, with those of the
      other children hung to its left and right. */
  function Depend(t: Tree, p: Path, link: Path): Dep
    decreases t, 1, 0
  {
    if t.kids == [] then Dep(p, link, t.chunk, []) else
    var h := HeadIndex(t.kids);
    var d := Depend(t.kids[h], p + [h], Onward(t, p, link));
    d.(chunk := t.chunk, kids := Depends(t, p, 0, h) + d.kids + Depends(t, p, h + 1, |t.kids|))
  }

  /** The dependency trees of the children from `lo` to `hi`, exclusive. */
  function Depends(t: Tree, p: Path, lo: nat, hi: nat): (ds: seq<Dep>)
    requires lo <= hi <= |t.kids|
    ensures |ds| == hi - lo
    decreases t, 0, hi - lo
  {
    if lo == hi then [] else
    Depends(t, p, lo, hi - 1) + [Depend(t.kids[hi - 1], p + [hi - 1], p + [hi - 1])]
  }

  lemma {:induction false} DependsFromFirst(t: Tree, p: Path, lo: nat, hi: nat)
    requires lo < hi <= |t.kids|
    ensures Depends(t, p, lo, hi) == [Depend(t.kids[lo], p + [lo], p + [lo])] + Depends(t, p, lo + 1, hi)
    decreases hi - lo
  {
    if lo + 1 < hi {
      DependsFromFirst(t, p, lo, hi - 1);
    }
  }

  /** The conversion: down to the head child, then its siblings to the right, then those to the left. */
  method BuildDependencies(t: Tree, p: Path, link: Path) returns (d: Dep)
    ensures d == Depend(t, p, link)
    decreases t, 1
  {
    if t.kids == [] {
      d := Dep(p, link, t.chunk, []);
    } else {
      var h := HeadIndex(t.kids);
      d := BuildDependencies(t.kids[h], p + [h], Onward(t, p, link));
      d := HangRight(t, p, h, d);
      d := HangLeft(t, p, h, d);
      d := d.(chunk := t.chunk);
    }
  }

  /** Hangs the children after the `h`-th as last ones. */
  method HangRight(t: Tree, p: Path, h: nat, d: Dep) returns (more: Dep)
    requires h < |t.kids|
    ensures more == d.(kids := d.kids + Depends(t, p, h + 1, |t.kids|))
    decreases t, 0
  {
    more := d;
    for k := h + 1 to |t.kids|
      invariant more == d.(kids := d.kids + Depends(t, p, h + 1, k))
    {
      var e := BuildDependencies(t.kids[k], p + [k], p + [k]);
      more := more.(kids := more.kids + [e]);
    }
  }

  /** Hangs the children before the `h`-th as first ones, the last of them first. */
  method HangLeft(t: Tree, p: Path, h: nat, d: Dep) returns (more: Dep)
    requires h < |t.kids|
    ensures more == d.(kids := Depends(t, p, 0, h) + d.kids)
    decreases t, 0
  {
    more := d;
    for k := h downto 0
      invariant more == d.(kids := Depends(t, p, k, h) + d.kids)
    {
      var e := BuildDependencies(t.kids[k], p + [k], p + [k]);
      DependsFromFirst(t, p, k, h);
      more := more.(kids := [e] + more.kids);
    }
  }

  /** The leaves below node `p`, from left to right. */
  function Leaves(t: Tree, p: Path): seq<Path>
    decreases t, 1, 0
  {
    if t.kids == [] then [p] else LeavesOf(t, p, 0, |t.kids|)
  }

  function LeavesOf(t: Tree, p: Path, lo: nat, hi: nat): seq<Path>
    requires lo <= hi <= |t.kids|
    decreases t, 0, hi - lo
  {
    if lo == hi then [] else LeavesOf(t, p, lo, hi - 1) + Leaves(t.kids[hi - 1], p + [hi - 1])
  }

  function Nodes(d: Dep): seq<Path>
    decreases d, 1
  {
    [d.leaf] + NodesOf(d.kids)
  }

  function NodesOf(ds: seq<Dep>): seq<Path>
    decreases ds, 0
  {
    if ds == [] then [] else NodesOf(ds[..|ds| - 1]) + Nodes(ds[|ds| - 1])
  }

  lemma {:induction false} NodesOfSum(a: seq<Dep>, b: seq<Dep>)
    ensures NodesOf(a + b) == NodesOf(a) + NodesOf(b)
  {
    if b == [] {
      assert a + b == a;
    } else {
      var m := |b| - 1;
      assert (a + b)[..|a + b| - 1] == a + b[..m];
      NodesOfSum(a, b[..m]);
    }
  }

  lemma {:induction false} LeavesOfParts(t: Tree, p: Path, lo: nat, mid: nat, hi: nat)
    requires lo <= mid <= hi <= |t.kids|
    ensures LeavesOf(t, p, lo, hi) == LeavesOf(t, p, lo, mid) + LeavesOf(t, p, mid, hi)
    decreases hi - mid
  {
    if mid < hi {
      LeavesOfParts(t, p, lo, mid, hi - 1);
    }
  }

  /** The same elements, as often. */
  predicate Same<A(==)>(a: seq<A>, b: seq<A>) {
    multiset(a) == multiset(b)
  }

  lemma SameSums<A>(a: seq<A>, b: seq<A>, c: seq<A>, d: seq<A>)
    requires Same(a, c) && Same(b, d)
    ensures Same(a + b, c + d)
  {
  }

  lemma SameAround<A>(x: A, l: seq<A>, m: seq<A>, r: seq<A>, l': seq<A>, m': seq<A>, r': seq<A>)
    requires Same(l, l') && Same([x] + m, m') && Same(r, r')
    ensures Same([x] + (l + m + r), l' + m' + r')
  {
    assert multiset([x] + (l + m + r)) == multiset(l) + multiset([x] + m) + multiset(r);
  }

  lemma NodesAround(d: Dep, left: seq<Dep>, right: seq<Dep>, l: seq<Path>, m: seq<Path>, r: seq<Path>)
    requires Same(NodesOf(left), l) && Same(Nodes(d), m) && Same(NodesOf(right), r)
    ensures Same([d.leaf] + NodesOf(left + d.kids + right), l + m + r)
  {
    SameAround(d.leaf, NodesOf(left), NodesOf(d.kids), NodesOf(right), l, m, r);
    NodesOfSum(left + d.kids, right);
    NodesOfSum(left, d.kids);
  }

  lemma LeavesAround(t: Tree, p: Path, h: nat)
    requires h < |t.kids|
    ensures Leaves(t, p) == LeavesOf(t, p, 0, h) + Leaves(t.kids[h], p + [h]) + LeavesOf(t, p, h + 1, |t.kids|)
  {
    LeavesOfParts(t, p, 0, h + 1, |t.kids|);
  }

  /** Every word becomes exactly one node of the dependency tree. */
  lemma {:induction false} NodesAreLeaves(t: Tree, p: Path, link: Path)
    ensures Same(Nodes(Depend(t, p, link)), Leaves(t, p))
    decreases t, 1, 0
  {
    if t.kids != [] {
      var n := |t.kids|;
      var h := HeadIndex(t.kids);
      var d := Depend(t.kids[h], p + [h], Onward(t, p, link));
      var left, right := Depends(t, p, 0, h), Depends(t, p, h + 1, n);
      NodesAreLeaves(t.kids[h], p + [h], Onward(t, p, link));
      DependsAreLeaves(t, p, 0, h);
      DependsAreLeaves(t, p, h + 1, n);
      NodesAround(d, left, right, LeavesOf(t, p, 0, h), Leaves(t.kids[h], p + [h]), LeavesOf(t, p, h + 1, n));
      LeavesAround(t, p, h);
      assert Depend(t, p, link) == Dep(d.leaf, d.link, t.chunk, left + d.kids + right);
    }
  }

  lemma {:induction false} DependsAreLeaves(t: Tree, p: Path, lo: nat, hi: nat)
    requires lo <= hi <= |t.kids|
    ensures Same(NodesOf(Depends(t, p, lo, hi)), LeavesOf(t, p, lo, hi))
    decreases t, 0, hi - lo
  {
    if lo < hi {
      DependsAreLeaves(t, p, lo, hi - 1);
      NodesAreLeaves(t.kids[hi - 1], p + [hi - 1], p + [hi - 1]);
      var before, last := Depends(t, p, lo, hi - 1), Depend(t.kids[hi - 1], p + [hi - 1], p + [hi - 1]);
      assert (before + [last])[..|before|] == before;
      SameSums(NodesOf(before), Nodes(last), LeavesOf(t, p, lo, hi - 1), Leaves(t.kids[hi - 1], p + [hi - 1]));
    }
  }
}
