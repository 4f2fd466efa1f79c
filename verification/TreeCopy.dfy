/** Copying linked trees. */
module TreeCopy {
  import opened Trees
  import opened TreeWalk

  datatype Info<T> = None | Some(info: T)

  /** The information at nodes. */
  type Infos<!T> = map<Node<T>, Info<T>>

  ghost function InfosOf<T>(nodes: set<Node<T>>): (x: Infos<T>)
    reads nodes
    ensures x.Keys == nodes
  {
    map n | n in nodes :: if n in nodes then Some(n.info) else None
  }

  /** The tree of `c` has the form of that of `n`, and the same information at each node. */
  ghost predicate Copied<T>(m: Net<T>, x: Infos<T>, level: Level<T>, n: Node<T>, w: Net<T>, y: Infos<T>, c: Node<T>)
    decreases level(n), 1
  {
    && n in m && n in x && c in w && c in y && y[c] == x[n] && |w[c].kids| == |m[n].kids|
    && forall i: nat {:trigger KidCopied(m, x, level, n, w, y, c, i)} :: i < |m[n].kids| ==> KidCopied(m, x, level, n, w, y, c, i)
  }

  ghost predicate KidCopied<T>(m: Net<T>, x: Infos<T>, level: Level<T>, n: Node<T>, w: Net<T>, y: Infos<T>, c: Node<T>, i: nat)
    requires n in m && i < |m[n].kids|
    decreases level(n), 0
  {
    KidOk(m, level, n, i) && c in w && i < |w[c].kids| && Copied(m, x, level, m[n].kids[i], w, y, w[c].kids[i])
  }

  /** Whatever is in `w` has the same children and information in `w2`. */
  ghost predicate Within<T>(w: Net<T>, y: Infos<T>, w2: Net<T>, y2: Infos<T>) {
    && (forall a :: a in w ==> a in w2 && w2[a].kids == w[a].kids)
    && forall a :: a in y ==> a in y2 && y2[a] == y[a]
  }

  /** A copy stays one as long as its nodes keep their children and information. */
  lemma {:induction false} CopyStays<T>(m: Net<T>, x: Infos<T>, level: Level<T>, n: Node<T>, w: Net<T>, y: Infos<T>,
                                        w2: Net<T>, y2: Infos<T>, c: Node<T>)
    requires Copied(m, x, level, n, w, y, c) && Within(w, y, w2, y2)
    ensures Copied(m, x, level, n, w2, y2, c)
    decreases level(n)
  {
    forall i: nat | i < |m[n].kids|
      ensures KidCopied(m, x, level, n, w2, y2, c, i)
    {
      assert KidCopied(m, x, level, n, w, y, c, i);
      CopyStays(m, x, level, m[n].kids[i], w, y, w2, y2, w[c].kids[i]);
    }
  }

  /** The first `i` children of `n` have been copied to some nodes. */
  ghost predicate KidsCopied<T>(m: Net<T>, x: Infos<T>, level: Level<T>, n: Node<T>, i: nat, w: Net<T>, y: Infos<T>, kids: seq<Node<T>>) {
    && n in m && i <= |m[n].kids| && |kids| == i
    && forall j: nat {:trigger kids[j]} :: j < i ==> Copied(m, x, level, m[n].kids[j], w, y, kids[j])
  }

  lemma KidsCopiedOneMore<T>(m: Net<T>, x: Infos<T>, level: Level<T>, n: Node<T>, i: nat,
                             w: Net<T>, y: Infos<T>, kids: seq<Node<T>>,
                             v: Net<T>, z: Infos<T>, d: Node<T>, w2: Net<T>, y2: Infos<T>)
    requires KidsCopied(m, x, level, n, i, w, y, kids) && i < |m[n].kids|
    requires Copied(m, x, level, m[n].kids[i], v, z, d) && Within(w, y, w2, y2) && Within(v, z, w2, y2)
    ensures KidsCopied(m, x, level, n, i + 1, w2, y2, kids + [d])
  {
    CopyStays(m, x, level, m[n].kids[i], v, z, w2, y2, d);
    forall j: nat | j < i
      ensures Copied(m, x, level, m[n].kids[j], w2, y2, kids[j])
    {
      CopyStays(m, x, level, m[n].kids[j], w, y, w2, y2, kids[j]);
    }
  }

  /** A node whose children are copies of those of another is a copy of it. */
  lemma KidsMakeCopy<T>(m: Net<T>, x: Infos<T>, level: Level<T>, n: Node<T>, w: Net<T>, y: Infos<T>,
                        w2: Net<T>, y2: Infos<T>, c: Node<T>)
    requires Valid(m, level) && n in m && n in x && c in w2 && c in y2 && y2[c] == x[n]
    requires KidsCopied(m, x, level, n, |m[n].kids|, w, y, w2[c].kids) && Within(w, y, w2, y2)
    ensures Copied(m, x, level, n, w2, y2, c)
  {
    assert Linked(m, level, n);
    forall i: nat | i < |m[n].kids|
      ensures KidCopied(m, x, level, n, w2, y2, c, i)
    {
      assert KidOk(m, level, n, i);
      CopyStays(m, x, level, m[n].kids[i], w, y, w2, y2, w2[c].kids[i]);
    }
  }

  ghost function JoinedLevel<T>(b: set<Node<T>>, la: Level<T>, lb: Level<T>): Level<T> {
    n => if n in b then lb(n) else la(n)
  }

  lemma JoinedKids<T>(a: Net<T>, la: Level<T>, b: Net<T>, lb: Level<T>, n: Node<T>)
    requires a.Keys !! b.Keys && Valid(a, la) && Valid(b, lb) && (n in a || n in b)
    ensures Linked(a + b, JoinedLevel(b.Keys, la, lb), n)
  {
    var u, lev := a + b, JoinedLevel(b.Keys, la, lb);
    if n in b {
      assert Linked(b, lb, n);
      forall i: nat | i < |u[n].kids|
        ensures KidOk(u, lev, n, i)
      {
        assert KidOk(b, lb, n, i);
      }
    } else {
      assert Linked(a, la, n);
      forall i: nat | i < |u[n].kids|
        ensures KidOk(u, lev, n, i)
      {
        assert KidOk(a, la, n, i);
      }
    }
  }

  /** Two sets of linked nodes are one. */
  lemma JoinedIsValid<T>(a: Net<T>, la: Level<T>, b: Net<T>, lb: Level<T>)
    requires a.Keys !! b.Keys && Valid(a, la) && Valid(b, lb)
    ensures Valid(a + b, JoinedLevel(b.Keys, la, lb))
  {
    forall n | n in a + b
      ensures Linked(a + b, JoinedLevel(b.Keys, la, lb), n)
    {
      JoinedKids(a, la, b, lb, n);
    }
  }

  /** Nothing of the one set is below a node of the other. */
  lemma {:induction false} NotBelowOther<T>(a: Net<T>, la: Level<T>, b: Net<T>, lb: Level<T>, z: Node<T>, n: Node<T>)
    requires a.Keys !! b.Keys && Valid(a, la) && Valid(b, lb) && n in b
    requires Below(a + b, JoinedLevel(b.Keys, la, lb), z, n)
    ensures z in b
    decreases lb(n)
  {
    var u, lev := a + b, JoinedLevel(b.Keys, la, lb);
    if z != n {
      var i: nat :| i < |u[n].kids| && BelowKid(u, lev, z, n, i);
      assert Linked(b, lb, n) && KidOk(b, lb, n, i);
      NotBelowOther(a, la, b, lb, z, b[n].kids[i]);
    }
  }

  /** Hangs the root of other nodes below a node, as its last child. */
  method HangOther<T>(t: Node<T>, d: Node<T>, ghost nodes: set<Node<T>>, ghost level: Level<T>,
                      ghost more: set<Node<T>>, ghost lev: Level<T>)
    returns (ghost raised: Level<T>)
    requires nodes !! more && Valid(NetOf(nodes), level) && Valid(NetOf(more), lev)
    requires t in nodes && d in more && d.parent == null
    modifies nodes, more
    ensures Valid(NetOf(nodes + more), raised)
    ensures Hung(old(NetOf(nodes)) + old(NetOf(more)), NetOf(nodes + more), d, t, true)
    ensures forall n :: n in nodes + more ==> n.info == old(n.info)
  {
    ghost var a, b := NetOf(nodes), NetOf(more);
    ghost var all := nodes + more;
    ghost var joined := JoinedLevel(more, level, lev);
    JoinedIsValid(a, level, b, lev);
    assert NetOf(all) == a + b;
    if Below(a + b, joined, t, d) {
      NotBelowOther(a, level, b, lev, t, d);
    }
    Hang(t, d, true, all, joined);
    HungIsValid(a + b, NetOf(all), joined, d, t, true);
    raised := Raised(a + b, joined, d, t);
  }

  /** `c` is a root with copies of the first `i` children of `t`. */
  ghost predicate Copying<T>(m: Net<T>, x: Infos<T>, level: Level<T>, t: Node<T>, i: nat,
                             c: Node<T>, more: set<Node<T>>, lev: Level<T>)
    reads more
  {
    && t in x && c in more && c.parent == null && Some(c.info) == x[t] && Valid(NetOf(more), lev)
    && KidsCopied(m, x, level, t, i, NetOf(more - {c}), InfosOf(more - {c}), c.kids)
  }

  lemma StartsCopying<T>(m: Net<T>, x: Infos<T>, level: Level<T>, t: Node<T>, c: Node<T>, lev: Level<T>)
    requires t in m && t in x && c.parent == null && Some(c.info) == x[t] && c.kids == []
    requires c.first == null && c.last == null && c.prev == null && c.next == null
    ensures Copying(m, x, level, t, 0, c, {c}, lev)
  {
    assert Linked(NetOf({c}), lev, c);
  }

  lemma CopyingEnds<T>(m: Net<T>, x: Infos<T>, level: Level<T>, t: Node<T>, c: Node<T>, more: set<Node<T>>, lev: Level<T>)
    requires Valid(m, level) && t in m && Copying(m, x, level, t, |m[t].kids|, c, more, lev)
    ensures Copied(m, x, level, t, NetOf(more), InfosOf(more), c)
  {
    KidsMakeCopy(m, x, level, t, NetOf(more - {c}), InfosOf(more - {c}), NetOf(more), InfosOf(more), c);
  }

  /** Hangs the copy of a child more below the copy of a node. */
  method HangCopy<T>(ghost m: Net<T>, ghost x: Infos<T>, ghost level: Level<T>, ghost t: Node<T>, ghost i: nat,
                     c: Node<T>, ghost more: set<Node<T>>, ghost lev: Level<T>,
                     d: Node<T>, ghost dm: set<Node<T>>, ghost dl: Level<T>)
    returns (ghost raised: Level<T>)
    requires Valid(m, level) && t in m && i < |m[t].kids| && more !! dm
    requires Copying(m, x, level, t, i, c, more, lev)
    requires d in dm && d.parent == null && Valid(NetOf(dm), dl)
    requires Copied(m, x, level, m[t].kids[i], NetOf(dm), InfosOf(dm), d)
    modifies more, dm
    ensures Copying(m, x, level, t, i + 1, c, more + dm, raised)
  {
    ghost var w, y := NetOf(more - {c}), InfosOf(more - {c});
    ghost var v, z := NetOf(dm), InfosOf(dm);
    ghost var kids := c.kids;
    raised := HangOther(c, d, more, lev, dm, dl);
    ghost var all := more + dm - {c};
    forall n | n in all
      ensures NetOf(all)[n] == NetOf(more + dm)[n]
    {
      assert NetOf(all)[n] == LinksOf(n);
    }
    assert Within(w, y, NetOf(all), InfosOf(all));
    assert Within(v, z, NetOf(all), InfosOf(all));
    KidsCopiedOneMore(m, x, level, t, i, w, y, kids, v, z, d, NetOf(all), InfosOf(all));
  }

  /** Some nodes have these links and information. */
  ghost predicate Keep<T>(nodes: set<Node<T>>, m: Net<T>, x: Infos<T>)
    reads nodes
  {
    NetOf(nodes) == m && InfosOf(nodes) == x
  }

  /** Copies the tree of a node to new nodes. */
  method Clone<T>(t: Node<T>, ghost nodes: set<Node<T>>, ghost m: Net<T>, ghost x: Infos<T>, ghost level: Level<T>)
    returns (c: Node<T>, ghost more: set<Node<T>>, ghost lev: Level<T>)
    requires Keep(nodes, m, x) && Valid(m, level) && t in nodes
    ensures fresh(more) && c in more && c.parent == null && Valid(NetOf(more), lev)
    ensures Copied(m, x, level, t, NetOf(more), InfosOf(more), c)
    decreases level(t), 2
  {
    c := new Node(t.info);
    StartsCopying(m, x, level, t, c, n => 0);
    more, lev := CloneKids(t, c, n => 0, nodes, m, x, level);
    CopyingEnds(m, x, level, t, c, more, lev);
  }

  /** Copies the children of a node. */
  method CloneKids<T>(t: Node<T>, c: Node<T>, ghost start: Level<T>,
                      ghost nodes: set<Node<T>>, ghost m: Net<T>, ghost x: Infos<T>, ghost level: Level<T>)
    returns (ghost more: set<Node<T>>, ghost lev: Level<T>)
    requires Keep(nodes, m, x) && Valid(m, level) && t in nodes && c !in nodes
    requires Copying(m, x, level, t, 0, c, {c}, start)
    modifies c
    ensures c in more && fresh(more - {c}) && Copying(m, x, level, t, |m[t].kids|, c, more, lev)
    decreases level(t), 1
  {
    more, lev := {c}, start;
    FirstKid(m, level, nodes, t);
    var p := t.first;
    ghost var i := 0;
    while p != null
      invariant Keep(nodes, m, x) && c in more && fresh(more - {c})
      invariant i <= |m[t].kids| && p == if i < |m[t].kids| then m[t].kids[i] else null
      invariant Copying(m, x, level, t, i, c, more, lev)
      decreases |m[t].kids| - i
    {
      more, lev := CloneKid(t, p, i, c, more, lev, nodes, m, x, level);
      NextKid(m, level, nodes, t, i);
      p := p.next;
      i := i + 1;
    }
  }

  lemma FirstKid<T>(m: Net<T>, level: Level<T>, nodes: set<Node<T>>, t: Node<T>)
    requires NetOf(nodes) == m && Valid(m, level) && t in m
    ensures t.first == if 0 < |m[t].kids| then m[t].kids[0] else null
  {
    assert Linked(m, level, t) && LinksOf(t) == m[t];
  }

  lemma NextKid<T>(m: Net<T>, level: Level<T>, nodes: set<Node<T>>, t: Node<T>, i: nat)
    requires NetOf(nodes) == m && Valid(m, level) && t in m && i < |m[t].kids|
    ensures m[t].kids[i].next == if i + 1 < |m[t].kids| then m[t].kids[i + 1] else null
  {
    assert Linked(m, level, t) && KidOk(m, level, t, i);
    assert LinksOf(m[t].kids[i]) == m[m[t].kids[i]];
  }

  /** Copies a child more. */
  method CloneKid<T>(ghost t: Node<T>, p: Node<T>, ghost i: nat, c: Node<T>, ghost more: set<Node<T>>, ghost lev: Level<T>,
                     ghost nodes: set<Node<T>>, ghost m: Net<T>, ghost x: Infos<T>, ghost level: Level<T>)
    returns (ghost all: set<Node<T>>, ghost raised: Level<T>)
    requires Keep(nodes, m, x) && Valid(m, level) && t in nodes && i < |m[t].kids| && m[t].kids[i] == p && more !! nodes
    requires Copying(m, x, level, t, i, c, more, lev)
    modifies more
    ensures Copying(m, x, level, t, i + 1, c, all, raised)
    ensures more <= all && fresh(all - more)
    decreases level(t), 0
  {
    assert Linked(m, level, t) && KidOk(m, level, t, i);
    var d;
    ghost var dm, dl;
    d, dm, dl := Clone(p, nodes, m, x, level);
    raised := HangCopy(m, x, level, t, i, c, more, lev, d, dm, dl);
    all := more + dm;
  }

  /** Copies a tree, and hangs the copy below a node, as its last child. */
  method AppendChild<T>(t: Node<T>, child: Node<T>, ghost nodes: set<Node<T>>, ghost level: Level<T>)
    returns (ghost d: Node<T>, ghost more: set<Node<T>>, ghost raised: Level<T>)
    requires Valid(NetOf(nodes), level) && t in nodes && child in nodes
    modifies nodes
    ensures fresh(more) && Valid(NetOf(nodes + more), raised)
    ensures t.kids == old(t.kids) + [d] && d in more && d.parent == t
    ensures forall n :: n in nodes ==> n.info == old(n.info) && n.parent == old(n.parent) && (n != t ==> n.kids == old(n.kids))
    ensures Copied(old(NetOf(nodes)), old(InfosOf(nodes)), level, child, NetOf(more), InfosOf(more), d)
  {
    ghost var m, x := NetOf(nodes), InfosOf(nodes);
    var c;
    ghost var lev;
    c, more, lev := Clone(child, nodes, m, x, level);
    raised := HangClone(t, c, child, nodes, m, x, level, more, lev);
    d := c;
  }

  /** Hangs a copy below a node, as its last child. */
  method HangClone<T>(t: Node<T>, c: Node<T>, ghost child: Node<T>,
                      ghost nodes: set<Node<T>>, ghost m: Net<T>, ghost x: Infos<T>, ghost level: Level<T>,
                      ghost more: set<Node<T>>, ghost lev: Level<T>)
    returns (ghost raised: Level<T>)
    requires Keep(nodes, m, x) && Valid(m, level) && t in nodes && nodes !! more
    requires c in more && c.parent == null && Valid(NetOf(more), lev)
    requires Copied(m, x, level, child, NetOf(more), InfosOf(more), c)
    modifies nodes, more
    ensures Valid(NetOf(nodes + more), raised) && t.kids == old(t.kids) + [c] && c.parent == t
    ensures forall n :: n in nodes ==> n.info == old(n.info) && n.parent == old(n.parent) && (n != t ==> n.kids == old(n.kids))
    ensures Copied(m, x, level, child, NetOf(more), InfosOf(more), c)
  {
    ghost var v, z := NetOf(more), InfosOf(more);
    raised := HangOther(t, c, nodes, level, more, lev);
    ghost var w := NetOf(nodes + more);
    forall n | n in nodes
      ensures n.info == old(n.info) && n.parent == old(n.parent) && (n != t ==> n.kids == old(n.kids))
    {
      assert w[n] == LinksOf(n);
    }
    forall n | n in more
      ensures NetOf(more)[n].kids == v[n].kids
    {
      assert w[n] == LinksOf(n);
    }
    assert w[t] == LinksOf(t) && w[c] == LinksOf(c);
    CopyStays(m, x, level, child, v, z, NetOf(more), InfosOf(more), c);
  }

  /** The information at some nodes. */
  ghost function InfoSeq<T>(x: Infos<T>, s: seq<Node<T>>): (r: seq<Info<T>>)
    ensures |r| == |s|
  {
    seq(|s|, i requires 0 <= i < |s| => if s[i] in x then x[s[i]] else None)
  }

  lemma InfoSeqConcat<T>(x: Infos<T>, a: seq<Node<T>>, b: seq<Node<T>>)
    ensures InfoSeq(x, a + b) == InfoSeq(x, a) + InfoSeq(x, b)
  {
  }

  lemma InfoSeqOne<T>(x: Infos<T>, n: Node<T>)
    requires n in x
    ensures InfoSeq(x, [n]) == [x[n]]
  {
  }

  /** MAIN RESULT: a walk through a copy in preorder reads what a walk through the tree reads. */
  lemma {:induction false} CopyReadsTheSame<T>(m: Net<T>, x: Infos<T>, level: Level<T>, n: Node<T>,
                                               w: Net<T>, y: Infos<T>, lev: Level<T>, c: Node<T>)
    requires Valid(m, level) && Valid(w, lev) && Copied(m, x, level, n, w, y, c)
    ensures InfoSeq(y, Pre(w, lev, c)) == InfoSeq(x, Pre(m, level, n))
    decreases level(n), |m[n].kids| + 1
  {
    CopyReadsFrom(m, x, level, n, w, y, lev, c, 0);
    InfoSeqConcat(x, [n], PreFrom(m, level, n, 0));
    InfoSeqConcat(y, [c], PreFrom(w, lev, c, 0));
    InfoSeqOne(x, n);
    InfoSeqOne(y, c);
  }

  lemma {:induction false} CopyReadsFrom<T>(m: Net<T>, x: Infos<T>, level: Level<T>, n: Node<T>,
                                            w: Net<T>, y: Infos<T>, lev: Level<T>, c: Node<T>, i: nat)
    requires Valid(m, level) && Valid(w, lev) && Copied(m, x, level, n, w, y, c) && i <= |m[n].kids|
    ensures InfoSeq(y, PreFrom(w, lev, c, i)) == InfoSeq(x, PreFrom(m, level, n, i))
    decreases level(n), |m[n].kids| - i
  {
    if i < |m[n].kids| {
      assert Linked(m, level, n) && KidOk(m, level, n, i) && Linked(w, lev, c) && KidOk(w, lev, c, i);
      assert KidCopied(m, x, level, n, w, y, c, i);
      var a, b := m[n].kids[i], w[c].kids[i];
      CopyReadsTheSame(m, x, level, a, w, y, lev, b);
      CopyReadsFrom(m, x, level, n, w, y, lev, c, i + 1);
      InfoSeqConcat(x, Pre(m, level, a), PreFrom(m, level, n, i + 1));
      InfoSeqConcat(y, Pre(w, lev, b), PreFrom(w, lev, c, i + 1));
    }
  }
}
