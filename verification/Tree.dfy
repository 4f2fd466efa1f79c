/** Trees of nodes linked to parent, first and last child, and neighbouring siblings. */
module Trees {

  class Node<T> {
    var info: T
    var parent: Node?<T>
    var first: Node?<T>
    var last: Node?<T>
    var prev: Node?<T>
    var next: Node?<T>
    ghost var kids: seq<Node<T>>

    constructor (x: T)
      ensures info == x && parent == null && kids == []
      ensures first == null && last == null && prev == null && next == null
    {
      info := x;
      parent, first, last, prev, next := null, null, null, null, null;
      kids := [];
    }
  }

  /** The links of a node, and the list of children that they stand for. */
  datatype Links<!T> = Links(parent: Node?<T>, first: Node?<T>, last: Node?<T>,
                             prev: Node?<T>, next: Node?<T>, kids: seq<Node<T>>)

  type Net<!T> = map<Node<T>, Links<T>>

  ghost function LinksOf<T>(n: Node<T>): Links<T>
    reads n
  {
    Links(n.parent, n.first, n.last, n.prev, n.next, n.kids)
  }

  ghost function NoLinks<T>(): Links<T> {
    Links(null, null, null, null, null, [])
  }

  /** The links of a set of nodes, whatever other nodes there are. */
  ghost function NetOf<T>(nodes: set<Node<T>>): (m: Net<T>)
    reads nodes
    ensures m.Keys == nodes
  {
    map n | n in nodes :: if n in nodes then LinksOf(n) else NoLinks()
  }

  type Level<!T> = Node<T> -> nat

  /** Child `i` of `n` points back to `n` and to its neighbours, and is on a lower level. */
  ghost predicate KidOk<T>(m: Net<T>, level: Level<T>, n: Node<T>, i: nat)
    requires n in m && i < |m[n].kids|
  {
    var kids := m[n].kids;
    var c := kids[i];
    && c in m && level(c) < level(n) && m[c].parent == n
    && m[c].prev == (if i == 0 then null else kids[i - 1])
    && m[c].next == (if i + 1 < |kids| then kids[i + 1] else null)
  }

  ghost predicate Distinct<A>(s: seq<A>) {
    forall i, j :: 0 <= i < j < |s| ==> s[i] != s[j]
  }

  ghost predicate Linked<T>(m: Net<T>, level: Level<T>, n: Node<T>)
    requires n in m
  {
    var l := m[n];
    && Distinct(l.kids)
    && l.first == (if l.kids == [] then null else l.kids[0])
    && l.last == (if l.kids == [] then null else l.kids[|l.kids| - 1])
    && (forall i: nat {:trigger KidOk(m, level, n, i)} :: i < |l.kids| ==> KidOk(m, level, n, i))
    && UpOk(m, n)
  }

  /** A node is among the children of its parent, or has no siblings. */
  ghost predicate UpOk<T>(m: Net<T>, n: Node<T>)
    requires n in m
  {
    if m[n].parent == null then m[n].prev == null && m[n].next == null
    else m[n].parent in m && n in m[m[n].parent].kids
  }

  /** All links are consistent, and there are no cycles. */
  ghost predicate Valid<T>(m: Net<T>, level: Level<T>) {
    forall n {:trigger Linked(m, level, n)} :: n in m ==> Linked(m, level, n)
  }

  function Removed<A>(s: seq<A>, i: nat): seq<A>
    requires i < |s|
  {
    s[..i] + s[i + 1..]
  }

  /** The place of a node among its siblings. */
  lemma KidIndex<T>(m: Net<T>, level: Level<T>, c: Node<T>) returns (i: nat)
    requires Valid(m, level) && c in m && m[c].parent != null
    ensures m[c].parent in m && i < |m[m[c].parent].kids| && m[m[c].parent].kids[i] == c && KidOk(m, level, m[c].parent, i)
  {
    assert Linked(m, level, c);
    var p := m[c].parent;
    i :| i < |m[p].kids| && m[p].kids[i] == c;
    assert Linked(m, level, p);
  }

  lemma Neighbours<T>(m: Net<T>, level: Level<T>, p: Node<T>, i: nat)
    requires Valid(m, level) && p in m && i < |m[p].kids|
    ensures var c := m[p].kids[i];
            && c in m && m[c].parent == p && p !in {c, m[c].prev, m[c].next}
            && c !in {m[c].prev, m[c].next} && (m[c].prev == null || m[c].prev != m[c].next)
            && (m[c].prev != null ==> m[c].prev in m) && (m[c].next != null ==> m[c].next in m)
  {
    assert Linked(m, level, p) && KidOk(m, level, p, i);
    assert i > 0 ==> KidOk(m, level, p, i - 1);
    assert i + 1 < |m[p].kids| ==> KidOk(m, level, p, i + 1);
  }

  /** `w` is `m` with `c`, child `i` of `p`, taken out. */
  ghost predicate Unlinked<T>(m: Net<T>, w: Net<T>, c: Node<T>, p: Node<T>, i: nat) {
    && w.Keys == m.Keys && c in m && p in m && i < |m[p].kids| && m[p].kids[i] == c
    && w[p].kids == Removed(m[p].kids, i)
    && w[p].first == (if m[c].prev == null then m[c].next else m[p].first)
    && w[p].last == (if m[c].next == null then m[c].prev else m[p].last)
    && w[c].parent == null && w[c].prev == null && w[c].next == null
    && forall n {:trigger w[n]} :: n in m ==>
         && (n != p ==> w[n].kids == m[n].kids && w[n].first == m[n].first && w[n].last == m[n].last)
         && (n != c ==>
              && w[n].parent == m[n].parent
              && w[n].prev == (if n == m[c].next then m[c].prev else m[n].prev)
              && w[n].next == (if n == m[c].prev then m[c].next else m[n].next))
  }

  lemma UnlinkedKid<T>(m: Net<T>, w: Net<T>, level: Level<T>, c: Node<T>, p: Node<T>, i: nat, j: nat)
    requires Unlinked(m, w, c, p, i) && Valid(m, level) && j < |w[p].kids|
    ensures KidOk(w, level, p, j)
  {
    assert Linked(m, level, p);
    var k := if j < i then j else j + 1;
    assert KidOk(m, level, p, i) && KidOk(m, level, p, k);
    assert i > 0 ==> KidOk(m, level, p, i - 1);
    assert k > 0 ==> KidOk(m, level, p, k - 1);
    assert k + 1 < |m[p].kids| ==> KidOk(m, level, p, k + 1);
  }

  lemma OtherKid<T>(m: Net<T>, w: Net<T>, level: Level<T>, c: Node<T>, p: Node<T>, i: nat, n: Node<T>, j: nat)
    requires Unlinked(m, w, c, p, i) && Valid(m, level) && n in m && n != p && j < |m[n].kids|
    ensures KidOk(w, level, n, j)
  {
    assert Linked(m, level, p) && Linked(m, level, n);
    assert KidOk(m, level, p, i) && KidOk(m, level, n, j);
    assert i > 0 ==> KidOk(m, level, p, i - 1);
    assert i + 1 < |m[p].kids| ==> KidOk(m, level, p, i + 1);
  }

  lemma UnlinkedNode<T>(m: Net<T>, w: Net<T>, level: Level<T>, c: Node<T>, p: Node<T>, i: nat, n: Node<T>)
    requires Unlinked(m, w, c, p, i) && Valid(m, level) && n in m
    ensures Linked(w, level, n)
  {
    assert Linked(m, level, p) && Linked(m, level, n) && KidOk(m, level, p, i);
    forall j: nat | j < |w[n].kids|
      ensures KidOk(w, level, n, j)
    {
      if n == p {
        UnlinkedKid(m, w, level, c, p, i, j);
      } else {
        OtherKid(m, w, level, c, p, i, n, j);
      }
    }
    UnlinkedUp(m, w, level, c, p, i, n);
  }

  lemma UnlinkedUp<T>(m: Net<T>, w: Net<T>, level: Level<T>, c: Node<T>, p: Node<T>, i: nat, n: Node<T>)
    requires Unlinked(m, w, c, p, i) && Linked(m, level, p) && n in m && UpOk(m, n)
    ensures UpOk(w, n)
  {
    assert KidOk(m, level, p, i);
    assert i > 0 ==> KidOk(m, level, p, i - 1);
    assert i + 1 < |m[p].kids| ==> KidOk(m, level, p, i + 1);
    if n != c && m[n].parent == p {
      var k :| 0 <= k < |m[p].kids| && m[p].kids[k] == n;
      assert w[p].kids[if k < i then k else k - 1] == n;
    }
  }

  /** Taking out a child keeps the rest linked up. */
  lemma UnlinkedIsValid<T>(m: Net<T>, w: Net<T>, level: Level<T>, c: Node<T>, p: Node<T>, i: nat)
    requires Unlinked(m, w, c, p, i) && Valid(m, level)
    ensures Valid(w, level)
  {
    forall n | n in w
      ensures Linked(w, level, n)
    {
      UnlinkedNode(m, w, level, c, p, i, n);
    }
  }

  /** Takes a child out of the list of its siblings: only its neighbours and its parent change. */
  method Unchain<T>(child: Node<T>)
    requires child.parent != null && child.parent !in {child, child.prev, child.next}
    requires child !in {child.prev, child.next} && (child.prev == null || child.prev != child.next)
    modifies child, child.prev, child.next, child.parent
    ensures LinksOf(child) == old(LinksOf(child)).(parent := null, prev := null, next := null)
    ensures var p := old(child.parent);
            LinksOf(p) == old(LinksOf(p)).(first := if old(child.prev) == null then old(child.next) else old(p.first),
                                           last := if old(child.next) == null then old(child.prev) else old(p.last))
    ensures var a := old(child.prev); a != null ==> LinksOf(a) == old(LinksOf(a)).(next := old(child.next))
    ensures var b := old(child.next); b != null ==> LinksOf(b) == old(LinksOf(b)).(prev := old(child.prev))
    ensures forall n | n in {child, old(child.prev), old(child.next), old(child.parent)} :: n != null ==> n.info == old(n.info)
  {
    if child.prev != null {
      child.prev.next := child.next;
    }
    if child.next != null {
      child.next.prev := child.prev;
    }
    if child.prev == null {
      child.parent.first := child.next;
    }
    if child.next == null {
      child.parent.last := child.prev;
    }
    child.prev, child.next, child.parent := null, null, null;
  }

  /** Takes a child, with all below it, away from its parent. */
  method Unlink<T>(child: Node<T>, ghost nodes: set<Node<T>>, ghost level: Level<T>) returns (ghost i: nat)
    requires Valid(NetOf(nodes), level) && child in nodes && child.parent != null
    modifies nodes
    ensures Unlinked(old(NetOf(nodes)), NetOf(nodes), child, old(child.parent), i)
    ensures forall n :: n in nodes ==> n.info == old(n.info)
  {
    ghost var m := NetOf(nodes);
    ghost var p := child.parent;
    i := KidIndex(m, level, child);
    Neighbours(m, level, p, i);
    Unchain(child);
    p.kids := Removed(p.kids, i);
  }

  /** `a` is `n` or below it. */
  ghost predicate Below<T>(m: Net<T>, level: Level<T>, a: Node<T>, n: Node<T>)
    requires n in m
    decreases level(n)
  {
    a == n || exists i: nat :: i < |m[n].kids| && BelowKid(m, level, a, n, i)
  }

  ghost predicate BelowKid<T>(m: Net<T>, level: Level<T>, a: Node<T>, n: Node<T>, i: nat)
    requires n in m && i < |m[n].kids|
    decreases level(n), 0
  {
    KidOk(m, level, n, i) && Below(m, level, a, m[n].kids[i])
  }

  /** Whatever is below a node after taking out a child was below it before. */
  lemma {:induction false} UnlinkedBelow<T>(m: Net<T>, w: Net<T>, level: Level<T>, c: Node<T>, p: Node<T>, i: nat,
                                            a: Node<T>, n: Node<T>)
    requires Unlinked(m, w, c, p, i) && Valid(m, level) && n in m && Below(w, level, a, n)
    ensures Below(m, level, a, n)
    decreases level(n)
  {
    if a != n {
      var j: nat :| j < |w[n].kids| && BelowKid(w, level, a, n, j);
      UnlinkedBelow(m, w, level, c, p, i, a, w[n].kids[j]);
      var k := if n != p || j < i then j else j + 1;
      assert Linked(m, level, n) && KidOk(m, level, n, k);
      assert BelowKid(m, level, a, n, k);
    }
  }

  /** `w` is `m` with `c`, a root, hung below `t` as its last or its first child. */
  ghost predicate Hung<T>(m: Net<T>, w: Net<T>, c: Node<T>, t: Node<T>, last: bool) {
    && w.Keys == m.Keys && c in m && t in m && c != t && m[c].parent == null
    && var only := m[t].kids == [];
       && w[t].kids == (if last then m[t].kids + [c] else [c] + m[t].kids)
       && w[t].first == (if only || !last then c else m[t].first)
       && w[t].last == (if only || last then c else m[t].last)
       && w[c].parent == t && w[c].prev == (if last then m[t].last else null)
       && w[c].next == (if last then null else m[t].first)
       && forall n {:trigger w[n]} :: n in m ==>
            && (n != t ==> w[n].kids == m[n].kids && w[n].first == m[n].first && w[n].last == m[n].last)
            && (n != c ==>
                 && w[n].parent == m[n].parent
                 && w[n].prev == (if !last && n == m[t].first then c else m[n].prev)
                 && w[n].next == (if last && n == m[t].last then c else m[n].next))
  }

  /** Levels that leave room for `c` below `t`. */
  ghost function Raised<T>(m: Net<T>, level: Level<T>, c: Node<T>, t: Node<T>): Level<T> {
    n => if n in m && Below(m, level, t, n) then level(n) + level(c) + 1 else level(n)
  }

  lemma RaisedKid<T>(m: Net<T>, level: Level<T>, c: Node<T>, t: Node<T>, n: Node<T>, j: nat)
    requires n in m && j < |m[n].kids| && KidOk(m, level, n, j)
    ensures Raised(m, level, c, t)(m[n].kids[j]) < Raised(m, level, c, t)(n)
  {
    if Below(m, level, t, m[n].kids[j]) {
      assert BelowKid(m, level, t, n, j);
    }
  }

  lemma HungKid<T>(m: Net<T>, w: Net<T>, level: Level<T>, c: Node<T>, t: Node<T>, last: bool, j: nat)
    requires Hung(m, w, c, t, last) && Valid(m, level) && !Below(m, level, t, c) && j < |w[t].kids|
    ensures KidOk(w, Raised(m, level, c, t), t, j)
  {
    assert Linked(m, level, t) && Linked(m, level, c);
    var count := |m[t].kids|;
    assert count > 0 ==> KidOk(m, level, t, 0) && KidOk(m, level, t, count - 1);
    NotYetAKid(m, level, c, t);
    if w[t].kids[j] != c {
      var k := if last then j else j - 1;
      assert KidOk(m, level, t, k) && w[t].kids[j] == m[t].kids[k];
      assert k > 0 ==> m[t].kids[k] != m[t].kids[0];
      RaisedKid(m, level, c, t, t, k);
    }
  }

  lemma HungOtherKid<T>(m: Net<T>, w: Net<T>, level: Level<T>, c: Node<T>, t: Node<T>, last: bool, n: Node<T>, j: nat)
    requires Hung(m, w, c, t, last) && Valid(m, level) && n in m && n != t && j < |m[n].kids|
    ensures KidOk(w, Raised(m, level, c, t), n, j)
  {
    assert Linked(m, level, t) && Linked(m, level, n) && KidOk(m, level, n, j);
    assert m[t].kids != [] ==> KidOk(m, level, t, 0) && KidOk(m, level, t, |m[t].kids| - 1);
    RaisedKid(m, level, c, t, n, j);
  }

  lemma HungUp<T>(m: Net<T>, w: Net<T>, level: Level<T>, c: Node<T>, t: Node<T>, last: bool, n: Node<T>)
    requires Hung(m, w, c, t, last) && Valid(m, level) && n in m
    ensures UpOk(w, n)
  {
    assert Linked(m, level, t) && Linked(m, level, n);
    assert m[t].kids != [] ==> KidOk(m, level, t, 0) && KidOk(m, level, t, |m[t].kids| - 1);
  }

  lemma HungNode<T>(m: Net<T>, w: Net<T>, level: Level<T>, c: Node<T>, t: Node<T>, last: bool, n: Node<T>)
    requires Hung(m, w, c, t, last) && Valid(m, level) && !Below(m, level, t, c) && n in m
    ensures Linked(w, Raised(m, level, c, t), n)
  {
    assert Linked(m, level, n);
    forall j: nat | j < |w[n].kids|
      ensures KidOk(w, Raised(m, level, c, t), n, j)
    {
      if n == t {
        HungKid(m, w, level, c, t, last, j);
      } else {
        HungOtherKid(m, w, level, c, t, last, n, j);
      }
    }
    if n == t {
      NotYetAKid(m, level, c, t);
    }
    HungUp(m, w, level, c, t, last, n);
  }

  lemma NotYetAKid<T>(m: Net<T>, level: Level<T>, c: Node<T>, t: Node<T>)
    requires Valid(m, level) && t in m && c in m && m[c].parent == null
    ensures c !in m[t].kids
  {
    assert Linked(m, level, t);
    forall k: nat | k < |m[t].kids|
      ensures m[t].kids[k] != c
    {
      assert KidOk(m, level, t, k);
    }
  }

  /** Hanging a root below a node that is not below it keeps everything linked up. */
  lemma HungIsValid<T>(m: Net<T>, w: Net<T>, level: Level<T>, c: Node<T>, t: Node<T>, last: bool)
    requires Hung(m, w, c, t, last) && Valid(m, level) && !Below(m, level, t, c)
    ensures Valid(w, Raised(m, level, c, t))
  {
    forall n | n in w
      ensures Linked(w, Raised(m, level, c, t), n)
    {
      HungNode(m, w, level, c, t, last, n);
    }
  }

  /** Links a root below a node, as its last child or its first. */
  method Chain<T>(t: Node<T>, child: Node<T>, last: bool)
    requires child != t && child !in {t.first, t.last} && t !in {t.first, t.last}
    requires t.first == null <==> t.last == null
    requires child.prev == null && child.next == null
    modifies t, child, t.first, t.last
    ensures LinksOf(child) == old(LinksOf(child)).(parent := t, prev := if last then old(t.last) else null,
                                                   next := if last then null else old(t.first))
    ensures var only := old(t.first) == null;
            LinksOf(t) == old(LinksOf(t)).(first := if only || !last then child else old(t.first),
                                           last := if only || last then child else old(t.last))
    ensures forall b | b in {old(t.first), old(t.last)} ::
              LinksOf(b) == old(LinksOf(b)).(prev := if !last && b == old(t.first) then child else old(b.prev),
                                             next := if last && b == old(t.last) then child else old(b.next))
    ensures forall n | n in {t, child, old(t.first), old(t.last)} :: n != null ==> n.info == old(n.info)
  {
    child.parent := t;
    if t.first == null {
      t.first := child;
      t.last := child;
    } else if last {
      child.prev := t.last;
      t.last.next := child;
      t.last := child;
    } else {
      child.next := t.first;
      t.first.prev := child;
      t.first := child;
    }
  }

  /** Hangs a root below a node. */
  method Hang<T>(t: Node<T>, child: Node<T>, last: bool, ghost nodes: set<Node<T>>, ghost level: Level<T>)
    requires Valid(NetOf(nodes), level) && t in nodes && child in nodes && child != t && child.parent == null
    modifies nodes
    ensures Hung(old(NetOf(nodes)), NetOf(nodes), child, t, last)
    ensures forall n :: n in nodes ==> n.info == old(n.info)
  {
    ghost var m := NetOf(nodes);
    FirstAndLast(m, level, t, child);
    Chain(t, child, last);
    t.kids := if last then t.kids + [child] else [child] + t.kids;
  }

  lemma FirstAndLast<T>(m: Net<T>, level: Level<T>, t: Node<T>, c: Node<T>)
    requires Valid(m, level) && t in m && c in m && m[c].parent == null
    ensures c !in {m[t].first, m[t].last} && t !in {m[t].first, m[t].last}
    ensures m[t].first == null <==> m[t].kids == []
    ensures m[t].last == null <==> m[t].kids == []
    ensures m[c].prev == null && m[c].next == null
    ensures (m[t].first != null ==> m[t].first in m) && (m[t].last != null ==> m[t].last in m)
  {
    assert Linked(m, level, t) && Linked(m, level, c);
    assert m[t].kids != [] ==> KidOk(m, level, t, 0) && KidOk(m, level, t, |m[t].kids| - 1);
  }

  /** What hanging `child` below `t` does to the children of every node. */
  ghost predicate Moved<T>(m: Net<T>, w: Net<T>, child: Node<T>, t: Node<T>, last: bool, i: nat) {
    && w.Keys == m.Keys && child in m && t in m
    && var p := m[child].parent;
       && (p != null ==> p in m && i < |m[p].kids| && m[p].kids[i] == child)
       && (forall n :: n in m && n != t && n != p ==> w[n].kids == m[n].kids)
       && (p != null && p != t ==> w[p].kids == Removed(m[p].kids, i))
       && (forall n :: n in m ==> w[n].parent == if n == child then t else m[n].parent)
       && var before := if p == t then Removed(m[t].kids, i) else m[t].kids;
          w[t].kids == if last then before + [child] else [child] + before
  }

  /** Moves `child`, with all below it, below `t`: as its last child, or its first. */
  method HangChild<T>(t: Node<T>, child: Node<T>, last: bool, ghost nodes: set<Node<T>>, ghost level: Level<T>)
    returns (ghost i: nat, ghost raised: Level<T>)
    requires Valid(NetOf(nodes), level) && t in nodes && child in nodes
    requires !Below(NetOf(nodes), level, t, child)
    modifies nodes
    ensures Moved(old(NetOf(nodes)), NetOf(nodes), child, t, last, i) && Valid(NetOf(nodes), raised)
    ensures forall n :: n in nodes ==> n.info == old(n.info)
  {
    i := 0;
    ghost var m := NetOf(nodes);
    if child.parent != null {
      i := Unlink(child, nodes, level);
      UnlinkedIsValid(m, NetOf(nodes), level, child, m[child].parent, i);
      NotBelowUnlinked(m, NetOf(nodes), level, child, m[child].parent, i, t);
    }
    ghost var w := NetOf(nodes);
    Hang(t, child, last, nodes, level);
    HungIsValid(w, NetOf(nodes), level, child, t, last);
    raised := Raised(w, level, child, t);
  }

  lemma NotBelowUnlinked<T>(m: Net<T>, w: Net<T>, level: Level<T>, c: Node<T>, p: Node<T>, i: nat, t: Node<T>)
    requires Unlinked(m, w, c, p, i) && Valid(m, level) && t in m && !Below(m, level, t, c)
    ensures !Below(w, level, t, c)
  {
    if Below(w, level, t, c) {
      UnlinkedBelow(m, w, level, c, p, i, t, c);
    }
  }
}
