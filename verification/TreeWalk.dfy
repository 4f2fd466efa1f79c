/** Walking through a linked tree in preorder, forwards and backwards, without a stack. */
module TreeWalk {
  import opened Trees

  /** The nodes of a tree: parents first, then the children from first to last. */
  ghost function Pre<T>(m: Net<T>, level: Level<T>, n: Node<T>): (s: seq<Node<T>>)
    requires Valid(m, level) && n in m
    ensures |s| > 0 && s[0] == n && AreNodes(m, s)
    decreases level(n), |m[n].kids| + 1
  {
    [n] + PreFrom(m, level, n, 0)
  }

  /** The nodes of the subtrees of the children of `n` from the `i`-th on. */
  ghost function PreFrom<T>(m: Net<T>, level: Level<T>, n: Node<T>, i: nat): (s: seq<Node<T>>)
    requires Valid(m, level) && n in m && i <= |m[n].kids|
    ensures AreNodes(m, s)
    decreases level(n), |m[n].kids| - i
  {
    if i == |m[n].kids| then [] else
    assert Linked(m, level, n) && KidOk(m, level, n, i);
    Pre(m, level, m[n].kids[i]) + PreFrom(m, level, n, i + 1)
  }

  /** The nodes on higher levels. */
  ghost function Above<T>(m: Net<T>, level: Level<T>, n: Node<T>): set<Node<T>> {
    set x | x in m && level(x) > level(n)
  }

  lemma ParentIsHigher<T>(m: Net<T>, level: Level<T>, n: Node<T>)
    requires Valid(m, level) && n in m && m[n].parent != null
    ensures m[n].parent in m && level(n) < level(m[n].parent)
    ensures Above(m, level, m[n].parent) < Above(m, level, n)
  {
    var i := KidIndex(m, level, n);
    assert m[n].parent in Above(m, level, n);
  }

  /** The next sibling of the node, or of the closest ancestor that has one. */
  ghost function Climb<T>(m: Net<T>, level: Level<T>, n: Node<T>): (r: Node?<T>)
    requires Valid(m, level) && n in m
    decreases Above(m, level, n)
  {
    if m[n].next != null then m[n].next
    else if m[n].parent == null then null
    else ParentIsHigher(m, level, n); Climb(m, level, m[n].parent)
  }

  /** Where the walk goes on from a node. */
  ghost function Next<T>(m: Net<T>, level: Level<T>, n: Node<T>): Node?<T>
    requires Valid(m, level) && n in m
  {
    if m[n].first != null then m[n].first else Climb(m, level, n)
  }

  /** The last node of a tree: down the last children. */
  ghost function RightMost<T>(m: Net<T>, level: Level<T>, n: Node<T>): (r: Node<T>)
    requires Valid(m, level) && n in m
    ensures r in m
    decreases level(n)
  {
    assert Linked(m, level, n);
    if m[n].kids == [] then n else
    assert KidOk(m, level, n, |m[n].kids| - 1);
    RightMost(m, level, m[n].kids[|m[n].kids| - 1])
  }

  ghost predicate IsNode<T>(m: Net<T>, n: Node?<T>) {
    n == null || n in m
  }

  /** Where the walk comes from. */
  ghost function Prev<T>(m: Net<T>, level: Level<T>, n: Node<T>): Node?<T>
    requires Valid(m, level) && n in m && IsNode(m, m[n].prev)
  {
    if m[n].prev != null then RightMost(m, level, m[n].prev) else m[n].parent
  }

  ghost predicate AreNodes<T>(m: Net<T>, s: seq<Node<T>>) {
    forall i :: 0 <= i < |s| ==> s[i] in m
  }

  /** Each node is the one after the one before, and `end` is what comes after the last. */
  ghost predicate Walks<T>(m: Net<T>, level: Level<T>, s: seq<Node<T>>, end: Node?<T>)
    requires Valid(m, level)
  {
    && AreNodes(m, s)
    && (forall i :: 0 <= i < |s| - 1 ==> Next(m, level, s[i]) == s[i + 1])
    && (s != [] ==> Next(m, level, s[|s| - 1]) == end)
  }

  lemma JoinWalks<T>(m: Net<T>, level: Level<T>, a: seq<Node<T>>, b: seq<Node<T>>, end: Node?<T>)
    requires Valid(m, level) && b != [] && Walks(m, level, a, b[0]) && Walks(m, level, b, end)
    ensures Walks(m, level, a + b, end)
  {
  }

  /** The walk through a tree follows the preorder, and then leaves it. */
  lemma {:induction false} PreIsWalked<T>(m: Net<T>, level: Level<T>, n: Node<T>)
    requires Valid(m, level) && n in m
    ensures Walks(m, level, Pre(m, level, n), Climb(m, level, n))
    decreases level(n), |m[n].kids| + 1
  {
    assert Linked(m, level, n);
    PreFromIsWalked(m, level, n, 0);
    if m[n].kids != [] {
      assert Walks(m, level, [n], m[n].kids[0]);
      JoinWalks(m, level, [n], PreFrom(m, level, n, 0), Climb(m, level, n));
    }
  }

  lemma {:induction false} PreFromIsWalked<T>(m: Net<T>, level: Level<T>, n: Node<T>, i: nat)
    requires Valid(m, level) && n in m && i <= |m[n].kids|
    ensures var s := PreFrom(m, level, n, i);
            && Walks(m, level, s, Climb(m, level, n))
            && (i < |m[n].kids| ==> s != [] && s[0] == m[n].kids[i])
    decreases level(n), |m[n].kids| - i
  {
    if i < |m[n].kids| {
      assert Linked(m, level, n) && KidOk(m, level, n, i);
      PreIsWalked(m, level, m[n].kids[i]);
      PreFromIsWalked(m, level, n, i + 1);
      if i + 1 < |m[n].kids| {
        JoinWalks(m, level, Pre(m, level, m[n].kids[i]), PreFrom(m, level, n, i + 1), Climb(m, level, n));
      } else {
        assert Pre(m, level, m[n].kids[i]) + [] == Pre(m, level, m[n].kids[i]);
      }
    }
  }

  /** A walk that comes to an end passes no node twice. */
  lemma {:induction false} WalkIsDistinct<T>(m: Net<T>, level: Level<T>, s: seq<Node<T>>, i: nat, j: nat)
    requires Valid(m, level) && Walks(m, level, s, null) && i < j < |s|
    ensures s[i] != s[j]
    decreases |s| - j
  {
    assert Next(m, level, s[i]) == s[i + 1];
    if j < |s| - 1 {
      assert Next(m, level, s[j]) == s[j + 1];
      WalkIsDistinct(m, level, s, i + 1, j + 1);
    }
  }

  lemma {:induction false} PreIsBelow<T>(m: Net<T>, level: Level<T>, n: Node<T>, a: Node<T>)
    requires Valid(m, level) && n in m
    ensures a in Pre(m, level, n) <==> Below(m, level, a, n)
    decreases level(n), |m[n].kids| + 1
  {
    PreFromIsBelow(m, level, n, 0, a);
    BelowIsFromFirst(m, level, a, n);
  }

  lemma BelowIsFromFirst<T>(m: Net<T>, level: Level<T>, a: Node<T>, n: Node<T>)
    requires n in m
    ensures Below(m, level, a, n) <==> a == n || BelowFrom(m, level, a, n, 0)
  {
  }

  ghost predicate BelowFrom<T>(m: Net<T>, level: Level<T>, a: Node<T>, n: Node<T>, i: nat)
    requires n in m
  {
    exists j: nat :: i <= j < |m[n].kids| && BelowKid(m, level, a, n, j)
  }

  lemma {:induction false} PreFromIsBelow<T>(m: Net<T>, level: Level<T>, n: Node<T>, i: nat, a: Node<T>)
    requires Valid(m, level) && n in m && i <= |m[n].kids|
    ensures a in PreFrom(m, level, n, i) <==> BelowFrom(m, level, a, n, i)
    decreases level(n), |m[n].kids| - i
  {
    if i < |m[n].kids| {
      assert Linked(m, level, n) && KidOk(m, level, n, i);
      PreIsBelow(m, level, m[n].kids[i], a);
      PreFromIsBelow(m, level, n, i + 1, a);
      assert BelowKid(m, level, a, n, i) <==> Below(m, level, a, m[n].kids[i]);
    }
  }

  /** MAIN RESULT: from the root, the walk visits every node of the tree exactly once, in preorder,
      and then ends. */
  lemma WalkVisitsEachNodeOnce<T>(m: Net<T>, level: Level<T>, root: Node<T>)
    requires Valid(m, level) && root in m && m[root].parent == null
    ensures var s := Pre(m, level, root);
            && Walks(m, level, s, null) && Distinct(s) && s[0] == root
            && forall a :: a in s <==> Below(m, level, a, root)
  {
    var s := Pre(m, level, root);
    assert Linked(m, level, root);
    PreIsWalked(m, level, root);
    forall i, j | 0 <= i < j < |s|
      ensures s[i] != s[j]
    {
      WalkIsDistinct(m, level, s, i, j);
    }
    forall a
      ensures a in s <==> Below(m, level, a, root)
    {
      PreIsBelow(m, level, root, a);
    }
  }

  /** Climbing ends next to an ancestor whose tree ends with the node. */
  lemma {:induction false} ClimbEndsBeside<T>(m: Net<T>, level: Level<T>, n: Node<T>)
    requires Valid(m, level) && n in m && Climb(m, level, n) != null
    ensures var r := Climb(m, level, n);
            && r in m && m[r].prev != null && m[r].prev in m
            && RightMost(m, level, m[r].prev) == RightMost(m, level, n)
    decreases Above(m, level, n)
  {
    assert Linked(m, level, n);
    var i := KidIndex(m, level, n);
    var p := m[n].parent;
    if m[n].next != null {
      assert Linked(m, level, p) && KidOk(m, level, p, i + 1);
    } else {
      ParentIsHigher(m, level, n);
      ClimbEndsBeside(m, level, p);
    }
  }

  /** The end of a tree climbs to where its root climbs. */
  lemma {:induction false} RightMostClimbs<T>(m: Net<T>, level: Level<T>, n: Node<T>)
    requires Valid(m, level) && n in m
    ensures Climb(m, level, RightMost(m, level, n)) == Climb(m, level, n) && m[RightMost(m, level, n)].first == null
    decreases level(n)
  {
    assert Linked(m, level, n);
    if m[n].kids != [] {
      var i := |m[n].kids| - 1;
      assert KidOk(m, level, n, i);
      RightMostClimbs(m, level, m[n].kids[i]);
    }
  }

  /** MAIN RESULT: walking back undoes walking on, wherever that leads to a node. */
  lemma PrevUndoesNext<T>(m: Net<T>, level: Level<T>, n: Node<T>)
    requires Valid(m, level) && n in m && Next(m, level, n) != null
    ensures var r := Next(m, level, n); r in m && IsNode(m, m[r].prev) && Prev(m, level, r) == n
  {
    assert Linked(m, level, n);
    if m[n].first != null {
      assert KidOk(m, level, n, 0);
    } else {
      ClimbEndsBeside(m, level, n);
    }
  }

  /** And walking on undoes walking back. */
  lemma NextUndoesPrev<T>(m: Net<T>, level: Level<T>, n: Node<T>)
    requires Valid(m, level) && n in m
    ensures IsNode(m, m[n].prev)
    ensures var q := Prev(m, level, n); q != null ==> q in m && Next(m, level, q) == n
  {
    assert Linked(m, level, n);
    if m[n].parent != null {
      var i := KidIndex(m, level, n);
      var p := m[n].parent;
      assert Linked(m, level, p);
      if i > 0 {
        assert KidOk(m, level, p, i - 1);
        RightMostClimbs(m, level, m[n].prev);
      }
    }
  }

  lemma {:induction false} PreIsLower<T>(m: Net<T>, level: Level<T>, n: Node<T>, a: Node<T>)
    requires Valid(m, level) && n in m && Below(m, level, a, n)
    ensures a in m && level(a) <= level(n)
    decreases level(n)
  {
    BelowIsFromFirst(m, level, a, n);
    if a != n {
      var i: nat :| i < |m[n].kids| && BelowKid(m, level, a, n, i);
      PreIsLower(m, level, m[n].kids[i], a);
    }
  }

  ghost predicate SameKids<T>(m: Net<T>, w: Net<T>, s: seq<Node<T>>) {
    forall i {:trigger s[i]} :: 0 <= i < |s| ==> s[i] in m && s[i] in w && w[s[i]].kids == m[s[i]].kids
  }

  lemma SameKidsInParts<T>(m: Net<T>, w: Net<T>, a: seq<Node<T>>, b: seq<Node<T>>)
    requires SameKids(m, w, a + b)
    ensures SameKids(m, w, a) && SameKids(m, w, b)
  {
    forall i | 0 <= i < |a|
      ensures a[i] in m && a[i] in w && w[a[i]].kids == m[a[i]].kids
    {
      assert (a + b)[i] == a[i];
    }
    forall i | 0 <= i < |b|
      ensures b[i] in m && b[i] in w && w[b[i]].kids == m[b[i]].kids
    {
      assert (a + b)[|a| + i] == b[i];
    }
  }

  /** A tree depends only on the children of its nodes. */
  lemma {:induction false} SameTree<T>(m: Net<T>, level: Level<T>, w: Net<T>, level': Level<T>, n: Node<T>)
    requires Valid(m, level) && Valid(w, level') && n in m && n in w
    requires SameKids(m, w, Pre(m, level, n))
    ensures Pre(w, level', n) == Pre(m, level, n)
    decreases level(n), |m[n].kids| + 1
  {
    SameKidsInParts(m, w, [n], PreFrom(m, level, n, 0));
    assert [n][0] == n;
    SameTreeFrom(m, level, w, level', n, 0);
  }

  lemma {:induction false} SameTreeFrom<T>(m: Net<T>, level: Level<T>, w: Net<T>, level': Level<T>, n: Node<T>, i: nat)
    requires Valid(m, level) && Valid(w, level') && n in m && n in w && w[n].kids == m[n].kids && i <= |m[n].kids|
    requires SameKids(m, w, PreFrom(m, level, n, i))
    ensures PreFrom(w, level', n, i) == PreFrom(m, level, n, i)
    decreases level(n), |m[n].kids| - i
  {
    if i < |m[n].kids| {
      assert Linked(m, level, n) && KidOk(m, level, n, i) && Linked(w, level', n) && KidOk(w, level', n, i);
      SameKidsInParts(m, w, Pre(m, level, m[n].kids[i]), PreFrom(m, level, n, i + 1));
      SameTree(m, level, w, level', m[n].kids[i]);
      SameTreeFrom(m, level, w, level', n, i + 1);
    }
  }

  /** MAIN RESULT: a child that is hung elsewhere takes its whole tree along, unchanged. */
  lemma MovedTreeIsUnchanged<T>(m: Net<T>, level: Level<T>, w: Net<T>, level': Level<T>, child: Node<T>, t: Node<T>, last: bool, i: nat)
    requires Valid(m, level) && Valid(w, level') && Moved(m, w, child, t, last, i) && !Below(m, level, t, child)
    ensures Pre(w, level', child) == Pre(m, level, child)
    ensures w[child].parent == t && child in w[t].kids
  {
    var s := Pre(m, level, child);
    forall k | 0 <= k < |s|
      ensures s[k] in m && s[k] in w && w[s[k]].kids == m[s[k]].kids
    {
      var a := s[k];
      PreIsBelow(m, level, child, a);
      PreIsLower(m, level, child, a);
      if m[child].parent != null {
        ParentIsHigher(m, level, child);
      }
    }
    SameTree(m, level, w, level', child);
  }

  /** The node after `n`, found by following links: down, or up and aside. */
  method Following<T>(n: Node<T>, ghost nodes: set<Node<T>>, ghost level: Level<T>) returns (q: Node?<T>)
    requires Valid(NetOf(nodes), level) && n in nodes
    ensures q == Next(NetOf(nodes), level, n) && IsNode(NetOf(nodes), q)
  {
    ghost var m := NetOf(nodes);
    assert Linked(m, level, n);
    if n.first != null {
      assert KidOk(m, level, n, 0);
      q := n.first;
    } else {
      q := n;
      while q != null && q.next == null
        invariant IsNode(m, q) && Climb(m, level, n) == if q == null then null else Climb(m, level, q)
        decreases if q == null then {} else Above(m, level, q) + {q}
      {
        assert Linked(m, level, q);
        if q.parent != null {
          ParentIsHigher(m, level, q);
        }
        q := q.parent;
      }
      if q != null {
        NextIsNode(m, level, q);
        q := q.next;
      }
    }
  }

  /** A position in the preorder. */
  class PreorderIterator<T> {
    var pnode: Node?<T>

    constructor (n: Node?<T>)
      ensures pnode == n
    {
      pnode := n;
    }

    /** Moves to the next node, if any. */
    method Increment(ghost nodes: set<Node<T>>, ghost level: Level<T>)
      requires Valid(NetOf(nodes), level) && pnode in nodes
      modifies this
      ensures pnode == Next(NetOf(nodes), level, old(pnode)) && IsNode(NetOf(nodes), pnode)
    {
      pnode := Following(pnode, nodes, level);
    }

    /** Moves to the node before, if any. */
    method Decrement(ghost nodes: set<Node<T>>, ghost level: Level<T>)
      requires Valid(NetOf(nodes), level) && pnode in nodes
      modifies this
      ensures IsNode(NetOf(nodes), old(pnode.prev))
      ensures pnode == Prev(NetOf(nodes), level, old(pnode))
    {
      ghost var m := NetOf(nodes);
      NextUndoesPrev(m, level, pnode);
      if pnode.prev != null {
        pnode := pnode.prev;
        assert Linked(m, level, pnode);
        while pnode.last != null
          invariant pnode in m && RightMost(m, level, old(pnode.prev)) == RightMost(m, level, pnode)
          decreases level(pnode)
        {
          assert Linked(m, level, pnode) && KidOk(m, level, pnode, |m[pnode].kids| - 1);
          pnode := pnode.last;
        }
        assert Linked(m, level, pnode);
      } else {
        pnode := pnode.parent;
      }
    }
  }

  lemma NextIsNode<T>(m: Net<T>, level: Level<T>, n: Node<T>)
    requires Valid(m, level) && n in m && m[n].next != null
    ensures m[n].next in m
  {
    assert Linked(m, level, n);
    var i := KidIndex(m, level, n);
    assert Linked(m, level, m[n].parent) && KidOk(m, level, m[n].parent, i + 1);
  }

  /** The nodes without children, in preorder. */
  ghost function LeavesIn<T>(m: Net<T>, s: seq<Node<T>>): (r: seq<Node<T>>)
    requires AreNodes(m, s)
    ensures AreNodes(m, r)
  {
    if s == [] then [] else
    var n := |s| - 1;
    LeavesIn(m, s[..n]) + if m[s[n]].kids == [] then [s[n]] else []
  }

  lemma {:induction false} LeavesAreThose<T>(m: Net<T>, s: seq<Node<T>>)
    requires AreNodes(m, s)
    ensures forall a :: a in LeavesIn(m, s) <==> a in s && m[a].kids == []
  {
    if s != [] {
      var n := |s| - 1;
      assert s == s[..n] + [s[n]];
      LeavesAreThose(m, s[..n]);
    }
  }

  lemma LeavesOneMore<T>(m: Net<T>, s: seq<Node<T>>, i: nat)
    requires AreNodes(m, s) && i < |s|
    ensures LeavesIn(m, s[..i + 1]) == LeavesIn(m, s[..i]) + if m[s[i]].kids == [] then [s[i]] else []
    ensures |LeavesIn(m, s[..i + 1])| <= |LeavesIn(m, s)|
  {
    assert s[..i + 1][..i] == s[..i];
    LeavesGrow(m, s, i + 1);
  }

  lemma {:induction false} LeavesGrow<T>(m: Net<T>, s: seq<Node<T>>, i: nat)
    requires AreNodes(m, s) && i <= |s|
    ensures |LeavesIn(m, s[..i])| <= |LeavesIn(m, s)|
    decreases |s|
  {
    if i == |s| {
      assert s[..i] == s;
    } else {
      assert s[..|s| - 1][..i] == s[..i];
      LeavesGrow(m, s[..|s| - 1], i);
    }
  }

  /** The number of children, counted along the siblings. */
  method NumChildren<T>(n: Node<T>, ghost nodes: set<Node<T>>, ghost level: Level<T>) returns (count: nat)
    requires Valid(NetOf(nodes), level) && n in nodes
    ensures count == |n.kids|
  {
    ghost var m := NetOf(nodes);
    assert Linked(m, level, n);
    count := 0;
    var s := n.first;
    while s != null
      invariant count <= |n.kids| && s == if count < |n.kids| then n.kids[count] else null
      decreases |n.kids| - count
    {
      assert KidOk(m, level, n, count);
      s := s.next;
      count := count + 1;
    }
  }

  /** The words given to the leaves. */
  ghost predicate Paired<T(!new)>(leaves: seq<Node<T>>, words: seq<T>)
    reads leaves
  {
    |leaves| <= |words| && forall j :: 0 <= j < |leaves| ==> leaves[j].info == words[j]
  }

  /** Gives the next word to a node if it is a leaf. */
  method PairNode<T(!new)>(n: Node<T>, words: seq<T>, w: nat, ghost done: seq<Node<T>>, ghost nodes: set<Node<T>>, ghost level: Level<T>)
    returns (next: nat)
    requires Valid(NetOf(nodes), level) && n in nodes && n !in done
    requires Paired(done, words) && |done| == w && (n.kids == [] ==> w < |words|)
    modifies n`info
    ensures next == if n.kids == [] then w + 1 else w
    ensures Paired(done + if n.kids == [] then [n] else [], words)
    ensures n.kids != [] ==> n.info == old(n.info)
    ensures NetOf(nodes) == old(NetOf(nodes))
  {
    var count := NumChildren(n, nodes, level);
    next := w;
    if count == 0 {
      n.info := words[w];
      next := w + 1;
    } else {
      assert done + [] == done;
    }
  }

  /** The walk has come to the `i`-th node, and the leaves before it have their words. */
  ghost predicate PairedTo<T(!new)>(m: Net<T>, pre: seq<Node<T>>, i: nat, words: seq<T>, w: nat)
    requires AreNodes(m, pre) && i <= |pre|
    reads LeavesIn(m, pre[..i])
  {
    w == |LeavesIn(m, pre[..i])| && Paired(LeavesIn(m, pre[..i]), words)
  }

  ghost function NodeAt<T>(s: seq<Node<T>>, i: nat): Node?<T> {
    if i < |s| then s[i] else null
  }

  lemma NodeAfter<T>(m: Net<T>, level: Level<T>, s: seq<Node<T>>, i: nat)
    requires Valid(m, level) && Walks(m, level, s, null) && i < |s|
    ensures Next(m, level, s[i]) == NodeAt(s, i + 1)
  {
  }

  /** Visits the `i`-th node. */
  method PairNext<T(!new)>(n: Node<T>, words: seq<T>, w: nat, ghost m: Net<T>, ghost level: Level<T>, ghost pre: seq<Node<T>>, ghost i: nat)
    returns (next: nat)
    requires NetOf(m.Keys) == m && Valid(m, level) && AreNodes(m, pre) && Distinct(pre)
    requires i < |pre| && n == pre[i] && |LeavesIn(m, pre)| <= |words| && PairedTo(m, pre, i, words, w)
    modifies n`info
    ensures NetOf(m.Keys) == m && PairedTo(m, pre, i + 1, words, next)
    ensures n.kids != [] ==> n.info == old(n.info)
  {
    LeavesOneMore(m, pre, i);
    LeavesAreThose(m, pre[..i]);
    next := PairNode(n, words, w, LeavesIn(m, pre[..i]), m.Keys, level);
    assert LeavesIn(m, pre[..i]) + [] == LeavesIn(m, pre[..i]);
  }

  /** Gives the words of a sentence to the leaves of its tree, in the order of the walk. */
  method PairLeaves<T(!new)>(root: Node<T>, words: seq<T>, ghost m: Net<T>, ghost level: Level<T>)
    requires NetOf(m.Keys) == m && Valid(m, level) && root in m && root.parent == null
    requires |LeavesIn(m, Pre(m, level, root))| <= |words|
    modifies m.Keys`info
    ensures Paired(LeavesIn(m, Pre(m, level, root)), words)
    ensures NetOf(m.Keys) == m && forall n :: n in m && m[n].kids != [] ==> n.info == old(n.info)
  {
    ghost var pre := Pre(m, level, root);
    ghost var i := 0;
    WalkVisitsEachNodeOnce(m, level, root);
    var n: Node?<T> := root;
    var w := 0;
    while n != null
      invariant i <= |pre| && n == NodeAt(pre, i)
      invariant NetOf(m.Keys) == m && PairedTo(m, pre, i, words, w)
      invariant forall n :: n in m && m[n].kids != [] ==> n.info == old(n.info)
      decreases |pre| - i
    {
      NodeAfter(m, level, pre, i);
      var after := Following(n, m.Keys, level);
      w := PairNext(n, words, w, m, level, pre, i);
      n, i := after, i + 1;
    }
    assert pre[..i] == pre;
  }
}
