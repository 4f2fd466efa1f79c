/** The tree of a sentence, as linked nodes, gets the words of the sentence at its leaves. */
module LeafWords {
  import opened Trees
  import opened TreeWalk
  import Grammars
  import opened ParseTrees
  import TreeSteps
  import SyntaxTrees

  type Labels<!T> = Node<T> -> string

  /** The nodes below `n` are linked, and labelled, as the tree `t` is. */
  ghost predicate Draws<T>(m: Net<T>, labels: Labels<T>, n: Node<T>, t: SyntaxTrees.Tree)
    decreases t
  {
    && n in m && labels(n) == t.cat && |m[n].kids| == |t.kids|
    && forall i :: 0 <= i < |t.kids| ==> Draws(m, labels, m[n].kids[i], t.kids[i])
  }

  ghost function Named<T>(labels: Labels<T>, s: seq<Node<T>>): (r: seq<string>)
    ensures |r| == |s|
  {
    seq(|s|, i requires 0 <= i < |s| => labels(s[i]))
  }

  lemma {:induction false} LeavesInSum<T>(m: Net<T>, a: seq<Node<T>>, b: seq<Node<T>>)
    requires AreNodes(m, a) && AreNodes(m, b)
    ensures AreNodes(m, a + b) && LeavesIn(m, a + b) == LeavesIn(m, a) + LeavesIn(m, b)
  {
    if b == [] {
      assert a + b == a;
    } else {
      var n := |b| - 1;
      assert (a + b)[..|a| + n] == a + b[..n];
      LeavesInSum(m, a, b[..n]);
    }
  }

  lemma NamedSum<T>(labels: Labels<T>, a: seq<Node<T>>, b: seq<Node<T>>)
    ensures Named(labels, a + b) == Named(labels, a) + Named(labels, b)
  {
  }

  lemma LeavesFromFirst(ts: seq<SyntaxTrees.Tree>, i: nat)
    requires i < |ts|
    ensures LeavesOf(ts[i..]) == Leaves(ts[i]) + LeavesOf(ts[i + 1..])
  {
    assert ts[i..] == [ts[i]] + ts[i + 1..];
    LeavesOfSum([ts[i]], ts[i + 1..]);
    assert [ts[i]][..0] == [];
  }

  /** The leaves that the walk visits are those of the tree drawn, in order. */
  lemma {:induction false} LeavesAreDrawn<T>(m: Net<T>, level: Level<T>, labels: Labels<T>, n: Node<T>, t: SyntaxTrees.Tree)
    requires Valid(m, level) && Draws(m, labels, n, t)
    ensures Named(labels, LeavesIn(m, Pre(m, level, n))) == Leaves(t)
    decreases t, |t.kids| + 1
  {
    LeavesInSum(m, [n], PreFrom(m, level, n, 0));
    assert [n][..0] == [];
    if t.kids == [] {
      assert PreFrom(m, level, n, 0) == [];
    } else {
      LeavesFromAreDrawn(m, level, labels, n, t, 0);
      assert t.kids[0..] == t.kids;
    }
  }

  lemma {:induction false} LeavesFromAreDrawn<T>(m: Net<T>, level: Level<T>, labels: Labels<T>, n: Node<T>, t: SyntaxTrees.Tree, i: nat)
    requires Valid(m, level) && Draws(m, labels, n, t) && i <= |t.kids|
    ensures Named(labels, LeavesIn(m, PreFrom(m, level, n, i))) == LeavesOf(t.kids[i..])
    decreases t, |t.kids| - i
  {
    if i < |t.kids| {
      assert Linked(m, level, n) && KidOk(m, level, n, i);
      var first, rest := Pre(m, level, m[n].kids[i]), PreFrom(m, level, n, i + 1);
      LeavesAreDrawn(m, level, labels, m[n].kids[i], t.kids[i]);
      LeavesFromAreDrawn(m, level, labels, n, t, i + 1);
      LeavesInSum(m, first, rest);
      NamedSum(labels, LeavesIn(m, first), LeavesIn(m, rest));
      LeavesFromFirst(t.kids, i);
    }
  }

  /** Leaf `j` has word `j`, and is labelled with a symbol that stands for it. */
  ghost predicate WordAt<T(!new)>(g: Grammars.Grammar, lex: seq<seq<Grammars.Symbol>>, labels: Labels<T>, leaves: seq<Node<T>>, words: seq<T>, j: nat)
    requires j < |leaves| && j < |words|
    reads leaves
  {
    leaves[j].info == words[j] && WordFits(g, lex, j, labels(leaves[j]))
  }

  /** MAIN RESULT: in the tree of a sentence there is one leaf for each word, and it gets that word; a
      single node without label gets the first word. */
  method GiveWords<T(!new)>(root: Node<T>, words: seq<T>, ghost m: Net<T>, ghost level: Level<T>, ghost labels: Labels<T>,
                            ghost t: SyntaxTrees.Tree, ghost g: Grammars.Grammar, ghost lex: seq<seq<Grammars.Symbol>>)
    requires NetOf(m.Keys) == m && Valid(m, level) && root in m && root.parent == null
    requires words != [] && Draws(m, labels, root, t)
    requires t == TreeSteps.NO_TREE || TreeSteps.IsSentenceTree(g, lex, |words|, t)
    modifies m.Keys`info
    ensures NetOf(m.Keys) == m && forall n :: n in m && m[n].kids != [] ==> n.info == old(n.info)
    ensures var leaves := LeavesIn(m, Pre(m, level, root));
            if t == TreeSteps.NO_TREE then leaves == [root] && root.info == words[0]
            else |leaves| == |words| && forall j :: 0 <= j < |words| ==> WordAt(g, lex, labels, leaves, words, j)
  {
    LeavesAreDrawn(m, level, labels, root, t);
    ghost var leaves := LeavesIn(m, Pre(m, level, root));
    assert |leaves| == |Leaves(t)|;
    if t == TreeSteps.NO_TREE {
      LeavesInSum(m, [root], PreFrom(m, level, root, 0));
      assert [root][..0] == [];
    }
    PairLeaves(root, words, m, level);
    forall j | 0 <= j < |leaves| && t != TreeSteps.NO_TREE
      ensures WordAt(g, lex, labels, leaves, words, j)
    {
      assert labels(leaves[j]) == Named(labels, leaves)[j] == Leaves(t)[j];
    }
  }
}
