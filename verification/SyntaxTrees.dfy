/** Parse trees as values, and places in them. */
module SyntaxTrees {

  /** A node: its category, whether it is the head of its parent, the chunk it is part of, the
      word it stands for if it is a leaf, and its children. */
  datatype Tree = Tree(cat: string, head: bool, chunk: nat, word: nat, kids: seq<Tree>)

  /** The place of a node: which child to take at every step down from the root. */
  type Path = seq<nat>

  predicate IsPlace(t: Tree, r: Path) {
    r == [] || (r[0] < |t.kids| && IsPlace(t.kids[r[0]], r[1..]))
  }

  /** The subtree at a place. */
  function Sub(t: Tree, r: Path): Tree
    requires IsPlace(t, r)
  {
    if r == [] then t else Sub(t.kids[r[0]], r[1..])
  }

  /** The number of nodes marked as heads. */
  function Heads(ts: seq<Tree>): nat {
    if ts == [] then 0 else Heads(ts[..|ts| - 1]) + if ts[|ts| - 1].head then 1 else 0
  }

  lemma {:induction false} HeadsOfSum(a: seq<Tree>, b: seq<Tree>)
    ensures Heads(a + b) == Heads(a) + Heads(b)
  {
    if b == [] {
      assert a + b == a;
    } else {
      assert (a + b)[..|a + b| - 1] == a + b[..|b| - 1];
      HeadsOfSum(a, b[..|b| - 1]);
    }
  }

  /** The place of the parent. */
  lemma PlaceAbove(t: Tree, r: Path)
    requires IsPlace(t, r) && r != []
    ensures var q := r[..|r| - 1];
            IsPlace(t, q) && r[|r| - 1] < |Sub(t, q).kids| && Sub(t, r) == Sub(t, q).kids[r[|r| - 1]]
  {
    if |r| > 1 {
      PlaceAbove(t.kids[r[0]], r[1..]);
      assert r[..|r| - 1][1..] == r[1..][..|r[1..]| - 1];
    }
  }
}
