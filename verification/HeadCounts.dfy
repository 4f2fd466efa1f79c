/** How many heads there are too many in a tree: what merging does to that number. */
module HeadCounts {
  import opened SyntaxTrees
  import opened Merging

  /** The number of marked nodes below `t`, less the number of nodes with children. */
  function Excess(t: Tree): int
    decreases t, 1
  {
    if t.kids == [] then 0 else Heads(t.kids) - 1 + ExcessOf(t.kids)
  }

  function ExcessOf(ts: seq<Tree>): int
    decreases ts, 0
  {
    if ts == [] then 0 else ExcessOf(ts[..|ts| - 1]) + Excess(ts[|ts| - 1])
  }

  function OneIf(b: bool): int {
    if b then 1 else 0
  }

  lemma {:induction false} OneHeadHasNoExcess(t: Tree)
    requires OneHead(t)
    ensures Excess(t) == 0
    decreases t, 1
  {
    if t.kids != [] {
      OneHeadsHaveNoExcess(t.kids);
    }
  }

  lemma {:induction false} OneHeadsHaveNoExcess(ts: seq<Tree>)
    requires forall i :: 0 <= i < |ts| ==> OneHead(ts[i])
    ensures ExcessOf(ts) == 0
    decreases ts, 0
  {
    if ts != [] {
      OneHeadsHaveNoExcess(ts[..|ts| - 1]);
      OneHeadHasNoExcess(ts[|ts| - 1]);
    }
  }

  lemma {:induction false} ExcessOfSum(a: seq<Tree>, b: seq<Tree>)
    ensures ExcessOf(a + b) == ExcessOf(a) + ExcessOf(b)
  {
    if b == [] {
      assert a + b == a;
    } else {
      assert (a + b)[..|a + b| - 1] == a + b[..|b| - 1];
      ExcessOfSum(a, b[..|b| - 1]);
    }
  }

  lemma ExcessOfThree(a: seq<Tree>, t: Tree, b: seq<Tree>)
    ensures ExcessOf(a + [t] + b) == ExcessOf(a) + Excess(t) + ExcessOf(b)
  {
    ExcessOfSum(a + [t], b);
    ExcessOfSum(a, [t]);
    assert [t][..0] == [];
  }

  /** Replacing a subtree, with the same mark, changes the excess by as much as that of the subtree. */
  lemma {:induction false} ReplaceExcess(t: Tree, r: Path, u: Tree)
    requires IsPlace(t, r) && (r != [] ==> u.head == Sub(t, r).head)
    ensures Excess(Replace(t, r, u)) - Excess(t) == Excess(u) - Excess(Sub(t, r))
    ensures r != [] ==> Replace(t, r, u).head == t.head
  {
    if r != [] {
      var i := r[0];
      var v := Replace(t.kids[i], r[1..], u);
      ReplaceExcess(t.kids[i], r[1..], u);
      HeadsAround(t.kids, i, v);
      SplitAround(t.kids, i, v);
      ExcessOfThree(t.kids[..i], t.kids[i], t.kids[i + 1..]);
      ExcessOfThree(t.kids[..i], v, t.kids[i + 1..]);
    }
  }

  /** A node with one child more. */
  lemma MoreKidsExcess(u: Tree, c: Tree, kids: seq<Tree>)
    requires kids == u.kids + [c] || kids == [c] + u.kids
    ensures Excess(u.(kids := kids)) == Excess(u) + Excess(c) + OneIf(c.head) - OneIf(u.kids == [])
  {
    HeadsOfSum(u.kids, [c]);
    HeadsOfSum([c], u.kids);
    ExcessOfSum(u.kids, [c]);
    ExcessOfSum([c], u.kids);
    assert [c][..0] == [];
  }

  lemma HangExcess(t: Tree, r: Path, c: Tree, last: bool)
    requires IsPlace(t, r) && !c.head
    ensures Excess(HangAt(t, r, c, last)) == Excess(t) + Excess(c) - |LeafWord(Sub(t, r))|
  {
    var u := Sub(t, r);
    var kids := if last then u.kids + [c] else [c] + u.kids;
    MoreKidsExcess(u, c, kids);
    ReplaceExcess(t, r, u.(kids := kids));
  }

  lemma CoverExcess(t: Tree, r: Path, c: Tree)
    requires IsPlace(t, r) && r != [] && c.head && c.kids != []
    ensures Excess(CoverAt(t, r, c)) == Excess(t) + Excess(c) + 1
  {
    PlaceAbove(t, r);
    var q, i := r[..|r| - 1], r[|r| - 1];
    var p := Sub(t, q);
    var k := p.kids[i];
    var d := c.(kids := c.kids + [k]);
    var rest := p.kids[..i] + p.kids[i + 1..];
    MoreKidsExcess(c, k, c.kids + [k]);
    HeadsAround(p.kids, i, k);
    SplitAround(p.kids, i, k);
    HeadsOfSum(rest, [d]);
    ExcessOfSum(rest, [d]);
    ExcessOfSum(p.kids[..i], p.kids[i + 1..]);
    ExcessOfThree(p.kids[..i], k, p.kids[i + 1..]);
    assert [d][..0] == [];
    ReplaceExcess(t, q, p.(kids := rest + [d]));
  }

  lemma MarksKeepExcess(t: Tree, s: string, head: bool)
    ensures Excess(t.(head := head)) == Excess(t) && Excess(Relabel(t, s)) == Excess(t)
  {
  }

  /** MAIN RESULT: a merge makes one head too many where it covers a node, and one too few where it
      hangs a tree below a leaf. */
  lemma MergeExcess(op: Operation, new1: string, new2: string, left: Tree, right: Tree, place: Path)
    requires Mergeable(op, left, right, place) && left.kids != [] && right.kids != []
    ensures Excess(Merge(op, new1, new2, left, right, place))
         == Excess(left) + Excess(right) + OneIf(op.CoverLastLeft?) - |Lost(op, left, right, place)|
  {
    match op
    case TopLeft =>
      var l, r := left.(head := true), right.(head := false);
      MarksKeepExcess(left, new1, true);
      MarksKeepExcess(l, new1, true);
      MarksKeepExcess(right, new2, false);
      MarksKeepExcess(r, new2, false);
      MoreKidsExcess(Relabel(l, new1), Relabel(r, new2), l.kids + [Relabel(r, new2)]);
    case TopRight =>
      var l, r := left.(head := false), right.(head := true);
      MarksKeepExcess(left, new1, false);
      MarksKeepExcess(l, new1, false);
      MarksKeepExcess(right, new2, true);
      MarksKeepExcess(r, new2, true);
      MoreKidsExcess(Relabel(r, new2), Relabel(l, new1), [Relabel(l, new1)] + r.kids);
    case LastLeft =>
      MarksKeepExcess(right, new2, false);
      HangExcess(left, place, right.(head := false), true);
    case LastRight =>
      MarksKeepExcess(left, new1, false);
      HangExcess(right, place, left.(head := false), false);
    case CoverLastLeft =>
      PlaceInHeadless(left, place);
      MarksKeepExcess(left, new1, false);
      MarksKeepExcess(right, new2, true);
      CoverExcess(left.(head := false), place, right.(head := true));
  }
}
