/** Where the two trees are after a merge, how they are labelled and marked, and which flags are on. */
module MergeShapes {
  import opened SyntaxTrees
  import opened Merging
  import opened CompleterRules
  import opened CompleterRuns

  /** The label given to a root by a rule. */
  ghost predicate HasLabel(t: Tree, was: string, new1: string) {
    (new1 == "-" ==> t.cat == was) && (new1 != "-" ==> t.cat == new1)
  }

  /** Of two trees merged at the top, that on the named side is the root and the head, and gets its own
      label; the other is its last, or first, child. */
  lemma MergedAtTop(new1: string, new2: string, left: Tree, right: Tree)
    ensures var t := Merge(TopLeft, new1, new2, left, right, []);
            && HasLabel(t, left.cat, new1) && t.head && |t.kids| == |left.kids| + 1 && t.kids[..|left.kids|] == left.kids
            && HasLabel(t.kids[|left.kids|], right.cat, new2) && !t.kids[|left.kids|].head
            && t.kids[|left.kids|].kids == right.kids
    ensures var t := Merge(TopRight, new1, new2, left, right, []);
            && HasLabel(t, right.cat, new2) && t.head && |t.kids| == |right.kids| + 1 && t.kids[1..] == right.kids
            && HasLabel(t.kids[0], left.cat, new1) && !t.kids[0].head && t.kids[0].kids == left.kids
  {
  }

  lemma {:induction false} SubOfReplace(t: Tree, r: Path, u: Tree)
    requires IsPlace(t, r)
    ensures IsPlace(Replace(t, r, u), r) && Sub(Replace(t, r, u), r) == u
  {
    if r != [] {
      SubOfReplace(t.kids[r[0]], r[1..], u);
    }
  }

  /** A node elsewhere stays what it is. */
  lemma {:induction false} OtherSubStays(t: Tree, r: Path, u: Tree, q: Path)
    requires IsPlace(t, r) && IsPlace(t, q) && !(r <= q) && !(q <= r)
    ensures IsPlace(Replace(t, r, u), q) && Sub(Replace(t, r, u), q) == Sub(t, q)
  {
    if r != [] && q != [] && r[0] == q[0] {
      assert r[1..] <= q[1..] ==> r <= q by {
        assert r == [r[0]] + r[1..] && q == [q[0]] + q[1..];
      }
      assert q[1..] <= r[1..] ==> q <= r by {
        assert r == [r[0]] + r[1..] && q == [q[0]] + q[1..];
      }
      OtherSubStays(t.kids[r[0]], r[1..], u, q[1..]);
    }
  }

  /** The node matched gets the other tree as its last, or first, child, which is no head. */
  lemma MergedInside(new1: string, new2: string, left: Tree, right: Tree, place: Path)
    ensures IsPlace(left, place) ==>
              var t := Merge(LastLeft, new1, new2, left, right, place);
              && IsPlace(t, place) && Sub(t, place).kids == Sub(left, place).kids + [right.(head := false)]
              && Sub(t, place).cat == Sub(left, place).cat
    ensures IsPlace(right, place) ==>
              var t := Merge(LastRight, new1, new2, left, right, place);
              && IsPlace(t, place) && Sub(t, place).kids == [left.(head := false)] + Sub(right, place).kids
              && Sub(t, place).cat == Sub(right, place).cat
  {
    if IsPlace(left, place) {
      var u := Sub(left, place);
      SubOfReplace(left, place, u.(kids := u.kids + [right.(head := false)]));
    }
    if IsPlace(right, place) {
      var u := Sub(right, place);
      SubOfReplace(right, place, u.(kids := [left.(head := false)] + u.kids));
    }
  }

  /** The tree that covers a node becomes the last child of its parent, as a head, and the node the last
      child of that tree; its other siblings stay in order. */
  lemma MergedOver(new1: string, new2: string, left: Tree, right: Tree, place: Path)
    requires IsPlace(left, place) && place != []
    ensures var t := Merge(CoverLastLeft, new1, new2, left, right, place);
            var q, i := place[..|place| - 1], place[|place| - 1];
            && IsPlace(left, q) && i < |Sub(left, q).kids| && Sub(left, place) == Sub(left, q).kids[i] && IsPlace(t, q)
            && Sub(t, q).kids == Sub(left, q).kids[..i] + Sub(left, q).kids[i + 1..]
                                 + [right.(head := true, kids := right.kids + [Sub(left, place)])]
  {
    var l := left.(head := false);
    PlaceInHeadless(left, place);
    PlaceAbove(left, place);
    PlaceAbove(l, place);
    var q, i := place[..|place| - 1], place[|place| - 1];
    PlaceInHeadless(left, q);
    var p := Sub(l, q);
    var d := right.(head := true, kids := right.kids + [p.kids[i]]);
    SubOfReplace(l, q, p.(kids := p.kids[..i] + p.kids[i + 1..] + [d]));
  }

  /** A flag is on after a merge if it was on, or is switched on, and is not switched off. */
  lemma FlagsAfter(g: Grammar, a: State, m: Merger, b: State, x: string)
    requires IsStep(g, a, m, b)
    ensures x in b.flags <==> (x in a.flags || x in m.rule.on) && x !in m.rule.off
  {
  }
}
