/** Merging two trees into one, and what that keeps: the words, their order, the heads. */
module Merging {
  import opened SyntaxTrees

  /** The words of the leaves, from left to right. */
  function Words(t: Tree): seq<nat>
    decreases t, 1
  {
    if t.kids == [] then [t.word] else WordsOf(t.kids)
  }

  function WordsOf(ts: seq<Tree>): seq<nat>
    decreases ts, 0
  {
    if ts == [] then [] else WordsOf(ts[..|ts| - 1]) + Words(ts[|ts| - 1])
  }

  lemma {:induction false} WordsOfSum(a: seq<Tree>, b: seq<Tree>)
    ensures WordsOf(a + b) == WordsOf(a) + WordsOf(b)
  {
    if b == [] {
      assert a + b == a;
    } else {
      assert (a + b)[..|a + b| - 1] == a + b[..|b| - 1];
      WordsOfSum(a, b[..|b| - 1]);
    }
  }

  lemma WordsOfOne(t: Tree)
    ensures WordsOf([t]) == Words(t)
  {
    assert [t][..0] == [];
  }

  lemma WordsOfThree(a: seq<Tree>, t: Tree, b: seq<Tree>)
    ensures WordsOf(a + [t] + b) == WordsOf(a) + Words(t) + WordsOf(b)
  {
    WordsOfSum(a + [t], b);
    WordsOfSum(a, [t]);
    WordsOfOne(t);
  }

  lemma WordsAround(ts: seq<Tree>, i: nat, u: Tree)
    requires i < |ts|
    ensures WordsOf(ts) == WordsOf(ts[..i]) + Words(ts[i]) + WordsOf(ts[i + 1..])
    ensures WordsOf(ts[i := u]) == WordsOf(ts[..i]) + Words(u) + WordsOf(ts[i + 1..])
  {
    WordsOfThree(ts[..i], ts[i], ts[i + 1..]);
    WordsOfThree(ts[..i], u, ts[i + 1..]);
    SplitAround(ts, i, u);
  }

  lemma SplitAround(ts: seq<Tree>, i: nat, u: Tree)
    requires i < |ts|
    ensures ts[..i] + [ts[i]] + ts[i + 1..] == ts && ts[..i] + [u] + ts[i + 1..] == ts[i := u]
  {
  }

  /** The tree with another subtree at a place. */
  function Replace(t: Tree, r: Path, u: Tree): Tree
    requires IsPlace(t, r)
  {
    if r == [] then u else t.(kids := t.kids[r[0] := Replace(t.kids[r[0]], r[1..], u)])
  }

  lemma Regroup(l: seq<nat>, b: seq<nat>, w: seq<nat>, a: seq<nat>, m: seq<nat>)
    ensures l + (b + w + a) + m == l + b + w + (a + m)
  {
  }

  /** The words to the left of a place. */
  function WordsBefore(t: Tree, r: Path): seq<nat>
    requires IsPlace(t, r)
  {
    if r == [] then [] else WordsOf(t.kids[..r[0]]) + WordsBefore(t.kids[r[0]], r[1..])
  }

  /** The words to the right of a place. */
  function WordsAfter(t: Tree, r: Path): seq<nat>
    requires IsPlace(t, r)
  {
    if r == [] then [] else WordsAfter(t.kids[r[0]], r[1..]) + WordsOf(t.kids[r[0] + 1..])
  }

  /** Replacing a subtree changes only its words. */
  lemma {:induction false} ReplaceWords(t: Tree, r: Path, u: Tree)
    requires IsPlace(t, r)
    ensures Words(t) == WordsBefore(t, r) + Words(Sub(t, r)) + WordsAfter(t, r)
    ensures Words(Replace(t, r, u)) == WordsBefore(t, r) + Words(u) + WordsAfter(t, r)
  {
    if r != [] {
      var i := r[0];
      ReplaceWords(t.kids[i], r[1..], u);
      WordsAround(t.kids, i, Replace(t.kids[i], r[1..], u));
      var b, a := WordsBefore(t.kids[i], r[1..]), WordsAfter(t.kids[i], r[1..]);
      var l, m := WordsOf(t.kids[..i]), WordsOf(t.kids[i + 1..]);
      Regroup(l, b, Words(Sub(t, r)), a, m);
      Regroup(l, b, Words(u), a, m);
    }
  }

  /** Every node with children has exactly one head child. */
  ghost predicate OneHead(t: Tree) {
    (t.kids != [] ==> Heads(t.kids) == 1) && forall i :: 0 <= i < |t.kids| ==> OneHead(t.kids[i])
  }

  lemma {:induction false} SubIsOneHead(t: Tree, r: Path)
    requires IsPlace(t, r) && OneHead(t)
    ensures OneHead(Sub(t, r))
  {
    if r != [] {
      SubIsOneHead(t.kids[r[0]], r[1..]);
    }
  }

  lemma HeadsOfThree(a: seq<Tree>, t: Tree, b: seq<Tree>)
    ensures Heads(a + [t] + b) == Heads(a + b) + if t.head then 1 else 0
  {
    HeadsOfSum(a + [t], b);
    HeadsOfSum(a, [t]);
    HeadsOfSum(a, b);
    assert [t][..0] == [];
  }

  lemma HeadsAround(ts: seq<Tree>, i: nat, u: Tree)
    requires i < |ts|
    ensures Heads(ts) == Heads(ts[..i] + ts[i + 1..]) + if ts[i].head then 1 else 0
    ensures Heads(ts[i := u]) == Heads(ts[..i] + ts[i + 1..]) + if u.head then 1 else 0
  {
    HeadsOfThree(ts[..i], ts[i], ts[i + 1..]);
    HeadsOfThree(ts[..i], u, ts[i + 1..]);
    SplitAround(ts, i, u);
  }

  /** Heads are in order after replacing a subtree exactly when they are in the new one. */
  lemma {:induction false} ReplaceHeads(t: Tree, r: Path, u: Tree)
    requires IsPlace(t, r) && OneHead(t) && (r != [] ==> u.head == Sub(t, r).head)
    ensures OneHead(Replace(t, r, u)) <==> OneHead(u)
    ensures r != [] ==> Replace(t, r, u).head == t.head
  {
    if r != [] {
      var i := r[0];
      var v := Replace(t.kids[i], r[1..], u);
      ReplaceHeads(t.kids[i], r[1..], u);
      HeadsAround(t.kids, i, v);
      var w := Replace(t, r, u);
      assert w.kids[i] == v;
      assert forall j :: 0 <= j < |t.kids| && j != i ==> w.kids[j] == t.kids[j];
      if OneHead(u) {
        forall j | 0 <= j < |w.kids|
          ensures OneHead(w.kids[j])
        {
          assert j != i ==> OneHead(t.kids[j]);
        }
      }
    }
  }

  lemma OneHeadAppend(a: seq<Tree>, b: seq<Tree>)
    requires forall i :: 0 <= i < |a| ==> OneHead(a[i])
    requires forall i :: 0 <= i < |b| ==> OneHead(b[i])
    ensures forall i :: 0 <= i < |a + b| ==> OneHead((a + b)[i])
  {
  }

  datatype Operation = TopLeft | TopRight | LastLeft | LastRight | CoverLastLeft

  function Relabel(t: Tree, s: string): Tree {
    if s == "-" then t else t.(cat := s)
  }

  /** Hangs `c` below the node at place `r`, as its last or its first child. */
  function HangAt(t: Tree, r: Path, c: Tree, last: bool): Tree
    requires IsPlace(t, r)
  {
    var u := Sub(t, r);
    Replace(t, r, u.(kids := if last then u.kids + [c] else [c] + u.kids))
  }

  /** Puts `c` where the node at place `r` is, with that node as the last child of `c`. */
  function CoverAt(t: Tree, r: Path, c: Tree): Tree
    requires IsPlace(t, r) && r != []
  {
    PlaceAbove(t, r);
    var q, i := r[..|r| - 1], r[|r| - 1];
    var p := Sub(t, q);
    Replace(t, q, p.(kids := p.kids[..i] + p.kids[i + 1..] + [c.(kids := c.kids + [p.kids[i]])]))
  }

  /** The operations that merge two neighbouring trees. */
  function Merge(op: Operation, new1: string, new2: string, left: Tree, right: Tree, place: Path): Tree
    requires op.LastLeft? || op.CoverLastLeft? ==> IsPlace(left, place)
    requires op.LastRight? ==> IsPlace(right, place)
    requires op.CoverLastLeft? ==> place != []
  {
    match op
    case TopLeft =>
      var l, r := Relabel(left.(head := true), new1), Relabel(right.(head := false), new2);
      l.(kids := l.kids + [r])
    case TopRight =>
      var l, r := Relabel(left.(head := false), new1), Relabel(right.(head := true), new2);
      r.(kids := [l] + r.kids)
    case LastLeft => HangAt(left, place, right.(head := false), true)
    case LastRight => HangAt(right, place, left.(head := false), false)
    case CoverLastLeft =>
      PlaceInHeadless(left, place);
      CoverAt(left.(head := false), place, right.(head := true))
  }

  lemma PlaceInHeadless(t: Tree, r: Path)
    requires IsPlace(t, r)
    ensures IsPlace(t.(head := false), r) && (r != [] ==> Sub(t.(head := false), r) == Sub(t, r))
  {
  }

  /** Merging at the top keeps the words in order. */
  lemma TopMergeKeepsOrder(op: Operation, new1: string, new2: string, left: Tree, right: Tree, place: Path)
    requires op.TopLeft? || op.TopRight?
    requires left.kids != [] && right.kids != []
    ensures Words(Merge(op, new1, new2, left, right, place)) == Words(left) + Words(right)
  {
    if op.TopLeft? {
      var r := Relabel(right.(head := false), new2);
      WordsOfSum(left.kids, [r]);
      WordsOfOne(r);
    } else {
      var l := Relabel(left.(head := false), new1);
      WordsOfSum([l], right.kids);
      WordsOfOne(l);
    }
  }

  /** The word of a node that is a leaf. */
  function LeafWord(t: Tree): seq<nat> {
    if t.kids == [] then [t.word] else []
  }

  lemma WordsPut(b: seq<nat>, w: seq<nat>, a: seq<nat>, c: seq<nat>, last: bool)
    ensures multiset(b + (if last then w + c else c + w) + a) == multiset(b + w + a) + multiset(c)
  {
  }

  lemma WordLost(b: seq<nat>, w: seq<nat>, a: seq<nat>, c: seq<nat>)
    ensures multiset(b + c + a) + multiset(w) == multiset(b + w + a) + multiset(c)
  {
  }

  /** Hanging a tree below a node loses the word of that node if it is a leaf, and no other. */
  lemma HangLosesWord(t: Tree, r: Path, c: Tree, last: bool)
    requires IsPlace(t, r)
    ensures multiset(Words(HangAt(t, r, c, last))) + multiset(LeafWord(Sub(t, r))) == multiset(Words(t)) + multiset(Words(c))
  {
    var u := Sub(t, r);
    var kids := if last then u.kids + [c] else [c] + u.kids;
    var b, a := WordsBefore(t, r), WordsAfter(t, r);
    ReplaceWords(t, r, u.(kids := kids));
    WordsOfSum(u.kids, [c]);
    WordsOfSum([c], u.kids);
    WordsOfOne(c);
    if u.kids == [] {
      WordLost(b, Words(u), a, Words(c));
    } else {
      WordsPut(b, Words(u), a, Words(c), last);
    }
  }

  lemma CoveringWords(b: seq<nat>, l: seq<nat>, k: seq<nat>, r: seq<nat>, c: seq<nat>, a: seq<nat>)
    ensures multiset(b + (l + r + (c + k)) + a) == multiset(b + (l + k + r) + a) + multiset(c)
  {
  }

  /** Covering a node keeps all words. */
  lemma CoverKeepsWords(t: Tree, r: Path, c: Tree)
    requires IsPlace(t, r) && r != [] && c.kids != []
    ensures multiset(Words(CoverAt(t, r, c))) == multiset(Words(t)) + multiset(Words(c))
  {
    PlaceAbove(t, r);
    var q, i := r[..|r| - 1], r[|r| - 1];
    var p := Sub(t, q);
    var k := p.kids[i];
    var d := c.(kids := c.kids + [k]);
    var rest := p.kids[..i] + p.kids[i + 1..];
    var b, a := WordsBefore(t, q), WordsAfter(t, q);
    ReplaceWords(t, q, p.(kids := rest + [d]));
    WordsOfSum(rest, [d]);
    WordsOfSum(p.kids[..i], p.kids[i + 1..]);
    WordsOfSum(c.kids, [k]);
    WordsOfOne(d);
    WordsOfOne(k);
    WordsAround(p.kids, i, k);
    CoveringWords(b, WordsOf(p.kids[..i]), Words(k), WordsOf(p.kids[i + 1..]), Words(c), a);
  }

  /** Hanging a tree below a node keeps one head everywhere exactly if that node is not a leaf. */
  lemma HangKeepsOneHeadIff(t: Tree, r: Path, c: Tree, last: bool)
    requires IsPlace(t, r) && OneHead(t) && OneHead(c) && !c.head
    ensures OneHead(HangAt(t, r, c, last)) <==> Sub(t, r).kids != []
  {
    var u := Sub(t, r);
    var kids := if last then u.kids + [c] else [c] + u.kids;
    SubIsOneHead(t, r);
    HeadsOfSum(u.kids, [c]);
    HeadsOfSum([c], u.kids);
    assert [c][..0] == [];
    OneHeadAppend(u.kids, [c]);
    OneHeadAppend([c], u.kids);
    ReplaceHeads(t, r, u.(kids := kids));
  }

  /** Covering a node never keeps one head everywhere: either the node covered was a head, and is
      now the second one below the tree that covers it, or that tree is the second one in its place. */
  lemma CoverBreaksHeads(t: Tree, r: Path, c: Tree)
    requires IsPlace(t, r) && r != [] && OneHead(t) && OneHead(c) && c.head && c.kids != []
    ensures !OneHead(CoverAt(t, r, c))
  {
    PlaceAbove(t, r);
    var q, i := r[..|r| - 1], r[|r| - 1];
    var p := Sub(t, q);
    var k := p.kids[i];
    var d := c.(kids := c.kids + [k]);
    var rest := p.kids[..i] + p.kids[i + 1..];
    SubIsOneHead(t, q);
    HeadsAround(p.kids, i, k);
    HeadsOfSum(rest, [d]);
    HeadsOfSum(c.kids, [k]);
    assert [d][..0] == [] && [k][..0] == [];
    assert (rest + [d])[|rest|] == d;
    ReplaceHeads(t, q, p.(kids := rest + [d]));
  }

  lemma MarksKeepOneHead(t: Tree, s: string, head: bool)
    requires OneHead(t)
    ensures OneHead(t.(head := head)) && OneHead(Relabel(t, s))
  {
  }

  /** Merging at the top keeps one head everywhere. */
  lemma TopMergeKeepsOneHead(op: Operation, new1: string, new2: string, left: Tree, right: Tree, place: Path)
    requires op.TopLeft? || op.TopRight?
    requires OneHead(left) && OneHead(right) && left.kids != [] && right.kids != []
    ensures OneHead(Merge(op, new1, new2, left, right, place))
  {
    if op.TopLeft? {
      var r := Relabel(right.(head := false), new2);
      MarksKeepOneHead(right, new2, false);
      MarksKeepOneHead(right.(head := false), new2, false);
      HeadsOfSum(left.kids, [r]);
      assert [r][..0] == [];
      OneHeadAppend(left.kids, [r]);
    } else {
      var l := Relabel(left.(head := false), new1);
      MarksKeepOneHead(left, new1, false);
      MarksKeepOneHead(left.(head := false), new1, false);
      HeadsOfSum([l], right.kids);
      assert [l][..0] == [];
      OneHeadAppend([l], right.kids);
    }
  }

  /** The place at which a merge depends is one, and is not the root if the root would be lost. */
  predicate Mergeable(op: Operation, left: Tree, right: Tree, place: Path) {
    && (op.LastLeft? || op.CoverLastLeft? ==> IsPlace(left, place))
    && (op.LastRight? ==> IsPlace(right, place))
    && (op.CoverLastLeft? ==> place != [])
  }

  /** The node matched is not a leaf, where that matters. */
  predicate MatchedInside(op: Operation, left: Tree, right: Tree, place: Path)
    requires Mergeable(op, left, right, place)
  {
    && (op.LastLeft? ==> Sub(left, place).kids != [])
    && (op.LastRight? ==> Sub(right, place).kids != [])
  }

  /** The words lost in a merge: that of the leaf that a tree is hung below. */
  function Lost(op: Operation, left: Tree, right: Tree, place: Path): (ws: seq<nat>)
    requires Mergeable(op, left, right, place)
    ensures |ws| == if MatchedInside(op, left, right, place) then 0 else 1
  {
    if op.LastLeft? then LeafWord(Sub(left, place)) else if op.LastRight? then LeafWord(Sub(right, place)) else []
  }

  /** MAIN RESULT: merging keeps all words but those lost. */
  lemma MergeLosesWords(op: Operation, new1: string, new2: string, left: Tree, right: Tree, place: Path)
    requires Mergeable(op, left, right, place) && left.kids != [] && right.kids != []
    ensures multiset(Words(Merge(op, new1, new2, left, right, place))) + multiset(Lost(op, left, right, place))
         == multiset(Words(left)) + multiset(Words(right))
  {
    match op
    case TopLeft => TopMergeKeepsOrder(op, new1, new2, left, right, place);
    case TopRight => TopMergeKeepsOrder(op, new1, new2, left, right, place);
    case LastLeft => HangLosesWord(left, place, right.(head := false), true);
    case LastRight => HangLosesWord(right, place, left.(head := false), false);
    case CoverLastLeft =>
      PlaceInHeadless(left, place);
      CoverKeepsWords(left.(head := false), place, right.(head := true));
  }

  /** Merging keeps all words exactly when no tree is hung below a leaf. */
  lemma MergeKeepsWordsIff(op: Operation, new1: string, new2: string, left: Tree, right: Tree, place: Path)
    requires Mergeable(op, left, right, place) && left.kids != [] && right.kids != []
    ensures multiset(Words(Merge(op, new1, new2, left, right, place))) == multiset(Words(left)) + multiset(Words(right))
       <==> MatchedInside(op, left, right, place)
  {
    MergeLosesWords(op, new1, new2, left, right, place);
    var all := multiset(Words(Merge(op, new1, new2, left, right, place)));
    assert |all + multiset(Lost(op, left, right, place))| == |all| + |Lost(op, left, right, place)|;
  }

  /** MAIN RESULT: merging keeps one head child everywhere exactly when no tree is hung below a
      leaf, and no node is covered. */
  lemma MergeKeepsOneHeadIff(op: Operation, new1: string, new2: string, left: Tree, right: Tree, place: Path)
    requires Mergeable(op, left, right, place) && OneHead(left) && OneHead(right) && left.kids != [] && right.kids != []
    ensures OneHead(Merge(op, new1, new2, left, right, place))
       <==> MatchedInside(op, left, right, place) && !op.CoverLastLeft?
  {
    match op
    case TopLeft => TopMergeKeepsOneHead(op, new1, new2, left, right, place);
    case TopRight => TopMergeKeepsOneHead(op, new1, new2, left, right, place);
    case LastLeft => HangKeepsOneHeadIff(left, place, right.(head := false), true);
    case LastRight => HangKeepsOneHeadIff(right, place, left.(head := false), false);
    case CoverLastLeft =>
      PlaceInHeadless(left, place);
      CoverBreaksHeads(left.(head := false), place, right.(head := true));
  }

  /** A merged tree is not a leaf. */
  lemma MergedIsInner(op: Operation, new1: string, new2: string, left: Tree, right: Tree, place: Path)
    requires Mergeable(op, left, right, place) && left.kids != [] && right.kids != []
    ensures Merge(op, new1, new2, left, right, place).kids != []
  {
  }
}
