/** When merging two trees keeps the words of the sentence in order. */
module WordOrder {
  import opened SyntaxTrees
  import opened Merging

  /** Every step down to the place takes the last child. */
  predicate OnRightEdge(t: Tree, r: Path)
    requires IsPlace(t, r)
  {
    r == [] || (r[0] == |t.kids| - 1 && OnRightEdge(t.kids[r[0]], r[1..]))
  }

  /** Every step down to the place takes the first child. */
  predicate OnLeftEdge(t: Tree, r: Path)
    requires IsPlace(t, r)
  {
    r == [] || (r[0] == 0 && OnLeftEdge(t.kids[0], r[1..]))
  }

  lemma {:induction false} HasWords(t: Tree)
    ensures Words(t) != []
  {
    if t.kids != [] {
      HasWords(t.kids[|t.kids| - 1]);
    }
  }

  lemma NoWordsIff(ts: seq<Tree>)
    ensures WordsOf(ts) == [] <==> ts == []
  {
    if ts != [] {
      HasWords(ts[|ts| - 1]);
    }
  }

  lemma {:induction false} NothingAfterIff(t: Tree, r: Path)
    requires IsPlace(t, r)
    ensures WordsAfter(t, r) == [] <==> OnRightEdge(t, r)
  {
    if r != [] {
      NothingAfterIff(t.kids[r[0]], r[1..]);
      NoWordsIff(t.kids[r[0] + 1..]);
    }
  }

  lemma {:induction false} NothingBeforeIff(t: Tree, r: Path)
    requires IsPlace(t, r)
    ensures WordsBefore(t, r) == [] <==> OnLeftEdge(t, r)
  {
    if r != [] {
      NothingBeforeIff(t.kids[r[0]], r[1..]);
      NoWordsIff(t.kids[..r[0]]);
    }
  }

  predicate Increasing(ws: seq<nat>) {
    forall i, j :: 0 <= i < j < |ws| ==> ws[i] < ws[j]
  }

  /** All words of one list come before all those of another. */
  predicate Precede(a: seq<nat>, b: seq<nat>) {
    forall x, y :: x in a && y in b ==> x < y
  }

  lemma IncreasingParts(a: seq<nat>, b: seq<nat>)
    requires Increasing(a + b)
    ensures Precede(a, b)
  {
    forall x, y | x in a && y in b
      ensures x < y
    {
      var i :| 0 <= i < |a| && a[i] == x;
      var j :| 0 <= j < |b| && b[j] == y;
      assert (a + b)[i] == x && (a + b)[|a| + j] == y;
    }
  }

  lemma PutBefore(a: seq<nat>, x: seq<nat>, y: seq<nat>, b: seq<nat>)
    requires x != [] && y != [] && y[0] < x[0]
    ensures !Increasing(a + (x + y) + b)
  {
    var all := a + (x + y) + b;
    assert all[|a|] == x[0] && all[|a| + |x|] == y[0];
  }

  /** Words put in front of smaller ones, in the three places where merging puts them. */
  lemma PutInFront(b: seq<nat>, w: seq<nat>, a: seq<nat>, c: seq<nat>)
    requires Precede(b + w + a, c) && a != [] && c != []
    ensures !Increasing(b + (w + c) + a)
  {
    assert (b + w + a)[|b + w|] == a[0] && a[0] in b + w + a && c[0] in c;
    PutBefore(b + w, c, a, []);
    assert b + (w + c) + a == b + w + (c + a) + [];
  }

  lemma PutBehind(b: seq<nat>, w: seq<nat>, a: seq<nat>, c: seq<nat>)
    requires Precede(c, b + w + a) && b != [] && c != []
    ensures !Increasing(b + (c + w) + a)
  {
    assert (b + w + a)[0] == b[0] && b[0] in b + w + a && c[0] in c;
    PutBefore([], b, c, w + a);
    assert b + (c + w) + a == [] + (b + c) + (w + a);
  }

  lemma PutOver(b: seq<nat>, l: seq<nat>, k: seq<nat>, r: seq<nat>, a: seq<nat>, c: seq<nat>)
    requires Precede(b + (l + k + r) + a, c) && k != [] && c != []
    ensures !Increasing(b + (l + r + (c + k)) + a)
  {
    var all := b + (l + k + r) + a;
    assert all[|b| + |l|] == k[0] && k[0] in all && c[0] in c;
    PutBefore(b + l + r, c, k, a);
    assert b + (l + r + (c + k)) + a == b + l + r + (c + k) + a;
  }

  /** The merge leaves the words as they follow each other in the sentence. */
  predicate InOrder(op: Operation, left: Tree, right: Tree, place: Path)
    requires Mergeable(op, left, right, place)
  {
    && (op.LastLeft? ==> OnRightEdge(left, place))
    && (op.LastRight? ==> OnLeftEdge(right, place))
    && !op.CoverLastLeft?
  }

  lemma HungWords(t: Tree, r: Path, c: Tree, last: bool)
    requires IsPlace(t, r)
    requires Sub(t, r).kids != []
    ensures var w := Words(Sub(t, r));
            Words(HangAt(t, r, c, last)) == WordsBefore(t, r) + (if last then w + Words(c) else Words(c) + w) + WordsAfter(t, r)
  {
    var u := Sub(t, r);
    ReplaceWords(t, r, u.(kids := if last then u.kids + [c] else [c] + u.kids));
    WordsOfSum(u.kids, [c]);
    WordsOfSum([c], u.kids);
    WordsOfOne(c);
  }

  lemma LastLeftOrder(t: Tree, r: Path, c: Tree)
    requires IsPlace(t, r) && Precede(Words(t), Words(c)) && Sub(t, r).kids != []
    ensures Increasing(Words(HangAt(t, r, c, true))) ==> OnRightEdge(t, r)
    ensures OnRightEdge(t, r) ==> Words(HangAt(t, r, c, true)) == Words(t) + Words(c)
  {
    var b, w, a := WordsBefore(t, r), Words(Sub(t, r)), WordsAfter(t, r);
    HungWords(t, r, c, true);
    ReplaceWords(t, r, t);
    NothingAfterIff(t, r);
    HasWords(c);
    if a != [] {
      PutInFront(b, w, a, Words(c));
    }
  }

  lemma LastRightOrder(t: Tree, r: Path, c: Tree)
    requires IsPlace(t, r) && Precede(Words(c), Words(t)) && Sub(t, r).kids != []
    ensures Increasing(Words(HangAt(t, r, c, false))) ==> OnLeftEdge(t, r)
    ensures OnLeftEdge(t, r) ==> Words(HangAt(t, r, c, false)) == Words(c) + Words(t)
  {
    var b, w, a := WordsBefore(t, r), Words(Sub(t, r)), WordsAfter(t, r);
    HungWords(t, r, c, false);
    ReplaceWords(t, r, t);
    NothingBeforeIff(t, r);
    HasWords(c);
    if b != [] {
      PutBehind(b, w, a, Words(c));
    }
  }

  /** A node that is covered comes after the tree that covers it. */
  lemma CoverOrder(t: Tree, r: Path, c: Tree)
    requires IsPlace(t, r) && r != [] && Precede(Words(t), Words(c)) && c.kids != []
    ensures !Increasing(Words(CoverAt(t, r, c)))
  {
    PlaceAbove(t, r);
    var q, i := r[..|r| - 1], r[|r| - 1];
    var p := Sub(t, q);
    var k := p.kids[i];
    var d := c.(kids := c.kids + [k]);
    var rest := p.kids[..i] + p.kids[i + 1..];
    ReplaceWords(t, q, p.(kids := rest + [d]));
    WordsAround(p.kids, i, k);
    WordsOfSum(p.kids[..i], p.kids[i + 1..]);
    WordsOfSum(rest, [d]);
    WordsOfSum(c.kids, [k]);
    WordsOfOne(d);
    WordsOfOne(k);
    HasWords(c);
    HasWords(k);
    PutOver(WordsBefore(t, q), WordsOf(p.kids[..i]), Words(k), WordsOf(p.kids[i + 1..]), WordsAfter(t, q), Words(c));
  }

  /** A merge of two trees, the words of one before those of the other, leaves words in order only if
      it is made at the edge between the trees; and then it leaves them as they were. */
  lemma MergeKeepsOrderIff(op: Operation, new1: string, new2: string, left: Tree, right: Tree, place: Path)
    requires Mergeable(op, left, right, place) && MatchedInside(op, left, right, place)
    requires left.kids != [] && right.kids != [] && Precede(Words(left), Words(right))
    ensures Increasing(Words(Merge(op, new1, new2, left, right, place))) ==> InOrder(op, left, right, place)
    ensures InOrder(op, left, right, place) ==>
      Words(Merge(op, new1, new2, left, right, place)) == Words(left) + Words(right)
  {
    match op
    case TopLeft => TopMergeKeepsOrder(op, new1, new2, left, right, place);
    case TopRight => TopMergeKeepsOrder(op, new1, new2, left, right, place);
    case LastLeft => LastLeftOrder(left, place, right.(head := false));
    case LastRight => LastRightOrder(right, place, left.(head := false));
    case CoverLastLeft =>
      PlaceInHeadless(left, place);
      CoverOrder(left.(head := false), place, right.(head := true));
  }
}
