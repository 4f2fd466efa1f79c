/** Sorting lemmas and tags by preference. */
module Preferences {
  import opened Strings

  type Prefs = map<string, string>

  /** The preferred string first, or else the alphabetical order. */
  predicate Less(a: string, b: string, pref: Prefs) {
    if a in pref && pref[a] == b then true
    else if b in pref && pref[b] == a then false
    else Alphabetical(a, b)
  }

  /** The preferences order some strings: no two are each less than the other, none that is less than
      itself occurs twice, and what is not less is in order through a third. */
  ghost predicate Ordered(ls: multiset<string>, pref: Prefs) {
    && (forall a, b :: a in ls && b in ls && a != b && Less(a, b, pref) ==> !Less(b, a, pref))
    && (forall a :: a in ls && Less(a, a, pref) ==> ls[a] == 1)
    && (forall a, b, c :: a in ls && b in ls && c in ls && a != c && !Less(b, a, pref) && !Less(c, b, pref) ==> !Less(c, a, pref))
  }

  ghost predicate Sorted(ls: seq<string>, pref: Prefs) {
    forall i, j :: 0 <= i < j < |ls| ==> !Less(ls[j], ls[i], pref)
  }

  lemma {:induction false} AlphabeticalIsAsymmetric(a: string, b: string)
    requires Alphabetical(a, b)
    ensures !Alphabetical(b, a)
    decreases |a|
  {
    if a != [] && a[0] == b[0] {
      AlphabeticalIsAsymmetric(a[1..], b[1..]);
    }
  }

  lemma {:induction false} NotAfterIsTransitive(a: string, b: string, c: string)
    requires !Alphabetical(b, a) && !Alphabetical(c, b)
    ensures !Alphabetical(c, a)
    decreases |a|
  {
    if a != [] && b != [] && c != [] && a[0] == b[0] == c[0] {
      NotAfterIsTransitive(a[1..], b[1..], c[1..]);
    }
  }

  /** Without preferences among them, any strings are ordered. */
  lemma OrderedByAlphabet(ls: multiset<string>, pref: Prefs)
    requires forall a :: a in ls && a in pref ==> pref[a] !in ls
    ensures Ordered(ls, pref)
  {
    forall a, b | a in ls && b in ls && Less(a, b, pref)
      ensures !Less(b, a, pref)
    {
      AlphabeticalIsAsymmetric(a, b);
    }
    forall a, b, c | a in ls && b in ls && c in ls && a != c && !Less(b, a, pref) && !Less(c, b, pref)
      ensures !Less(c, a, pref)
    {
      NotAfterIsTransitive(a, b, c);
    }
  }

  lemma {:induction false} AlphabeticalIsTotal(a: string, b: string)
    requires a != b
    ensures Alphabetical(a, b) || Alphabetical(b, a)
    decreases |a|
  {
    if a != [] && b != [] && a[0] == b[0] {
      assert a == [a[0]] + a[1..] && b == [b[0]] + b[1..];
      AlphabeticalIsTotal(a[1..], b[1..]);
    }
  }

  lemma LessIsTotal(a: string, b: string, pref: Prefs)
    requires a != b
    ensures Less(a, b, pref) || Less(b, a, pref)
  {
    AlphabeticalIsTotal(a, b);
  }

  lemma PlaceIn(r: seq<string>, a: string) returns (i: nat)
    requires a in multiset(r)
    ensures i < |r| && r[i] == a
  {
    i :| 0 <= i < |r| && r[i] == a;
  }

  lemma TwoPlacesIn(r: seq<string>, a: string) returns (i: nat, j: nat)
    requires multiset(r)[a] >= 2
    ensures i < j < |r| && r[i] == r[j] == a
  {
    j := PlaceIn(r, a);
    var rest := r[..j] + r[j + 1..];
    assert r == r[..j] + [a] + r[j + 1..];
    assert multiset(r) == multiset(rest) + multiset{a};
    var k := PlaceIn(rest, a);
    i, j := if k < j then k else j, if k < j then j else k + 1;
  }

  /** Only strings that the preferences order can be put in order at all. */
  lemma SortedIsOrdered(r: seq<string>, pref: Prefs)
    requires Sorted(r, pref)
    ensures Ordered(multiset(r), pref)
  {
    var ls := multiset(r);
    forall a, b | a in ls && b in ls && a != b && Less(a, b, pref)
      ensures !Less(b, a, pref)
    {
      var i := PlaceIn(r, a);
      var j := PlaceIn(r, b);
    }
    forall a | a in ls && Less(a, a, pref)
      ensures ls[a] == 1
    {
      if ls[a] >= 2 {
        var i, j := TwoPlacesIn(r, a);
      }
    }
    forall a, b, c | a in ls && b in ls && c in ls && a != c && !Less(b, a, pref) && !Less(c, b, pref)
      ensures !Less(c, a, pref)
    {
      if a != b && b != c {
        SortedIsTransitive(r, a, b, c, pref);
      }
    }
  }

  lemma SortedIsTransitive(r: seq<string>, a: string, b: string, c: string, pref: Prefs)
    requires Sorted(r, pref) && a in multiset(r) && b in multiset(r) && c in multiset(r)
    requires a != b && b != c && a != c && !Less(b, a, pref) && !Less(c, b, pref)
    ensures !Less(c, a, pref)
  {
    LessIsTotal(a, b, pref);
    LessIsTotal(b, c, pref);
    var i := PlaceIn(r, a);
    var j := PlaceIn(r, b);
    var k := PlaceIn(r, c);
    assert i < j < k;
  }

  /** A preference against the alphabet may leave no order at all for three strings. */
  lemma PreferenceMayCycle()
    ensures var pref := map["c" := "a"];
            !Ordered(multiset{"a", "b", "c"}, pref) && forall r :: multiset(r) == multiset{"a", "b", "c"} ==> !Sorted(r, pref)
  {
    var pref := map["c" := "a"];
    var ls := multiset{"a", "b", "c"};
    assert Less("c", "a", pref);
    assert Less("a", "b", pref) && Less("b", "c", pref);
    assert "a" in ls && "b" in ls && "c" in ls && !Less("b", "a", pref) && !Less("c", "b", pref);
    forall r | multiset(r) == ls
      ensures !Sorted(r, pref)
    {
      if Sorted(r, pref) {
        SortedIsOrdered(r, pref);
      }
    }
  }

  /** Only the first `n` strings have moved. */
  ghost predicate FirstMoved(was: seq<string>, now: seq<string>, n: nat) {
    n <= |was| == |now| && was[n..] == now[n..] && multiset(was[..n]) == multiset(now[..n])
  }

  lemma FirstMovedKeeps(was: seq<string>, now: seq<string>, n: nat)
    requires FirstMoved(was, now, n)
    ensures multiset(was) == multiset(now)
  {
    assert was == was[..n] + was[n..] && now == now[..n] + now[n..];
  }

  /** No string up to some place is greater than the one there. */
  ghost predicate IsLargest(ls: seq<string>, j: nat, pref: Prefs) {
    j < |ls| && forall k :: 0 <= k < j ==> !Less(ls[j], ls[k], pref)
  }

  function Swap(ls: seq<string>, j: nat): (r: seq<string>)
    requires j + 1 < |ls|
    ensures |r| == |ls|
  {
    ls[j := ls[j + 1]][j + 1 := ls[j]]
  }

  lemma SwapMovesFirst(ls: seq<string>, n: nat, j: nat)
    requires j + 1 < n <= |ls|
    ensures FirstMoved(ls, Swap(ls, j), n)
  {
    assert Swap(ls, j)[..n] == Swap(ls[..n], j);
  }

  lemma OccursTwice(ls: seq<string>, i: nat, j: nat)
    requires i < j < |ls| && ls[i] == ls[j]
    ensures multiset(ls)[ls[i]] >= 2
  {
    assert ls == ls[..j] + ls[j..];
    assert ls[i] in multiset(ls[..j]) && ls[j] in multiset(ls[j..]);
  }

  lemma LargestAfterSwap(ls: seq<string>, j: nat, pref: Prefs)
    requires j + 1 < |ls| && Ordered(multiset(ls), pref) && IsLargest(ls, j, pref) && Less(ls[j + 1], ls[j], pref)
    ensures IsLargest(Swap(ls, j), j + 1, pref)
  {
    var r := Swap(ls, j);
    assert ls[j] in multiset(ls) && ls[j + 1] in multiset(ls);
    forall k | 0 <= k < j + 1
      ensures !Less(r[j + 1], r[k], pref)
    {
      if k < j {
        assert r[k] == ls[k];
      } else if ls[j] == ls[j + 1] {
        OccursTwice(ls, j, j + 1);
      }
    }
  }

  lemma LargestWithoutSwap(ls: seq<string>, j: nat, pref: Prefs)
    requires j + 1 < |ls| && Ordered(multiset(ls), pref) && IsLargest(ls, j, pref) && !Less(ls[j + 1], ls[j], pref)
    ensures IsLargest(ls, j + 1, pref)
  {
    forall k | 0 <= k < j + 1
      ensures !Less(ls[j + 1], ls[k], pref)
    {
      assert ls[j] in multiset(ls) && ls[j + 1] in multiset(ls) && ls[k] in multiset(ls);
      if ls[k] == ls[j + 1] {
        OccursTwice(ls, k, j + 1);
      }
    }
  }

  lemma FirstMovedTwice(a: seq<string>, b: seq<string>, c: seq<string>, n: nat)
    requires FirstMoved(a, b, n) && FirstMoved(b, c, n)
    ensures FirstMoved(a, c, n)
  {
  }

  /** The largest of the first `n` strings moves to their end. */
  method Bubble(ls: seq<string>, n: nat, pref: Prefs) returns (r: seq<string>)
    requires 0 < n <= |ls|
    ensures FirstMoved(ls, r, n) && (Ordered(multiset(ls), pref) ==> IsLargest(r, n - 1, pref))
  {
    r := ls;
    var j := 0;
    while j != n - 1
      invariant j < n && FirstMoved(ls, r, n) && (Ordered(multiset(ls), pref) ==> IsLargest(r, j, pref))
      decreases n - j
    {
      ghost var was := r;
      FirstMovedKeeps(ls, r, n);
      if Less(r[j + 1], r[j], pref) {
        if Ordered(multiset(ls), pref) {
          LargestAfterSwap(r, j, pref);
        }
        SwapMovesFirst(r, n, j);
        r := Swap(r, j);
      } else if Ordered(multiset(ls), pref) {
        LargestWithoutSwap(r, j, pref);
      }
      FirstMovedTwice(ls, was, r, n);
      j := j + 1;
    }
  }

  /** The strings from some place on are in order, with all those before them too. */
  ghost predicate SortedFrom(ls: seq<string>, n: nat, pref: Prefs) {
    n <= |ls| && forall i, j :: 0 <= i < j < |ls| && n <= j ==> !Less(ls[j], ls[i], pref)
  }

  /** After moving the largest of those before it to their end, one string more is in order. */
  lemma SortedOneMore(was: seq<string>, now: seq<string>, n: nat, pref: Prefs)
    requires 0 < n && FirstMoved(was, now, n) && IsLargest(now, n - 1, pref) && SortedFrom(was, n, pref)
    ensures SortedFrom(now, n - 1, pref)
  {
    forall i, j | 0 <= i < j < |now| && n - 1 <= j
      ensures !Less(now[j], now[i], pref)
    {
      if n <= j {
        assert now[j] == now[n..][j - n] == was[n..][j - n] == was[j];
        if n <= i {
          assert now[i] == now[n..][i - n] == was[n..][i - n] == was[i];
        } else {
          assert now[..n][i] in multiset(was[..n]);
          var k :| 0 <= k < n && was[..n][k] == now[..n][i];
          assert !Less(was[j], was[k], pref);
        }
      }
    }
  }

  /** Sorts strings: none is lost or made, and they are in order exactly if the preferences allow one. */
  method SortList(ls: seq<string>, pref: Prefs) returns (r: seq<string>)
    ensures multiset(r) == multiset(ls) && |r| == |ls|
    ensures Sorted(r, pref) <==> Ordered(multiset(ls), pref)
  {
    r := ls;
    var i := |ls|;
    while i != 0
      invariant 0 <= i <= |r| == |ls| && multiset(r) == multiset(ls)
      invariant Ordered(multiset(ls), pref) ==> SortedFrom(r, i, pref)
    {
      ghost var was := r;
      r := Bubble(r, i, pref);
      FirstMovedKeeps(was, r, i);
      if Ordered(multiset(ls), pref) {
        SortedOneMore(was, r, i, pref);
      }
      i := i - 1;
    }
    if Sorted(r, pref) {
      SortedIsOrdered(r, pref);
    }
  }
}
