/** Strings: their order, and cutting and joining them at a separator. */
module Strings {
  /** Alphabetical order by character code. */
  predicate Alphabetical(a: string, b: string) {
    b != [] && (a == [] || a[0] < b[0] || (a[0] == b[0] && Alphabetical(a[1..], b[1..])))
  }

  predicate Free(s: string, sep: char) {
    forall i :: 0 <= i < |s| ==> s[i] != sep
  }

  predicate AllFree(ts: seq<string>, sep: char) {
    forall i :: 0 <= i < |ts| ==> Free(ts[i], sep)
  }

  /** The pieces of a string between separators. */
  function Pieces(s: string, sep: char): (ts: seq<string>)
    ensures ts != []
  {
    if s == "" then [""] else
    var ts := Pieces(s[1..], sep);
    if s[0] == sep then [""] + ts else [[s[0]] + ts[0]] + ts[1..]
  }

  /** Cutting a string at its separators: an empty string has no pieces. */
  function Cut(s: string, sep: char): seq<string> {
    if s == "" then [] else Pieces(s, sep)
  }

  function Join(ts: seq<string>, sep: char): string {
    if ts == [] then "" else if |ts| == 1 then ts[0] else ts[0] + [sep] + Join(ts[1..], sep)
  }

  lemma {:induction false} PiecesAreFree(s: string, sep: char)
    ensures AllFree(Pieces(s, sep), sep)
  {
    if s != "" {
      PiecesAreFree(s[1..], sep);
    }
  }

  lemma {:induction false} PiecesOfFree(s: string, sep: char)
    requires Free(s, sep)
    ensures Pieces(s, sep) == [s]
  {
    if s != "" {
      PiecesOfFree(s[1..], sep);
      assert [s[0]] + s[1..] == s;
    }
  }

  /** The pieces of two strings with a separator between them. */
  lemma {:induction false} PiecesOfTwo(a: string, b: string, sep: char)
    ensures Pieces(a + [sep] + b, sep) == Pieces(a, sep) + Pieces(b, sep)
  {
    var s := a + [sep] + b;
    if a == "" {
      assert s[1..] == b;
    } else {
      PiecesOfTwo(a[1..], b, sep);
      assert s[1..] == a[1..] + [sep] + b;
      PutFirst(a[0], Pieces(a[1..], sep), Pieces(b, sep));
    }
  }

  lemma PutFirst(c: char, x: seq<string>, y: seq<string>)
    requires x != []
    ensures [[c] + (x + y)[0]] + (x + y)[1..] == [[c] + x[0]] + x[1..] + y
    ensures [""] + (x + y) == [""] + x + y
  {
  }

  /** What was joined is cut again in the same pieces. */
  lemma {:induction false} PiecesOfJoin(ts: seq<string>, sep: char)
    requires ts != [] && AllFree(ts, sep)
    ensures Pieces(Join(ts, sep), sep) == ts
  {
    PiecesOfFree(ts[0], sep);
    if |ts| > 1 {
      PiecesOfJoin(ts[1..], sep);
      PiecesOfTwo(ts[0], Join(ts[1..], sep), sep);
      assert [ts[0]] + ts[1..] == ts;
    }
  }

  /** What was cut is the same string when it is joined again. */
  lemma {:induction false} JoinOfPieces(s: string, sep: char)
    ensures Join(Pieces(s, sep), sep) == s
  {
    if s != "" {
      var ts := Pieces(s[1..], sep);
      JoinOfPieces(s[1..], sep);
      if s[0] == sep {
        assert ([""] + ts)[1..] == ts;
        assert "" + [sep] + s[1..] == s;
      } else {
        JoinPutFirst(s[0], ts, sep);
      }
    }
  }

  lemma JoinPutFirst(c: char, ts: seq<string>, sep: char)
    requires ts != []
    ensures Join([[c] + ts[0]] + ts[1..], sep) == [c] + Join(ts, sep)
  {
    var more := [[c] + ts[0]] + ts[1..];
    assert more[1..] == ts[1..];
    if |ts| > 1 {
      assert [c] + ts[0] + [sep] + Join(ts[1..], sep) == [c] + (ts[0] + [sep] + Join(ts[1..], sep));
    }
  }

  lemma {:induction false} JoinOfTwo(a: seq<string>, b: seq<string>, sep: char)
    requires a != [] && b != []
    ensures Join(a + b, sep) == Join(a, sep) + [sep] + Join(b, sep)
  {
    assert (a + b)[1..] == a[1..] + b;
    if |a| > 1 {
      JoinOfTwo(a[1..], b, sep);
      assert a[0] + [sep] + (Join(a[1..], sep) + [sep] + Join(b, sep))
          == a[0] + [sep] + Join(a[1..], sep) + [sep] + Join(b, sep);
    } else {
      assert a[1..] + b == b;
    }
  }

  /** Strings that have the separator nowhere are cut again exactly when they are not one empty string. */
  lemma CutOfJoin(ts: seq<string>, sep: char)
    requires ts != []
    ensures Cut(Join(ts, sep), sep) == ts <==> AllFree(ts, sep) && ts != [""]
  {
    if AllFree(ts, sep) {
      PiecesOfJoin(ts, sep);
    }
    PiecesAreFree(Join(ts, sep), sep);
  }

  lemma {:induction false} JoinIsFree(ts: seq<string>, sep: char, other: char)
    requires AllFree(ts, other) && sep != other
    ensures Free(Join(ts, sep), other)
  {
    if |ts| > 1 {
      JoinIsFree(ts[1..], sep, other);
    }
  }
}
