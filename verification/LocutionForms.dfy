/** All the ways to write some words as a multiword. */
module LocutionForms {
  import Strings
  import opened Locutions

  /** A word is written by its form, a lemma in angle brackets, or a tag. */
  ghost predicate Stands(s: string, w: Word) {
    s == w.lcForm || exists a :: a in w.analyses && (s == "<" + a.0 + ">" || s == a.1)
  }

  ghost predicate AllStand(parts: seq<string>, ws: seq<Word>) {
    |parts| == |ws| && forall i :: 0 <= i < |ws| ==> Stands(parts[i], ws[i])
  }

  lemma AlternativesStand(w: Word, s: string)
    ensures s in Alternatives(w) <==> Stands(s, w)
  {
    if Stands(s, w) && s != w.lcForm {
      var a :| a in w.analyses && (s == "<" + a.0 + ">" || s == a.1);
      assert s in Alternatives(w);
    }
  }

  lemma {:induction false} JoinOneMore(parts: seq<string>, p: string)
    requires parts != []
    ensures Strings.Join(parts + [p], '_') == Join(Strings.Join(parts, '_'), p)
  {
    var all := parts + [p];
    if |parts| == 1 {
      assert all[1..] == [p];
      assert Strings.Join(all, '_') == parts[0] + ['_'] + p;
    } else {
      JoinOneMore(parts[1..], p);
      assert all[1..] == parts[1..] + [p];
      var rest := Strings.Join(parts[1..], '_');
      assert Strings.Join(all, '_') == parts[0] + ['_'] + (rest + "_" + p);
      assert Strings.Join(parts, '_') == parts[0] + ['_'] + rest;
    }
  }

  /** MAIN RESULT: the ways to write some words are those that choose a form, lemma or tag of each, in
      order, and join them by underscores. */
  lemma {:induction false} JoinedIff(ws: seq<Word>, s: string)
    requires ws != []
    ensures s in Joined(ws) <==> exists parts :: AllStand(parts, ws) && s == Strings.Join(parts, '_')
  {
    var n := |ws| - 1;
    if s in Joined(ws) {
      var parts := JoinedParts(ws, s);
    }
    if parts :| AllStand(parts, ws) && s == Strings.Join(parts, '_') {
      PartsAreJoined(ws, parts);
    }
  }

  lemma {:induction false} JoinedParts(ws: seq<Word>, s: string) returns (parts: seq<string>)
    requires ws != [] && s in Joined(ws)
    ensures AllStand(parts, ws) && s == Strings.Join(parts, '_')
  {
    var n := |ws| - 1;
    if n == 0 {
      AlternativesStand(ws[0], s);
      parts := [s];
    } else {
      var a, b :| a in Joined(ws[..n]) && b in Alternatives(ws[n]) && s == Join(a, b);
      var before := JoinedParts(ws[..n], a);
      AlternativesStand(ws[n], b);
      JoinOneMore(before, b);
      parts := before + [b];
      forall i | 0 <= i < |ws|
        ensures Stands(parts[i], ws[i])
      {
        assert i < n ==> Stands(before[i], ws[..n][i]);
      }
    }
  }

  lemma {:induction false} PartsAreJoined(ws: seq<Word>, parts: seq<string>)
    requires ws != [] && AllStand(parts, ws)
    ensures Strings.Join(parts, '_') in Joined(ws)
  {
    var n := |ws| - 1;
    AlternativesStand(ws[n], parts[n]);
    if n == 0 {
      assert parts == [parts[0]];
    } else {
      assert forall i :: 0 <= i < n ==> Stands(parts[..n][i], ws[..n][i]);
      PartsAreJoined(ws[..n], parts[..n]);
      JoinOneMore(parts[..n], parts[n]);
      assert parts == parts[..n] + [parts[n]];
    }
  }
}
