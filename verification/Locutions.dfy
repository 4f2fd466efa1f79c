/** Recognizing listed multiwords, by form, lemma or tag of their words. */
module Locutions {

  /** A word: its form, and the lemma and tag of each of its analyses. */
  datatype Word = Word(lcForm: string, analyses: seq<(string, string)>)

  /** What may stand for a word in a multiword. */
  function Alternatives(w: Word): set<string> {
    {w.lcForm} + (set a | a in w.analyses :: "<" + a.0 + ">") + (set a | a in w.analyses :: a.1)
  }

  function Join(a: string, b: string): string {
    a + "_" + b
  }

  /** All ways to write some words: one alternative for each, joined by underscores. */
  function Joined(ws: seq<Word>): set<string> {
    if ws == [] then {} else
    Continued(Joined(ws[..|ws| - 1]), Alternatives(ws[|ws| - 1]), |ws| == 1)
  }

  /** What is written so far continued by alternatives for the next word, unless that is the first one. */
  function Continued(soFar: set<string>, alts: set<string>, first: bool): set<string> {
    if first then alts else set a, b | a in soFar && b in alts :: Join(a, b)
  }

  /** The multiwords, and all their beginnings that end with an underscore. */
  datatype Table = Table(locut: map<string, string>, prefixes: set<string>)
  {
    ghost predicate Ok() {
      forall p :: p in prefixes <==> exists key, i: nat :: key in locut && IsBeginning(p, key, i)
    }

    /** A multiword, or the beginning of one. */
    predicate Viable(s: string) {
      s in locut || s + "_" in prefixes
    }
  }

  predicate IsBeginning(p: string, key: string, i: nat) {
    i < |key| && key[i] == '_' && p == key[..i + 1]
  }

  /** The longest part before an underscore, with it. */
  function FirstUnderscore(s: string): (i: nat)
    ensures i <= |s| && (i < |s| ==> s[i] == '_') && forall j :: 0 <= j < i ==> s[j] != '_'
  {
    if s == "" || s[0] == '_' then 0 else 1 + FirstUnderscore(s[1..])
  }

  /** The beginnings of a multiword up to a position. */
  ghost predicate BeginningsTo(found: set<string>, before: set<string>, key: string, n: nat) {
    forall p :: p in found <==> p in before || BeginsBefore(p, key, n)
  }

  ghost predicate BeginsBefore(p: string, key: string, n: nat) {
    exists i: nat :: i < n && IsBeginning(p, key, i)
  }

  /** What the automaton remembers while it scans words. */
  class Status {
    var accMw: set<string>
    var longestMw: set<string>
    var components: seq<Word>
    var overLongest: int

    constructor ()
      ensures accMw == {} && longestMw == {} && components == []
    {
      accMw, longestMw, components := {}, {}, [];
      overLongest := 0;
    }
  }

  lemma OneMoreBeginning(found: set<string>, before: set<string>, key: string, prefix: string, rest: string, p: nat)
    requires BeginningsTo(found, before, key, |prefix|) && prefix + rest == key && p == FirstUnderscore(rest) < |rest|
    ensures BeginningsTo(found + {prefix + rest[..p + 1]}, before, key, |prefix| + p + 1)
    ensures prefix + rest[..p + 1] + rest[p + 1..] == key
  {
    SplitKey(prefix, rest, p);
    var n := |prefix|;
    forall q
      ensures BeginsBefore(q, key, n + p + 1) <==> BeginsBefore(q, key, n) || q == prefix + rest[..p + 1]
    {
      OnlyOneMore(q, key, n, p);
    }
  }

  lemma SplitKey(prefix: string, rest: string, p: nat)
    requires p == FirstUnderscore(rest) < |rest|
    ensures var key, n := prefix + rest, |prefix|;
            && key[..n + p + 1] == prefix + rest[..p + 1] && prefix + rest[..p + 1] + rest[p + 1..] == key
            && key[n + p] == '_' && forall i :: n <= i < n + p ==> key[i] != '_'
  {
    SumsAgree(prefix, rest[..p + 1], rest[p + 1..]);
    assert rest[..p + 1] + rest[p + 1..] == rest;
    SecondPart(prefix, rest);
  }

  lemma SumsAgree(a: string, b: string, c: string)
    ensures a + b + c == a + (b + c) && (a + (b + c))[..|a| + |b|] == a + b
  {
    assert (a + b + c)[..|a + b|] == a + b;
  }

  lemma SecondPart(a: string, b: string)
    ensures forall i :: |a| <= i < |a + b| ==> (a + b)[i] == b[i - |a|]
  {
  }

  lemma OnlyOneMore(q: string, key: string, n: nat, p: nat)
    requires n + p < |key| && key[n + p] == '_' && forall i :: n <= i < n + p ==> key[i] != '_'
    ensures BeginsBefore(q, key, n + p + 1) <==> BeginsBefore(q, key, n) || q == key[..n + p + 1]
  {
    if q == key[..n + p + 1] {
      assert IsBeginning(q, key, n + p);
    }
  }

  lemma AllBeginnings(before: Table, after: Table, key: string, data: string, prefix: string, rest: string)
    requires before.Ok() && prefix + rest == key && FirstUnderscore(rest) == |rest|
    requires after.locut == if key in before.locut then before.locut else before.locut[key := data]
    requires BeginningsTo(after.prefixes, before.prefixes, key, |prefix|)
    ensures after.Ok()
  {
    var n := |prefix|;
    assert forall i :: n <= i < |key| ==> key[i] == rest[i - n];
    forall q
      ensures q in after.prefixes <==> exists k, i: nat :: k in after.locut && IsBeginning(q, k, i)
    {
      if k, i: nat :| k in after.locut && IsBeginning(q, k, i) {
        assert k != key ==> k in before.locut;
      }
      if q in after.prefixes && q !in before.prefixes {
        var i: nat :| i < n && IsBeginning(q, key, i);
        assert key in after.locut;
      }
    }
  }

  /** Whatever continues to a multiword or a beginning of one is a beginning itself. */
  lemma ViableBefore(t: Table, a: string, b: string)
    requires t.Ok() && t.Viable(Join(a, b))
    ensures t.Viable(a)
  {
    var s := Join(a, b);
    assert s[|a|] == '_' && s[..|a| + 1] == a + "_";
    if s in t.locut {
      assert IsBeginning(a + "_", s, |a|);
    } else {
      var key, i: nat :| key in t.locut && IsBeginning(s + "_", key, i);
      assert key[..i + 1][..|a| + 1] == key[..|a| + 1];
      assert (s + "_")[..|a| + 1] == a + "_";
      assert IsBeginning(a + "_", key, |a|);
    }
  }

  /** The beam: what is written so far that can still become a multiword, or is one. */
  ghost function Beam(t: Table, ws: seq<Word>): set<string> {
    set s | s in Joined(ws) && t.Viable(s)
  }

  ghost function Matches(t: Table, ws: seq<Word>): set<string> {
    set s | s in Joined(ws) && s in t.locut
  }

  /** MAIN RESULT: nothing is lost by continuing only the beam. */
  lemma BeamContinues(t: Table, ws: seq<Word>, w: Word)
    requires t.Ok()
    ensures Beam(t, ws + [w]) == set s | s in Continued(Beam(t, ws), Alternatives(w), ws == []) && t.Viable(s)
  {
    var more := ws + [w];
    assert more[..|more| - 1] == ws;
    forall s | s in Beam(t, more)
      ensures s in Continued(Beam(t, ws), Alternatives(w), ws == [])
    {
      if ws != [] {
        var a, b :| a in Joined(ws) && b in Alternatives(w) && s == Join(a, b);
        ViableBefore(t, a, b);
      }
    }
  }

  /** Once nothing in the beam is left, no longer part of the sentence is a multiword. */
  lemma {:induction false} EmptyBeamStays(t: Table, ws: seq<Word>, k: nat, m: nat)
    requires t.Ok() && 0 < k <= m <= |ws| && Beam(t, ws[..k]) == {}
    ensures Beam(t, ws[..m]) == {} && Matches(t, ws[..m]) == {}
  {
    if k < m {
      EmptyBeamStays(t, ws, k, m - 1);
      assert ws[..m] == ws[..m - 1] + [ws[m - 1]];
      BeamContinues(t, ws[..m - 1], ws[m - 1]);
    }
    assert Matches(t, ws[..m]) <= Beam(t, ws[..m]);
  }

  /** What has come of checking the strings `ss`: the ones to go on with, whether there are
      multiwords among them and beginnings of some, and the multiwords found last. */
  ghost predicate Checked(t: Table, ss: set<string>, acc: set<string>, mw: bool, pref: bool,
                          longest: set<string>, over: int, longest0: set<string>, over0: int) {
    && acc == (set s | s in ss && t.Viable(s))
    && (mw <==> exists s :: s in ss && s in t.locut)
    && (pref <==> exists s :: s in ss && s !in t.locut && s + "_" in t.prefixes)
    && (if mw then over == 0 && longest <= acc && forall s :: s in acc && s in t.locut ==> s in longest
        else over == over0 && longest == longest0)
  }

  lemma CheckedOneMore(t: Table, ss: set<string>, acc: set<string>, mw: bool, pref: bool,
                       longest: set<string>, over: int, longest0: set<string>, over0: int, s: string)
    requires Checked(t, ss, acc, mw, pref, longest, over, longest0, over0)
    ensures s in t.locut ==> Checked(t, ss + {s}, acc + {s}, true, pref, acc + {s}, 0, longest0, over0)
    ensures s !in t.locut && s + "_" in t.prefixes ==> Checked(t, ss + {s}, acc + {s}, mw, true, longest, over, longest0, over0)
    ensures !t.Viable(s) ==> Checked(t, ss + {s}, acc, mw, pref, longest, over, longest0, over0)
  {
  }

  datatype Token = Multiword | Prefix | Other

  ghost function SetOf(s: seq<string>): set<string> {
    set x | x in s
  }

  /** What the words seen so far and an analysis of the next one may be written as. */
  function Alternative(w: Word, a: (string, string)): seq<string> {
    [w.lcForm, "<" + a.0 + ">", a.1]
  }

  function JoinAll(soFar: string, alts: seq<string>): (js: seq<string>)
    ensures |js| == |alts|
  {
    seq(|alts|, i requires 0 <= i < |alts| => Join(soFar, alts[i]))
  }

  class Recognizer {
    var table: Table

    constructor ()
      ensures table == Table(map[], {}) && table.Ok()
    {
      table := Table(map[], {});
    }

    /** Stores a multiword, unless it is there already, and all its beginnings. */
    method AddLocution(key: string, data: string)
      requires table.Ok()
      modifies this
      ensures table.Ok() && table.locut == if key in old(table).locut then old(table).locut else old(table).locut[key := data]
    {
      ghost var before := table;
      if key !in table.locut {
        table := table.(locut := table.locut[key := data]);
      }
      var prefix, rest := "", key;
      var p := FirstUnderscore(rest);
      while p < |rest|
        invariant prefix + rest == key && p == FirstUnderscore(rest)
        invariant table.locut == if key in before.locut then before.locut else before.locut[key := data]
        invariant BeginningsTo(table.prefixes, before.prefixes, key, |prefix|)
        decreases |rest|
      {
        ghost var found := table.prefixes;
        OneMoreBeginning(found, before.prefixes, key, prefix, rest, p);
        prefix := prefix + rest[..p + 1];
        table := table.(prefixes := table.prefixes + {prefix});
        rest := rest[p + 1..];
        p := FirstUnderscore(rest);
      }
      AllBeginnings(before, table, key, data, prefix, rest);
    }

    /** Checks a string: multiwords and beginnings of some are remembered. */
    method Check(s: string, acc: set<string>, mw: bool, pref: bool, st: Status, ghost ss: set<string>, ghost longest0: set<string>, ghost over0: int)
      returns (acc': set<string>, mw': bool, pref': bool)
      requires Checked(table, ss, acc, mw, pref, st.longestMw, st.overLongest, longest0, over0)
      modifies st`longestMw, st`overLongest
      ensures Checked(table, ss + {s}, acc', mw', pref', st.longestMw, st.overLongest, longest0, over0)
    {
      acc', mw', pref' := acc, mw, pref;
      CheckedOneMore(table, ss, acc, mw, pref, st.longestMw, st.overLongest, longest0, over0, s);
      if s in table.locut {
        acc' := acc + {s};
        st.longestMw := acc';
        st.overLongest := 0;
        mw' := true;
      } else if s + "_" in table.prefixes {
        acc' := acc + {s};
        pref' := true;
      }
    }

    /** Checks some strings, one after the other. */
    method CheckAll(xs: seq<string>, acc: set<string>, mw: bool, pref: bool, st: Status, ghost ss: set<string>, ghost longest0: set<string>, ghost over0: int)
      returns (acc': set<string>, mw': bool, pref': bool)
      requires Checked(table, ss, acc, mw, pref, st.longestMw, st.overLongest, longest0, over0)
      modifies st`longestMw, st`overLongest
      ensures Checked(table, ss + SetOf(xs), acc', mw', pref', st.longestMw, st.overLongest, longest0, over0)
    {
      acc', mw', pref' := acc, mw, pref;
      assert ss + SetOf(xs[..0]) == ss;
      for i := 0 to |xs|
        invariant Checked(table, ss + SetOf(xs[..i]), acc', mw', pref', st.longestMw, st.overLongest, longest0, over0)
      {
        acc', mw', pref' := Check(xs[i], acc', mw', pref', st, ss + SetOf(xs[..i]), longest0, over0);
        assert ss + SetOf(xs[..i + 1]) == ss + SetOf(xs[..i]) + {xs[i]};
      }
      assert xs[..|xs|] == xs;
    }

    /** Checks what the words so far may be continued to. */
    method CheckContinued(alts: seq<string>, acc: set<string>, mw: bool, pref: bool, st: Status, ghost ss: set<string>, ghost longest0: set<string>, ghost over0: int)
      returns (acc': set<string>, mw': bool, pref': bool)
      requires Checked(table, ss, acc, mw, pref, st.longestMw, st.overLongest, longest0, over0)
      modifies st`longestMw, st`overLongest
      ensures Checked(table, ss + Continued(st.accMw, SetOf(alts), st.accMw == {}), acc', mw', pref', st.longestMw, st.overLongest, longest0, over0)
    {
      if st.accMw == {} {
        acc', mw', pref' := CheckAll(alts, acc, mw, pref, st, ss, longest0, over0);
      } else {
        acc', mw', pref' := acc, mw, pref;
        var todo := st.accMw;
        assert ss + Continued({}, SetOf(alts), false) == ss;
        while todo != {}
          invariant todo <= st.accMw
          invariant Checked(table, ss + Continued(st.accMw - todo, SetOf(alts), false), acc', mw', pref', st.longestMw, st.overLongest, longest0, over0)
          decreases todo
        {
          var i :| i in todo;
          ghost var sofar := ss + Continued(st.accMw - todo, SetOf(alts), false);
          acc', mw', pref' := CheckAll(JoinAll(i, alts), acc', mw', pref', st, sofar, longest0, over0);
          ContinuedOneMore(st.accMw, todo, i, alts);
          todo := todo - {i};
          assert sofar + SetOf(JoinAll(i, alts)) == ss + Continued(st.accMw - todo, SetOf(alts), false);
        }
        assert st.accMw - todo == st.accMw;
      }
    }

    /** Takes in the next word: what it may be written as continues the beam. */
    method ComputeToken(w: Word, st: Status) returns (token: Token)
      modifies st
      ensures st.components == old(st.components) + [w]
      ensures TookIn(table, w, token, old(st.accMw), old(st.longestMw), old(st.overLongest), st.accMw, st.longestMw, st.overLongest)
    {
      st.components := st.components + [w];
      var acc, mw, pref := {}, false, false;
      ghost var ss: set<string> := {};
      ghost var longest0, over0 := st.longestMw, st.overLongest;
      if w.analyses == [] {
        acc, mw, pref := CheckContinued([w.lcForm], acc, mw, pref, st, ss, longest0, over0);
        assert SetOf([w.lcForm]) == Alternatives(w);
        assert {} + Continued(st.accMw, Alternatives(w), st.accMw == {}) == Continued(st.accMw, Alternatives(w), st.accMw == {});
      } else {
        for a := 0 to |w.analyses|
          invariant ss == Continued(st.accMw, AlternativesTo(w, a), st.accMw == {})
          invariant Checked(table, ss, acc, mw, pref, st.longestMw, st.overLongest, longest0, over0)
          invariant st.accMw == old(st.accMw) && st.components == old(st.components) + [w]
        {
          var alts := Alternative(w, w.analyses[a]);
          acc, mw, pref := CheckContinued(alts, acc, mw, pref, st, ss, longest0, over0);
          ContinuedTo(st.accMw, w, a);
          ss := ss + Continued(st.accMw, SetOf(alts), st.accMw == {});
        }
        AllAlternatives(w);
      }
      token := if mw then Multiword else if pref then Prefix else Other;
      CheckedIsTookIn(table, w, token, st.accMw, longest0, over0, acc, mw, pref, st.longestMw, st.overLongest);
      st.overLongest := st.overLongest + 1;
      st.accMw := acc;
    }

    /** Scans one more word. A multiword may end with it, or the scan may be over. */
    method ScanWord(ws: seq<Word>, j: nat, found: nat, st: Status) returns (found': nat, stopped: bool)
      requires table.Ok() && j < |ws| && st.components == ws[..j]
      requires Scanned(table, ws, j, false, found, st.accMw, st.longestMw, st.overLongest)
      modifies st
      ensures st.components == ws[..j + 1]
      ensures Scanned(table, ws, j + 1, stopped, found', st.accMw, st.longestMw, st.overLongest)
    {
      ghost var acc, longest, over := st.accMw, st.longestMw, st.overLongest;
      var token := ComputeToken(ws[j], st);
      ScannedOneMore(table, ws, j, found, acc, longest, over, token, st.accMw, st.longestMw, st.overLongest);
      found' := if token == Multiword then j + 1 else found;
      stopped := token == Other;
    }

    /** Looks for the longest multiword that begins at a word. */
    method Matching(ws: seq<Word>, st: Status) returns (found: nat)
      requires table.Ok() && st.accMw == {} && st.longestMw == {} && st.components == []
      modifies st
      ensures IsLongest(table, ws, found)
      ensures found > 0 ==> st.longestMw <= Beam(table, ws[..found]) && Matches(table, ws[..found]) <= st.longestMw
      ensures found > 0 ==> |st.components| - st.overLongest + 1 == found
      ensures st.components <= ws
    {
      var j, stopped := 0, false;
      found := 0;
      while !stopped && j < |ws|
        invariant j <= |ws| && Scanned(table, ws, j, stopped, found, st.accMw, st.longestMw, st.overLongest)
        invariant st.components == ws[..j]
      {
        found, stopped := ScanWord(ws, j, found, st);
        j := j + 1;
      }
      ScanIsOver(table, ws, j, stopped, found, st.accMw, st.longestMw, st.overLongest);
    }
  }

  /** The longest beginning of the words that is a multiword, or 0. */
  ghost predicate IsLongest(t: Table, ws: seq<Word>, found: nat) {
    && found <= |ws| && (found > 0 ==> Matches(t, ws[..found]) != {})
    && forall m :: found < m <= |ws| ==> Matches(t, ws[..m]) == {}
  }

  /** After `j` words: the beam, and the multiwords of the longest beginning that is one so far. */
  ghost predicate Scanned(t: Table, ws: seq<Word>, j: nat, stopped: bool, found: nat, acc: set<string>, longest: set<string>, over: int) {
    && found <= j <= |ws| && acc == Beam(t, ws[..j])
    && (if stopped then j > 0 && acc == {} else j > 0 ==> acc != {})
    && (found > 0 ==> Matches(t, ws[..found]) != {} && over == j - found + 1)
    && (found > 0 ==> longest <= Beam(t, ws[..found]) && Matches(t, ws[..found]) <= longest)
    && forall m :: found < m <= j ==> Matches(t, ws[..m]) == {}
  }

  lemma ScannedOneMore(t: Table, ws: seq<Word>, j: nat, found: nat, acc: set<string>, longest: set<string>, over: int,
                       token: Token, acc': set<string>, longest': set<string>, over': int)
    requires t.Ok() && j < |ws| && Scanned(t, ws, j, false, found, acc, longest, over)
    requires TookIn(t, ws[j], token, acc, longest, over, acc', longest', over')
    ensures Scanned(t, ws, j + 1, token == Other, if token == Multiword then j + 1 else found, acc', longest', over')
  {
    var ss := Continued(acc, Alternatives(ws[j]), acc == {});
    NextBeam(t, ws, j, acc);
    MultiwordIsMatch(t, ws, j, ss, token);
  }

  lemma NextBeam(t: Table, ws: seq<Word>, j: nat, acc: set<string>)
    requires t.Ok() && j < |ws| && acc == Beam(t, ws[..j]) && (j > 0 ==> acc != {})
    ensures var ss := Continued(acc, Alternatives(ws[j]), acc == {});
            && Beam(t, ws[..j + 1]) == (set s | s in ss && t.Viable(s))
            && Matches(t, ws[..j + 1]) == (set s | s in ss && s in t.locut)
  {
    var ss := Continued(acc, Alternatives(ws[j]), acc == {});
    var next := ws[..j + 1];
    assert next == ws[..j] + [ws[j]];
    BeamContinues(t, ws[..j], ws[j]);
    assert Beam(t, []) == {};
    assert acc == {} <==> ws[..j] == [];
    MatchesAreBeam(t, next);
    assert Matches(t, next) == (set s | s in ss && s in t.locut);
  }

  lemma MatchesAreBeam(t: Table, ws: seq<Word>)
    ensures forall s :: s in Matches(t, ws) <==> s in Beam(t, ws) && s in t.locut
  {
  }

  lemma MultiwordIsMatch(t: Table, ws: seq<Word>, j: nat, ss: set<string>, token: Token)
    requires j < |ws| && Matches(t, ws[..j + 1]) == (set s | s in ss && s in t.locut)
    requires token == Multiword <==> exists s :: s in ss && s in t.locut
    ensures token == Multiword <==> Matches(t, ws[..j + 1]) != {}
  {
    if Matches(t, ws[..j + 1]) != {} {
      var s :| s in Matches(t, ws[..j + 1]);
    }
    if token == Multiword {
      var s :| s in ss && s in t.locut;
      assert s in Matches(t, ws[..j + 1]);
    }
  }

  lemma ScanIsOver(t: Table, ws: seq<Word>, j: nat, stopped: bool, found: nat, acc: set<string>, longest: set<string>, over: int)
    requires t.Ok() && Scanned(t, ws, j, stopped, found, acc, longest, over) && (stopped || j == |ws|)
    ensures IsLongest(t, ws, found)
  {
    forall m | found < m <= |ws|
      ensures Matches(t, ws[..m]) == {}
    {
      if m > j {
        EmptyBeamStays(t, ws, j, m);
      }
    }
  }

  /** What taking in a word does to the beam and to the multiwords found. */
  ghost predicate TookIn(t: Table, w: Word, token: Token, acc: set<string>, longest: set<string>, over: int,
                         acc': set<string>, longest': set<string>, over': int) {
    var ss := Continued(acc, Alternatives(w), acc == {});
    && acc' == (set s | s in ss && t.Viable(s))
    && (token == Multiword <==> exists s :: s in ss && s in t.locut)
    && (token == Other <==> acc' == {})
    && (if token == Multiword then over' == 1 && longest' <= acc' && forall s :: s in acc' && s in t.locut ==> s in longest'
        else over' == over + 1 && longest' == longest)
  }

  lemma CheckedIsTookIn(t: Table, w: Word, token: Token, accMw: set<string>, longest0: set<string>, over0: int,
                        acc: set<string>, mw: bool, pref: bool, longest: set<string>, over: int)
    requires Checked(t, Continued(accMw, Alternatives(w), accMw == {}), acc, mw, pref, longest, over, longest0, over0)
    requires token == if mw then Multiword else if pref then Prefix else Other
    ensures TookIn(t, w, token, accMw, longest0, over0, acc, longest, over + 1)
  {
    if acc != {} {
      var s :| s in acc;
      assert t.Viable(s);
    }
    var ss := Continued(accMw, Alternatives(w), accMw == {});
    if mw {
      var s :| s in ss && s in t.locut;
      assert s in acc;
    } else if pref {
      var s :| s in ss && s !in t.locut && s + "_" in t.prefixes;
      assert s in acc;
    }
  }

  /** What may stand for a word by its first analyses. */
  function AlternativesTo(w: Word, n: nat): set<string>
    requires n <= |w.analyses|
  {
    if n == 0 then {} else AlternativesTo(w, n - 1) + SetOfThree(Alternative(w, w.analyses[n - 1]))
  }

  function SetOfThree(s: seq<string>): set<string>
    requires |s| == 3
  {
    {s[0], s[1], s[2]}
  }

  lemma AlternativesOneMore(w: Word, a: nat)
    requires a < |w.analyses|
    ensures AlternativesTo(w, a + 1) == AlternativesTo(w, a) + SetOf(Alternative(w, w.analyses[a]))
  {
  }

  lemma {:induction false} AlternativesAre(w: Word, n: nat)
    requires n <= |w.analyses|
    ensures n > 0 ==> AlternativesTo(w, n) == {w.lcForm} + (set a | a in w.analyses[..n] :: "<" + a.0 + ">") + (set a | a in w.analyses[..n] :: a.1)
  {
    if n > 0 {
      AlternativesAre(w, n - 1);
      assert w.analyses[..n] == w.analyses[..n - 1] + [w.analyses[n - 1]];
    }
  }

  lemma AllAlternatives(w: Word)
    requires w.analyses != []
    ensures AlternativesTo(w, |w.analyses|) == Alternatives(w)
  {
    AlternativesAre(w, |w.analyses|);
    assert w.analyses[..|w.analyses|] == w.analyses;
  }

  lemma ContinuedTo(accMw: set<string>, w: Word, a: nat)
    requires a < |w.analyses|
    ensures Continued(accMw, AlternativesTo(w, a + 1), accMw == {})
         == Continued(accMw, AlternativesTo(w, a), accMw == {}) + Continued(accMw, SetOf(Alternative(w, w.analyses[a])), accMw == {})
  {
    AlternativesOneMore(w, a);
    ContinuedUnion(accMw, AlternativesTo(w, a), SetOf(Alternative(w, w.analyses[a])), accMw == {});
  }

  lemma ContinuedUnion(accMw: set<string>, a: set<string>, b: set<string>, first: bool)
    ensures Continued(accMw, a + b, first) == Continued(accMw, a, first) + Continued(accMw, b, first)
  {
  }

  lemma ContinuedOneMore(accMw: set<string>, todo: set<string>, i: string, alts: seq<string>)
    requires i in todo && todo <= accMw
    ensures Continued(accMw - (todo - {i}), SetOf(alts), false) == Continued(accMw - todo, SetOf(alts), false) + SetOf(JoinAll(i, alts))
  {
    var js := JoinAll(i, alts);
    forall b | b in SetOf(alts)
      ensures Join(i, b) in SetOf(js)
    {
      var k :| 0 <= k < |alts| && alts[k] == b;
      assert js[k] == Join(i, b);
    }
  }
}
