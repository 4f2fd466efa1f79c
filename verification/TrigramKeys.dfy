/** The cache of transition scores is looked up by the three tags, joined by dots: when two
    transitions are taken for each other, and when that makes an answer wrong. */
module TrigramKeys {
  import opened LogProbs
  import opened Trellises
  import opened HmmTaggers

  /** A request for the score of going from `u` to `s` at word `t`. */
  datatype Call = Call(u: Bigram, s: Bigram, ws: seq<Word>, t: nat)
  {
    function Key(): string {
      TrigramKey(u, s)
    }

    predicate Passes(h: Hmm) {
      !h.IsForbidden(u, s, ws, t)
    }

    /** Two overlapping states over a set of tags, with the mark of the beginning counted as one. */
    ghost predicate Over(tags: iset<Tag>) {
      Overlap(tags, u, s)
    }
  }

  /** The cache after some calls. */
  function CacheOf(h: Hmm, calls: seq<Call>): map<string, LogProb>
    requires "x" in h.pTag
  {
    if calls == [] then map[] else
    var c := calls[|calls| - 1];
    CacheAfter(h, CacheOf(h, calls[..|calls| - 1]), c.u, c.s, c.ws, c.t)
  }

  /** The next call is answered with what the tables give. */
  predicate AnswersRight(h: Hmm, calls: seq<Call>, c: Call)
    requires "x" in h.pTag
  {
    Answer(h, CacheOf(h, calls), c.u, c.s, c.ws, c.t) == h.ProbA(c.u, c.s, c.ws, c.t)
  }

  ghost predicate AllOver(tags: iset<Tag>, calls: seq<Call>) {
    forall i :: 0 <= i < |calls| ==> calls[i].Over(tags)
  }

  ghost predicate AlwaysRight(h: Hmm, tags: iset<Tag>)
    requires "x" in h.pTag
  {
    forall calls: seq<Call>, c: Call {:trigger AnswersRight(h, calls, c)} ::
      AllOver(tags, calls) && c.Over(tags) ==> AnswersRight(h, calls, c)
  }

  /** Whatever is cached was computed for some call with that key. */
  lemma {:induction false} CachedFromSomeCall(h: Hmm, calls: seq<Call>, key: string) returns (i: nat)
    requires "x" in h.pTag && key in CacheOf(h, calls)
    ensures i < |calls| && calls[i].Passes(h) && calls[i].Key() == key
    ensures CacheOf(h, calls)[key] == h.Smoothed(calls[i].u, calls[i].s)
  {
    var n := |calls| - 1;
    if key in CacheOf(h, calls[..n]) {
      i := CachedFromSomeCall(h, calls[..n], key);
    } else {
      i := n;
    }
  }

  lemma SecondCall(h: Hmm, c: Call, d: Call)
    requires "x" in h.pTag && c.Passes(h) && d.Passes(h) && c.Key() == d.Key()
    ensures Answer(h, CacheOf(h, [c]), d.u, d.s, d.ws, d.t) == h.Smoothed(c.u, c.s)
  {
    assert [c][..0] == [];
  }

  /** MAIN RESULT: over all sequences of calls, the cache never answers wrongly exactly when the
      tables give the same score to transitions that share a key. */
  lemma AlwaysRightIff(h: Hmm, tags: iset<Tag>)
    requires "x" in h.pTag
    ensures AlwaysRight(h, tags) <==> h.KeysAgree(tags)
  {
    if AlwaysRight(h, tags) {
      forall u, s, v, r
        ensures h.AgreeOn(tags, u, s, v, r)
      {
        if Overlap(tags, u, s) && Overlap(tags, v, r) && h.MayPass(u, s) && h.MayPass(v, r) && TrigramKey(u, s) == TrigramKey(v, r) {
          var ws, t :| !h.IsForbidden(u, s, ws, t);
          var vs, n :| !h.IsForbidden(v, r, vs, n);
          var c, d := Call(u, s, ws, t), Call(v, r, vs, n);
          SecondCall(h, c, d);
          assert AllOver(tags, [c]) && AnswersRight(h, [c], d);
        }
      }
    }
    if h.KeysAgree(tags) {
      forall calls: seq<Call>, c: Call | AllOver(tags, calls) && c.Over(tags)
        ensures AnswersRight(h, calls, c)
      {
        if c.Passes(h) && c.Key() in CacheOf(h, calls) {
          var i := CachedFromSomeCall(h, calls, c.Key());
          assert h.AgreeOn(tags, calls[i].u, calls[i].s, c.u, c.s);
        }
      }
    }
  }

  /** A model with a bigram for a tag with a dot. */
  function DottedHmm(log: real -> LogProb): Hmm {
    Hmm(t => t, map["x" := 0.5], map[Bigram("b.c", "d") := 1.0], map[], map[], map[],
        Fin(0.0), Fin(0.0), 1.0, 1.0, 1.0, log, (key, readings, t) => false, 1)
  }

  /** The transition from a.b and c to d, and that from a and b.c to d. */
  lemma DottedTagsShareKeys()
    ensures var c, d := Call(Bigram("a.b", "c"), Bigram("c", "d"), [], 0), Call(Bigram("a", "b.c"), Bigram("b.c", "d"), [], 0);
            c.Key() == d.Key() && forall tags: iset<Tag> :: iset{"a.b", "c", "d", "a", "b.c"} <= tags ==> c.Over(tags) && d.Over(tags)
  {
    assert "a.b" + "." + "c" + "." + "d" == "a.b.c.d" == "a" + "." + "b.c" + "." + "d";
  }

  /** The second of these calls is served the score of the first. */
  lemma DottedTagsAreMisserved(log: real -> LogProb)
    requires IsLog(log)
    ensures var h := DottedHmm(log);
            var c, d := Call(Bigram("a.b", "c"), Bigram("c", "d"), [], 0), Call(Bigram("a", "b.c"), Bigram("b.c", "d"), [], 0);
            && Answer(h, CacheOf(h, [c]), d.u, d.s, d.ws, d.t) == log(0.5)
            && h.ProbA(d.u, d.s, d.ws, d.t) == log(1.5) && log(0.5) != log(1.5)
  {
    var h := DottedHmm(log);
    var c, d := Call(Bigram("a.b", "c"), Bigram("c", "d"), [], 0), Call(Bigram("a", "b.c"), Bigram("b.c", "d"), [], 0);
    DottedTagsShareKeys();
    SecondCall(h, c, d);
    assert h.Interpolated(c.u, c.s) == 0.5;
    assert h.Interpolated(d.u, d.s) == 1.5;
    assert log(0.5).Below(log(1.5));
  }

  /** Strings joined by a dot. */
  function Dotted(x: string, y: string): string {
    x + "." + y
  }

  lemma DottedAssociates(x: string, y: string, z: string)
    ensures Dotted(Dotted(x, y), z) == Dotted(x, Dotted(y, z))
  {
    assert x + "." + y + "." + z == x + "." + (y + "." + z);
  }

  lemma DottedIsLonger(x: string, y: string)
    ensures |Dotted(x, y)| > |x|
  {
  }

  /** Two tags and what follows: a key. */
  lemma KeyIsDotted(u: Bigram, s: Bigram)
    ensures TrigramKey(u, s) == Dotted(u.first, Dotted(u.second, s.second))
  {
    DottedAssociates(u.first, u.second, s.second);
  }

  lemma SameCut(x: string, r: string, v: string, s: string)
    requires Dotted(x, r) == Dotted(v, s) && |x| == |v|
    ensures x == v && r == s
  {
    var all := Dotted(x, r);
    assert all[..|x|] == x && Dotted(v, s)[..|v|] == v;
    assert all[|x| + 1..] == r && Dotted(v, s)[|v| + 1..] == s;
  }

  /** A string cut at two of its dots. */
  lemma LaterCut(x: string, r: string, v: string, s: string) returns (m: string)
    requires Dotted(x, r) == Dotted(v, s) && |x| < |v|
    ensures v == Dotted(x, m) && r == Dotted(m, s)
  {
    var all := Dotted(x, r);
    assert all[..|x|] == x && all[|x|] == '.' && all[|x| + 1..] == r;
    assert Dotted(v, s)[..|v|] == v && Dotted(v, s)[|v|] == '.' && Dotted(v, s)[|v| + 1..] == s;
    m := v[|x| + 1..];
    assert v == v[..|x|] + [v[|x|]] + m;
    assert v[..|x|] == all[..|x|] && v[|x|] == all[|x|];
    assert all == v + "." + s;
    assert r == m + "." + s;
  }

  /** No two triples of tags are joined to the same key. */
  ghost predicate KeysAreDistinct(tags: iset<Tag>) {
    forall u, s, v, r :: Call(u, s, [], 0).Over(tags) && Call(v, r, [], 0).Over(tags) && TrigramKey(u, s) == TrigramKey(v, r) ==>
      u == v && s == r
  }

  /** Some piece `m` can go to the end of one tag, or to the beginning of the next. */
  ghost predicate Shifts(tags: iset<Tag>) {
    exists x, m, y :: ShiftsAt(tags, x, m, y)
  }

  ghost predicate ShiftsAt(tags: iset<Tag>, x: Tag, m: Tag, y: Tag) {
    iset{x, y, Dotted(x, m), Dotted(m, y)} <= tags
  }

  /** Pieces can be shifted at both dots at once, in the same direction. */
  ghost predicate ShiftsBoth(tags: iset<Tag>) {
    exists x, m, w, n, y :: ShiftsBothAt(tags, x, m, w, n, y)
  }

  ghost predicate ShiftsBothAt(tags: iset<Tag>, x: Tag, m: Tag, w: Tag, n: Tag, y: Tag) {
    iset{x, y, Dotted(x, m), Dotted(m, w), Dotted(w, n), Dotted(n, y)} <= tags
  }

  /** Pieces on both sides of a tag can go to its neighbours. */
  ghost predicate Sheds(tags: iset<Tag>) {
    exists x, m, w, n, y :: ShedsAt(tags, x, m, w, n, y)
  }

  ghost predicate ShedsAt(tags: iset<Tag>, x: Tag, m: Tag, w: Tag, n: Tag, y: Tag) {
    iset{x, y, w, Dotted(x, m), Dotted(m, Dotted(w, n)), Dotted(n, y)} <= tags
  }

  /** One tag consists of two, and so does another. */
  ghost predicate Regroups(tags: iset<Tag>) {
    exists x, y, v, w :: RegroupsAt(tags, x, y, v, w)
  }

  ghost predicate RegroupsAt(tags: iset<Tag>, x: Tag, y: Tag, v: Tag, w: Tag) {
    iset{x, y, v, w, Dotted(x, y), Dotted(v, w)} <= tags
  }

  /** The same, with a piece left over that can go to either. */
  ghost predicate RegroupsAround(tags: iset<Tag>) {
    exists x, y, m, v, w :: RegroupsAroundAt(tags, x, y, m, v, w)
  }

  ghost predicate RegroupsAroundAt(tags: iset<Tag>, x: Tag, y: Tag, m: Tag, v: Tag, w: Tag) {
    iset{x, y, v, w, Dotted(x, Dotted(y, m)), Dotted(m, Dotted(v, w))} <= tags
  }

  ghost predicate HasAmbiguousDots(tags: iset<Tag>) {
    Shifts(tags) || ShiftsBoth(tags) || Sheds(tags) || Regroups(tags) || RegroupsAround(tags)
  }

  /** Two triples of tags with the same key, the first tag of one being shorter. */
  lemma ShorterFirstTag(tags: iset<Tag>, a: Tag, b: Tag, c: Tag, x: Tag, y: Tag, z: Tag)
    requires iset{a, b, c, x, y, z} <= tags && |a| < |x|
    requires Dotted(a, Dotted(b, c)) == Dotted(x, Dotted(y, z))
    ensures HasAmbiguousDots(tags)
  {
    var m := LaterCut(a, Dotted(b, c), x, Dotted(y, z));
    if |b| == |m| {
      SameCut(b, c, m, Dotted(y, z));
      assert RegroupsAt(tags, a, b, y, z);
    } else if |b| < |m| {
      var n := LaterCut(b, c, m, Dotted(y, z));
      assert RegroupsAroundAt(tags, a, b, n, y, z);
    } else {
      var n := LaterCut(m, Dotted(y, z), b, c);
      MiddleTag(tags, a, m, n, c, y, z);
    }
  }

  /** The middle tag `m.n` reaches beyond the first tag `a.m` of the other triple. */
  lemma MiddleTag(tags: iset<Tag>, a: Tag, m: Tag, n: Tag, c: Tag, y: Tag, z: Tag)
    requires iset{a, Dotted(m, n), c, Dotted(a, m), y, z} <= tags && Dotted(n, c) == Dotted(y, z)
    ensures HasAmbiguousDots(tags)
  {
    if |n| == |y| {
      SameCut(n, c, y, z);
      assert ShiftsAt(tags, a, m, y);
    } else if |n| < |y| {
      var k := LaterCut(n, c, y, z);
      assert ShiftsBothAt(tags, a, m, n, k, z);
    } else {
      var k := LaterCut(y, z, n, c);
      assert ShedsAt(tags, a, m, y, k, c);
    }
  }

  lemma SameJoin(tags: iset<Tag>, a: Tag, b: Tag, c: Tag, x: Tag, y: Tag, z: Tag)
    requires iset{a, b, c, x, y, z} <= tags && Dotted(a, Dotted(b, c)) == Dotted(x, Dotted(y, z))
    ensures (a == x && b == y && c == z) || HasAmbiguousDots(tags)
  {
    if |a| < |x| {
      ShorterFirstTag(tags, a, b, c, x, y, z);
    } else if |x| < |a| {
      ShorterFirstTag(tags, x, y, z, a, b, c);
    } else {
      SameCut(a, Dotted(b, c), x, Dotted(y, z));
      ShorterSecondTag(tags, b, c, y, z);
    }
  }

  lemma SharedKeyIsAmbiguous(tags: iset<Tag>, u: Bigram, s: Bigram, v: Bigram, r: Bigram)
    requires Call(u, s, [], 0).Over(tags) && Call(v, r, [], 0).Over(tags) && TrigramKey(u, s) == TrigramKey(v, r)
    ensures (u == v && s == r) || HasAmbiguousDots(tags)
  {
    KeyIsDotted(u, s);
    KeyIsDotted(v, r);
    SameJoin(tags, u.first, u.second, s.second, v.first, v.second, r.second);
  }

  lemma ShorterSecondTag(tags: iset<Tag>, b: Tag, c: Tag, y: Tag, z: Tag)
    requires iset{b, c, y, z} <= tags && Dotted(b, c) == Dotted(y, z)
    ensures (b == y && c == z) || HasAmbiguousDots(tags)
  {
    if |b| == |y| {
      SameCut(b, c, y, z);
    } else if |b| < |y| {
      var m := LaterCut(b, c, y, z);
      assert ShiftsAt(tags, b, m, z);
    } else {
      var m := LaterCut(y, z, b, c);
      assert ShiftsAt(tags, y, m, c);
    }
  }

  /** Two ways to cut a key at the end of different first tags. */
  lemma TwoWays(tags: iset<Tag>, a: Tag, b: Tag, c: Tag, x: Tag, y: Tag, z: Tag)
    requires iset{a, b, c, x, y, z} <= tags && a != x
    requires Dotted(a, Dotted(b, c)) == Dotted(x, Dotted(y, z))
    ensures !KeysAreDistinct(tags)
  {
    var u, s, v, r := Bigram(a, b), Bigram(b, c), Bigram(x, y), Bigram(y, z);
    KeyIsDotted(u, s);
    KeyIsDotted(v, r);
    assert Call(u, s, [], 0).Over(tags) && Call(v, r, [], 0).Over(tags);
  }

  lemma ShiftedKeys(tags: iset<Tag>)
    requires Shifts(tags) || ShiftsBoth(tags)
    ensures !KeysAreDistinct(tags)
  {
    if Shifts(tags) {
      var x, m, y :| ShiftsAt(tags, x, m, y);
      DottedAssociates(m, y, x);
      DottedAssociates(x, m, Dotted(y, x));
      DottedIsLonger(x, m);
      TwoWays(tags, x, Dotted(m, y), x, Dotted(x, m), y, x);
    } else {
      var x, m, w, n, y :| ShiftsBothAt(tags, x, m, w, n, y);
      DottedAssociates(m, w, Dotted(n, y));
      DottedAssociates(w, n, y);
      DottedAssociates(x, m, Dotted(Dotted(w, n), y));
      DottedIsLonger(x, m);
      TwoWays(tags, x, Dotted(m, w), Dotted(n, y), Dotted(x, m), Dotted(w, n), y);
    }
  }

  lemma ShedKeys(tags: iset<Tag>)
    requires Sheds(tags)
    ensures !KeysAreDistinct(tags)
  {
    var x, m, w, n, y :| ShedsAt(tags, x, m, w, n, y);
    DottedAssociates(m, Dotted(w, n), y);
    DottedAssociates(w, n, y);
    DottedAssociates(x, m, Dotted(w, Dotted(n, y)));
    DottedIsLonger(x, m);
    TwoWays(tags, x, Dotted(m, Dotted(w, n)), y, Dotted(x, m), w, Dotted(n, y));
  }

  lemma RegroupedKeys(tags: iset<Tag>)
    requires Regroups(tags) || RegroupsAround(tags)
    ensures !KeysAreDistinct(tags)
  {
    if Regroups(tags) {
      var x, y, v, w :| RegroupsAt(tags, x, y, v, w);
      DottedAssociates(x, y, Dotted(v, w));
      DottedIsLonger(x, y);
      TwoWays(tags, x, y, Dotted(v, w), Dotted(x, y), v, w);
    } else {
      var x, y, m, v, w :| RegroupsAroundAt(tags, x, y, m, v, w);
      DottedAssociates(x, Dotted(y, m), Dotted(v, w));
      DottedAssociates(y, m, Dotted(v, w));
      DottedIsLonger(x, Dotted(y, m));
      TwoWays(tags, x, y, Dotted(m, Dotted(v, w)), Dotted(x, Dotted(y, m)), v, w);
    }
  }

  /** MAIN RESULT: different transitions over a set of tags have different keys exactly when the
      tags cannot be cut and joined in one of five ways. */
  lemma KeysAreDistinctIff(tags: iset<Tag>)
    ensures KeysAreDistinct(tags) <==> !HasAmbiguousDots(tags)
  {
    if HasAmbiguousDots(tags) {
      if Shifts(tags) || ShiftsBoth(tags) {
        ShiftedKeys(tags);
      } else if Sheds(tags) {
        ShedKeys(tags);
      } else {
        RegroupedKeys(tags);
      }
    } else {
      forall u: Bigram, s: Bigram, v: Bigram, r: Bigram
        | Call(u, s, [], 0).Over(tags) && Call(v, r, [], 0).Over(tags) && TrigramKey(u, s) == TrigramKey(v, r)
        ensures u == v && s == r
      {
        SharedKeyIsAmbiguous(tags, u, s, v, r);
      }
    }
  }

  /** Then, in particular, the cache never answers wrongly. */
  lemma DistinctKeysAgree(h: Hmm, tags: iset<Tag>)
    requires "x" in h.pTag && !HasAmbiguousDots(tags)
    ensures h.KeysAgree(tags) && AlwaysRight(h, tags)
  {
    KeysAreDistinctIff(tags);
    AlwaysRightIff(h, tags);
    forall u, s, v, r
      ensures h.AgreeOn(tags, u, s, v, r)
    {
      assert Call(u, s, [], 0).Over(tags) <==> Overlap(tags, u, s);
      assert Call(v, r, [], 0).Over(tags) <==> Overlap(tags, v, r);
    }
  }
}
