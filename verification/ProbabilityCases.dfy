/** Words whose probabilities are worked out to the end, and which counts a word backs off to. */
module ProbabilityCases {
  import opened Distributions
  import opened Probabilities
  import opened Readings
  import opened Vectors
  import opened Assigners

  /** Which counts a word backs off to: those of the class of all its short tags, of the class of those
      that are no proper nouns, or of single tags. */
  lemma BackoffIsToClass(t: Tables, rs: seq<Reading>)
    ensures var all, c := ShortSet(t, rs), BackoffCounts(t, ShortTags(t, rs));
            && (t.className(all) in t.classes ==> c == t.classes[t.className(all)])
            && (t.className(all) !in t.classes && t.className(all - {"NP"}) in t.classes ==>
                  c == t.classes[t.className(all - {"NP"})])
            && (t.className(all) !in t.classes && t.className(all - {"NP"}) !in t.classes ==> c == t.single)
  {
    var ts := ShortTags(t, rs);
    forall x
      ensures HasTag(ts, x) <==> x in ShortSet(t, rs)
    {
      ShortTagsAre(t, rs, x);
    }
    assert forall x :: x in ClassTags(ts, true) <==> HasTag(ts, x);
    assert forall x :: x in ClassTags(ts, false) <==> HasTag(ts, x) && x != "NP";
    assert ClassTags(ts, true) == ShortSet(t, rs);
    assert ClassTags(ts, false) == ShortSet(t, rs) - {"NP"};
  }

  predicate HasTag(ts: seq<(string, real)>, x: string) {
    exists i :: 0 <= i < |ts| && ts[i].0 == x
  }

  lemma HasTagFromFirst(ts: seq<(string, real)>, x: string)
    requires ts != []
    ensures HasTag(ts, x) <==> ts[0].0 == x || HasTag(ts[1..], x)
  {
    if HasTag(ts[1..], x) {
      var i :| 0 <= i < |ts[1..]| && ts[1..][i].0 == x;
      assert ts[i + 1].0 == x;
    }
    if HasTag(ts, x) && ts[0].0 != x {
      var i :| 0 <= i < |ts| && ts[i].0 == x;
      assert ts[1..][i - 1].0 == x;
    }
  }

  lemma {:induction false} BumpedTags(ts: seq<(string, real)>, tag: string, x: string)
    ensures HasTag(Bump(ts, tag), x) <==> HasTag(ts, x) || x == tag
  {
    var more := Bump(ts, tag);
    HasTagFromFirst(more, x);
    if ts != [] {
      HasTagFromFirst(ts, x);
      if ts[0].0 == tag {
        assert more[1..] == ts[1..];
      } else {
        assert more[1..] == Bump(ts[1..], tag);
        BumpedTags(ts[1..], tag, x);
      }
    } else {
      assert more[1..] == [];
    }
  }

  lemma {:induction false} ShortTagsAre(t: Tables, rs: seq<Reading>, x: string)
    ensures HasTag(ShortTags(t, rs), x) <==> x in ShortSet(t, rs)
  {
    if rs != [] {
      var m := |rs| - 1;
      ShortTagsAre(t, rs[..m], x);
      BumpedTags(ShortTags(t, rs[..m]), t.shortTag(rs[m].tag), x);
      assert ShortSet(t, rs) == ShortSet(t, rs[..m]) + {t.shortTag(rs[m].tag)};
    }
  }

  lemma SumOfPair(a: real, b: real)
    ensures Sum([a, b]) == a + b
  {
    var one: seq<real> := [a];
    assert [a, b][..1] == one && one[..0] == [];
    assert Sum(one) == Sum(one[..0]) + a == a;
  }

  /** Tables with one suffix, which makes a noun likely. */
  function SuffixTables(classes: map<string, Counts>, lexical: map<string, Counts>): Tables {
    Tables(lexical, classes, map[], map["s" := map["NN" := 0.6, "VB" := 0.1]], [("NN", 0.2), ("VB", 0.4)],
           tag => tag, tags => if tags == {"NN", "VB"} then "NN-VB" else "", 0.5, 0.5, 0.2, 0.0, true)
  }

  lemma GuessesOfS(k: nat)
    requires k <= 2
    ensures var t := SuffixTables(map[], map[]);
            Guesses(t, "s", {}, k, true) == [Reading("s", "NN", 7.0 / 15.0), Reading("s", "VB", 0.2)][..k]
  {
    var t := SuffixTables(map[], map[]);
    assert "s"[0..] == "s";
    assert Suffixed(t, "NN", 0.2, "s", 1) == Interpolated(t, "NN", 0.2, "s") == 7.0 / 15.0;
    assert Suffixed(t, "VB", 0.4, "s", 1) == Interpolated(t, "VB", 0.4, "s") == 0.2;
    if k > 0 {
      GuessesOfS(k - 1);
    }
  }

  /** A word that is not known: its tags are guessed by its suffix, and have 0.7 and 0.3. */
  method GuessWord() returns (rs: seq<Reading>)
    ensures rs == [Reading("s", "NN", 0.7), Reading("s", "VB", 0.3)]
  {
    var t := SuffixTables(map[], map[]);
    var w := new Word("s", "s", false, []);
    var a := new Assigner(t);
    GuessIsShared();
    a.AnnotateWord(w);
    rs := w.readings;
  }

  /** The shares of two readings, in order. */
  lemma SharedPair(g: seq<Reading>)
    requires |g| == 2 && g[0].prob + g[1].prob != 0.0
    ensures var sum := g[0].prob + g[1].prob;
            && Sum(Probs(g)) == sum
            && WithProbs(g, Shares(Probs(g), sum)) == [g[0].(prob := g[0].prob / sum), g[1].(prob := g[1].prob / sum)]
  {
    assert Probs(g) == [g[0].prob, g[1].prob];
    SumOfPair(g[0].prob, g[1].prob);
  }

  lemma GuessedS()
    ensures var t := SuffixTables(map[], map[]);
            && WithGuesses(t, "s", Evenly([])) == [Reading("s", "NN", 7.0 / 15.0), Reading("s", "VB", 0.2)]
            && CanGuess(t, "s", 2)
  {
    var t := SuffixTables(map[], map[]);
    GuessesOfS(2);
    assert Evenly([]) == [] && ShortSet(t, []) == {};
    assert Guesses(t, "s", {}, 2, true) == [Reading("s", "NN", 7.0 / 15.0), Reading("s", "VB", 0.2)];
    assert "s"[0..] == "s";
    assert Guess(t, "s", 0).prob == Suffixed(t, "NN", 0.2, "s", 1) == Interpolated(t, "NN", 0.2, "s") == 7.0 / 15.0;
  }

  lemma GuessIsShared()
    ensures var t := SuffixTables(map[], map[]);
            && t.WellFormed() && MassToShare(t, false, "s", [])
            && Annotated(t, false, "s", "s", []) == [Reading("s", "NN", 0.7), Reading("s", "VB", 0.3)]
  {
    var t := SuffixTables(map[], map[]);
    GuessedS();
    var g := WithGuesses(t, "s", Evenly([]));
    SharedPair(g);
    var z := [Reading("s", "NN", 0.7), Reading("s", "VB", 0.3)];
    assert WithProbs(g, Shares(Probs(g), Sum(Probs(g)))) == z;
    SortPair(z[0], z[1]);
  }

  lemma SortPair(a: Reading, b: Reading)
    ensures SortReadings([a, b]) == if Before(b, a) then [b, a] else [a, b]
  {
    var one := [a];
    assert [a, b][..1] == one && one[..0] == [];
    assert Insert([], a) == one && SortReadings(one) == Insert(SortReadings([]), a);
    assert SortReadings([a, b]) == Insert(one, b);
    assert Insert(one, b) == if Before(b, a) then Insert([], b) + [a] else one + [b];
  }

  /** The readings of a noun and a verb. */
  function NounVerb(lem: string): seq<Reading> {
    [Reading(lem, "NN", 0.0), Reading(lem, "VB", 0.0)]
  }

  function RunTables(): Tables {
    SuffixTables(map[], map["run" := map["NN" := 2.0, "VB" := 5.0]])
  }

  function RunsTables(): Tables {
    SuffixTables(map["NN-VB" := map["NN" := 1.0, "VB" := 5.0]], map[])
  }

  lemma CountsOfPair(t: Tables, c: Counts, lem: string, a: real)
    requires t.shortTag("NN") == "NN" && t.shortTag("VB") == "VB" && AllNonNegative(c) && a > 0.0
    ensures var x, n := TagCounts(t, c, NounVerb(lem)), CountOf(c, "NN") + CountOf(c, "VB") + a * 2.0;
            n > 0.0 && Smoothed(x, a) == [(CountOf(c, "NN") + a) / n, (CountOf(c, "VB") + a) / n]
  {
    var x := TagCounts(t, c, NounVerb(lem));
    assert x == [CountOf(c, "NN"), CountOf(c, "VB")];
    SumOfPair(x[0], x[1]);
    SmoothedIsDistribution(x, a);
  }

  /** A word with counts of its own: 2 and 5 observations, with 0.5 added to each. */
  method KnownWord() returns (rs: seq<Reading>)
    ensures rs == [Reading("run", "VB", 0.6875), Reading("run", "NN", 0.3125)]
  {
    var w := new Word("run", "run", true, NounVerb("run"));
    var a := new Assigner(RunTables());
    KnownIsSmoothed();
    a.AnnotateWord(w);
    rs := w.readings;
  }

  lemma SmoothedRun()
    ensures RunTables().WellFormed()
    ensures SmoothedProbs(RunTables(), "run", "run", NounVerb("run")) == [0.3125, 0.6875]
  {
    var c := RunTables().lexical["run"];
    assert CountOf(c, "NN") == 2.0 && CountOf(c, "VB") == 5.0;
    CountsOfPair(RunTables(), c, "run", 0.5);
    assert (CountOf(c, "NN") + 0.5) / 8.0 == 0.3125 && (CountOf(c, "VB") + 0.5) / 8.0 == 0.6875;
  }

  lemma KnownIsSmoothed()
    ensures RunTables().WellFormed()
    ensures Annotated(RunTables(), true, "run", "run", NounVerb("run"))
         == [Reading("run", "VB", 0.6875), Reading("run", "NN", 0.3125)]
  {
    SmoothedRun();
    var z := [Reading("run", "NN", 0.3125), Reading("run", "VB", 0.6875)];
    assert WithProbs(NounVerb("run"), [0.3125, 0.6875]) == z;
    SortPair(z[0], z[1]);
  }

  /** A word with the counts of its class, 1 and 5, with 1 added to each, and a suffix that counts for
      a fifth. */
  method BackedOffWord() returns (rs: seq<Reading>)
    ensures rs == [Reading("runs", "VB", 163.0 / 240.0), Reading("runs", "NN", 77.0 / 240.0)]
  {
    var w := new Word("runs", "runs", true, NounVerb("runs"));
    var a := new Assigner(RunsTables());
    BackedOffIsMixed();
    a.AnnotateWord(w);
    rs := w.readings;
  }

  lemma SuffixOfRuns(x: real, y: real)
    requires x == 0.25 && y == 0.75
    ensures var t := RunsTables();
            SuffixVector(t, "runs", NounVerb("runs"), [x, y]) == [29.0 / 60.0, 19.0 / 60.0]
  {
    var t := RunsTables();
    assert "runs"[3..] == "s" && |"runs"[2..]| == 2;
    assert Suffixed(t, "NN", x, "runs", 4) == Interpolated(t, "NN", x, "s") == 29.0 / 60.0;
    assert Suffixed(t, "VB", y, "runs", 4) == Interpolated(t, "VB", y, "s") == 19.0 / 60.0;
  }

  lemma ClassOfRuns()
    ensures BackoffCounts(RunsTables(), ShortTags(RunsTables(), NounVerb("runs"))) == RunsTables().classes["NN-VB"]
  {
    BackoffIsToClass(RunsTables(), NounVerb("runs"));
    assert ShortSet(RunsTables(), NounVerb("runs")) == {"NN", "VB"} by {
      assert NounVerb("runs")[0].tag == "NN" && NounVerb("runs")[1].tag == "VB";
    }
  }

  lemma MixOfRuns()
    ensures var t, y := RunsTables(), [29.0 / 60.0, 19.0 / 60.0];
            Sum(y) == 0.8 && Mix(t.bias, [0.25, 0.75], Shares(y, 0.8)) == [77.0 / 240.0, 163.0 / 240.0]
  {
    SumOfPair(29.0 / 60.0, 19.0 / 60.0);
  }

  lemma SmoothedOfRuns()
    ensures var c := BackoffCounts(RunsTables(), ShortTags(RunsTables(), NounVerb("runs")));
            && NonNegative(TagCounts(RunsTables(), c, NounVerb("runs")))
            && Smoothed(TagCounts(RunsTables(), c, NounVerb("runs")), 1.0) == [0.25, 0.75]
  {
    var c := RunsTables().classes["NN-VB"];
    ClassOfRuns();
    assert CountOf(c, "NN") == 1.0 && CountOf(c, "VB") == 5.0;
    CountsOfPair(RunsTables(), c, "runs", 1.0);
    assert (CountOf(c, "NN") + 1.0) / 8.0 == 0.25 && (CountOf(c, "VB") + 1.0) / 8.0 == 0.75;
  }

  lemma SuffixMixOfRuns()
    ensures var y := SuffixVector(RunsTables(), "runs", NounVerb("runs"), [0.25, 0.75]);
            && Sum(y) == 0.8
            && SuffixMix(RunsTables(), "runs", NounVerb("runs"), [0.25, 0.75]) == [77.0 / 240.0, 163.0 / 240.0]
  {
    SuffixOfRuns(0.25, 0.75);
    MixOfRuns();
  }

  lemma BackedOffProbs()
    ensures RunsTables().WellFormed()
    ensures SmoothedProbs(RunsTables(), "runs", "runs", NounVerb("runs")) == [77.0 / 240.0, 163.0 / 240.0]
  {
    SmoothedOfRuns();
    SuffixMixOfRuns();
  }

  lemma BackedOffIsMixed()
    ensures RunsTables().WellFormed()
    ensures Annotated(RunsTables(), true, "runs", "runs", NounVerb("runs"))
         == [Reading("runs", "VB", 163.0 / 240.0), Reading("runs", "NN", 77.0 / 240.0)]
  {
    BackedOffProbs();
    var z := [Reading("runs", "NN", 77.0 / 240.0), Reading("runs", "VB", 163.0 / 240.0)];
    assert WithProbs(NounVerb("runs"), [77.0 / 240.0, 163.0 / 240.0]) == z;
    SortPair(z[0], z[1]);
  }
}
