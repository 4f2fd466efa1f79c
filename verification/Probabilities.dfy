/** Lexical probabilities of the readings of a word: counts, smoothing, suffixes and guessing. */
module Probabilities {
  import opened Distributions
  import opened Readings
  import opened Vectors

  type Counts = map<string, real>

  /** The tables, and the parameters of smoothing. `shortTag` abbreviates tags, and `className` is
      the name of a set of short tags, in order, in the table of ambiguity classes. */
  datatype Tables = Tables(lexical: map<string, Counts>, classes: map<string, Counts>, single: Counts,
                           suffixes: map<string, Counts>, unknown: seq<(string, real)>,
                           shortTag: string -> string, className: set<string> -> string,
                           lidstone: real, theta: real, bias: real, threshold: real, guess: bool)
  {
    ghost predicate WellFormed() {
      && lidstone > 0.0 && theta > 0.0 && 0.0 <= bias <= 1.0
      && (forall k :: k in lexical ==> AllNonNegative(lexical[k]))
      && (forall k :: k in classes ==> AllNonNegative(classes[k]))
      && (forall k :: k in suffixes ==> AllNonNegative(suffixes[k]))
      && AllNonNegative(single)
      && forall i :: 0 <= i < |unknown| ==> unknown[i].1 >= 0.0
    }
  }

  predicate AllNonNegative(c: Counts) {
    forall t :: t in c ==> c[t] >= 0.0
  }

  function CountOf(c: Counts, t: string): (n: real)
    ensures AllNonNegative(c) ==> n >= 0.0
  {
    if t in c then c[t] else 0.0
  }

  /** How often each short tag occurs among the readings. */
  function Bump(ts: seq<(string, real)>, t: string): (more: seq<(string, real)>) {
    if ts == [] then [(t, 1.0)]
    else if ts[0].0 == t then [(t, ts[0].1 + 1.0)] + ts[1..]
    else [ts[0]] + Bump(ts[1..], t)
  }

  function ShortTags(t: Tables, rs: seq<Reading>): seq<(string, real)> {
    if rs == [] then [] else Bump(ShortTags(t, rs[..|rs| - 1]), t.shortTag(rs[|rs| - 1].tag))
  }

  /** The observations of some short tags, each as often as it occurs. */
  function Observed(c: Counts, ts: seq<(string, real)>): real {
    if ts == [] then 0.0 else Mul(CountOf(c, ts[0].0), ts[0].1) + Observed(c, ts[1..])
  }

  lemma {:induction false} ObservedOneMore(c: Counts, ts: seq<(string, real)>, t: string)
    ensures Observed(c, Bump(ts, t)) == Observed(c, ts) + CountOf(c, t)
  {
    if ts != [] {
      var more := Bump(ts, t);
      if ts[0].0 == t {
        assert more[1..] == ts[1..];
        Distribute(CountOf(c, t), ts[0].1, 1.0);
      } else {
        assert more[1..] == Bump(ts[1..], t);
        ObservedOneMore(c, ts[1..], t);
      }
    } else {
      assert Bump(ts, t)[1..] == [];
    }
  }

  /** The count of each reading's short tag. */
  function TagCounts(t: Tables, c: Counts, rs: seq<Reading>): (x: seq<real>)
    ensures |x| == |rs|
    ensures AllNonNegative(c) ==> NonNegative(x)
  {
    assert AllNonNegative(c) ==> forall i :: 0 <= i < |rs| ==> CountOf(c, t.shortTag(rs[i].tag)) >= 0.0;
    seq(|rs|, i requires 0 <= i < |rs| => CountOf(c, t.shortTag(rs[i].tag)))
  }

  /** Counting by short tag is counting by reading. */
  lemma {:induction false} ObservedIsSum(t: Tables, c: Counts, rs: seq<Reading>)
    ensures Observed(c, ShortTags(t, rs)) == Sum(TagCounts(t, c, rs))
  {
    if rs != [] {
      var m := |rs| - 1;
      ObservedIsSum(t, c, rs[..m]);
      ObservedOneMore(c, ShortTags(t, rs[..m]), t.shortTag(rs[m].tag));
      assert TagCounts(t, c, rs)[..m] == TagCounts(t, c, rs[..m]);
    }
  }

  /** One suffix more: the probability that it gives, interpolated with the one so far. */
  function Interpolated(t: Tables, tag: string, x: real, suffix: string): real
    requires t.theta > 0.0 && suffix in t.suffixes
  {
    Div(CountOf(t.suffixes[suffix], tag) + Mul(t.theta, x), 1.0 + t.theta)
  }

  /** The probability of a tag by longer and longer suffixes, as long as they are known. */
  function Suffixed(t: Tables, tag: string, x: real, s: string, n: nat): real
    requires t.theta > 0.0 && n <= |s|
    decreases n
  {
    if n == 0 || s[n - 1..] !in t.suffixes then x else Suffixed(t, tag, Interpolated(t, tag, x, s[n - 1..]), s, n - 1)
  }

  lemma InterpolatedSign(t: Tables, tag: string, x: real, suffix: string)
    requires t.WellFormed() && x >= 0.0 && suffix in t.suffixes
    ensures Interpolated(t, tag, x, suffix) >= 0.0 && (x > 0.0 ==> Interpolated(t, tag, x, suffix) > 0.0)
  {
    ProductSign(t.theta, x);
    DivSign(CountOf(t.suffixes[suffix], tag) + Mul(t.theta, x), 1.0 + t.theta);
  }

  /** Suffixes make no probability negative, and none that is positive zero. */
  lemma {:induction false} SuffixedSign(t: Tables, tag: string, x: real, s: string, n: nat)
    requires t.WellFormed() && x >= 0.0 && n <= |s|
    ensures Suffixed(t, tag, x, s, n) >= 0.0 && (x > 0.0 ==> Suffixed(t, tag, x, s, n) > 0.0)
    decreases n
  {
    if n > 0 && s[n - 1..] in t.suffixes {
      InterpolatedSign(t, tag, x, s[n - 1..]);
      SuffixedSign(t, tag, Interpolated(t, tag, x, s[n - 1..]), s, n - 1);
    }
  }

  /** The short tags of a word, without proper nouns if asked. */
  function ClassTags(ts: seq<(string, real)>, nouns: bool): set<string> {
    set i | 0 <= i < |ts| && (nouns || ts[i].0 != "NP") :: ts[i].0
  }

  /** The counts to back off to: those of the ambiguity class, of the class without proper nouns,
      or of single tags. */
  function BackoffCounts(t: Tables, ts: seq<(string, real)>): Counts {
    var all, some := t.className(ClassTags(ts, true)), t.className(ClassTags(ts, false));
    if all in t.classes then t.classes[all]
    else if some != all && some in t.classes then t.classes[some]
    else t.single
  }

  function SuffixVector(t: Tables, form: string, rs: seq<Reading>, x: seq<real>): (y: seq<real>)
    requires t.theta > 0.0 && |x| == |rs|
    ensures |y| == |rs|
  {
    seq(|rs|, i requires 0 <= i < |rs| => Suffixed(t, rs[i].tag, x[i], form, |form|))
  }

  /** Probabilities interpolated with those by suffixes. */
  function SuffixMix(t: Tables, form: string, rs: seq<Reading>, x: seq<real>): (z: seq<real>)
    requires t.theta > 0.0 && |x| == |rs| && Sum(SuffixVector(t, form, rs, x)) != 0.0
    ensures |z| == |rs|
  {
    var y := SuffixVector(t, form, rs, x);
    Mix(t.bias, x, Shares(y, Sum(y)))
  }

  /** The probabilities of the readings of a known word. */
  ghost function SmoothedProbs(t: Tables, lcForm: string, form: string, rs: seq<Reading>): (z: seq<real>)
    requires t.WellFormed() && rs != []
    ensures |z| == |rs| && IsDistribution(z)
  {
    if |rs| == 1 then
      var one: seq<real> := [1.0];
      assert one[..0] == [];
      one
    else if lcForm in t.lexical then
      var x := TagCounts(t, t.lexical[lcForm], rs);
      SmoothedIsDistribution(x, t.lidstone);
      Smoothed(x, t.lidstone)
    else
      BackoffIsDistribution(t, form, rs);
      var x := Smoothed(TagCounts(t, BackoffCounts(t, ShortTags(t, rs)), rs), 1.0);
      SuffixMix(t, form, rs, x)
  }

  lemma BackoffCountsAreNonNegative(t: Tables, ts: seq<(string, real)>)
    requires t.WellFormed()
    ensures AllNonNegative(BackoffCounts(t, ts))
  {
  }

  lemma BackoffIsDistribution(t: Tables, form: string, rs: seq<Reading>)
    requires t.WellFormed() && rs != []
    ensures NonNegative(TagCounts(t, BackoffCounts(t, ShortTags(t, rs)), rs))
    ensures var x := Smoothed(TagCounts(t, BackoffCounts(t, ShortTags(t, rs)), rs), 1.0);
            Sum(SuffixVector(t, form, rs, x)) > 0.0 && IsDistribution(SuffixMix(t, form, rs, x))
  {
    BackoffCountsAreNonNegative(t, ShortTags(t, rs));
    var c := TagCounts(t, BackoffCounts(t, ShortTags(t, rs)), rs);
    SmoothedIsDistribution(c, 1.0);
    var x := Smoothed(c, 1.0);
    SmoothedIsPositive(c, 1.0);
    var y := SuffixVector(t, form, rs, x);
    forall i | 0 <= i < |y|
      ensures y[i] > 0.0
    {
      SuffixedSign(t, rs[i].tag, x[i], form, |form|);
    }
    SumOfNonNegative(y);
    assert y[0] > 0.0;
    SharesOfSum(y);
    MixOfDistributions(t.bias, x, Shares(y, Sum(y)));
  }

  function ShortSet(t: Tables, rs: seq<Reading>): set<string> {
    set i | 0 <= i < |rs| :: t.shortTag(rs[i].tag)
  }

  /** The reading of a guessed tag. */
  function Guess(t: Tables, form: string, k: nat): Reading
    requires t.theta > 0.0 && k < |t.unknown|
  {
    Reading(form, t.unknown[k].0, Suffixed(t, t.unknown[k].0, t.unknown[k].1, form, |form|))
  }

  /** The guess of one tag, if it is new and on the given side of the threshold. */
  function GuessAt(t: Tables, form: string, had: set<string>, k: nat, likely: bool): seq<Reading>
    requires t.theta > 0.0 && k < |t.unknown|
  {
    var g := Guess(t, form, k);
    if t.shortTag(g.tag) !in had && likely == (g.prob >= t.threshold) then [g] else []
  }

  /** The guesses among the first `k` tags that have none of some short tags, above the threshold or below it. */
  function Guesses(t: Tables, form: string, had: set<string>, k: nat, likely: bool): seq<Reading>
    requires t.theta > 0.0 && k <= |t.unknown|
  {
    if k == 0 then [] else Guesses(t, form, had, k - 1, likely) + GuessAt(t, form, had, k - 1, likely)
  }

  /** The readings with the guesses: those above the threshold, or all if there is no reading otherwise. */
  function WithGuesses(t: Tables, form: string, rs: seq<Reading>): seq<Reading>
    requires t.theta > 0.0
  {
    var more := rs + Guesses(t, form, ShortSet(t, rs), |t.unknown|, true);
    if more == [] then Guesses(t, form, ShortSet(t, rs), |t.unknown|, false) else more
  }

  lemma GuessIsNonNegative(t: Tables, form: string, k: nat)
    requires t.WellFormed() && k < |t.unknown|
    ensures Guess(t, form, k).prob >= 0.0
  {
    SuffixedSign(t, t.unknown[k].0, t.unknown[k].1, form, |form|);
  }

  lemma {:induction false} GuessesAreNonNegative(t: Tables, form: string, had: set<string>, k: nat, likely: bool)
    requires t.WellFormed() && k <= |t.unknown|
    ensures NonNegative(Probs(Guesses(t, form, had, k, likely)))
  {
    if k > 0 {
      GuessesAreNonNegative(t, form, had, k - 1, likely);
      GuessIsNonNegative(t, form, k - 1);
      var before := Guesses(t, form, had, k - 1, likely);
      NonNegativeConcat(before, [Guess(t, form, k - 1)]);
      assert before + [] == before;
    }
  }

  /** Some guess has a positive probability. */
  ghost predicate CanGuess(t: Tables, form: string, k: nat)
    requires t.theta > 0.0 && k <= |t.unknown|
  {
    exists i :: 0 <= i < k && Guess(t, form, i).prob > 0.0
  }

  /** The mass of the guesses above or below the threshold, when no reading was there. */
  function Mass(t: Tables, form: string, k: nat, likely: bool): real
    requires t.theta > 0.0 && k <= |t.unknown|
  {
    Sum(Probs(Guesses(t, form, {}, k, likely)))
  }

  lemma MassOneMore(t: Tables, form: string, k: nat, likely: bool)
    requires t.theta > 0.0 && k < |t.unknown|
    ensures var p := Guess(t, form, k).prob;
            Mass(t, form, k + 1, likely) == Mass(t, form, k, likely) + if likely == (p >= t.threshold) then p else 0.0
    ensures |Guesses(t, form, {}, k + 1, likely)| ==
            |Guesses(t, form, {}, k, likely)| + if likely == (Guess(t, form, k).prob >= t.threshold) then 1 else 0
  {
    var g := Guess(t, form, k);
    var before := Guesses(t, form, {}, k, likely);
    MassOfOne(g);
    ProbsOfConcat(before, [g]);
    assert before + [] == before;
  }

  lemma {:induction false} MassOfGuesses(t: Tables, form: string, k: nat)
    requires t.WellFormed() && k <= |t.unknown|
    ensures var a, b := Guesses(t, form, {}, k, true), Guesses(t, form, {}, k, false);
            && |a| + |b| == k
            && (CanGuess(t, form, k) <==> Mass(t, form, k, true) + Mass(t, form, k, false) > 0.0)
            && (a != [] && t.threshold > 0.0 ==> Mass(t, form, k, true) > 0.0)
            && (t.threshold <= 0.0 ==> b == [])
  {
    if k > 0 {
      MassOfGuesses(t, form, k - 1);
      GuessIsNonNegative(t, form, k - 1);
      MassOneMore(t, form, k - 1, true);
      MassOneMore(t, form, k - 1, false);
      MassesAreNonNegative(t, form, k - 1);
      CanGuessOneMore(t, form, k - 1);
    }
  }

  lemma MassesAreNonNegative(t: Tables, form: string, k: nat)
    requires t.WellFormed() && k <= |t.unknown|
    ensures Mass(t, form, k, true) >= 0.0 && Mass(t, form, k, false) >= 0.0
  {
    GuessesAreNonNegative(t, form, {}, k, true);
    GuessesAreNonNegative(t, form, {}, k, false);
    SumOfNonNegative(Probs(Guesses(t, form, {}, k, true)));
    SumOfNonNegative(Probs(Guesses(t, form, {}, k, false)));
  }

  lemma CanGuessOneMore(t: Tables, form: string, k: nat)
    requires t.theta > 0.0 && k < |t.unknown|
    ensures CanGuess(t, form, k + 1) <==> CanGuess(t, form, k) || Guess(t, form, k).prob > 0.0
  {
  }

  /** Exactly when there is a reading already, or a tag that can be guessed, there is mass to share. */
  lemma GuessedMassIsPositive(t: Tables, form: string, rs: seq<Reading>)
    requires t.WellFormed() && (rs == [] || IsDistribution(Probs(rs)))
    ensures NonNegative(Probs(WithGuesses(t, form, rs)))
    ensures Sum(Probs(WithGuesses(t, form, rs))) > 0.0 <==> rs != [] || CanGuess(t, form, |t.unknown|)
    ensures WithGuesses(t, form, rs) == [] <==> rs == [] && t.unknown == []
  {
    var had := ShortSet(t, rs);
    var a := Guesses(t, form, had, |t.unknown|, true);
    GuessesAreNonNegative(t, form, had, |t.unknown|, true);
    if rs == [] {
      assert had == {} && rs + a == a;
      MassWithoutReadings(t, form);
    } else {
      NonNegativeConcat(rs, a);
      SumOfNonNegative(Probs(a));
      ProbsOfConcat(rs, a);
    }
  }

  lemma MassWithoutReadings(t: Tables, form: string)
    requires t.WellFormed()
    ensures var g := Guesses(t, form, {}, |t.unknown|, Guesses(t, form, {}, |t.unknown|, true) != []);
            && NonNegative(Probs(g)) && (Sum(Probs(g)) > 0.0 <==> CanGuess(t, form, |t.unknown|))
            && (g == [] <==> t.unknown == [])
  {
    var n := |t.unknown|;
    MassOfGuesses(t, form, n);
    MassesAreNonNegative(t, form, n);
    GuessesAreNonNegative(t, form, {}, n, true);
    GuessesAreNonNegative(t, form, {}, n, false);
  }

  /** The mass of the readings with the guesses, as it is summed when some mass is given to the readings. */
  function GuessedMass(t: Tables, form: string, rs: seq<Reading>, mass: real): real
    requires t.theta > 0.0
  {
    var a := Guesses(t, form, ShortSet(t, rs), |t.unknown|, true);
    if rs + a == [] then Sum(Probs(WithGuesses(t, form, rs)))
    else (if rs != [] then mass else 0.0) + Sum(Probs(a))
  }

  /** What was summed is the mass of the readings and the guesses. */
  lemma GuessedMassIsSum(t: Tables, form: string, rs: seq<Reading>)
    requires t.WellFormed()
    ensures var g := WithGuesses(t, form, Evenly(rs));
            && GuessedMass(t, form, Evenly(rs), 1.0) == Sum(Probs(g))
            && (Sum(Probs(g)) > 0.0 <==> rs != [] || CanGuess(t, form, |t.unknown|))
            && NonNegative(Probs(g)) && (g == [] <==> rs == [] && t.unknown == [])
  {
    var now := Evenly(rs);
    if rs != [] {
      EvenlyIsDistribution(rs);
    }
    GuessedMassIsPositive(t, form, now);
    var a := Guesses(t, form, ShortSet(t, now), |t.unknown|, true);
    ProbsOfConcat(now, a);
    if rs == [] {
      assert now + a == a;
    }
  }

  /** A word that is guessed has readings already, or a tag to guess, or nothing at all. */
  ghost predicate MassToShare(t: Tables, known: bool, form: string, rs: seq<Reading>)
    requires t.theta > 0.0
  {
    (rs == [] || !known) && t.guess ==> rs != [] || t.unknown == [] || CanGuess(t, form, |t.unknown|)
  }

  /** The readings of a word with their probabilities. */
  ghost function Annotated(t: Tables, known: bool, form: string, lcForm: string, rs: seq<Reading>): (z: seq<Reading>)
    requires t.WellFormed() && MassToShare(t, known, lcForm, rs)
  {
    if rs != [] && known then SortReadings(WithProbs(rs, SmoothedProbs(t, lcForm, form, rs)))
    else if t.guess then
      GuessedMassIsSum(t, lcForm, rs);
      var g := WithGuesses(t, lcForm, Evenly(rs));
      if g == [] then [] else SortReadings(WithProbs(g, Shares(Probs(g), Sum(Probs(g)))))
    else SortReadings(rs)
  }

  /** Any word left with readings has a distribution of probability over them exactly when it is
      known, or guessed, or had one; and the readings are by decreasing probability. */
  lemma AnnotatedIsDistribution(t: Tables, known: bool, form: string, lcForm: string, rs: seq<Reading>)
    requires t.WellFormed() && MassToShare(t, known, lcForm, rs)
    ensures var z := Annotated(t, known, form, lcForm, rs);
            && Decreasing(z)
            && (z != [] ==> (IsDistribution(Probs(z)) <==> known || t.guess || IsDistribution(Probs(rs))))
  {
    if rs != [] && known {
      var now := WithProbs(rs, SmoothedProbs(t, lcForm, form, rs));
      SortKeeps(now);
      SortKeepsDistribution(now);
    } else if t.guess {
      GuessedMassIsSum(t, lcForm, rs);
      var g := WithGuesses(t, lcForm, Evenly(rs));
      if g != [] {
        SharesOfSum(Probs(g));
        var now := WithProbs(g, Shares(Probs(g), Sum(Probs(g))));
        SortKeeps(now);
        SortKeepsDistribution(now);
      }
    } else {
      SortKeeps(rs);
      SortKeepsDistribution(rs);
    }
  }

  /** Annotating keeps every lemma and tag, and adds readings only to words that are not known. */
  lemma AnnotatedKeepsReadings(t: Tables, known: bool, form: string, lcForm: string, rs: seq<Reading>, i: nat)
    requires t.WellFormed() && MassToShare(t, known, lcForm, rs) && i < |rs|
    ensures var z := Annotated(t, known, form, lcForm, rs);
            && HasReading(z, rs[i].lem, rs[i].tag)
            && (known || !t.guess ==> |z| == |rs|)
  {
    if known {
      SortedKeeps(WithProbs(rs, SmoothedProbs(t, lcForm, form, rs)), i);
    } else if t.guess {
      GuessedMassIsSum(t, lcForm, rs);
      var g := WithGuesses(t, lcForm, Evenly(rs));
      assert g[i] == Evenly(rs)[i];
      SortedKeeps(WithProbs(g, Shares(Probs(g), Sum(Probs(g)))), i);
    } else {
      SortedKeeps(rs, i);
    }
  }
}
