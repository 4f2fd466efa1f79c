/** Assigning probabilities to the readings of a word, in place. */
module Assigners {
  import opened Distributions
  import opened Probabilities
  import opened Readings
  import opened SuffixWeights
  import opened Vectors

  /** A word and its readings. */
  class Word {
    const form: string
    const lcForm: string
    /** Whether the word is in the dictionary, a number, punctuation, or has readings of several words. */
    const known: bool
    var readings: seq<Reading>

    constructor (f: string, lc: string, k: bool, rs: seq<Reading>)
      ensures form == f && lcForm == lc && known == k && readings == rs
    {
      form, lcForm, known, readings := f, lc, k, rs;
    }

    /** Adds a reading after the others. */
    method AddReading(r: Reading)
      modifies this
      ensures readings == old(readings) + [r]
    {
      readings := readings + [r];
    }

    /** Replaces the readings. */
    method SetReadings(rs: seq<Reading>)
      modifies this
      ensures readings == rs
    {
      readings := rs;
    }

    /** Sets the probability of a reading. */
    method SetProb(i: nat, p: real)
      requires i < |readings|
      modifies this
      ensures readings == old(readings)[i := old(readings)[i].(prob := p)]
    {
      readings := readings[i := readings[i].(prob := p)];
    }
  }

  lemma SmoothedAt(t: Tables, c: Counts, rs: seq<Reading>, a: real, i: nat)
    requires AllNonNegative(c) && a > 0.0 && i < |rs|
    ensures var x := TagCounts(t, c, rs);
            Sum(x) + Mul(a, |rs| as real) > 0.0
            && Smoothed(x, a)[i] == Div(CountOf(c, t.shortTag(rs[i].tag)) + a, Sum(x) + Mul(a, |rs| as real))
  {
    SmoothedIsDistribution(TagCounts(t, c, rs), a);
  }

  lemma SuffixMixAt(t: Tables, form: string, rs: seq<Reading>, x: seq<real>, i: nat)
    requires t.theta > 0.0 && i < |x| == |rs| && Sum(SuffixVector(t, form, rs, x)) != 0.0
    ensures var y := SuffixVector(t, form, rs, x);
            SuffixMix(t, form, rs, x)[i] == Mul(1.0 - t.bias, x[i]) + Mul(t.bias, Div(y[i], Sum(y)))
  {
  }

  /** Some readings, with the guesses among the first `k` tags after them, and the mass of these. */
  ghost predicate GuessedUpTo(t: Tables, form: string, had: set<string>, k: nat, likely: bool,
                              rs: seq<Reading>, now: seq<Reading>, sum: real)
    requires t.theta > 0.0
  {
    && k <= |t.unknown| && now == rs + Guesses(t, form, had, k, likely)
    && sum == Sum(Probs(Guesses(t, form, had, k, likely)))
  }

  lemma GuessedOneMore(t: Tables, form: string, had: set<string>, k: nat, likely: bool,
                       rs: seq<Reading>, now: seq<Reading>, sum: real)
    requires t.theta > 0.0 && k < |t.unknown| && GuessedUpTo(t, form, had, k, likely, rs, now, sum)
    ensures var g := GuessAt(t, form, had, k, likely);
            GuessedUpTo(t, form, had, k + 1, likely, rs, now + g, sum + Sum(Probs(g)))
  {
    Joined(rs, Guesses(t, form, had, k, likely), GuessAt(t, form, had, k, likely));
  }

  lemma Joined(rs: seq<Reading>, before: seq<Reading>, g: seq<Reading>)
    ensures rs + before + g == rs + (before + g)
    ensures Sum(Probs(before)) + Sum(Probs(g)) == Sum(Probs(before + g))
  {
    ProbsOfConcat(before, g);
  }

  lemma GuessedNone(t: Tables, form: string, had: set<string>, likely: bool, rs: seq<Reading>)
    requires t.theta > 0.0
    ensures GuessedUpTo(t, form, had, 0, likely, rs, rs, 0.0)
  {
    assert rs + [] == rs;
  }

  lemma SameSuffixVector(t: Tables, form: string, rs: seq<Reading>, now: seq<Reading>, x: seq<real>)
    requires t.theta > 0.0 && |x| == |rs| && now == WithProbs(rs, x)
    ensures SuffixVector(t, form, now, x) == SuffixVector(t, form, rs, x)
    ensures forall z :: |z| == |rs| ==> WithProbs(now, z) == WithProbs(rs, z)
  {
  }

  class Assigner {
    const t: Tables

    constructor (tables: Tables)
      ensures t == tables
    {
      t := tables;
    }

    /** The probability of a tag, by the suffixes of a form. */
    method ComputeProbability(tag: string, prob: real, s: string) returns (x: real)
      requires t.WellFormed()
      ensures x == Suffixed(t, tag, prob, s, |s|)
      ensures forall k {:trigger KnownRun(t, s, |s|, k)} :: KnownRun(t, s, |s|, k) ==>
        x == Weighted(OwnWeight(t.theta), PriorWeight(t.theta), prob, SuffixCounts(t, tag, s, |s|, k))
      ensures prob >= 0.0 ==> x >= 0.0
    {
      forall k | KnownRun(t, s, |s|, k)
      {
        SuffixedIsWeighted(t, tag, prob, s, |s|, k);
      }
      x := prob;
      var spos, found := |s|, true;
      if prob >= 0.0 {
        SuffixedSign(t, tag, prob, s, |s|);
      }
      while spos > 0 && found
        invariant 0 <= spos <= |s|
        invariant Suffixed(t, tag, prob, s, |s|) == if found then Suffixed(t, tag, x, s, spos) else x
        decreases spos
      {
        spos := spos - 1;
        found := s[spos..] in t.suffixes;
        if found {
          x := Interpolated(t, tag, x, s[spos..]);
        }
      }
    }

    /** Counts the short tags of a word. */
    method CountTags(w: Word) returns (ts: seq<(string, real)>)
      ensures ts == ShortTags(t, w.readings)
    {
      ts := [];
      for i := 0 to |w.readings|
        invariant ts == ShortTags(t, w.readings[..i])
      {
        assert w.readings[..i + 1][..i] == w.readings[..i];
        ts := Bump(ts, t.shortTag(w.readings[i].tag));
      }
      assert w.readings[..|w.readings|] == w.readings;
    }

    /** The total number of observations of the tags of a word. */
    method TotalObserved(c: Counts, ts: seq<(string, real)>) returns (sum: real)
      ensures sum == Observed(c, ts)
    {
      sum := 0.0;
      for i := 0 to |ts|
        invariant sum + Observed(c, ts[i..]) == Observed(c, ts)
      {
        assert ts[i..][1..] == ts[i + 1..];
        sum := sum + Mul(CountOf(c, ts[i].0), ts[i].1);
      }
      assert ts[|ts|..] == [];
    }

    /** Smooths counts: adds a constant to each, and divides by the total. */
    method SetSmoothed(w: Word, c: Counts, a: real, sum: real)
      requires w.readings != [] && AllNonNegative(c) && a > 0.0 && sum == Sum(TagCounts(t, c, w.readings))
      modifies w
      ensures w.readings == WithProbs(old(w.readings), Smoothed(TagCounts(t, c, old(w.readings)), a))
    {
      ghost var rs := w.readings;
      ghost var z := Smoothed(TagCounts(t, c, rs), a);
      var norm := sum + Mul(a, |w.readings| as real);
      for i := 0 to |w.readings|
        invariant |w.readings| == |rs| && SetUpTo(rs, z, i, w.readings)
      {
        SmoothedAt(t, c, rs, a, i);
        OneMoreSet(rs, z, i, w.readings);
        w.SetProb(i, Div(CountOf(c, t.shortTag(w.readings[i].tag)) + a, norm));
      }
      AllSet(rs, z, w.readings);
    }

    /** The probabilities of the readings by suffixes, and their sum. */
    method SuffixProbs(w: Word) returns (p: array<real>, norm: real)
      requires t.WellFormed()
      ensures fresh(p) && p[..] == SuffixVector(t, w.form, w.readings, Probs(w.readings)) && norm == Sum(p[..])
    {
      ghost var y := SuffixVector(t, w.form, w.readings, Probs(w.readings));
      norm := 0.0;
      p := new real[|w.readings|];
      for i := 0 to |w.readings|
        invariant p[..i] == y[..i] && norm == Sum(y[..i])
      {
        p[i] := ComputeProbability(w.readings[i].tag, w.readings[i].prob, w.form);
        norm := norm + p[i];
        SumOneMore(y, i);
        assert p[..i + 1] == y[..i + 1];
      }
      assert p[..] == p[..p.Length] && y[..p.Length] == y;
    }

    /** Mixes the probabilities with those by suffixes. */
    method MixSuffixes(w: Word)
      requires t.WellFormed() && Sum(SuffixVector(t, w.form, w.readings, Probs(w.readings))) != 0.0
      modifies w
      ensures w.readings == WithProbs(old(w.readings), SuffixMix(t, w.form, old(w.readings), Probs(old(w.readings))))
    {
      ghost var rs := w.readings;
      var p, norm := SuffixProbs(w);
      ghost var z := SuffixMix(t, w.form, rs, Probs(rs));
      for i := 0 to |w.readings|
        invariant |w.readings| == |rs| == p.Length && SetUpTo(rs, z, i, w.readings)
        invariant p[..] == SuffixVector(t, w.form, rs, Probs(rs))
      {
        SuffixMixAt(t, w.form, rs, Probs(rs), i);
        OneMoreSet(rs, z, i, w.readings);
        assert p[..][i] == p[i];
        w.SetProb(i, Mul(1.0 - t.bias, w.readings[i].prob) + Mul(t.bias, Div(p[i], norm)));
      }
      AllSet(rs, z, w.readings);
    }

    /** Smooths the probabilities of the readings of a known word. */
    method Smoothing(w: Word)
      requires t.WellFormed() && w.readings != []
      modifies w
      ensures w.readings == WithProbs(old(w.readings), SmoothedProbs(t, w.lcForm, w.form, old(w.readings)))
    {
      ghost var rs := w.readings;
      if |w.readings| == 1 {
        w.SetProb(0, 1.0);
        return;
      }
      var ts := CountTags(w);
      if w.lcForm in t.lexical {
        var c := t.lexical[w.lcForm];
        var sum := TotalObserved(c, ts);
        ObservedIsSum(t, c, rs);
        SetSmoothed(w, c, t.lidstone, sum);
      } else {
        var c := BackoffCounts(t, ts);
        BackoffCountsAreNonNegative(t, ts);
        var sum := TotalObserved(c, ts);
        ObservedIsSum(t, c, rs);
        SetSmoothed(w, c, 1.0, sum);
        BackoffIsDistribution(t, w.form, rs);
        SameSuffixVector(t, w.form, rs, w.readings, Probs(w.readings));
        MixSuffixes(w);
      }
    }

    /** Guesses one tag: a likely guess is added to the word, an unlikely one to a list. */
    method GuessTag(w: Word, had: set<string>, k: nat, la: seq<Reading>) returns (next: seq<Reading>, more: real, less: real)
      requires t.WellFormed() && k < |t.unknown|
      modifies w
      ensures w.readings == old(w.readings) + GuessAt(t, w.lcForm, had, k, true)
      ensures next == la + GuessAt(t, w.lcForm, had, k, false)
      ensures more == Sum(Probs(GuessAt(t, w.lcForm, had, k, true)))
      ensures less == Sum(Probs(GuessAt(t, w.lcForm, had, k, false)))
    {
      next, more, less := la, 0.0, 0.0;
      MassOfOne(Guess(t, w.lcForm, k));
      var tag := t.unknown[k].0;
      if t.shortTag(tag) !in had {
        var p := ComputeProbability(tag, t.unknown[k].1, w.lcForm);
        if p >= t.threshold {
          more := p;
          w.AddReading(Reading(w.lcForm, tag, p));
        } else {
          less := p;
          next := la + [Reading(w.lcForm, tag, p)];
        }
      }
    }

    /** Guesses one tag more. */
    method GuessNext(w: Word, had: set<string>, k: nat, la: seq<Reading>, sum: real, sum2: real, ghost rs: seq<Reading>)
      returns (next: seq<Reading>, more: real, less: real)
      requires t.WellFormed() && k < |t.unknown|
      requires GuessedUpTo(t, w.lcForm, had, k, true, rs, w.readings, sum)
      requires GuessedUpTo(t, w.lcForm, had, k, false, [], la, sum2)
      modifies w
      ensures GuessedUpTo(t, w.lcForm, had, k + 1, true, rs, w.readings, more)
      ensures GuessedUpTo(t, w.lcForm, had, k + 1, false, [], next, less)
    {
      GuessedOneMore(t, w.lcForm, had, k, true, rs, w.readings, sum);
      GuessedOneMore(t, w.lcForm, had, k, false, [], la, sum2);
      next, more, less := GuessTag(w, had, k, la);
      more, less := sum + more, sum2 + less;
    }

    /** Adds the likely guesses to a word, and gives the unlikely ones, and the mass of each. */
    method GuessTags(w: Word, had: set<string>) returns (la: seq<Reading>, sum: real, sum2: real)
      requires t.WellFormed()
      modifies w
      ensures GuessedUpTo(t, w.lcForm, had, |t.unknown|, true, old(w.readings), w.readings, sum)
      ensures GuessedUpTo(t, w.lcForm, had, |t.unknown|, false, [], la, sum2)
    {
      ghost var rs := w.readings;
      la, sum, sum2 := [], 0.0, 0.0;
      GuessedNone(t, w.lcForm, had, true, rs);
      GuessedNone(t, w.lcForm, had, false, []);
      for k := 0 to |t.unknown|
        invariant GuessedUpTo(t, w.lcForm, had, k, true, rs, w.readings, sum)
        invariant GuessedUpTo(t, w.lcForm, had, k, false, [], la, sum2)
      {
        la, sum, sum2 := GuessNext(w, had, k, la, sum, sum2, rs);
      }
    }

    /** Guesses readings for a word, and gives their mass with that of the readings it had. */
    method Guesser(w: Word, mass: real) returns (sum: real)
      requires t.WellFormed()
      modifies w
      ensures w.readings == WithGuesses(t, w.lcForm, old(w.readings))
      ensures sum == GuessedMass(t, w.lcForm, old(w.readings), mass)
    {
      sum := if w.readings != [] then mass else 0.0;
      var la, more, less := GuessTags(w, ShortSet(t, w.readings));
      sum := sum + more;
      if w.readings == [] {
        w.SetReadings(la);
        sum := less;
      }
    }

    /** Divides every probability by the same number. */
    method DivideProbs(w: Word, sum: real)
      requires w.readings == [] || sum != 0.0
      modifies w
      ensures w.readings == if old(w.readings) == [] then [] else WithProbs(old(w.readings), Shares(Probs(old(w.readings)), sum))
    {
      ghost var rs := w.readings;
      if w.readings == [] {
        return;
      }
      ghost var z := Shares(Probs(rs), sum);
      for i := 0 to |w.readings|
        invariant |w.readings| == |rs| && SetUpTo(rs, z, i, w.readings)
      {
        OneMoreSet(rs, z, i, w.readings);
        w.SetProb(i, Div(w.readings[i].prob, sum));
      }
      AllSet(rs, z, w.readings);
    }

    /** Gives every reading an equal part of a mass. */
    method Spread(w: Word, mass: real)
      modifies w
      ensures w.readings == WithProbs(old(w.readings), Uniform(|old(w.readings)|, mass))
    {
      ghost var rs := w.readings;
      ghost var z := Uniform(|rs|, mass);
      for i := 0 to |w.readings|
        invariant |w.readings| == |rs| && SetUpTo(rs, z, i, w.readings)
      {
        OneMoreSet(rs, z, i, w.readings);
        w.SetProb(i, Div(mass, |w.readings| as real));
      }
      AllSet(rs, z, w.readings);
    }

    /** Assigns probabilities to the readings of a word, known or not. */
    method AnnotateWord(w: Word)
      requires t.WellFormed() && MassToShare(t, w.known, w.lcForm, w.readings)
      modifies w
      ensures w.readings == Annotated(t, w.known, w.form, w.lcForm, old(w.readings))
    {
      ghost var rs := w.readings;
      if w.readings != [] && w.known {
        Smoothing(w);
      } else if t.guess {
        Spread(w, 1.0);
        GuessedMassIsSum(t, w.lcForm, rs);
        var sum := Guesser(w, 1.0);
        DivideProbs(w, sum);
      }
      w.SetReadings(SortReadings(w.readings));
    }
  }
}
