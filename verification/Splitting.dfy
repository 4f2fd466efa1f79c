/** What splitting words into sentences means. */
module Splitting {
  datatype Word = Word(form: string, start: nat)

  /** A word, and whether a sentence may end there by itself and the words after it. */
  datatype Item = Item(word: Word, ends: bool)

  datatype Config = Config(allowBetweenMarkers: bool, maxWords: int, markers: map<string, int>,
                           enders: map<string, bool>, starters: set<string>, capitalized: string -> bool)

  /** The markers that are open, last first, and the words passed since the first was opened. */
  datatype Marks = Marks(stack: seq<int>, count: nat)

  /** Codes above this one belong to markers that open and close alike. */
  const SAME := 100

  /** Whether a form closes a marker. */
  predicate ClosesCode(c: Config, form: string, code: int) {
    form in c.markers && c.markers[form] == if c.markers[form] > SAME then code else -code
  }

  predicate Closes(c: Config, form: string, stack: seq<int>) {
    !c.allowBetweenMarkers && stack != [] && ClosesCode(c, form, stack[0])
  }

  predicate IsOpener(c: Config, form: string) {
    !c.allowBetweenMarkers && form in c.markers && c.markers[form] > 0
  }

  function Next(c: Config, m: Marks, form: string): Marks {
    if Closes(c, form, m.stack) then Marks(m.stack[1..], if |m.stack| == 1 then 0 else m.count + 1)
    else if IsOpener(c, form) then Marks([c.markers[form]] + m.stack, m.count + 1)
    else if m.stack != [] then Marks(m.stack, m.count + 1)
    else m
  }

  /** The markers that are open after some words. */
  function Scan(c: Config, s: seq<Item>): Marks {
    if s == [] then Marks([], 0) else Next(c, Scan(c, s[..|s| - 1]), s[|s| - 1].word.form)
  }

  /** A sentence ends at a word that may end one and is no marker, outside markers or too far inside. */
  predicate IsEnd(c: Config, m: Marks, x: Item) {
    && x.ends && !Closes(c, x.word.form, m.stack) && !IsOpener(c, x.word.form)
    && (m.stack == [] || (c.maxWords != 0 && m.count + 1 > c.maxWords))
  }

  predicate Boundary(c: Config, s: seq<Item>, p: nat)
    requires p < |s|
  {
    IsEnd(c, Scan(c, s[..p]), s[p])
  }

  predicate NoBoundary(c: Config, s: seq<Item>) {
    forall p :: 0 <= p < |s| ==> !Boundary(c, s, p)
  }

  /** A sentence ends at its last word and nowhere before. */
  predicate IsSentence(c: Config, s: seq<Item>) {
    s != [] && Boundary(c, s, |s| - 1) && NoBoundary(c, s[..|s| - 1])
  }

  function Flatten<T>(ss: seq<seq<T>>): seq<T> {
    if ss == [] then [] else Flatten(ss[..|ss| - 1]) + ss[|ss| - 1]
  }

  /** Sentences and words left over that split some words: nothing is lost, and every end is found. */
  predicate Splits(c: Config, all: seq<Item>, full: seq<seq<Item>>, rest: seq<Item>) {
    Flatten(full) + rest == all && AreSentences(c, full) && NoBoundary(c, rest)
  }

  predicate AreSentences(c: Config, full: seq<seq<Item>>) {
    forall i :: 0 <= i < |full| ==> IsSentence(c, full[i])
  }

  datatype Split = Split(full: seq<seq<Item>>, rest: seq<Item>)

  /** One word more. */
  function Add(c: Config, r: Split, x: Item): Split {
    if IsEnd(c, Scan(c, r.rest), x) then Split(r.full + [r.rest + [x]], []) else Split(r.full, r.rest + [x])
  }

  /** Splitting word by word. */
  function Run(c: Config, all: seq<Item>): Split {
    if all == [] then Split([], []) else Add(c, Run(c, all[..|all| - 1]), all[|all| - 1])
  }

  lemma NoBoundaryOneMore(c: Config, s: seq<Item>, x: Item)
    requires NoBoundary(c, s)
    ensures NoBoundary(c, s + [x]) <==> !IsEnd(c, Scan(c, s), x)
    ensures IsSentence(c, s + [x]) <==> IsEnd(c, Scan(c, s), x)
  {
    var t := s + [x];
    assert t[..|s|] == s;
    forall p | 0 <= p < |s|
      ensures Boundary(c, t, p) == Boundary(c, s, p)
    {
      assert t[..p] == s[..p];
    }
    assert Boundary(c, t, |s|) == IsEnd(c, Scan(c, s), x);
  }

  lemma FlattenOneMore<T>(ss: seq<seq<T>>, s: seq<T>)
    ensures Flatten(ss + [s]) == Flatten(ss) + s
  {
    assert (ss + [s])[..|ss|] == ss;
  }

  lemma Regroup(a: seq<Item>, b: seq<Item>, d: seq<Item>)
    ensures a + b + d == a + (b + d) == a + (b + d) + []
  {
  }

  lemma WordEndsSentence(c: Config, all: seq<Item>, full: seq<seq<Item>>, rest: seq<Item>, x: Item)
    requires Splits(c, all, full, rest) && IsEnd(c, Scan(c, rest), x)
    ensures Splits(c, all + [x], full + [rest + [x]], [])
  {
    NoBoundaryOneMore(c, rest, x);
    FlattenOneMore(full, rest + [x]);
    Regroup(Flatten(full), rest, [x]);
  }

  lemma WordIsKept(c: Config, all: seq<Item>, full: seq<seq<Item>>, rest: seq<Item>, x: Item)
    requires Splits(c, all, full, rest) && !IsEnd(c, Scan(c, rest), x)
    ensures Splits(c, all + [x], full, rest + [x])
  {
    NoBoundaryOneMore(c, rest, x);
    Regroup(Flatten(full), rest, [x]);
  }

  /** Splitting word by word loses nothing and finds every end. */
  lemma {:induction false} RunSplits(c: Config, all: seq<Item>)
    ensures Splits(c, all, Run(c, all).full, Run(c, all).rest)
  {
    if all != [] {
      var r, x := Run(c, all[..|all| - 1]), all[|all| - 1];
      RunSplits(c, all[..|all| - 1]);
      assert all == all[..|all| - 1] + [x];
      if IsEnd(c, Scan(c, r.rest), x) {
        WordEndsSentence(c, all[..|all| - 1], r.full, r.rest, x);
      } else {
        WordIsKept(c, all[..|all| - 1], r.full, r.rest, x);
      }
    }
  }

  lemma NoBoundaryFirst(c: Config, s: seq<Item>)
    requires s != [] && NoBoundary(c, s)
    ensures NoBoundary(c, s[..|s| - 1])
  {
    var t := s[..|s| - 1];
    forall p | 0 <= p < |t|
      ensures !Boundary(c, t, p)
    {
      assert t[..p] == s[..p];
      assert !Boundary(c, s, p);
    }
  }

  /** Without its last word, a splitting with words left over is one still. */
  lemma WithoutLastKept(c: Config, all: seq<Item>, full: seq<seq<Item>>, rest: seq<Item>)
    requires Splits(c, all, full, rest) && rest != []
    ensures all != [] && all[|all| - 1] == rest[|rest| - 1]
    ensures Splits(c, all[..|all| - 1], full, rest[..|rest| - 1])
    ensures Add(c, Split(full, rest[..|rest| - 1]), all[|all| - 1]) == Split(full, rest)
  {
    var t, x := rest[..|rest| - 1], rest[|rest| - 1];
    assert all[..|all| - 1] == Flatten(full) + t;
    assert rest == t + [x];
    NoBoundaryFirst(c, rest);
    NoBoundaryOneMore(c, t, x);
  }

  /** Without its last word, a splitting with nothing left over has part of a sentence left over. */
  lemma WithoutLastEnd(c: Config, all: seq<Item>, full: seq<seq<Item>>)
    requires Splits(c, all, full, []) && full != []
    ensures var s := full[|full| - 1];
            && s != [] && all != [] && Splits(c, all[..|all| - 1], full[..|full| - 1], s[..|s| - 1])
            && Add(c, Split(full[..|full| - 1], s[..|s| - 1]), all[|all| - 1]) == Split(full, [])
  {
    var front, s := full[..|full| - 1], full[|full| - 1];
    assert full == front + [s];
    FlattenOneMore(front, s);
    var t, x := s[..|s| - 1], s[|s| - 1];
    assert s == t + [x];
    assert all[..|all| - 1] == Flatten(front) + t;
    NoBoundaryOneMore(c, t, x);
  }

  /** There is only one such splitting. */
  lemma {:induction false} SplittingIsUnique(c: Config, all: seq<Item>, full: seq<seq<Item>>, rest: seq<Item>)
    requires Splits(c, all, full, rest)
    ensures Run(c, all) == Split(full, rest)
    decreases |all|
  {
    if rest != [] {
      WithoutLastKept(c, all, full, rest);
      SplittingIsUnique(c, all[..|all| - 1], full, rest[..|rest| - 1]);
    } else if full != [] {
      WithoutLastEnd(c, all, full);
      var s := full[|full| - 1];
      SplittingIsUnique(c, all[..|all| - 1], full[..|full| - 1], s[..|s| - 1]);
    }
  }

  lemma RunOfRest(c: Config, rest: seq<Item>)
    requires NoBoundary(c, rest)
    ensures Run(c, rest) == Split([], rest)
  {
    assert Flatten<Item>([]) + rest == rest;
    SplittingIsUnique(c, rest, [], rest);
  }

  /** Splitting in two calls, with the words left over carried along, is splitting in one. */
  lemma {:induction false} RunInTwo(c: Config, a: seq<Item>, b: seq<Item>)
    ensures var r := Run(c, a);
            var r' := Run(c, r.rest + b);
            Run(c, a + b) == Split(r.full + r'.full, r'.rest)
  {
    var r := Run(c, a);
    if b == [] {
      RunSplits(c, a);
      RunOfRest(c, r.rest);
      assert a + b == a && r.rest + b == r.rest && r.full + [] == r.full;
    } else {
      var n := |b| - 1;
      RunInTwo(c, a, b[..n]);
      RunOneMore(c, a, b);
      RunOneMore(c, r.rest, b);
      AddAfter(c, r.full, Run(c, r.rest + b[..n]), b[n]);
    }
  }

  lemma RunOneMore(c: Config, a: seq<Item>, b: seq<Item>)
    requires b != []
    ensures Run(c, a + b) == Add(c, Run(c, a + b[..|b| - 1]), b[|b| - 1])
  {
    assert (a + b)[..|a + b| - 1] == a + b[..|b| - 1];
  }

  lemma AddAfter(c: Config, full: seq<seq<Item>>, r: Split, x: Item)
    ensures Add(c, Split(full + r.full, r.rest), x) == Split(full + Add(c, r, x).full, Add(c, r, x).rest)
  {
  }

  /** When sentences may end between markers, none is ever open. */
  lemma {:induction false} NoMarksWhenAllowed(c: Config, s: seq<Item>)
    requires c.allowBetweenMarkers
    ensures Scan(c, s) == Marks([], 0)
  {
    if s != [] {
      NoMarksWhenAllowed(c, s[..|s| - 1]);
    }
  }

  /** Whether a word may end a sentence, by the next word of the list. */
  predicate EndsAt(c: Config, v: seq<Word>, i: nat)
    requires i < |v|
  {
    && v[i].form in c.enders
    && (c.enders[v[i].form] || i == |v| - 1 || c.capitalized(v[i + 1].form) || v[i + 1].form in c.starters)
  }

  /** The words of a list, with whether each may end a sentence. */
  function Items(c: Config, v: seq<Word>): (s: seq<Item>)
    ensures |s| == |v|
  {
    seq(|v|, i requires 0 <= i < |v| => Item(v[i], EndsAt(c, v, i)))
  }

  function WordsOf(s: seq<Item>): (v: seq<Word>)
    ensures |v| == |s|
  {
    seq(|s|, i requires 0 <= i < |s| => s[i].word)
  }

  function Sentences(ss: seq<seq<Item>>): (vs: seq<seq<Word>>)
    ensures |vs| == |ss|
  {
    seq(|ss|, i requires 0 <= i < |ss| => WordsOf(ss[i]))
  }

  /** The words of a call. */
  datatype Call = Call(words: seq<Word>, flush: bool)

  /** What a call returns, and the words that it keeps. */
  function AfterCall(c: Config, kept: seq<Item>, call: Call): Split {
    var r := Run(c, kept + Items(c, call.words));
    if call.flush && r.rest != [] then Split(r.full + [r.rest], []) else r
  }

  /** What a sequence of calls returns, and the words that are kept at the end. */
  function AfterCalls(c: Config, calls: seq<Call>): Split {
    if calls == [] then Split([], []) else
    var before := AfterCalls(c, calls[..|calls| - 1]);
    var now := AfterCall(c, before.rest, calls[|calls| - 1]);
    Split(before.full + now.full, now.rest)
  }

  function AllWords(calls: seq<Call>): seq<Word> {
    if calls == [] then [] else AllWords(calls[..|calls| - 1]) + calls[|calls| - 1].words
  }

  lemma WordsOfConcat(a: seq<Item>, b: seq<Item>)
    ensures WordsOf(a + b) == WordsOf(a) + WordsOf(b)
  {
  }

  lemma {:induction false} FlattenConcat(a: seq<seq<Item>>, b: seq<seq<Item>>)
    ensures Flatten(a + b) == Flatten(a) + Flatten(b)
  {
    if b == [] {
      assert a + b == a;
    } else {
      assert (a + b)[..|a + b| - 1] == a + b[..|b| - 1];
      FlattenConcat(a, b[..|b| - 1]);
    }
  }

  lemma {:induction false} FlattenSentences(ss: seq<seq<Item>>)
    ensures Flatten(Sentences(ss)) == WordsOf(Flatten(ss))
  {
    if ss != [] {
      var n := |ss| - 1;
      FlattenSentences(ss[..n]);
      assert Sentences(ss)[..n] == Sentences(ss[..n]);
      WordsOfConcat(Flatten(ss[..n]), ss[n]);
    }
  }

  lemma AfterCallKeepsItems(c: Config, kept: seq<Item>, call: Call)
    ensures var r := AfterCall(c, kept, call);
            Flatten(r.full) + r.rest == kept + Items(c, call.words)
  {
    var r := Run(c, kept + Items(c, call.words));
    RunSplits(c, kept + Items(c, call.words));
    assert (r.full + [r.rest])[..|r.full|] == r.full;
  }

  /** Over any calls, the sentences returned and the words kept are all the words, in order. */
  lemma {:induction false} CallsKeepWords(c: Config, calls: seq<Call>)
    ensures var r := AfterCalls(c, calls);
            Flatten(Sentences(r.full)) + WordsOf(r.rest) == AllWords(calls)
  {
    var r := AfterCalls(c, calls);
    FlattenSentences(r.full);
    if calls != [] {
      var n := |calls| - 1;
      CallsKeepWords(c, calls[..n]);
      var before := AfterCalls(c, calls[..n]);
      FlattenSentences(before.full);
      var now := AfterCall(c, before.rest, calls[n]);
      AfterCallKeepsItems(c, before.rest, calls[n]);
      FlattenConcat(before.full, now.full);
      CallWords(c, Flatten(before.full), Flatten(now.full), now.rest, before.rest, calls[n].words);
    }
  }

  lemma CallWords(c: Config, a: seq<Item>, b: seq<Item>, rest: seq<Item>, kept: seq<Item>, v: seq<Word>)
    requires b + rest == kept + Items(c, v)
    ensures WordsOf(a + b) + WordsOf(rest) == WordsOf(a) + WordsOf(kept) + v
  {
    WordsOfConcat(a, b);
    WordsOfConcat(b, rest);
    WordsOfConcat(kept, Items(c, v));
    assert WordsOf(Items(c, v)) == v;
    assert WordsOf(a) + WordsOf(b) + WordsOf(rest) == WordsOf(a) + (WordsOf(b) + WordsOf(rest));
    assert WordsOf(a) + WordsOf(kept) + v == WordsOf(a) + (WordsOf(kept) + v);
  }
}
