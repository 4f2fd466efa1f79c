/** Markers in a sentence, and how they nest. */
module MarkerNesting {
  import opened Splitting

  /** Words, and groups between an opening and a closing marker. */
  datatype Forest = Nil
                  | Plain(form: string, rest: Forest)
                  | Group(open: string, inside: Forest, close: string, rest: Forest)

  function Yield(f: Forest): seq<string> {
    match f
    case Nil => []
    case Plain(form, rest) => [form] + Yield(rest)
    case Group(open, inside, close, rest) => [open] + Yield(inside) + [close] + Yield(rest)
  }

  /** Whether a form closes the marker of a group; outside groups, nothing does. */
  predicate Ends(c: Config, form: string, top: int) {
    !c.allowBetweenMarkers && top != 0 && ClosesCode(c, form, top)
  }

  /** Inside a group, no plain word opens a marker or closes that of the group; closing markers of
      others are plain words. */
  predicate WellNested(c: Config, f: Forest, top: int) {
    match f
    case Nil => true
    case Plain(form, rest) => !IsOpener(c, form) && !Ends(c, form, top) && WellNested(c, rest, top)
    case Group(open, inside, close, rest) =>
      && IsOpener(c, open) && !Ends(c, open, top) && Ends(c, close, c.markers[open])
      && WellNested(c, inside, c.markers[open]) && WellNested(c, rest, top)
  }

  predicate Codes(stack: seq<int>) {
    forall i :: 0 <= i < |stack| ==> stack[i] > 0
  }

  function Top(stack: seq<int>): int {
    if stack == [] then 0 else stack[0]
  }

  /** The open markers after one form more. */
  function Step(c: Config, stack: seq<int>, form: string): seq<int> {
    if Ends(c, form, Top(stack)) then stack[1..]
    else if IsOpener(c, form) then [c.markers[form]] + stack
    else stack
  }

  function After(c: Config, stack: seq<int>, forms: seq<string>): seq<int>
    decreases |forms|
  {
    if forms == [] then stack else After(c, Step(c, stack, forms[0]), forms[1..])
  }

  lemma {:induction false} AfterConcat(c: Config, stack: seq<int>, a: seq<string>, b: seq<string>)
    ensures After(c, stack, a + b) == After(c, After(c, stack, a), b)
    decreases |a|
  {
    if a == [] {
      assert a + b == b;
    } else {
      assert (a + b)[1..] == a[1..] + b;
      AfterConcat(c, Step(c, stack, a[0]), a[1..], b);
    }
  }

  lemma AfterOne(c: Config, stack: seq<int>, form: string)
    ensures After(c, stack, [form]) == Step(c, stack, form)
  {
    assert [form][1..] == [];
  }

  /** Well nested words leave the open markers as they were. */
  lemma {:induction false} NestingKeepsStack(c: Config, f: Forest, stack: seq<int>)
    requires WellNested(c, f, Top(stack)) && Codes(stack)
    ensures After(c, stack, Yield(f)) == stack
  {
    match f
    case Nil =>
    case Plain(form, rest) =>
      NestingKeepsStack(c, rest, stack);
      assert Yield(f)[1..] == Yield(rest);
    case Group(open, inside, close, rest) =>
      var more := [c.markers[open]] + stack;
      NestingKeepsStack(c, inside, more);
      NestingKeepsStack(c, rest, stack);
      assert more[1..] == stack;
      AfterOne(c, stack, open);
      AfterOne(c, more, close);
      AfterConcat(c, stack, [open], Yield(inside));
      AfterConcat(c, stack, [open] + Yield(inside), [close]);
      AfterConcat(c, stack, [open] + Yield(inside) + [close], Yield(rest));
  }

  datatype Parsed = Failed | Ok(forest: Forest, left: seq<string>)

  /** Reads a forest up to the end of its group, or of the words. */
  function Parse(c: Config, forms: seq<string>, top: int): (r: Parsed)
    ensures r.Ok? ==> |r.left| <= |forms|
    decreases |forms|
  {
    if forms == [] || Ends(c, forms[0], top) then Ok(Nil, forms)
    else if IsOpener(c, forms[0]) then
      var inner := Parse(c, forms[1..], c.markers[forms[0]]);
      if inner.Failed? || inner.left == [] then Failed else
      var outer := Parse(c, inner.left[1..], top);
      if outer.Failed? then Failed
      else Ok(Group(forms[0], inner.forest, inner.left[0], outer.forest), outer.left)
    else
      var r := Parse(c, forms[1..], top);
      if r.Failed? then Failed else Ok(Plain(forms[0], r.forest), r.left)
  }

  /** What is read is well nested, and is the words read. */
  lemma {:induction false} ParseIsSound(c: Config, forms: seq<string>, top: int)
    requires Parse(c, forms, top).Ok?
    ensures var r := Parse(c, forms, top);
            && WellNested(c, r.forest, top) && Yield(r.forest) + r.left == forms
            && (r.left != [] ==> Ends(c, r.left[0], top))
    decreases |forms|
  {
    var r := Parse(c, forms, top);
    if forms == [] || Ends(c, forms[0], top) {
      assert Yield(Nil) + forms == forms;
    } else if IsOpener(c, forms[0]) {
      var code := c.markers[forms[0]];
      var inner := Parse(c, forms[1..], code);
      ParseIsSound(c, forms[1..], code);
      var outer := Parse(c, inner.left[1..], top);
      ParseIsSound(c, inner.left[1..], top);
      GroupYield(forms, Yield(inner.forest), inner.left, Yield(outer.forest), outer.left);
    } else {
      ParseIsSound(c, forms[1..], top);
      assert [forms[0]] + Yield(r.forest.rest) + r.left == [forms[0]] + (Yield(r.forest.rest) + r.left);
    }
  }

  lemma GroupYield(forms: seq<string>, inside: seq<string>, left: seq<string>, rest: seq<string>, end: seq<string>)
    requires forms != [] && left != [] && inside + left == forms[1..] && rest + end == left[1..]
    ensures [forms[0]] + inside + [left[0]] + rest + end == forms
  {
    assert [left[0]] + (rest + end) == left;
    assert [forms[0]] + (inside + ([left[0]] + (rest + end))) == forms;
    assert [forms[0]] + inside + [left[0]] + rest + end == [forms[0]] + (inside + ([left[0]] + (rest + end)));
  }

  /** Words that close every open marker can be read. */
  lemma {:induction false} ParseIsComplete(c: Config, forms: seq<string>, stack: seq<int>)
    requires Codes(stack) && After(c, stack, forms) == []
    ensures var r := Parse(c, forms, Top(stack));
            r.Ok? && After(c, stack, r.left) == [] && (stack == [] ==> r.left == [])
    decreases |forms|
  {
    if forms != [] && !Ends(c, forms[0], Top(stack)) {
      if IsOpener(c, forms[0]) {
        var more := [c.markers[forms[0]]] + stack;
        ParseIsComplete(c, forms[1..], more);
        var inner := Parse(c, forms[1..], c.markers[forms[0]]);
        ParseIsSound(c, forms[1..], c.markers[forms[0]]);
        assert more[1..] == stack;
        ParseIsComplete(c, inner.left[1..], stack);
      } else {
        ParseIsComplete(c, forms[1..], stack);
      }
    }
  }

  ghost predicate IsNesting(c: Config, forms: seq<string>) {
    exists f :: WellNested(c, f, 0) && Yield(f) == forms
  }

  /** Exactly the well nested words leave no marker open. */
  lemma NothingOpenIffNested(c: Config, forms: seq<string>)
    ensures After(c, [], forms) == [] <==> IsNesting(c, forms)
  {
    if After(c, [], forms) == [] {
      ParseIsComplete(c, forms, []);
      ParseIsSound(c, forms, 0);
      var r := Parse(c, forms, 0);
      assert Yield(r.forest) + r.left == Yield(r.forest);
    }
    if IsNesting(c, forms) {
      var f :| WellNested(c, f, 0) && Yield(f) == forms;
      NestingKeepsStack(c, f, []);
    }
  }

  function Forms(s: seq<Item>): (v: seq<string>)
    ensures |v| == |s|
  {
    seq(|s|, i requires 0 <= i < |s| => s[i].word.form)
  }

  lemma {:induction false} ScanIsAfter(c: Config, s: seq<Item>)
    ensures Scan(c, s).stack == After(c, [], Forms(s)) && Codes(Scan(c, s).stack)
  {
    if s != [] {
      var n := |s| - 1;
      ScanIsAfter(c, s[..n]);
      assert Forms(s) == Forms(s[..n]) + [s[n].word.form];
      AfterConcat(c, [], Forms(s[..n]), [s[n].word.form]);
      AfterOne(c, Scan(c, s[..n]).stack, s[n].word.form);
    }
  }

  /** With no limit of words, the markers of every sentence that ends by itself are well nested. */
  lemma SentenceIsNested(c: Config, s: seq<Item>)
    requires c.maxWords == 0 && IsSentence(c, s)
    ensures IsNesting(c, Forms(s))
  {
    ScanIsAfter(c, s);
    NothingOpenIffNested(c, Forms(s));
  }

  /** A sentence that ends by itself has well nested markers; what is returned otherwise was left over,
      without any end of a sentence, by a call that was flushed. */
  ghost predicate IsNestedOrLeft(c: Config, s: seq<Item>, flushed: bool) {
    (IsSentence(c, s) && IsNesting(c, Forms(s))) || (flushed && s != [] && NoBoundary(c, s))
  }

  ghost predicate AnyFlushed(calls: seq<Call>) {
    exists i :: 0 <= i < |calls| && calls[i].flush
  }

  lemma CallGivesNested(c: Config, kept: seq<Item>, call: Call)
    requires c.maxWords == 0
    ensures forall s :: s in AfterCall(c, kept, call).full ==> IsNestedOrLeft(c, s, call.flush)
  {
    var r := Run(c, kept + Items(c, call.words));
    RunSplits(c, kept + Items(c, call.words));
    forall i | 0 <= i < |r.full|
      ensures IsNestedOrLeft(c, r.full[i], call.flush)
    {
      SentenceIsNested(c, r.full[i]);
    }
  }

  /** MAIN RESULT: with no limit of words, over any sequence of calls, every sentence returned has well
      nested markers, but for words left over when a call is flushed. */
  lemma {:induction false} CallsGiveNested(c: Config, calls: seq<Call>)
    requires c.maxWords == 0
    ensures forall s :: s in AfterCalls(c, calls).full ==> IsNestedOrLeft(c, s, AnyFlushed(calls))
  {
    if calls != [] {
      var n := |calls| - 1;
      var before := AfterCalls(c, calls[..n]);
      CallsGiveNested(c, calls[..n]);
      CallGivesNested(c, before.rest, calls[n]);
      assert AnyFlushed(calls[..n]) || calls[n].flush ==> AnyFlushed(calls) by {
        if i :| 0 <= i < n && calls[..n][i].flush {
          assert calls[i].flush;
        }
      }
    }
  }
}
