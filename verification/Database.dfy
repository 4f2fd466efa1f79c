/** Databases from strings to strings, kept in a map or in a prefix tree. */
module Databases {
  import opened PrefTrees
  import opened PrefixIndex

  /** A word has a record for each of its prefixes, and a list for all but itself. */
  lemma PrefixesHaveRecords(m: Net, word: string, i: nat)
    requires Valid(m) && i <= |word|
    ensures RecAt(m, word) != null && i < |word| ==> word[..i] in m.paths
    ensures RecAt(m, word) != null && 0 < i ==> RecAt(m, word[..i]) != null
  {
    if RecAt(m, word) != null {
      if i < |word| {
        PrefixesHaveLists(m, word[..|word| - 1], i);
        assert word[..|word| - 1][..i] == word[..i];
        assert PathOk(m, word[..i]);
      } else {
        assert word[..i] == word;
      }
    }
  }

  function Joined(before: Entry, data: string): string {
    match before
    case Word(Some(v)) => v + " " + data
    case _ => data
  }

  /** Makes the lists for a prefix, from the root. */
  method MakePrefix(ghost m: Net, root: List, p: string) returns (l: List, ghost w: Net)
    requires Valid(m) && Holds(m) && m.paths[""] == root
    modifies m.lists.Keys, m.recs.Keys
    ensures Valid(w) && Holds(w) && Grown(m, w) && SameEntries(m, w) && p in w.paths && w.paths[p] == l && l in w.lists
    ensures fresh(w.lists.Keys - m.lists.Keys) && fresh(w.recs.Keys - m.recs.Keys)
  {
    l, w := root, m;
    assert PathOk(m, "") && p[..0] == "";
    for i := 0 to |p|
      invariant Valid(w) && Holds(w) && Grown(m, w) && SameEntries(m, w)
      invariant fresh(w.lists.Keys - m.lists.Keys) && fresh(w.recs.Keys - m.recs.Keys)
      invariant p[..i] in w.paths && w.paths[p[..i]] == l && l in w.lists
    {
      ghost var before := w;
      l, w := PushInner(w, p[..i], l, p[i]);
      assert p[..i + 1] == p[..i] + [p[i]];
      assert PathOk(w, p[..i + 1]);
      EntriesStay(m, before, w);
    }
    assert p[..|p|] == p;
  }

  /** The record that continues a prefix by a character, if there is one, and the list below it. */
  method FindNext(ghost m: Net, ghost p: string, l: List, c: char) returns (r: Rec?, n: List?)
    requires Valid(m) && Holds(m) && p in m.paths && m.paths[p] == l
    ensures r == RecAt(m, p + [c])
    ensures r != null ==> n == if p + [c] in m.paths then m.paths[p + [c]] else null
  {
    assert PathOk(m, p) && ListHolds(m, l);
    r := Find(l, c);
    FoundIsRecAt(m, p, c);
    n := null;
    if r != null {
      SubIsPath(m, p + [c]);
      assert RecInfoOf(r) == m.recs[r];
      n := r.nextList;
    }
  }

  /** Follows a word from the root. */
  method Follow(ghost m: Net, root: List, word: string) returns (r: Rec?)
    requires Valid(m) && Holds(m) && m.paths[""] == root
    ensures r == RecAt(m, word)
  {
    var n: List? := root;
    r := null;
    var i := 0;
    assert word[..0] == "";
    while i < |word| && n != null
      invariant i <= |word| && n == if word[..i] in m.paths then m.paths[word[..i]] else null
      invariant r == RecAt(m, word[..i]) && (if i > 0 then r != null else n != null)
    {
      assert word[..i + 1] == word[..i] + [word[i]];
      PrefixesHaveRecords(m, word, i + 1);
      r, n := FindNext(m, word[..i], n, word[i]);
      if r == null {
        return;
      }
      i := i + 1;
    }
    if i < |word| {
      PrefixesHaveRecords(m, word, i);
      r := null;
    } else {
      assert word[..i] == word;
    }
  }

  class PrefTree {
    const root: List
    ghost var net: Net

    constructor ()
      ensures Ok() && fresh(root) && net == Net(map["" := root], map[root := []], map[])
    {
      root := new List("");
      net := Net(map["" := root], map[root := []], map[]);
    }

    ghost predicate Ok()
      reads this, net.lists.Keys, net.recs.Keys
    {
      Valid(net) && Holds(net) && net.paths[""] == root
    }

    /** Follows a word from the root. */
    method FindWord(word: string) returns (r: Rec?)
      requires Ok()
      ensures r == RecAt(net, word)
    {
      r := Follow(net, root, word);
    }

    /** The record of a word, if it has ever been one. */
    method FindData(word: string) returns (r: Rec?)
      requires Ok()
      ensures r == if EntryAt(net, word).Word? then RecAt(net, word) else null
    {
      r := FindWord(word);
      if r != null {
        SubIsPath(net, word);
        if !r.isData {
          r := null;
        }
      }
    }

    /** Makes the records of a word that has not been one. */
    method MakeWord(word: string) returns (r: Rec)
      requires Ok() && word != "" && EntryAt(net, word) == NoWord
      modifies this, net.lists.Keys, net.recs.Keys
      ensures Ok() && Grown(old(net), net) && fresh(net.lists.Keys - old(net).lists.Keys) && fresh(net.recs.Keys - old(net).recs.Keys)
      ensures RecAt(net, word) == r && r.isData && r in net.recs && EntrySet(old(net), net, word, Word(None))
    {
      ghost var m := net;
      ghost var p := word[..|word| - 1];
      var l;
      ghost var w;
      l, w := MakePrefix(m, root, word[..|word| - 1]);
      assert word == p + [word[|word| - 1]];
      assert EntryAt(w, word) == EntryAt(m, word);
      r, net := PushEnd(w, p, l, word[|word| - 1]);
      EntrySetAfter(m, w, net, word, Word(None));
    }

    /** Adds a string to those of a word, which may be a new one. `lr` is the record that has been
        found for the word. */
    method AddWord(word: string, lr: Rec?, data: string)
      requires Ok() && word != "" && lr == if EntryAt(net, word).Word? then RecAt(net, word) else null
      modifies this, net.lists.Keys, net.recs.Keys
      ensures Ok() && Grown(old(net), net) && fresh(net.lists.Keys - old(net).lists.Keys) && fresh(net.recs.Keys - old(net).recs.Keys)
      ensures EntrySet(old(net), net, word, Word(Some(Joined(EntryAt(old(net), word), data))))
    {
      ghost var m := net;
      var r: Rec;
      if lr == null {
        r := MakeWord(word);
      } else {
        SubIsPath(net, word);
        r := lr;
      }
      assert RecInfoOf(r) == net.recs[r];
      assert EntryAt(net, word) == Word(r.value);
      var joined := if r.value.Some? then r.value.value + " " + data else data;
      ghost var w := net;
      SetEntry(word, r, Some(joined));
      EntrySetTwice(m, w, net, word, Word(Some(joined)));
    }

    /** Stores a value in the record of a word. */
    method SetEntry(ghost word: string, r: Rec, v: Option<string>)
      requires Ok() && RecAt(net, word) == r && r.isData && r in net.recs
      modifies this, r
      ensures Ok() && net == NetWithValue(old(net), r, v) && EntrySet(old(net), net, word, Word(v))
    {
      ghost var m := net;
      PutValue(m, r, v);
      net := NetWithValue(m, r, v);
      ValueSetIsValid(m, net, r, v);
      ValueSetEntries(m, net, word, v);
    }

    /** Forgets the strings of a word. */
    method DeleteWord(word: string)
      requires Ok()
      modifies this, net.recs.Keys
      ensures Ok() && net.paths == old(net).paths && net.lists == old(net).lists && net.recs.Keys == old(net).recs.Keys
      ensures EntrySet(old(net), net, word, if EntryAt(old(net), word).Word? then Word(None) else NoWord)
    {
      var r := FindData(word);
      if r != null {
        SubIsPath(net, word);
        if r.value.Some? {
          SetEntry(word, r, None);
        } else {
          assert RecInfoOf(r) == net.recs[r];
        }
      }
    }
  }

  lemma EntrySetAfter(m: Net, x: Net, w: Net, key: string, e: Entry)
    requires SameEntries(m, x) && EntrySet(x, w, key, e)
    ensures EntrySet(m, w, key, e)
  {
    forall k
      ensures EntryAt(w, k) == if k == key then e else EntryAt(m, k)
    {
      assert EntryAt(x, k) == EntryAt(m, k);
    }
  }

  lemma EntrySetTwice(m: Net, x: Net, w: Net, key: string, e: Entry)
    requires m == x || exists before :: EntrySet(m, x, key, before)
    requires EntrySet(x, w, key, e)
    ensures EntrySet(m, w, key, e)
  {
    forall k
      ensures EntryAt(w, k) == if k == key then e else EntryAt(m, k)
    {
      assert k != key ==> EntryAt(x, k) == EntryAt(m, k);
    }
  }

  /** What is kept in a database, whatever it is kept in. */
  type Store = map<string, string>

  function Added(m: Store, key: string, data: string): Store {
    m[key := if key in m then m[key] + " " + data else data]
  }

  function Answer(m: Store, key: string): string {
    if key in m then m[key] else ""
  }

  datatype Call = Add(key: string, data: string) | Remove(key: string) | Replace(key: string, data: string) | Access(key: string)

  /** What a call leaves in the database. */
  function After(m: Store, c: Call): Store {
    match c
    case Add(key, data) => Added(m, key, data)
    case Remove(key) => m - {key}
    case Replace(key, data) => m[key := data]
    case Access(_) => m
  }

  function AfterAll(m: Store, cs: seq<Call>): Store {
    if cs == [] then m else After(AfterAll(m, cs[..|cs| - 1]), cs[|cs| - 1])
  }

  /** The answers to a sequence of calls: a string for every access. */
  function Answers(m: Store, cs: seq<Call>): seq<string> {
    if cs == [] then [] else
    var n := |cs| - 1;
    Answers(m, cs[..n]) + if cs[n].Access? then [Answer(AfterAll(m, cs[..n]), cs[n].key)] else []
  }

  /** The prefix tree stores what the map says. */
  ghost predicate Stores(n: Net, m: Store) {
    && "" !in m
    && forall key {:trigger EntryAt(n, key)} :: key != "" ==>
         (key in m <==> EntryAt(n, key).Word? && EntryAt(n, key).value.Some?)
         && (key in m ==> EntryAt(n, key) == Word(Some(m[key])))
  }

  datatype Kind = MapKind | PrefTreeKind

  method AddToTree(t: PrefTree, key: string, data: string, ghost m: Store)
    requires t.Ok() && Stores(t.net, m) && key != ""
    modifies t, t.net.lists.Keys, t.net.recs.Keys
    ensures t.Ok() && Stores(t.net, Added(m, key, data)) && Grown(old(t.net), t.net)
    ensures fresh(t.net.lists.Keys - old(t.net).lists.Keys) && fresh(t.net.recs.Keys - old(t.net).recs.Keys)
  {
    var res := t.FindData(key);
    ghost var n := t.net;
    t.AddWord(key, res, data);
    EntryIsStored(n, t.net, m, key, Joined(EntryAt(n, key), data));
  }

  method ReplaceInTree(t: PrefTree, key: string, data: string, ghost m: Store)
    requires t.Ok() && Stores(t.net, m) && key != ""
    modifies t, t.net.lists.Keys, t.net.recs.Keys
    ensures t.Ok() && Stores(t.net, m[key := data]) && Grown(old(t.net), t.net)
    ensures fresh(t.net.lists.Keys - old(t.net).lists.Keys) && fresh(t.net.recs.Keys - old(t.net).recs.Keys)
  {
    var res := t.FindData(key);
    ghost var n := t.net;
    if res != null {
      SubIsPath(n, key);
      t.SetEntry(key, res, Some(data));
    } else {
      t.AddWord(key, res, data);
    }
    EntryIsStored(n, t.net, m, key, data);
  }

  class Database {
    const kind: Kind
    var dbmap: Store
    var dbptree: PrefTree?
    ghost var contents: Store

    constructor (k: Kind)
      ensures Ok() && kind == k && contents == map[] && fresh(Repr())
    {
      kind, dbmap, contents := k, map[], map[];
      dbptree := null;
      new;
      if k == PrefTreeKind {
        dbptree := new PrefTree();
      }
    }

    /** The objects that the database consists of. */
    ghost function Repr(): set<object>
      reads this, dbptree
    {
      {this} + if dbptree == null then {} else {dbptree} + dbptree.net.lists.Keys + dbptree.net.recs.Keys
    }

    ghost predicate Ok()
      reads this, dbptree, Repr()
    {
      && (kind == PrefTreeKind <==> dbptree != null)
      && (if dbptree == null then dbmap == contents else dbptree.Ok() && Stores(dbptree.net, contents))
    }

    /** Adds data to a key, or a new key. */
    method AddDatabase(key: string, data: string)
      requires Ok() && key != ""
      modifies Repr()
      ensures Ok() && contents == Added(old(contents), key, data) && fresh(Repr() - old(Repr()))
    {
      if kind == MapKind {
        if key in dbmap {
          dbmap := dbmap[key := dbmap[key] + " " + data];
        } else {
          dbmap := dbmap[key := data];
        }
      } else {
        AddToTree(dbptree, key, data, contents);
      }
      contents := Added(contents, key, data);
    }

    /** Removes a key. */
    method RemoveDatabase(key: string)
      requires Ok() && key != ""
      modifies Repr()
      ensures Ok() && contents == old(contents) - {key} && fresh(Repr() - old(Repr()))
    {
      if kind == MapKind {
        dbmap := dbmap - {key};
      } else {
        ghost var n := dbptree.net;
        dbptree.DeleteWord(key);
        EntryIsRemoved(n, dbptree.net, contents, key);
      }
      contents := contents - {key};
    }

    /** Replaces the data of a key, or adds it. */
    method ReplaceDatabase(key: string, data: string)
      requires Ok() && key != ""
      modifies Repr()
      ensures Ok() && contents == old(contents)[key := data] && fresh(Repr() - old(Repr()))
    {
      if kind == MapKind {
        dbmap := dbmap[key := data];
      } else {
        ReplaceInTree(dbptree, key, data, contents);
      }
      contents := contents[key := data];
    }

    /** The data of a key, or an empty string. */
    method AccessDatabase(key: string) returns (data: string)
      requires Ok() && key != ""
      ensures data == Answer(contents, key)
    {
      data := "";
      if kind == MapKind {
        if key in dbmap {
          data := dbmap[key];
        }
      } else {
        var res := dbptree.FindData(key);
        if res != null {
          SubIsPath(dbptree.net, key);
          assert RecInfoOf(res) == dbptree.net.recs[res];
          assert EntryAt(dbptree.net, key) == Word(res.value);
          if res.value.Some? {
            data := res.value.value;
          }
        }
      }
    }

    /** Carries out a call. Only an access is answered. */
    method PerformOne(c: Call) returns (answer: seq<string>)
      requires Ok() && c.key != ""
      modifies Repr()
      ensures Ok() && contents == After(old(contents), c) && fresh(Repr() - old(Repr()))
      ensures answer == if c.Access? then [Answer(contents, c.key)] else []
    {
      answer := [];
      match c
      case Add(key, data) => AddDatabase(key, data);
      case Remove(key) => RemoveDatabase(key);
      case Replace(key, data) => ReplaceDatabase(key, data);
      case Access(key) =>
        var data := AccessDatabase(key);
        answer := [data];
    }

    /** Carries out a sequence of calls. What it answers does not depend on what the data is kept in. */
    method Perform(cs: seq<Call>) returns (answers: seq<string>)
      requires Ok() && forall c :: c in cs ==> c.key != ""
      modifies Repr()
      ensures Ok() && contents == AfterAll(old(contents), cs) && answers == Answers(old(contents), cs)
    {
      answers := [];
      for i := 0 to |cs|
        invariant fresh(Repr() - old(Repr()))
        invariant Ok()
        invariant contents == AfterAll(old(contents), cs[..i]) && answers == Answers(old(contents), cs[..i])
      {
        var answer := PerformOne(cs[i]);
        AnswersOneMore(old(contents), cs, i);
        answers := answers + answer;
      }
      assert cs[..|cs|] == cs;
    }
  }

  lemma AnswersOneMore(m: Store, cs: seq<Call>, i: nat)
    requires i < |cs| && forall c :: c in cs ==> c.key != ""
    ensures AfterAll(m, cs[..i + 1]) == After(AfterAll(m, cs[..i]), cs[i])
    ensures Answers(m, cs[..i + 1]) == Answers(m, cs[..i])
      + if cs[i].Access? then [Answer(AfterAll(m, cs[..i + 1]), cs[i].key)] else []
  {
    assert cs[..i + 1][..i] == cs[..i];
  }

  lemma EntryIsStored(n: Net, w: Net, m: Store, key: string, data: string)
    requires Stores(n, m) && key != "" && EntrySet(n, w, key, Word(Some(data)))
    ensures Stores(w, m[key := data])
    ensures key in m ==> EntryAt(n, key) == Word(Some(m[key]))
    ensures key !in m ==> EntryAt(n, key) == NoWord || EntryAt(n, key) == Word(None)
  {
    assert key in m <==> EntryAt(n, key).Word? && EntryAt(n, key).value.Some?;
    forall k | k != "" && k != key
      ensures EntryAt(w, k) == EntryAt(n, k)
    {
    }
  }

  lemma EntryIsRemoved(n: Net, w: Net, m: Store, key: string)
    requires Stores(n, m) && key != "" && (EntrySet(n, w, key, Word(None)) || EntrySet(n, w, key, NoWord))
    ensures Stores(w, m - {key})
  {
    forall k | k != "" && k != key
      ensures EntryAt(w, k) == EntryAt(n, k)
    {
    }
  }

  /** MAIN RESULT: a prefix tree database and a map database give the same answers to the same calls. */
  method SameAnswers(cs: seq<Call>) returns (a: seq<string>, b: seq<string>)
    requires forall c :: c in cs ==> c.key != ""
    ensures a == b == Answers(map[], cs)
  {
    var inMap := new Database(MapKind);
    var inTree := new Database(PrefTreeKind);
    a := inMap.Perform(cs);
    b := inTree.Perform(cs);
  }
}
