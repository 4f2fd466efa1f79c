/** Changing the links of a prefix tree, one list or record at a time. */
module PrefixIndex {
  import opened PrefTrees

  /** The list has the records that `m` says, and they are chained. */
  ghost predicate ListHolds(m: Net, l: List)
    reads l, m.recs.Keys
  {
    l in m.lists && l.recs == m.lists[l] && (forall r :: r in l.recs ==> r in m.recs) && IsChain(l)
  }

  /** The lists and records are as `m` says. */
  ghost predicate Holds(m: Net)
    reads m.lists.Keys, m.recs.Keys
  {
    && (forall l {:trigger ListHolds(m, l)} :: l in m.lists ==> ListHolds(m, l))
    && forall r {:trigger RecInfoOf(r)} :: r in m.recs ==> RecInfoOf(r) == m.recs[r]
  }

  /** The records of the list are in no other list. */
  ghost predicate Apart(m: Net, l: List)
    requires l in m.lists
  {
    forall x {:trigger m.lists[x]} :: x in m.lists && x != l ==> forall r :: r in m.lists[l] ==> r !in m.lists[x]
  }

  lemma OthersAreApart(m: Net, l: List)
    requires Valid(m) && l in m.lists
    ensures Apart(m, l)
  {
    forall x | x in m.lists && x != l
      ensures forall r :: r in m.lists[l] ==> r !in m.lists[x]
    {
      assert PathOk(m, l.at) && PathOk(m, x.at);
    }
  }

  ghost function NetAppended(m: Net, l: List, r: Rec): Net
    requires l in m.lists
  {
    Net(m.paths, m.lists[l := m.lists[l] + [r]], m.recs[r := RecInfo(None, null)])
  }

  /** Appending to one list leaves the others, and what the records hold, as they are. */
  method AppendTo(ghost m: Net, l: List, r: Rec)
    requires Holds(m) && l in m.lists && Apart(m, l) && Lookup(m.lists[l], r.symb) == null
    requires r !in m.recs && r.next == null && RecInfoOf(r) == RecInfo(None, null)
    modifies l, l.end
    ensures Holds(NetAppended(m, l, r))
  {
    assert ListHolds(m, l);
    ghost var w := NetAppended(m, l, r);
    ghost var e := l.end;
    assert e != null ==> e in l.recs;
    Append(l, r);
    forall x | x in w.lists
      ensures ListHolds(w, x)
    {
      if x != l {
        assert old(ListHolds(m, x));
        assert e != null ==> e !in m.lists[x];
      }
    }
    forall x {:trigger RecInfoOf(x)} | x in w.recs
      ensures RecInfoOf(x) == w.recs[x]
    {
      assert x in m.recs ==> old(RecInfoOf(x)) == m.recs[x];
    }
  }

  /** Adds a record for a character that has none. */
  method AddRecord(ghost m: Net, ghost p: string, l: List, c: char, data: bool) returns (r: Rec, ghost w: Net)
    requires Valid(m) && Holds(m) && p in m.paths && m.paths[p] == l && Lookup(l.recs, c) == null
    modifies l, l.end
    ensures fresh(r) && r.symb == c && r.isData == data
    ensures Valid(w) && Holds(w) && Appended(m, w, p, r)
  {
    assert PathOk(m, p) && ListHolds(m, l);
    OthersAreApart(m, l);
    r := new Rec(c, data, p);
    AppendTo(m, l, r);
    w := NetAppended(m, l, r);
    AppendedIsValid(m, w, p, r);
  }

  ghost function NetReplaced(m: Net, l: List, k: nat, x: Rec): Net
    requires l in m.lists && k < |m.lists[l]| && m.lists[l][k] in m.recs
  {
    Net(m.paths, m.lists[l := m.lists[l][k := x]], m.recs[x := RecInfo(None, m.recs[m.lists[l][k]].sub)])
  }

  /** Replacing a record in one list leaves the others, and what the records hold, as they are. */
  method ReplaceIn(ghost m: Net, l: List, n: Rec, ghost k: nat, x: Rec)
    requires Holds(m) && l in m.lists && Apart(m, l)
    requires k < |m.lists[l]| && m.lists[l][k] == n && n in m.recs && x !in m.recs && x.symb == n.symb && x.value == None
    modifies l, m.recs.Keys, x
    ensures Holds(NetReplaced(m, l, k, x))
  {
    assert ListHolds(m, l);
    ghost var w := NetReplaced(m, l, k, x);
    ghost var e := Prior(l, k);
    assert e != null ==> e in l.recs;
    assert RecInfoOf(n) == m.recs[n];
    Replace(l, n, k, x);
    forall x | x in w.lists
      ensures ListHolds(w, x)
    {
      if x != l {
        assert old(ListHolds(m, x));
        assert e != null ==> e !in m.lists[x];
      }
    }
    forall y {:trigger RecInfoOf(y)} | y in w.recs
      ensures RecInfoOf(y) == w.recs[y]
    {
      assert y in m.recs ==> old(RecInfoOf(y)) == m.recs[y];
    }
  }

  /** Puts a new record in the place of an old one. */
  method ReplaceRecord(ghost m: Net, ghost p: string, l: List, n: Rec) returns (r: Rec, ghost w: Net, ghost k: nat)
    requires Valid(m) && Holds(m) && p in m.paths && m.paths[p] == l && n in l.recs
    modifies l, m.recs.Keys
    ensures fresh(r) && r.symb == n.symb && r.isData
    ensures Valid(w) && Holds(w) && Replaced(m, w, p, k, r)
  {
    assert PathOk(m, p) && ListHolds(m, l);
    OthersAreApart(m, l);
    k :| k < |l.recs| && l.recs[k] == n;
    r := new Rec(n.symb, true, p);
    ReplaceIn(m, l, n, k, r);
    w := NetReplaced(m, l, k, r);
    ReplacedIsValid(m, w, p, k, r);
  }

  ghost function NetWithSub(m: Net, key: string, r: Rec, l: List): Net
    requires r in m.recs
  {
    Net(m.paths[key := l], m.lists[l := []], m.recs[r := m.recs[r].(sub := l)])
  }

  /** Links a list below a record. */
  method LinkSub(ghost m: Net, ghost key: string, r: Rec, l: List)
    requires Holds(m) && r in m.recs
    requires l !in m.lists && l.begin == null && l.end == null && l.recs == []
    modifies r`nextList
    ensures r.nextList == l && Holds(NetWithSub(m, key, r, l))
  {
    ghost var w := NetWithSub(m, key, r, l);
    assert RecInfoOf(r) == m.recs[r];
    r.nextList := l;
    forall x | x in w.lists
      ensures ListHolds(w, x)
    {
      if x != l {
        assert old(ListHolds(m, x));
      }
    }
    forall y {:trigger RecInfoOf(y)} | y in w.recs
      ensures RecInfoOf(y) == w.recs[y]
    {
      assert old(RecInfoOf(y)) == m.recs[y];
    }
  }

  /** Makes an empty list below the record that ends `key`. */
  method MakeSub(ghost m: Net, ghost key: string, r: Rec) returns (l: List, ghost w: Net)
    requires Valid(m) && Holds(m) && key != "" && r == RecAt(m, key) && key !in m.paths && r in m.recs && m.recs[r].sub == null
    modifies r`nextList
    ensures fresh(l) && r.nextList == l && Valid(w) && Holds(w) && SubMade(m, w, key, r, l)
  {
    l := new List(key);
    LinkSub(m, key, r, l);
    w := NetWithSub(m, key, r, l);
    SubMadeIsValid(m, w, key, r, l);
  }

  ghost function NetWithValue(m: Net, r: Rec, v: Option<string>): Net
    requires r in m.recs
  {
    m.(recs := m.recs[r := m.recs[r].(value := v)])
  }

  /** Stores a value in a record. */
  method PutValue(ghost m: Net, r: Rec, v: Option<string>)
    requires Holds(m) && r in m.recs
    modifies r`value
    ensures Holds(NetWithValue(m, r, v))
  {
    ghost var w := NetWithValue(m, r, v);
    assert RecInfoOf(r) == m.recs[r];
    r.value := v;
    forall x | x in w.lists
      ensures ListHolds(w, x)
    {
      assert old(ListHolds(m, x));
    }
    forall y {:trigger RecInfoOf(y)} | y in w.recs
      ensures RecInfoOf(y) == w.recs[y]
    {
      assert old(RecInfoOf(y)) == m.recs[y];
    }
  }

  /** Everything that was there is still there. */
  ghost predicate Grown(m: Net, w: Net) {
    && (forall p :: p in m.paths ==> p in w.paths && w.paths[p] == m.paths[p])
    && m.recs.Keys <= w.recs.Keys && m.lists.Keys <= w.lists.Keys
  }

  lemma FoundIsRecAt(m: Net, p: string, c: char)
    requires Valid(m) && p in m.paths && m.paths[p] in m.lists
    ensures RecAt(m, p + [c]) == Lookup(m.lists[m.paths[p]], c)
  {
    assert (p + [c])[..|p|] == p;
  }

  /** The record that continues a prefix by a character, made if it is not there. */
  method FindOrAdd(ghost m: Net, ghost p: string, l: List, c: char) returns (r: Rec, ghost w: Net)
    requires Valid(m) && Holds(m) && p in m.paths && m.paths[p] == l
    modifies l, m.recs.Keys
    ensures Valid(w) && Holds(w) && Grown(m, w) && w.paths == m.paths && w.lists.Keys == m.lists.Keys && fresh(w.recs.Keys - m.recs.Keys)
    ensures RecAt(w, p + [c]) == r && SameEntries(m, w)
  {
    assert PathOk(m, p) && ListHolds(m, l);
    var f := Find(l, c);
    FoundIsRecAt(m, p, c);
    if f == null {
      r, w := AddRecord(m, p, l, c, false);
      AppendedEntries(m, w, p, r);
      AppendedRecords(m, w, p, r);
    } else {
      r, w := f, m;
    }
  }

  /** The list below a record, made if it is not there. */
  method Descend(ghost m: Net, ghost key: string, r: Rec) returns (n: List, ghost w: Net)
    requires Valid(m) && Holds(m) && RecAt(m, key) == r
    modifies r`nextList
    ensures Valid(w) && Holds(w) && Grown(m, w) && w.recs.Keys == m.recs.Keys && fresh(w.lists.Keys - m.lists.Keys)
    ensures key in w.paths && w.paths[key] == n && SameEntries(m, w)
  {
    SubIsPath(m, key);
    assert RecInfoOf(r) == m.recs[r];
    w := m;
    if r.nextList == null {
      var l;
      l, w := MakeSub(m, key, r);
      SubMadeEntries(m, w, key, r, l);
    }
    n := r.nextList;
  }

  /** Continues a prefix by a character inside a word. */
  method PushInner(ghost m: Net, ghost p: string, l: List, c: char) returns (n: List, ghost w: Net)
    requires Valid(m) && Holds(m) && p in m.paths && m.paths[p] == l
    modifies l, m.recs.Keys
    ensures Valid(w) && Holds(w) && Grown(m, w)
    ensures fresh(w.recs.Keys - m.recs.Keys) && fresh(w.lists.Keys - m.lists.Keys)
    ensures p + [c] in w.paths && w.paths[p + [c]] == n && SameEntries(m, w)
  {
    var r;
    ghost var x;
    r, x := FindOrAdd(m, p, l, c);
    SubIsPath(x, p + [c]);
    n, w := Descend(x, p + [c], r);
    EntriesStay(m, x, w);
  }

  lemma EntriesStay(m: Net, x: Net, w: Net)
    requires SameEntries(m, x) && SameEntries(x, w)
    ensures SameEntries(m, w)
  {
    forall k
      ensures EntryAt(w, k) == EntryAt(m, k)
    {
      assert EntryAt(x, k) == EntryAt(m, k);
    }
  }

  /** Ends a word that has not been one before: its last record is made, or replaced by one that can
      hold a value. */
  method PushEnd(ghost m: Net, ghost p: string, l: List, c: char) returns (r: Rec, ghost w: Net)
    requires Valid(m) && Holds(m) && p in m.paths && m.paths[p] == l && EntryAt(m, p + [c]) == NoWord
    modifies l, m.recs.Keys
    ensures Valid(w) && Holds(w) && Grown(m, w) && w.paths == m.paths && w.lists.Keys == m.lists.Keys && fresh(w.recs.Keys - m.recs.Keys)
    ensures RecAt(w, p + [c]) == r && r.isData && r in w.recs && EntrySet(m, w, p + [c], Word(None))
  {
    assert PathOk(m, p) && ListHolds(m, l);
    var f := Find(l, c);
    if f == null {
      r, w := AddRecord(m, p, l, c, true);
      AppendedEntries(m, w, p, r);
      AppendedRecords(m, w, p, r);
    } else {
      ghost var k;
      r, w, k := ReplaceRecord(m, p, l, f);
      ReplacedEntries(m, w, p, k, r);
      ReplacedRecords(m, w, p, k, r);
    }
  }
}
