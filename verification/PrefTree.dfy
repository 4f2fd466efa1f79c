/** A prefix tree of linked records: what its links must be, and what each change does to them. */
module PrefTrees {

  datatype Option<T> = None | Some(value: T)

  /** A record: one character on the way to a word. Only data records, at the end of words, have values. */
  class Rec {
    const symb: char
    const isData: bool
    ghost const owner: string
    var value: Option<string>
    var next: Rec?
    var nextList: List?

    constructor (c: char, data: bool, ghost o: string)
      ensures symb == c && isData == data && owner == o && value == None && next == null && nextList == null
    {
      symb, isData, owner := c, data, o;
      value, next, nextList := None, null, null;
    }
  }

  /** The records that continue a prefix. */
  class List {
    ghost const at: string
    var begin: Rec?
    var end: Rec?
    ghost var recs: seq<Rec>

    constructor (ghost a: string)
      ensures at == a && begin == null && end == null && recs == []
    {
      at := a;
      begin, end, recs := null, null, [];
    }
  }

  /** What a record holds besides its character. */
  datatype RecInfo = RecInfo(value: Option<string>, sub: List?)

  /** A prefix tree: the list for each prefix, the records of each list, and what each record holds. */
  datatype Net = Net(paths: map<string, List>, lists: map<List, seq<Rec>>, recs: map<Rec, RecInfo>)

  ghost function RecInfoOf(r: Rec): RecInfo
    reads r
  {
    RecInfo(r.value, r.nextList)
  }

  ghost predicate DistinctSymbols(rs: seq<Rec>) {
    forall i, j :: 0 <= i < j < |rs| ==> rs[i].symb != rs[j].symb
  }

  /** Each record of the list for `p` leads to the list for `p` and its character, if there is one. */
  ghost predicate Leads(n: Net, p: string, rs: seq<Rec>) {
    forall i {:trigger rs[i]} :: 0 <= i < |rs| ==>
      && rs[i] in n.recs && rs[i].owner == p
      && n.recs[rs[i]].sub == if p + [rs[i].symb] in n.paths then n.paths[p + [rs[i].symb]] else null
  }

  ghost predicate PathOk(n: Net, p: string)
    requires p in n.paths
  {
    && n.paths[p].at == p && n.paths[p] in n.lists
    && DistinctSymbols(n.lists[n.paths[p]])
    && Leads(n, p, n.lists[n.paths[p]])
    && (p != "" ==> RecAt(n, p) != null)
  }

  /** All links are as they should be. */
  ghost predicate Valid(n: Net) {
    && "" in n.paths
    && (forall l {:trigger l in n.lists} :: l in n.lists ==> l.at in n.paths && n.paths[l.at] == l)
    && forall p {:trigger PathOk(n, p)} :: p in n.paths ==> PathOk(n, p)
  }

  /** The first record with the given character. */
  ghost function Lookup(rs: seq<Rec>, c: char): (r: Rec?)
    ensures r != null ==> r in rs && r.symb == c
    ensures r == null ==> forall i :: 0 <= i < |rs| ==> rs[i].symb != c
  {
    if rs == [] then null else if rs[0].symb == c then rs[0] else Lookup(rs[1..], c)
  }

  /** The record that ends `key`, if there is one. */
  ghost function RecAt(n: Net, key: string): Rec? {
    if key == "" then null else
    var p := key[..|key| - 1];
    if p in n.paths && n.paths[p] in n.lists then Lookup(n.lists[n.paths[p]], key[|key| - 1]) else null
  }

  /** What is known of a key: whether it has ever been made a word, and its value if it has one. */
  datatype Entry = NoWord | Word(value: Option<string>)

  ghost function EntryAt(n: Net, key: string): Entry {
    var r := RecAt(n, key);
    if r != null && r.isData && r in n.recs then Word(n.recs[r].value) else NoWord
  }

  /** Where there is a list, there are lists for all its prefixes. */
  lemma {:induction false} PrefixesHaveLists(n: Net, p: string, i: nat)
    requires Valid(n) && p in n.paths && i <= |p|
    ensures p[..i] in n.paths
  {
    assert PathOk(n, p);
    if i == |p| {
      assert p[..i] == p;
    } else {
      var q := p[..|p| - 1];
      assert q[..i] == p[..i];
      PrefixesHaveLists(n, q, i);
    }
  }

  lemma LookupUnique(rs: seq<Rec>, i: nat)
    requires DistinctSymbols(rs) && i < |rs|
    ensures Lookup(rs, rs[i].symb) == rs[i]
  {
  }

  /** The records of the list are chained. */
  ghost predicate IsChain(l: List)
    reads l, l.recs
  {
    && DistinctSymbols(l.recs)
    && l.begin == (if l.recs == [] then null else l.recs[0])
    && l.end == (if l.recs == [] then null else l.recs[|l.recs| - 1])
    && forall i {:trigger l.recs[i]} :: 0 <= i < |l.recs| ==> l.recs[i].next == if i + 1 < |l.recs| then l.recs[i + 1] else null
  }

  /** Finds the record for a character, looking at two records in every turn. */
  method Find(l: List, c: char) returns (r: Rec?)
    requires IsChain(l)
    ensures r == Lookup(l.recs, c)
  {
    var tmp := l.begin;
    ghost var i := 0;
    while tmp != null && tmp.symb != c
      invariant i <= |l.recs| && tmp == if i < |l.recs| then l.recs[i] else null
      invariant forall j :: 0 <= j < i ==> l.recs[j].symb != c
      decreases |l.recs| - i
    {
      assert l.recs[i] == tmp;
      if tmp.next != null {
        assert l.recs[i + 1] == tmp.next;
        if tmp.next.symb == c {
          LookupUnique(l.recs, i + 1);
          return tmp.next;
        }
        tmp := tmp.next.next;
        i := i + 2;
      } else {
        tmp := null;
        i := i + 1;
      }
    }
    if tmp != null {
      LookupUnique(l.recs, i);
    }
    r := tmp;
  }

  /** Adds a record at the end of a list. */
  method Append(l: List, n: Rec)
    requires IsChain(l) && n !in l.recs && n.next == null && forall i :: 0 <= i < |l.recs| ==> l.recs[i].symb != n.symb
    modifies l, l.end
    ensures IsChain(l) && l.recs == old(l.recs) + [n]
    ensures old(l.end) != null ==> RecInfoOf(old(l.end)) == old(RecInfoOf(l.end))
  {
    if l.end != null {
      l.end.next := n;
    } else {
      l.begin := n;
    }
    l.end := n;
    l.recs := l.recs + [n];
  }

  /** The record before `n` in its list. */
  method Before(l: List, n: Rec, ghost k: nat) returns (prev: Rec?)
    requires IsChain(l) && k < |l.recs| && l.recs[k] == n
    ensures prev == if k == 0 then null else l.recs[k - 1]
  {
    var tmp: Rec? := l.begin;
    prev := null;
    ghost var i := 0;
    while tmp != n
      invariant i <= k && tmp == l.recs[i] && prev == if i == 0 then null else l.recs[i - 1]
      decreases k - i
    {
      prev := tmp;
      tmp := tmp.next;
      i := i + 1;
    }
    assert l.recs[i].symb == l.recs[k].symb;
  }

  /** Puts a new record in the place of an old one: only the record before it changes. */
  method Splice(l: List, n: Rec, ghost k: nat, prev: Rec?, x: Rec)
    requires IsChain(l) && k < |l.recs| && l.recs[k] == n && x !in l.recs && x.symb == n.symb
    requires prev == if k == 0 then null else l.recs[k - 1]
    modifies l, prev, x
    ensures l.recs == old(l.recs)[k := x]
    ensures l.begin == (if k == 0 then x else old(l.begin)) && l.end == if k + 1 == |l.recs| then x else old(l.end)
    ensures RecInfoOf(x) == RecInfo(old(x.value), old(n.nextList))
    ensures x.next == old(n.next) && (prev != null ==> prev.next == x && RecInfoOf(prev) == old(RecInfoOf(prev)))
  {
    assert DistinctSymbols(l.recs);
    if n == l.end {
      l.end := null;
    }
    x.next := n.next;
    x.nextList := n.nextList;
    if prev != null {
      prev.next := x;
    } else {
      l.begin := x;
    }
    if l.end == null {
      l.end := x;
    }
    l.recs := l.recs[k := x];
  }

  /** The record before the `k`-th, if any. */
  ghost function Prior(l: List, k: nat): Rec?
    requires k <= |l.recs|
    reads l
  {
    if k == 0 then null else l.recs[k - 1]
  }

  /** Puts a new record in the place of an old one. */
  method Replace(l: List, n: Rec, ghost k: nat, x: Rec)
    requires IsChain(l) && k < |l.recs| && l.recs[k] == n && x !in l.recs && x.symb == n.symb
    modifies l, Prior(l, k), x
    ensures l.recs == old(l.recs)[k := x] && IsChain(l)
    ensures RecInfoOf(x) == RecInfo(old(x.value), old(n.nextList))
    ensures forall r {:trigger RecInfoOf(r)} :: r in old(l.recs) ==> RecInfoOf(r) == old(RecInfoOf(r))
  {
    var prev := Before(l, n, k);
    Splice(l, n, k, prev, x);
  }

  lemma LookupOfMore(rs: seq<Rec>, r: Rec, c: char)
    ensures Lookup(rs + [r], c) == if Lookup(rs, c) != null then Lookup(rs, c) else if r.symb == c then r else null
  {
    if rs == [] {
      assert [r][1..] == [];
    } else {
      assert (rs + [r])[1..] == rs[1..] + [r];
      LookupOfMore(rs[1..], r, c);
    }
  }

  lemma LookupOfReplaced(rs: seq<Rec>, k: nat, x: Rec, c: char)
    requires DistinctSymbols(rs) && k < |rs| && x.symb == rs[k].symb
    ensures Lookup(rs[k := x], c) == if c == x.symb then x else Lookup(rs, c)
  {
    var more := rs[k := x];
    LookupUnique(more, k);
    if c != x.symb {
      var r := Lookup(rs, c);
      if r != null {
        var i :| 0 <= i < |rs| && rs[i] == r;
        LookupUnique(more, i);
      }
    }
  }

  /** Only the record for `key` is another. */
  ghost predicate RecordSet(n: Net, w: Net, key: string, r: Rec) {
    RecAt(w, key) == r && forall k {:trigger RecAt(w, k)} :: k != key ==> RecAt(w, k) == RecAt(n, k)
  }

  /** `w` is `n` with a record added to the list for `p`. */
  ghost predicate Appended(n: Net, w: Net, p: string, r: Rec) {
    && p in n.paths && n.paths[p] in n.lists && r !in n.recs && r.owner == p
    && Lookup(n.lists[n.paths[p]], r.symb) == null
    && w == Net(n.paths, n.lists[n.paths[p] := n.lists[n.paths[p]] + [r]], n.recs[r := RecInfo(None, null)])
  }

  lemma AppendedRecords(n: Net, w: Net, p: string, r: Rec)
    requires Valid(n) && Appended(n, w, p, r)
    ensures RecordSet(n, w, p + [r.symb], r)
  {
    assert PathOk(n, p);
    var key := p + [r.symb];
    assert key[..|key| - 1] == p;
    LookupOfMore(n.lists[n.paths[p]], r, r.symb);
    forall k | k != key
      ensures RecAt(w, k) == RecAt(n, k)
    {
      if k != "" && k[..|k| - 1] in n.paths {
        var q := k[..|k| - 1];
        assert PathOk(n, q);
        assert k == q + [k[|k| - 1]];
        LookupOfMore(n.lists[n.paths[p]], r, k[|k| - 1]);
      }
    }
  }

  lemma AppendedIsValid(n: Net, w: Net, p: string, r: Rec)
    requires Valid(n) && Appended(n, w, p, r)
    ensures Valid(w)
  {
    AppendedRecords(n, w, p, r);
    assert PathOk(n, p);
    var key := p + [r.symb];
    assert key in n.paths ==> PathOk(n, key);
    assert key[..|key| - 1] == p;
    forall q | q in w.paths
      ensures PathOk(w, q)
    {
      assert PathOk(n, q);
    }
  }

  /** `w` is `n` with record `k` of the list for `p` replaced by one for the same character. */
  ghost predicate Replaced(n: Net, w: Net, p: string, k: nat, x: Rec) {
    && p in n.paths && n.paths[p] in n.lists && x !in n.recs && x.owner == p
    && var rs := n.lists[n.paths[p]];
       && k < |rs| && rs[k] in n.recs && x.symb == rs[k].symb
       && w == Net(n.paths, n.lists[n.paths[p] := rs[k := x]], n.recs[x := RecInfo(None, n.recs[rs[k]].sub)])
  }

  lemma ReplacedRecords(n: Net, w: Net, p: string, k: nat, x: Rec)
    requires Valid(n) && Replaced(n, w, p, k, x)
    ensures RecordSet(n, w, p + [x.symb], x)
  {
    assert PathOk(n, p);
    var key := p + [x.symb];
    assert key[..|key| - 1] == p;
    LookupOfReplaced(n.lists[n.paths[p]], k, x, x.symb);
    forall q | q != key
      ensures RecAt(w, q) == RecAt(n, q)
    {
      if q != "" && q[..|q| - 1] in n.paths {
        assert PathOk(n, q[..|q| - 1]);
        assert q == q[..|q| - 1] + [q[|q| - 1]];
        LookupOfReplaced(n.lists[n.paths[p]], k, x, q[|q| - 1]);
      }
    }
  }

  lemma ReplacedIsValid(n: Net, w: Net, p: string, k: nat, x: Rec)
    requires Valid(n) && Replaced(n, w, p, k, x)
    ensures Valid(w)
  {
    ReplacedRecords(n, w, p, k, x);
    assert PathOk(n, p);
    forall q | q in w.paths
      ensures PathOk(w, q)
    {
      assert PathOk(n, q);
    }
  }

  /** `w` is `n` with an empty list below record `r`, which ends `key`. */
  ghost predicate SubMade(n: Net, w: Net, key: string, r: Rec, l: List) {
    && key != "" && r == RecAt(n, key) && r in n.recs && n.recs[r].sub == null && l !in n.lists && l.at == key
    && w == Net(n.paths[key := l], n.lists[l := []], n.recs[r := n.recs[r].(sub := l)])
  }

  lemma SubMadeRecords(n: Net, w: Net, key: string, r: Rec, l: List)
    requires Valid(n) && SubMade(n, w, key, r, l) && key !in n.paths
    ensures forall k {:trigger RecAt(w, k)} :: RecAt(w, k) == RecAt(n, k)
  {
    forall k
      ensures RecAt(w, k) == RecAt(n, k)
    {
      if k != "" && k[..|k| - 1] in n.paths {
        assert PathOk(n, k[..|k| - 1]);
      }
    }
  }

  /** The list below a record is the one for its prefix. */
  lemma SubIsPath(n: Net, key: string)
    requires Valid(n) && RecAt(n, key) != null
    ensures var r := RecAt(n, key);
            && key[..|key| - 1] in n.paths && r in n.lists[n.paths[key[..|key| - 1]]] && r.owner == key[..|key| - 1]
            && r in n.recs && n.recs[r].sub == if key in n.paths then n.paths[key] else null
  {
    var p := key[..|key| - 1];
    assert PathOk(n, p);
    assert key == p + [key[|key| - 1]];
    var rs := n.lists[n.paths[p]];
    var i :| 0 <= i < |rs| && rs[i] == RecAt(n, key);
  }

  lemma SubMadeIsValid(n: Net, w: Net, key: string, r: Rec, l: List)
    requires Valid(n) && SubMade(n, w, key, r, l)
    ensures key !in n.paths && Valid(w)
  {
    SubIsPath(n, key);
    SubMadeRecords(n, w, key, r, l);
    forall q | q in w.paths
      ensures PathOk(w, q)
    {
      if q != key {
        assert PathOk(n, q);
        SubMadeLeads(n, w, key, r, l, q);
      }
    }
  }

  lemma SubMadeLeads(n: Net, w: Net, key: string, r: Rec, l: List, q: string)
    requires Valid(n) && SubMade(n, w, key, r, l) && key !in n.paths && q in n.paths
    ensures n.paths[q] in n.lists && Leads(w, q, n.lists[n.paths[q]])
  {
    assert PathOk(n, q);
    SubIsPath(n, key);
    var p := key[..|key| - 1];
    assert key == p + [key[|key| - 1]];
    var rs := n.lists[n.paths[q]];
    forall i | 0 <= i < |rs|
      ensures rs[i] in w.recs && rs[i].owner == q
      ensures w.recs[rs[i]].sub == if q + [rs[i].symb] in w.paths then w.paths[q + [rs[i].symb]] else null
    {
      if q + [rs[i].symb] == key {
        assert q == key[..|key| - 1] && rs[i].symb == key[|key| - 1];
        LookupUnique(rs, i);
      }
    }
  }

  /** Only the value of one record is another. */
  lemma ValueSetIsValid(n: Net, w: Net, r: Rec, v: Option<string>)
    requires Valid(n) && r in n.recs && w == n.(recs := n.recs[r := n.recs[r].(value := v)])
    ensures Valid(w) && forall k {:trigger RecAt(w, k)} :: RecAt(w, k) == RecAt(n, k)
  {
    forall q | q in w.paths
      ensures PathOk(w, q)
    {
      assert PathOk(n, q);
      assert RecAt(w, q) == RecAt(n, q);
    }
  }

  /** Different keys have different records. */
  lemma RecordsDiffer(n: Net, a: string, b: string)
    requires Valid(n) && RecAt(n, a) != null && RecAt(n, a) == RecAt(n, b)
    ensures a == b
  {
    SubIsPath(n, a);
    SubIsPath(n, b);
    assert a == a[..|a| - 1] + [a[|a| - 1]];
    assert b == b[..|b| - 1] + [b[|b| - 1]];
  }

  /** Only the entry for `key` is another. */
  ghost predicate EntrySet(n: Net, w: Net, key: string, e: Entry) {
    forall k {:trigger EntryAt(w, k)} :: EntryAt(w, k) == if k == key then e else EntryAt(n, k)
  }

  ghost predicate SameEntries(n: Net, w: Net) {
    forall k {:trigger EntryAt(w, k)} :: EntryAt(w, k) == EntryAt(n, k)
  }

  lemma AppendedEntries(n: Net, w: Net, p: string, r: Rec)
    requires Valid(n) && Appended(n, w, p, r)
    ensures EntrySet(n, w, p + [r.symb], if r.isData then Word(None) else NoWord)
    ensures RecAt(n, p + [r.symb]) == null
  {
    AppendedRecords(n, w, p, r);
    var key := p + [r.symb];
    assert key[..|key| - 1] == p;
    forall k | k != key
      ensures EntryAt(w, k) == EntryAt(n, k)
    {
      if RecAt(n, k) != null {
        SubIsPath(n, k);
      }
    }
  }

  lemma ReplacedEntries(n: Net, w: Net, p: string, k: nat, x: Rec)
    requires Valid(n) && Replaced(n, w, p, k, x)
    ensures EntrySet(n, w, p + [x.symb], if x.isData then Word(None) else NoWord)
  {
    ReplacedRecords(n, w, p, k, x);
    var key := p + [x.symb];
    forall q | q != key
      ensures EntryAt(w, q) == EntryAt(n, q)
    {
      if RecAt(n, q) != null {
        SubIsPath(n, q);
      }
    }
  }

  lemma SubMadeEntries(n: Net, w: Net, key: string, r: Rec, l: List)
    requires Valid(n) && SubMade(n, w, key, r, l)
    ensures SameEntries(n, w)
  {
    SubIsPath(n, key);
    SubMadeRecords(n, w, key, r, l);
    forall k
      ensures EntryAt(w, k) == EntryAt(n, k)
    {
      if RecAt(n, k) != null {
        SubIsPath(n, k);
      }
    }
  }

  lemma ValueSetEntries(n: Net, w: Net, key: string, v: Option<string>)
    requires Valid(n) && RecAt(n, key) != null && RecAt(n, key).isData && RecAt(n, key) in n.recs
    requires var r := RecAt(n, key); w == n.(recs := n.recs[r := n.recs[r].(value := v)])
    ensures EntrySet(n, w, key, Word(v))
  {
    ValueSetIsValid(n, w, RecAt(n, key), v);
    forall k
      ensures EntryAt(w, k) == if k == key then Word(v) else EntryAt(n, k)
    {
      assert RecAt(w, k) == RecAt(n, k);
      if RecAt(n, k) == RecAt(n, key) {
        RecordsDiffer(n, key, k);
      }
    }
  }
}
