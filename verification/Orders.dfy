/** The alphabetical order, and what sorting by preference leaves in front of what. */
module Orders {
  import opened Strings
  import opened Preferences

  /** The strings part at place `k`: one ends there, or has the smaller character. */
  predicate PartAt(a: string, b: string, k: nat) {
    k <= |a| && k < |b| && a[..k] == b[..k] && (k == |a| || a[k] < b[k])
  }

  lemma {:induction false} AlphabeticalIff(a: string, b: string)
    ensures Alphabetical(a, b) <==> exists k: nat :: PartAt(a, b, k)
    decreases |a|
  {
    if a != "" && b != "" && a[0] == b[0] {
      AlphabeticalIff(a[1..], b[1..]);
      if Alphabetical(a[1..], b[1..]) {
        var k: nat :| PartAt(a[1..], b[1..], k);
        assert a[..k + 1] == [a[0]] + a[1..][..k] && b[..k + 1] == [b[0]] + b[1..][..k];
        assert PartAt(a, b, k + 1);
      }
      if k: nat :| PartAt(a, b, k) {
        assert k > 0;
        assert a[1..][..k - 1] == a[..k][1..] && b[1..][..k - 1] == b[..k][1..];
        assert PartAt(a[1..], b[1..], k - 1);
      }
    } else if Alphabetical(a, b) {
      assert PartAt(a, b, 0);
    }
  }

  /** In a sorted list no string comes after one that it is preferred to; and strings without preference
      between them are in alphabetical order. */
  lemma SortedMeans(ls: seq<string>, pref: Prefs, i: nat, j: nat)
    requires Sorted(ls, pref) && i < j < |ls|
    ensures !(ls[j] in pref.Keys && pref[ls[j]] == ls[i])
    ensures !(ls[i] in pref.Keys && pref[ls[i]] == ls[j]) ==> !exists k: nat :: PartAt(ls[j], ls[i], k)
  {
    assert !Less(ls[j], ls[i], pref);
    AlphabeticalIff(ls[j], ls[i]);
  }
}
