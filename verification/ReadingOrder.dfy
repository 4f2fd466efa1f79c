/** The order of readings: by decreasing probability, and by tag where that is equal. */
module ReadingOrder {
  import opened Strings
  import opened Readings
  import Preferences

  /** No reading belongs before one that it comes after. */
  ghost predicate InPlace(rs: seq<Reading>) {
    forall i, j :: 0 <= i < j < |rs| ==> !Before(rs[j], rs[i])
  }

  lemma NotBeforeIsTransitive(a: Reading, b: Reading, c: Reading)
    requires !Before(b, a) && !Before(c, b)
    ensures !Before(c, a)
  {
    if !Alphabetical(b.tag, a.tag) && !Alphabetical(c.tag, b.tag) {
      Preferences.NotAfterIsTransitive(a.tag, b.tag, c.tag);
    }
  }

  lemma BeforeIsAsymmetric(a: Reading, b: Reading)
    requires Before(a, b)
    ensures !Before(b, a)
  {
    if a.prob == b.prob {
      Preferences.AlphabeticalIsAsymmetric(a.tag, b.tag);
    }
  }

  lemma {:induction false} InsertedAre(rs: seq<Reading>, r: Reading)
    ensures forall x :: x in Insert(rs, r) <==> x in rs || x == r
  {
    if rs != [] && Before(r, rs[|rs| - 1]) {
      InsertedAre(rs[..|rs| - 1], r);
      assert rs == rs[..|rs| - 1] + [rs[|rs| - 1]];
    }
  }

  lemma LastInPlace(rs: seq<Reading>, r: Reading)
    requires InPlace(rs) && forall x :: x in rs ==> !Before(r, x)
    ensures InPlace(rs + [r])
  {
  }

  lemma {:induction false} InsertInPlace(rs: seq<Reading>, r: Reading)
    requires InPlace(rs)
    ensures InPlace(Insert(rs, r))
  {
    if rs == [] {
    } else if Before(r, rs[|rs| - 1]) {
      var front, last := rs[..|rs| - 1], rs[|rs| - 1];
      InsertInPlace(front, r);
      InsertedAre(front, r);
      BeforeIsAsymmetric(r, last);
      LastInPlace(Insert(front, r), last);
    } else {
      var last := rs[|rs| - 1];
      forall x | x in rs
        ensures !Before(r, x)
      {
        if x != last {
          NotBeforeIsTransitive(x, last, r);
        }
      }
      LastInPlace(rs, r);
    }
  }

  /** Sorting leaves readings of equal probability in the order of their tags. */
  lemma {:induction false} SortsByTag(rs: seq<Reading>)
    ensures InPlace(SortReadings(rs))
    ensures forall i, j :: 0 <= i < j < |SortReadings(rs)| && SortReadings(rs)[i].prob == SortReadings(rs)[j].prob ==>
      !Alphabetical(SortReadings(rs)[j].tag, SortReadings(rs)[i].tag)
  {
    if rs != [] {
      SortsByTag(rs[..|rs| - 1]);
      InsertInPlace(SortReadings(rs[..|rs| - 1]), rs[|rs| - 1]);
    }
    var z := SortReadings(rs);
    forall i, j | 0 <= i < j < |z| && z[i].prob == z[j].prob
      ensures !Alphabetical(z[j].tag, z[i].tag)
    {
      assert !Before(z[j], z[i]);
    }
  }
}
