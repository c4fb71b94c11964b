/**
 * Sequences of ids read as sets: repeat-freedom, the set of elements, and
 * the cardinality facts the validator and the run engine need.
 */
module Collections {

  predicate Distinct(s: seq<string>) {
    forall i, j :: 0 <= i < j < |s| ==> s[i] != s[j]
  }

  function Elems(s: seq<string>): set<string> {
    set x | x in s
  }

  lemma {:induction false} DistinctCard(s: seq<string>)
    requires Distinct(s)
    ensures |Elems(s)| == |s|
  {
    if s != [] {
      DistinctCard(s[1..]);
      assert Elems(s) == {s[0]} + Elems(s[1..]);
      assert s[0] !in Elems(s[1..]);
    }
  }

  lemma {:induction false} RepeatCard(s: seq<string>)
    requires !Distinct(s)
    ensures |Elems(s)| < |s|
  {
    var i, j :| 0 <= i < j < |s| && s[i] == s[j];
    var t := s[..j] + s[j + 1..];
    assert Elems(s) == Elems(t) by {
      assert s == s[..j] + [s[j]] + s[j + 1..];
      assert s[j] == t[i];
    }
    CardAtMostLength(t);
  }

  lemma {:induction false} CardAtMostLength(s: seq<string>)
    ensures |Elems(s)| <= |s|
  {
    if s != [] {
      CardAtMostLength(s[1..]);
      assert Elems(s) == {s[0]} + Elems(s[1..]);
    }
  }

  lemma DistinctConcat(a: seq<string>, b: seq<string>)
    requires Distinct(a) && Distinct(b)
    requires forall x :: x in b ==> x !in a
    ensures Distinct(a + b)
  {
    forall i, j | 0 <= i < j < |a + b| ensures (a + b)[i] != (a + b)[j] {
      if i < |a| && j >= |a| {
        assert (a + b)[j] in b;
      }
    }
  }

  lemma SubsetCard(a: set<string>, b: set<string>)
    requires a <= b
    ensures |a| <= |b|
  {
    assert b == a + (b - a);
  }

  lemma StrictSubsetCard(a: set<string>, b: set<string>)
    requires a < b
    ensures |a| < |b|
  {
    assert exists y :: y in b && y !in a;
    var x :| x in b && x !in a;
    assert b == a + (b - a);
    SubsetCard({x}, b - a);
  }

  lemma ExistsOutside(a: set<string>, b: set<string>)
    requires |a| < |b|
    ensures exists y :: y in b && y !in a
  {
    SubsetCard(b * a, a);
    assert b == (b * a) + (b - a);
    assert |b - a| > 0;
    var y :| y in b - a;
  }

  lemma SameSize(a: set<string>, b: set<string>)
    requires a <= b && |a| == |b|
    ensures a == b
  {
    assert b == a + (b - a);
    assert |b - a| == 0;
  }

  /** A repeat-free sequence drawn from a finite set is no longer than the set. */
  lemma DistinctWithin(s: seq<string>, r: set<string>)
    requires Distinct(s) && Elems(s) <= r
    ensures |s| <= |r|
  {
    DistinctCard(s);
    SubsetCard(Elems(s), r);
  }
}
