/**
 * Insertion-ordered string-keyed maps, the model of a JavaScript `Map`
 * (and of a plain object used as a dictionary with string keys).
 * A map is a sequence of (key, value) pairs; lookups find the first pair
 * with the key, `Set` overwrites that pair in place or appends a new pair,
 * `Delete` removes the key, and iteration is the sequence order. Every map
 * built by `Set` and `Delete` from maps without repeated keys has none
 * (`UniqueKeys`).
 */
module OrderedMap {

  type OMap<V> = seq<(string, V)>

  predicate UniqueKeys<V>(m: OMap<V>) {
    forall i, j :: 0 <= i < j < |m| ==> m[i].0 != m[j].0
  }

  /** The keys in iteration order. */
  function Keys<V>(m: OMap<V>): (ks: seq<string>)
    ensures |ks| == |m|
    ensures forall i :: 0 <= i < |m| ==> ks[i] == m[i].0
  {
    seq(|m|, i requires 0 <= i < |m| => m[i].0)
  }

  /** Position of the first pair with key `k`, or `|m|` when there is none. */
  function Find<V>(m: OMap<V>, k: string): (i: nat)
    ensures i <= |m|
    ensures i < |m| ==> m[i].0 == k
    ensures forall j :: 0 <= j < i ==> m[j].0 != k
  {
    if m == [] then 0
    else if m[0].0 == k then 0
    else 1 + Find(m[1..], k)
  }

  /** `m.has(k)`. */
  predicate Has<V>(m: OMap<V>, k: string) {
    Find(m, k) < |m|
  }

  lemma HasIff<V>(m: OMap<V>, k: string)
    ensures Has(m, k) <==> k in Keys(m)
  {
    if k in Keys(m) {
      var j :| 0 <= j < |m| && Keys(m)[j] == k;
    }
  }

  /** `m.get(k)`. */
  function Get<V>(m: OMap<V>, k: string): V
    requires Has(m, k)
  {
    m[Find(m, k)].1
  }

  /** The unordered view of an ordered map. */
  function ToMap<V>(m: OMap<V>): map<string, V> {
    if m == [] then map[] else ToMap(m[1..])[m[0].0 := m[0].1]
  }

  lemma {:induction false} ToMapLookup<V>(m: OMap<V>, k: string)
    ensures k in ToMap(m) <==> Has(m, k)
    ensures Has(m, k) ==> ToMap(m)[k] == Get(m, k)
  {
    if m != [] && m[0].0 != k {
      ToMapLookup(m[1..], k);
    }
  }

  /** `m.set(k, v)`: overwrite the pair in place, or append a new pair. */
  function Set<V>(m: OMap<V>, k: string, v: V): (r: OMap<V>)
    ensures Has(m, k) ==> |r| == |m| && forall j :: 0 <= j < |m| ==> r[j].0 == m[j].0
    ensures !Has(m, k) ==> r == m + [(k, v)]
  {
    var i := Find(m, k);
    if i < |m| then m[i := (k, v)] else m + [(k, v)]
  }

  lemma {:induction false} SetToMap<V>(m: OMap<V>, k: string, v: V)
    ensures ToMap(Set(m, k, v)) == ToMap(m)[k := v]
  {
    if m == [] {
    } else if m[0].0 == k {
      assert Set(m, k, v) == [(k, v)] + m[1..];
    } else {
      SetToMap(m[1..], k, v);
      assert Set(m, k, v) == [m[0]] + Set(m[1..], k, v);
    }
  }

  lemma {:induction false} SetUnique<V>(m: OMap<V>, k: string, v: V)
    requires UniqueKeys(m)
    ensures UniqueKeys(Set(m, k, v))
  {
  }

  /** The pairs of `m` whose key is not in `ks`, in order. */
  function Without<V>(m: OMap<V>, ks: set<string>): (r: OMap<V>)
    ensures |r| <= |m|
    ensures forall i :: 0 <= i < |r| ==> r[i] in m && r[i].0 !in ks
  {
    if m == [] then []
    else if m[0].0 in ks then Without(m[1..], ks)
    else [m[0]] + Without(m[1..], ks)
  }

  lemma {:induction false} WithoutToMap<V>(m: OMap<V>, ks: set<string>)
    ensures ToMap(Without(m, ks)) == ToMap(m) - ks
  {
    if m != [] {
      WithoutToMap(m[1..], ks);
    }
  }

  lemma {:induction false} WithoutUnique<V>(m: OMap<V>, ks: set<string>)
    requires UniqueKeys(m)
    ensures UniqueKeys(Without(m, ks))
  {
    if m != [] {
      WithoutUnique(m[1..], ks);
      var t := Without(m[1..], ks);
      assert forall i :: 0 <= i < |t| ==> t[i].0 != m[0].0 by {
        forall i | 0 <= i < |t| ensures t[i].0 != m[0].0 {
          var j :| 0 <= j < |m[1..]| && m[1..][j] == t[i];
          assert m[j + 1] == t[i];
        }
      }
    }
  }

  lemma {:induction false} WithoutUnion<V>(m: OMap<V>, a: set<string>, b: set<string>)
    ensures Without(Without(m, a), b) == Without(m, a + b)
  {
    if m != [] {
      WithoutUnion(m[1..], a, b);
    }
  }

  lemma {:induction false} WithoutAbsent<V>(m: OMap<V>, ks: set<string>)
    requires forall i :: 0 <= i < |m| ==> m[i].0 !in ks
    ensures Without(m, ks) == m
  {
    if m != [] {
      WithoutAbsent(m[1..], ks);
      assert m == [m[0]] + m[1..];
    }
  }

  /** `m.delete(k)`: remove key `k`, keeping the order of the other pairs. */
  function Delete<V>(m: OMap<V>, k: string): OMap<V> {
    Without(m, {k})
  }

  /** Every pair of `b` written into `a` with `Set`, in `b`'s order (`for (const [k, v] of b) a.set(k, v)`). */
  function SetAll<V>(a: OMap<V>, b: OMap<V>): OMap<V>
    decreases |b|
  {
    if b == [] then a else SetAll(Set(a, b[0].0, b[0].1), b[1..])
  }

  lemma {:induction false} SetAllToMap<V>(a: OMap<V>, b: OMap<V>)
    requires UniqueKeys(b)
    ensures ToMap(SetAll(a, b)) == ToMap(a) + ToMap(b)
    decreases |b|
  {
    if b != [] {
      SetAllToMap(Set(a, b[0].0, b[0].1), b[1..]);
      SetToMap(a, b[0].0, b[0].1);
      ToMapLookup(b[1..], b[0].0);
    }
  }

  lemma {:induction false} SetAllUnique<V>(a: OMap<V>, b: OMap<V>)
    requires UniqueKeys(a)
    ensures UniqueKeys(SetAll(a, b))
    decreases |b|
  {
    if b != [] {
      SetUnique(a, b[0].0, b[0].1);
      SetAllUnique(Set(a, b[0].0, b[0].1), b[1..]);
    }
  }

  /** After writing `b` in, every pair of `b` is found: `b`'s keys are unique, so no later write hides one. */
  lemma SetAllHolds<V>(a: OMap<V>, b: OMap<V>, i: nat)
    requires UniqueKeys(b) && i < |b|
    ensures Has(SetAll(a, b), b[i].0) && Get(SetAll(a, b), b[i].0) == b[i].1
  {
    var k := b[i].0;
    SetAllToMap(a, b);
    ToMapLookup(b, k);
    ToMapLookup(SetAll(a, b), k);
  }

  /** Writing pairs that a map already holds changes nothing, order included. */
  lemma {:induction false} SetAllFixed<V>(c: OMap<V>, b: OMap<V>)
    requires forall i :: 0 <= i < |b| ==> Has(c, b[i].0) && Get(c, b[i].0) == b[i].1
    ensures SetAll(c, b) == c
    decreases |b|
  {
    if b != [] {
      assert Set(c, b[0].0, b[0].1) == c;
      assert forall i :: 0 <= i < |b[1..]| ==> b[1..][i] == b[i + 1];
      SetAllFixed(c, b[1..]);
    }
  }

  /** Writing the same unique-key pairs twice is writing them once. */
  lemma SetAllTwice<V>(a: OMap<V>, b: OMap<V>)
    requires UniqueKeys(b)
    ensures SetAll(SetAll(a, b), b) == SetAll(a, b)
  {
    forall i | 0 <= i < |b| ensures Has(SetAll(a, b), b[i].0) && Get(SetAll(a, b), b[i].0) == b[i].1 {
      SetAllHolds(a, b, i);
    }
    SetAllFixed(SetAll(a, b), b);
  }

  lemma {:induction false} SetAllAppends<V>(a: OMap<V>, b: OMap<V>)
    requires UniqueKeys(b)
    requires forall i :: 0 <= i < |b| ==> b[i].0 !in Keys(a)
    ensures SetAll(a, b) == a + b
    decreases |b|
  {
    if b != [] {
      var a1 := a + [b[0]];
      SetFresh(a, b[0].0, b[0].1);
      UniqueTail(b);
      SetAllAppends(a1, b[1..]);
      assert a1 + b[1..] == a + b;
    }
  }

  lemma UniqueTail<V>(b: OMap<V>)
    requires UniqueKeys(b) && b != []
    ensures UniqueKeys(b[1..])
    ensures forall i :: 0 <= i < |b| - 1 ==> b[1..][i].0 != b[0].0
  {
    forall i | 0 <= i < |b| - 1 ensures b[1..][i].0 != b[0].0 {
      assert b[1..][i] == b[i + 1];
    }
  }

  /** Setting a key `m` does not hold appends the pair. */
  lemma SetFresh<V>(m: OMap<V>, k: string, v: V)
    requires k !in Keys(m)
    ensures Set(m, k, v) == m + [(k, v)]
    ensures forall x :: x in Keys(m + [(k, v)]) <==> x in Keys(m) || x == k
  {
    HasIff(m, k);
    assert Keys(m + [(k, v)]) == Keys(m) + [k];
  }

  /** `new Map(m)`: a fresh map holding m's pairs, set in order; for a map without repeated keys, a copy. */
  function FromEntries<V>(m: OMap<V>): (r: OMap<V>)
    ensures UniqueKeys(r)
    ensures UniqueKeys(m) ==> r == m
  {
    SetAllUnique([], m);
    if UniqueKeys(m) then SetAllAppends([], m); SetAll([], m) else SetAll([], m)
  }
}
