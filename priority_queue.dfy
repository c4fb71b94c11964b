/**
 * The ready queue of the run engine: a min-priority queue of node ids
 * ordered by the comparator `(a, b) => a.localeCompare(b)` (server.js line
 * 223), modelled as plain lexicographic order on characters. The queue is a
 * sequence kept sorted; `Enqueue` inserts in order and `Dequeue` takes the
 * head, which is a least element.
 */
module PriorityQueue {

  /** Strict lexicographic order on strings. */
  predicate Less(a: string, b: string)
    decreases |a|
  {
    if a == [] then b != []
    else if b == [] then false
    else a[0] < b[0] || (a[0] == b[0] && Less(a[1..], b[1..]))
  }

  lemma {:induction false} LessIrreflexive(a: string)
    ensures !Less(a, a)
    decreases |a|
  {
    if a != [] {
      LessIrreflexive(a[1..]);
    }
  }

  lemma {:induction false} LessTransitive(a: string, b: string, c: string)
    requires Less(a, b) && Less(b, c)
    ensures Less(a, c)
    decreases |a|
  {
    if a != [] && b != [] && c != [] && a[0] == b[0] && b[0] == c[0] {
      LessTransitive(a[1..], b[1..], c[1..]);
    }
  }

  lemma {:induction false} LessTotal(a: string, b: string)
    ensures a == b || Less(a, b) || Less(b, a)
    decreases |a|
  {
    if a != [] && b != [] && a[0] == b[0] {
      LessTotal(a[1..], b[1..]);
      if a[1..] == b[1..] {
        assert a == [a[0]] + a[1..] && b == [b[0]] + b[1..];
      }
    }
  }

  lemma {:induction false} LessAsymmetric(a: string, b: string)
    requires Less(a, b)
    ensures !Less(b, a)
  {
    if Less(b, a) {
      LessTransitive(a, b, a);
      LessIrreflexive(a);
    }
  }

  /** No element is strictly smaller than one before it. */
  predicate Sorted(q: seq<string>) {
    forall i, j :: 0 <= i < j < |q| ==> !Less(q[j], q[i])
  }

  /** `queue.queue(x)`. */
  function Enqueue(q: seq<string>, x: string): (r: seq<string>)
    requires Sorted(q)
    ensures Sorted(r)
    ensures multiset(r) == multiset(q) + multiset{x}
    ensures |r| == |q| + 1
  {
    if q == [] then [x]
    else if Less(x, q[0]) then
      assert forall j :: 0 <= j < |q| ==> !Less(q[j], x) by {
        forall j | 0 <= j < |q| ensures !Less(q[j], x) {
          if Less(q[j], x) {
            LessTransitive(q[j], x, q[0]);
            if j == 0 { LessIrreflexive(q[0]); }
          }
        }
      }
      [x] + q
    else
      var r := [q[0]] + Enqueue(q[1..], x);
      assert q == [q[0]] + q[1..];
      assert forall j :: 1 <= j < |r| ==> r[j] in multiset(q[1..]) + multiset{x} by {
        forall j | 1 <= j < |r| ensures r[j] in multiset(q[1..]) + multiset{x} {
          assert r[j] in Enqueue(q[1..], x);
        }
      }
      assert forall j :: 1 <= j < |r| ==> !Less(r[j], q[0]) by {
        forall j | 1 <= j < |r| ensures !Less(r[j], q[0]) {
          assert r[j] in multiset(q[1..]) + multiset{x};
          if r[j] != x {
            var k :| 0 <= k < |q[1..]| && q[1..][k] == r[j];
            assert q[k + 1] == r[j];
          }
        }
      }
      r
  }

  /** The head of a sorted queue is a least element: no queued id is strictly smaller. */
  lemma HeadIsLeast(q: seq<string>)
    requires Sorted(q) && q != []
    ensures forall y :: y in q ==> !Less(y, q[0])
  {
    forall y | y in q ensures !Less(y, q[0]) {
      var j :| 0 <= j < |q| && q[j] == y;
      if j == 0 { LessIrreflexive(y); }
    }
  }

  /** Two sorted sequences of the same elements start with the same least element. */
  lemma SortedHeads(p: seq<string>, q: seq<string>)
    requires Sorted(p) && Sorted(q) && p != [] && q != []
    requires p[0] in q && q[0] in p
    ensures p[0] == q[0]
  {
    HeadIsLeast(p);
    HeadIsLeast(q);
    LessTotal(p[0], q[0]);
  }

  /** A queue is fixed by what it holds: two sorted sequences of the same elements are equal. */
  lemma {:induction false} SortedUnique(p: seq<string>, q: seq<string>)
    requires Sorted(p) && Sorted(q) && multiset(p) == multiset(q)
    ensures p == q
    decreases |p|
  {
    if p != [] {
      assert |q| == |p| by {
        assert |multiset(q)| == |q| && |multiset(p)| == |p|;
      }
      assert p[0] in multiset(q) && q[0] in multiset(p);
      SortedHeads(p, q);
      var p', q' := p[1..], q[1..];
      assert p == [p[0]] + p' && q == [q[0]] + q';
      assert multiset(p') == multiset(q') by {
        assert multiset(p) == multiset{p[0]} + multiset(p');
        assert multiset(q) == multiset{p[0]} + multiset(q');
        forall x ensures multiset(p')[x] == multiset(q')[x] {
          assert multiset(p)[x] == multiset{p[0]}[x] + multiset(p')[x];
          assert multiset(q)[x] == multiset{p[0]}[x] + multiset(q')[x];
        }
      }
      SortedUnique(p', q');
    }
  }

  /** `queue.dequeue()` on a non-empty queue: the least id and the rest. */
  function Dequeue(q: seq<string>): (r: (string, seq<string>))
    requires Sorted(q) && q != []
    ensures forall y :: y in q ==> !Less(y, r.0)
    ensures multiset(q) == multiset{r.0} + multiset(r.1)
    ensures Sorted(r.1)
  {
    HeadIsLeast(q);
    assert q == [q[0]] + q[1..];
    (q[0], q[1..])
  }
}
