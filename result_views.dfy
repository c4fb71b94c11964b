/**
 * The two derived views of a stored run result (backend/server.js lines
 * 471-533), computed over its `node_results` map in key order:
 * the leaf outputs (the nodes whose level is the largest level seen, the
 * largest starting at 0) and the level-wise view (nodes with a level grouped
 * by it, groups in ascending level order).
 */
module ResultViews {
  import opened OrderedMap
  import opened RunRecords

  /** The results of a run, keyed by node id. */
  type Results = OMap<NodeResult>

  /** Some node of `rs` has level `l`. */
  predicate HasLevel(rs: Results, l: int) {
    exists i :: 0 <= i < |rs| && rs[i].1.level == Some(l)
  }

  /**
   * The value `maxLevel` ends with (lines 477-483): it starts at 0 and is raised
   * to every larger level; a null level is never larger (JavaScript `null > n`
   * compares 0 with n, and n is at least 0 here).
   */
  function MaxLevel(rs: Results): (m: int)
    ensures m >= 0
    ensures forall i :: 0 <= i < |rs| && rs[i].1.level.Some? ==> rs[i].1.level.value <= m
    ensures m == 0 || HasLevel(rs, m)
  {
    if rs == [] then 0
    else
      var front := rs[..|rs| - 1];
      var last := rs[|rs| - 1];
      var m := MaxLevel(front);
      assert forall i :: 0 <= i < |front| ==> rs[i] == front[i];
      if last.1.level.Some? && last.1.level.value > m then last.1.level.value else m
  }

  /** The entries of `rs` whose level is `l`, in key order. */
  function AtLevel(rs: Results, l: int): (r: Results)
    ensures forall x :: x in r <==> x in rs && x.1.level == Some(l)
    ensures |r| <= |rs|
  {
    if rs == [] then []
    else
      var front := rs[..|rs| - 1];
      var last := rs[|rs| - 1];
      assert rs == front + [last];
      AtLevel(front, l) + (if last.1.level == Some(l) then [last] else [])
  }

  lemma MaxLevelSnoc(rs: Results, k: nat)
    requires k < |rs|
    ensures MaxLevel(rs[..k + 1]) ==
            if rs[k].1.level.Some? && rs[k].1.level.value > MaxLevel(rs[..k]) then rs[k].1.level.value else MaxLevel(rs[..k])
  {
    assert rs[..k + 1][..k] == rs[..k];
  }

  lemma AtLevelSnoc(rs: Results, k: nat, l: int)
    requires k < |rs|
    ensures AtLevel(rs[..k + 1], l) == AtLevel(rs[..k], l) + (if rs[k].1.level == Some(l) then [rs[k]] else [])
  {
    assert rs[..k + 1][..k] == rs[..k];
  }

  /** The leaf outputs: each node at the largest level, with its data_out, in key order. */
  function Leaves(rs: Results): (r: seq<(NodeId, DataMap)>)
  {
    var deepest := AtLevel(rs, MaxLevel(rs));
    seq(|deepest|, i requires 0 <= i < |deepest| => (deepest[i].0, deepest[i].1.dataOut))
  }

  /** The first loop of the leaf-outputs handler (lines 477-483). */
  method ComputeMaxLevel(rs: Results) returns (maxLevel: int)
    ensures maxLevel == MaxLevel(rs)
  {
    maxLevel := 0;
    var k := 0;
    while k < |rs|
      invariant 0 <= k <= |rs|
      invariant maxLevel == MaxLevel(rs[..k])
    {
      MaxLevelSnoc(rs, k);
      var level := rs[k].1.level;
      if level.Some? && level.value > maxLevel {
        maxLevel := level.value;
      }
      k := k + 1;
    }
    assert rs[..k] == rs;
  }

  /** `GET /graphs/leaf-outputs/:runId` (lines 477-494). */
  method LeafOutputs(rs: Results) returns (out: seq<(NodeId, DataMap)>)
    ensures out == Leaves(rs)
  {
    var maxLevel := ComputeMaxLevel(rs);
    out := [];
    ghost var picked: Results := [];
    var k := 0;
    while k < |rs|
      invariant 0 <= k <= |rs|
      invariant picked == AtLevel(rs[..k], maxLevel)
      invariant |out| == |picked|
      invariant forall i :: 0 <= i < |out| ==> out[i] == (picked[i].0, picked[i].1.dataOut)
    {
      AtLevelSnoc(rs, k, maxLevel);
      if rs[k].1.level == Some(maxLevel) {
        out := out + [(rs[k].0, rs[k].1.dataOut)];
        picked := picked + [rs[k]];
      }
      k := k + 1;
    }
    assert rs[..k] == rs;
  }

  /**
   * The leaf outputs are exactly the nodes at the largest level: every reported
   * node has that level, no node has a larger one, and every node at that level
   * is reported.
   */
  lemma LeavesAreDeepest(rs: Results)
    ensures forall i :: 0 <= i < |Leaves(rs)| ==>
              exists j :: 0 <= j < |rs| && rs[j].0 == Leaves(rs)[i].0 && rs[j].1.dataOut == Leaves(rs)[i].1 &&
                          rs[j].1.level == Some(MaxLevel(rs))
    ensures forall j :: 0 <= j < |rs| && rs[j].1.level == Some(MaxLevel(rs)) ==>
              (rs[j].0, rs[j].1.dataOut) in Leaves(rs)
  {
    var deepest := AtLevel(rs, MaxLevel(rs));
    forall i | 0 <= i < |Leaves(rs)|
      ensures exists j :: 0 <= j < |rs| && rs[j].0 == Leaves(rs)[i].0 && rs[j].1.dataOut == Leaves(rs)[i].1 &&
                          rs[j].1.level == Some(MaxLevel(rs))
    {
      assert deepest[i] in deepest;
      var j :| 0 <= j < |rs| && rs[j] == deepest[i];
    }
    forall j | 0 <= j < |rs| && rs[j].1.level == Some(MaxLevel(rs))
      ensures (rs[j].0, rs[j].1.dataOut) in Leaves(rs)
    {
      assert rs[j] in deepest;
      var i :| 0 <= i < |deepest| && deepest[i] == rs[j];
      assert Leaves(rs)[i] == (rs[j].0, rs[j].1.dataOut);
    }
  }

  /** As soon as some node has a level of 0 or more, there is at least one leaf output. */
  lemma {:induction false} LeavesNonEmpty(rs: Results, j: nat)
    requires j < |rs| && rs[j].1.level.Some? && rs[j].1.level.value >= 0
    ensures |Leaves(rs)| > 0
  {
    var m := MaxLevel(rs);
    if m == 0 {
      assert rs[j] in AtLevel(rs, m);
    } else {
      var i :| 0 <= i < |rs| && rs[i].1.level == Some(m);
      assert rs[i] in AtLevel(rs, m);
    }
  }

  predicate Increasing(s: seq<int>) {
    forall i, j :: 0 <= i < j < |s| ==> s[i] < s[j]
  }

  /** One step of the numeric `sort((a, b) => a - b)` of the level keys: `x` put in its place. */
  function InsertSorted(s: seq<int>, x: int): (r: seq<int>)
    requires Increasing(s)
    ensures Increasing(r)
    ensures forall y :: y in r <==> y in s || y == x
  {
    if s == [] then [x]
    else if x < s[0] then
      assert forall j :: 0 <= j < |s| ==> x < s[j];
      [x] + s
    else if x == s[0] then s
    else
      var rest := InsertSorted(s[1..], x);
      assert forall y :: y in rest ==> s[0] < y by {
        assert forall j :: 1 <= j < |s| ==> s[0] < s[j];
      }
      assert forall j :: 0 <= j < |rest| ==> rest[j] in rest;
      [s[0]] + rest
  }

  /** The groups of lines 522-527: (level, the nodes at that level). */
  type Group = (int, Results)

  /**
   * What the level-wise view promises: the groups are in strictly ascending
   * level order, there is a group for exactly the levels some node has, and each
   * group holds the nodes at its level in key order.
   */
  ghost predicate LevelView(rs: Results, out: seq<Group>) {
    && (forall i, j :: 0 <= i < j < |out| ==> out[i].0 < out[j].0)
    && (forall l :: (exists i :: 0 <= i < |out| && out[i].0 == l) <==> HasLevel(rs, l))
    && (forall i :: 0 <= i < |out| ==> out[i].1 == AtLevel(rs, out[i].0))
  }

  /** The `levels` dictionary after the first k node results (lines 507-519). */
  ghost predicate GroupedUpTo(rs: Results, k: nat, levels: map<int, Results>, seen: seq<int>)
    requires k <= |rs|
  {
    && (forall l :: l in levels <==> HasLevel(rs[..k], l))
    && (forall l :: l in levels ==> levels[l] == AtLevel(rs[..k], l))
    && (forall l :: l in seen <==> l in levels)
  }

  lemma HasLevelSnoc(rs: Results, k: nat)
    requires k < |rs|
    ensures forall l :: HasLevel(rs[..k + 1], l) <==> HasLevel(rs[..k], l) || rs[k].1.level == Some(l)
  {
    forall l ensures HasLevel(rs[..k + 1], l) <==> HasLevel(rs[..k], l) || rs[k].1.level == Some(l) {
      if HasLevel(rs[..k + 1], l) {
        var i :| 0 <= i < k + 1 && rs[..k + 1][i].1.level == Some(l);
        if i < k {
          assert rs[..k][i].1.level == Some(l);
        }
      }
      if HasLevel(rs[..k], l) {
        var i :| 0 <= i < k && rs[..k][i].1.level == Some(l);
        assert rs[..k + 1][i].1.level == Some(l);
      }
      if rs[k].1.level == Some(l) {
        assert rs[..k + 1][k].1.level == Some(l);
      }
    }
  }

  lemma {:induction false} AtLevelAbsent(rs: Results, l: int)
    requires !HasLevel(rs, l)
    ensures AtLevel(rs, l) == []
  {
    if rs != [] {
      var front := rs[..|rs| - 1];
      assert !HasLevel(front, l) by {
        forall i | 0 <= i < |front| ensures front[i].1.level != Some(l) {
          assert front[i] == rs[i];
        }
      }
      AtLevelAbsent(front, l);
    }
  }

  lemma GroupStep(rs: Results, k: nat, levels: map<int, Results>, seen: seq<int>,
                  levels': map<int, Results>, seen': seq<int>)
    requires k < |rs| && GroupedUpTo(rs, k, levels, seen)
    requires rs[k].1.level.None? ==> levels' == levels && seen' == seen
    requires rs[k].1.level.Some? ==>
               var l := rs[k].1.level.value;
               && seen' == (if l in levels then seen else seen + [l])
               && levels' == levels[l := (if l in levels then levels[l] else []) + [rs[k]]]
    ensures GroupedUpTo(rs, k + 1, levels', seen')
  {
    HasLevelSnoc(rs, k);
    assert forall l :: l in levels' <==> HasLevel(rs[..k + 1], l);
    assert forall l :: l in seen' <==> l in levels';
    forall l | l in levels' ensures levels'[l] == AtLevel(rs[..k + 1], l) {
      AtLevelSnoc(rs, k, l);
      if l !in levels {
        AtLevelAbsent(rs[..k], l);
      }
    }
  }

  /** `GET /graphs/level-wise/:runId` (lines 507-529). */
  method LevelWise(rs: Results) returns (out: seq<Group>)
    ensures LevelView(rs, out)
  {
    var levels: map<int, Results> := map[];
    var seen: seq<int> := [];
    var k := 0;
    while k < |rs|
      invariant 0 <= k <= |rs|
      invariant GroupedUpTo(rs, k, levels, seen)
    {
      var level := rs[k].1.level;
      ghost var levels0, seen0 := levels, seen;
      if level.Some? && level.value !in levels {
        levels := levels[level.value := []];
        seen := seen + [level.value];
      }
      if level.Some? {
        levels := levels[level.value := levels[level.value] + [rs[k]]];
      }
      GroupStep(rs, k, levels0, seen0, levels, seen);
      k := k + 1;
    }
    assert rs[..k] == rs;
    var sorted: seq<int> := [];
    var j := 0;
    while j < |seen|
      invariant 0 <= j <= |seen|
      invariant Increasing(sorted)
      invariant forall l :: l in sorted <==> l in seen[..j]
    {
      assert seen[..j + 1] == seen[..j] + [seen[j]];
      sorted := InsertSorted(sorted, seen[j]);
      j := j + 1;
    }
    assert seen[..j] == seen;
    forall i | 0 <= i < |sorted| ensures sorted[i] in levels {
      assert sorted[i] in sorted;
    }
    out := [];
    j := 0;
    while j < |sorted|
      invariant 0 <= j <= |sorted|
      invariant |out| == j
      invariant forall i :: 0 <= i < j ==> out[i] == (sorted[i], levels[sorted[i]])
    {
      out := out + [(sorted[j], levels[sorted[j]])];
      j := j + 1;
    }
    forall l | HasLevel(rs, l) ensures exists i :: 0 <= i < |out| && out[i].0 == l {
      assert l in sorted;
      var i :| 0 <= i < |sorted| && sorted[i] == l;
      assert out[i].0 == l;
    }
  }

  /** Every node with a level is in exactly one group, and a node with a null level is in none. */
  lemma LevelViewPartition(rs: Results, out: seq<Group>, x: (NodeId, NodeResult))
    requires LevelView(rs, out)
    requires x in rs
    ensures x.1.level.None? ==> forall i :: 0 <= i < |out| ==> x !in out[i].1
    ensures x.1.level.Some? ==>
              exists i :: 0 <= i < |out| && x in out[i].1 && forall j :: 0 <= j < |out| && j != i ==> x !in out[j].1
  {
    if x.1.level.Some? {
      var l := x.1.level.value;
      var n :| 0 <= n < |rs| && rs[n] == x;
      assert HasLevel(rs, l);
      var i :| 0 <= i < |out| && out[i].0 == l;
      assert x in out[i].1;
      forall j | 0 <= j < |out| && j != i ensures x !in out[j].1 {
        assert out[j].0 != l;
      }
    }
  }
}
