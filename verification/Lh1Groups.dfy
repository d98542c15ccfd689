/**
 Group bookkeeping of the -lh1- tree: a node that gains one hit leaves its group for the group
 on its left, or for a new one.
 */
module Lh1Groups {
  import opened Lh1Tree

  // ----- The free list never runs out -----

  ghost function Elements(s: seq<nat>): set<nat> { set g | g in s }

  lemma {:induction false} ElementsAreNoMore(s: seq<nat>)
    ensures |Elements(s)| <= |s|
  {
    if s != [] {
      ElementsAreNoMore(s[1..]);
      assert Elements(s) == {s[0]} + Elements(s[1..]);
    }
  }

  lemma {:induction false} DistinctImage(f: seq<nat>, from: nat)
    requires from <= |f|
    requires forall a, b :: from <= a < b < |f| ==> f[a] != f[b]
    ensures |set a: nat | from <= a < |f| :: f[a]| == |f| - from
    decreases |f| - from
  {
    var here := set a: nat | from <= a < |f| :: f[a];
    if from == |f| {
      assert here == {};
    } else {
      DistinctImage(f, from + 1);
      var rest := set a: nat | from + 1 <= a < |f| :: f[a];
      assert here == rest + {f[from]};
      assert f[from] !in rest;
    }
  }

  lemma {:induction false} RangeCard(s: set<nat>, n: nat)
    requires forall g: nat :: g in s <==> g < n
    ensures |s| == n
  {
    if n == 0 {
      assert s == {};
    } else {
      RangeCard(s - {n - 1}, n - 1);
    }
  }

  /** Exactly `numGroups` ids are in use. */
  lemma UsedCount(t: Tree)
    requires Sizes(t) && Partitioned(t)
    ensures |UsedIds(t)| == t.numGroups
  {
    DistinctImage(t.groups, t.numGroups);
    RangeCard(UsedIds(t) + FreeIds(t), NUM_TREE_NODES);
    assert |UsedIds(t) + FreeIds(t)| == |UsedIds(t)| + |FreeIds(t)|;
  }

  /** A list with a repetition has fewer elements than entries. */
  lemma RepetitionSaves(s: seq<nat>, i: nat, j: nat)
    requires i < j < |s| && s[i] == s[j]
    ensures |Elements(s)| < |s|
  {
    var others := s[..j] + s[j + 1..];
    forall g | g in Elements(s) ensures g in Elements(others) {
      var k :| 0 <= k < |s| && s[k] == g;
      var m := if k == j then i else k;
      assert others[if m < j then m else m - 1] == g;
    }
    assert Elements(s) <= Elements(others);
    SubsetIsNoMore(Elements(s), Elements(others));
    ElementsAreNoMore(others);
  }

  lemma SubsetIsNoMore(a: set<nat>, b: set<nat>)
    requires a <= b
    ensures |a| <= |b|
  {
    assert b == a + (b - a);
  }

  /** While two nodes share a group an id is free, so the allocation below cannot run out. */
  lemma SharedGroupLeavesRoom(t: Tree, i: nat, j: nat)
    requires Sizes(t) && Partitioned(t) && i < j < NUM_TREE_NODES && SameGroup(t, i, j)
    ensures t.numGroups < NUM_TREE_NODES
  {
    UsedCount(t);
    var ids := seq(NUM_TREE_NODES, k requires 0 <= k < NUM_TREE_NODES => t.nodes[k].group);
    assert Elements(ids) == UsedIds(t) by { IdsAreUsed(t, ids); }
    RepetitionSaves(ids, i, j);
  }

  lemma IdsAreUsed(t: Tree, ids: seq<nat>)
    requires Sizes(t) && |ids| == NUM_TREE_NODES && forall k: nat :: k < NUM_TREE_NODES ==> ids[k] == t.nodes[k].group
    ensures Elements(ids) == UsedIds(t)
  {
    forall g | g in UsedIds(t) ensures g in Elements(ids) {
      var k: nat :| k < NUM_TREE_NODES && t.nodes[k].group == g;
      assert ids[k] == g;
    }
    forall g | g in Elements(ids) ensures g in UsedIds(t) {
      var k :| 0 <= k < |ids| && ids[k] == g;
      assert t.nodes[k].group == g;
    }
  }

  lemma SomeGroupUsed(t: Tree)
    requires Sizes(t) && Partitioned(t)
    ensures t.numGroups > 0
  {
    UsedCount(t);
    assert t.nodes[0].group in UsedIds(t);
  }

  lemma SameIds(t: Tree, u: Tree)
    requires Sizes(t) && Sizes(u) && t.groups == u.groups && t.numGroups == u.numGroups
    requires forall i: nat :: i < NUM_TREE_NODES ==> t.nodes[i].group == u.nodes[i].group
    ensures UsedIds(t) == UsedIds(u) && FreeIds(t) == FreeIds(u)
  {
    forall g | g in UsedIds(t) + UsedIds(u) ensures g in UsedIds(t) && g in UsedIds(u) {
      var k: nat :| k < NUM_TREE_NODES && (t.nodes[k].group == g || u.nodes[k].group == g);
      assert t.nodes[k].group == u.nodes[k].group == g;
    }
  }

  /** Positions have the same frequencies, groups and leaders in both trees. */
  ghost predicate SameGrouping(t: Tree, u: Tree) {
    && Sizes(t) && Sizes(u) && t.groups == u.groups && t.numGroups == u.numGroups && t.leader == u.leader
    && forall i: nat :: i < NUM_TREE_NODES ==> t.nodes[i].group == u.nodes[i].group && t.nodes[i].freq == u.nodes[i].freq
  }

  lemma GroupingCarries(t: Tree, u: Tree)
    requires SameGrouping(t, u) && Grouped(t) && Sorted(t.nodes)
    ensures Grouped(u) && Sorted(u.nodes)
  {
    SameIds(t, u);
    forall i: nat | i < NUM_TREE_NODES ensures Led(u, i) {
      assert Led(t, i);
    }
    forall i: nat, j: nat | i < NUM_TREE_NODES && j < NUM_TREE_NODES
      ensures SameGroup(u, i, j) <==> u.nodes[i].freq == u.nodes[j].freq
    {
      assert SameGroup(t, i, j) <==> t.nodes[i].freq == t.nodes[j].freq;
    }
  }

  // ----- One more hit for the leader of a group -----

  ghost predicate Leading(t: Tree, x: nat) {
    && Sizes(t) && Grouped(t) && Sorted(t.nodes)
    && 1 <= x < NUM_TREE_NODES
    && t.nodes[x].group < NUM_TREE_NODES && t.leader[t.nodes[x].group] == x
  }

  predicate InSharedGroup(t: Tree, x: nat)
    requires x < |t.nodes|
  {
    x + 1 < |t.nodes| && t.nodes[x].group == t.nodes[x + 1].group
  }

  function Bump(t: Tree, x: nat): (u: Tree)
    requires Leading(t, x)
    ensures Sizes(u)
  {
    assert Led(t, x) && Led(t, x - 1);
    var node := t.nodes[x];
    var left := t.nodes[x - 1];
    var joined := t.nodes[x := node.(freq := node.freq + 1, group := left.group)];
    var joins := node.freq + 1 == left.freq;
    if InSharedGroup(t, x) then
      var leader := t.leader[node.group := x + 1];
      if joins then
        t.(nodes := joined, leader := leader)
      else
        SharedGroupLeavesRoom(t, x, x + 1);
        var g := t.groups[t.numGroups];
        assert g in FreeIds(t);
        t.(nodes := t.nodes[x := node.(freq := node.freq + 1, group := g)],
           leader := leader[g := x], numGroups := t.numGroups + 1)
    else if joins then
      SomeGroupUsed(t);
      t.(nodes := joined, groups := t.groups[t.numGroups - 1 := node.group], numGroups := t.numGroups - 1)
    else
      t.(nodes := t.nodes[x := node.(freq := node.freq + 1)])
  }

  lemma BumpKeepsSorted(t: Tree, x: nat)
    requires Leading(t, x)
    ensures Sorted(Bump(t, x).nodes)
  {
    assert Led(t, x);
  }

  lemma BumpKeepsSameGroup(t: Tree, x: nat, j: nat)
    requires Leading(t, x) && j < NUM_TREE_NODES && j != x
    ensures SameGroup(Bump(t, x), x, j) <==> Bump(t, x).nodes[x].freq == Bump(t, x).nodes[j].freq
  {
    BumpKeepsSorted(t, x);
    assert Led(t, x) && Led(t, j);
    assert SameGroup(t, x, j) <==> t.nodes[x].freq == t.nodes[j].freq;
    assert SameGroup(t, x - 1, j) <==> t.nodes[x - 1].freq == t.nodes[j].freq;
    assert t.nodes[j].group in UsedIds(t);
    if x + 1 < NUM_TREE_NODES {
      assert SameGroup(t, x, x + 1) <==> t.nodes[x].freq == t.nodes[x + 1].freq;
    }
    if t.numGroups < NUM_TREE_NODES {
      assert t.groups[t.numGroups] in FreeIds(t);
    }
  }

  lemma BumpKeepsLedSelf(t: Tree, x: nat)
    requires Leading(t, x)
    ensures Led(Bump(t, x), x)
  {
    assert Led(t, x) && Led(t, x - 1);
    assert SameGroup(t, x, x - 1) <==> t.nodes[x].freq == t.nodes[x - 1].freq;
    if t.numGroups < NUM_TREE_NODES {
      assert t.groups[t.numGroups] in FreeIds(t);
    }
  }

  lemma BumpKeepsLedOther(t: Tree, x: nat, i: nat)
    requires Leading(t, x) && i < NUM_TREE_NODES && i != x
    ensures Led(Bump(t, x), i)
  {
    assert Led(t, x) && Led(t, i);
    assert SameGroup(t, x, i) <==> t.nodes[x].freq == t.nodes[i].freq;
    assert t.nodes[i].group in UsedIds(t);
    if SameGroup(t, x, i) {
      BelongsToRun(t, x, i);
    } else if t.numGroups < NUM_TREE_NODES {
      assert t.groups[t.numGroups] in FreeIds(t);
    }
  }

  /** Either an id moves between the two lists or both keep their ids. */
  lemma BumpKeepsPartition(t: Tree, x: nat)
    requires Leading(t, x)
    ensures Partitioned(Bump(t, x))
  {
    var u := Bump(t, x);
    var was := t.nodes[x].group;
    assert Led(t, x) && Led(t, x - 1);
    BumpUsed(t, x);
    if InSharedGroup(t, x) {
      if t.nodes[x].freq + 1 != t.nodes[x - 1].freq {
        SharedGroupLeavesRoom(t, x, x + 1);
        assert t.groups[t.numGroups] in FreeIds(t);
        assert FreeIds(u) == FreeIds(t) - {t.groups[t.numGroups]};
      } else {
        assert FreeIds(u) == FreeIds(t);
      }
    } else if t.nodes[x].freq + 1 == t.nodes[x - 1].freq {
      SomeGroupUsed(t);
      assert u.groups[u.numGroups] == was;
      forall g | g in FreeIds(t) ensures g in FreeIds(u) {
        var a: nat :| t.numGroups <= a < NUM_TREE_NODES && t.groups[a] == g;
        assert u.groups[a] == g;
      }
      assert FreeIds(u) == FreeIds(t) + {was};
      assert forall a :: t.numGroups <= a < NUM_TREE_NODES ==> t.groups[a] in FreeIds(t);
    } else {
      assert FreeIds(u) == FreeIds(t);
    }
  }

  lemma BumpUsed(t: Tree, x: nat)
    requires Leading(t, x)
    ensures var rest := if InSharedGroup(t, x) then UsedIds(t) else UsedIds(t) - {t.nodes[x].group};
            UsedIds(Bump(t, x)) == rest + {Bump(t, x).nodes[x].group}
  {
    var u := Bump(t, x);
    var was := t.nodes[x].group;
    assert Led(t, x) && Led(t, x - 1);
    forall g | g in UsedIds(u) ensures g == u.nodes[x].group || (g in UsedIds(t) && (g != was || InSharedGroup(t, x))) {
      var k: nat :| k < NUM_TREE_NODES && u.nodes[k].group == g;
      if k != x {
        assert t.nodes[k].group == g;
        if g == was {
          BelongsToRun(t, x, k);
        }
      }
    }
    forall g | g in UsedIds(t) && (g != was || InSharedGroup(t, x)) ensures g in UsedIds(u) {
      var k: nat :| k < NUM_TREE_NODES && t.nodes[k].group == g;
      var m := if k == x then x + 1 else k;
      assert u.nodes[m].group == g;
    }
  }

  /** Only the next node can tell whether a leader has company. */
  lemma BelongsToRun(t: Tree, x: nat, k: nat)
    requires Leading(t, x) && k < NUM_TREE_NODES && k != x && SameGroup(t, x, k)
    ensures InSharedGroup(t, x)
  {
    assert Led(t, k) && Led(t, x);
    assert t.nodes[x].freq == t.nodes[k].freq;
    assert SameGroup(t, x, x + 1) <==> t.nodes[x].freq == t.nodes[x + 1].freq;
  }

  lemma BumpKeepsGrouped(t: Tree, x: nat)
    requires Leading(t, x)
    ensures Grouped(Bump(t, x)) && Sorted(Bump(t, x).nodes)
  {
    var u := Bump(t, x);
    BumpKeepsSorted(t, x);
    BumpKeepsPartition(t, x);
    forall i: nat | i < NUM_TREE_NODES ensures Led(u, i) {
      if i == x {
        BumpKeepsLedSelf(t, x);
      } else {
        BumpKeepsLedOther(t, x, i);
      }
    }
    forall i: nat, j: nat | i < NUM_TREE_NODES && j < NUM_TREE_NODES
      ensures SameGroup(u, i, j) <==> u.nodes[i].freq == u.nodes[j].freq
    {
      if i != x && j != x {
        assert SameGroup(t, i, j) <==> t.nodes[i].freq == t.nodes[j].freq;
      } else if i != j {
        BumpKeepsSameGroup(t, x, if i == x then j else i);
      }
    }
  }
}
