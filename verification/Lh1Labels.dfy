/**
 Group numbers for a freshly built -lh1- tree: each run of equal frequencies gets one number,
 counted from the left (rebuilding) or from the right (start of stream).
 */
module Lh1Labels {
  import opened Lh1Tree

  function Freqs(nodes: seq<Node>): (fs: seq<nat>)
    ensures |fs| == |nodes|
  {
    seq(|nodes|, i requires 0 <= i < |nodes| => nodes[i].freq)
  }

  ghost predicate Descending(fs: seq<nat>) {
    forall i, j :: 0 <= i < j < |fs| ==> fs[i] >= fs[j]
  }

  /** How many times the frequency changes on the way from the root to position i. */
  function Rank(fs: seq<nat>, i: nat): (r: nat)
    requires i < |fs|
    ensures r <= i
  {
    if i == 0 then 0 else Rank(fs, i - 1) + if fs[i] == fs[i - 1] then 0 else 1
  }

  /** The leftmost position of the run that i belongs to. */
  function RunStart(fs: seq<nat>, i: nat): (f: nat)
    requires i < |fs|
    ensures f <= i && fs[f] == fs[i] && Rank(fs, f) == Rank(fs, i)
    ensures f > 0 ==> fs[f - 1] != fs[f]
  {
    if i > 0 && fs[i] == fs[i - 1] then RunStart(fs, i - 1) else i
  }

  lemma {:induction false} RankOrder(fs: seq<nat>, i: nat, j: nat)
    requires i <= j < |fs| && Descending(fs)
    ensures Rank(fs, i) <= Rank(fs, j)
    ensures Rank(fs, i) == Rank(fs, j) <==> fs[i] == fs[j]
    decreases j
  {
    if i < j {
      RankOrder(fs, i, j - 1);
    } else if j > 0 {
      RankOrder(fs, j - 1, j - 1);
    }
  }

  lemma {:induction false} RankReaches(fs: seq<nat>, j: nat, g: nat) returns (i: nat)
    requires j < |fs| && g <= Rank(fs, j)
    ensures i <= j && Rank(fs, i) == g
  {
    i := j;
    if g < Rank(fs, j) {
      i := RankReaches(fs, j - 1, g);
    }
  }

  /** The ids after a fresh allocation in order: the low ones used, the rest still on the free list. */
  ghost predicate Fresh(t: Tree, used: nat)
    requires Sizes(t)
  {
    t.numGroups == used && forall a: nat :: a < NUM_TREE_NODES ==> t.groups[a] == a
  }

  /** How many times the frequency changes on the way from position i to the right end. */
  function RankFromRight(fs: seq<nat>, i: nat): (r: nat)
    requires i < |fs|
    ensures r < |fs| - i
    decreases |fs| - i
  {
    if i == |fs| - 1 then 0 else RankFromRight(fs, i + 1) + if fs[i] == fs[i + 1] then 0 else 1
  }

  lemma {:induction false} RanksAddUp(fs: seq<nat>, i: nat)
    requires i < |fs|
    ensures Rank(fs, i) + RankFromRight(fs, i) == Rank(fs, |fs| - 1)
    decreases |fs| - i
  {
    if i < |fs| - 1 { RanksAddUp(fs, i + 1); }
  }

  function Label(fs: seq<nat>, i: nat, fromLeft: bool): nat
    requires i < |fs|
  {
    if fromLeft then Rank(fs, i) else RankFromRight(fs, i)
  }

  ghost predicate LabelledAt(t: Tree, i: nat, fromLeft: bool)
    requires Sizes(t) && i < NUM_TREE_NODES
  {
    && t.nodes[i].group == Label(Freqs(t.nodes), i, fromLeft) < NUM_TREE_NODES
    && t.leader[t.nodes[i].group] == RunStart(Freqs(t.nodes), i)
  }

  ghost predicate Labelled(t: Tree, fromLeft: bool)
    requires Sizes(t)
  {
    && Fresh(t, Rank(Freqs(t.nodes), |t.nodes| - 1) + 1)
    && forall i: nat :: i < NUM_TREE_NODES ==> LabelledAt(t, i, fromLeft)
  }

  lemma LabelRange(fs: seq<nat>, i: nat, fromLeft: bool)
    requires i < |fs| && Descending(fs)
    ensures Label(fs, i, fromLeft) <= Rank(fs, |fs| - 1)
  {
    RanksAddUp(fs, i);
    RankOrder(fs, i, |fs| - 1);
  }

  lemma LabelReached(fs: seq<nat>, g: nat, fromLeft: bool) returns (i: nat)
    requires fs != [] && g <= Rank(fs, |fs| - 1)
    ensures i < |fs| && Label(fs, i, fromLeft) == g
  {
    var last := |fs| - 1;
    i := RankReaches(fs, last, if fromLeft then g else Rank(fs, last) - g);
    RanksAddUp(fs, i);
  }

  lemma LabelledIsPartitioned(t: Tree, fromLeft: bool)
    requires Sizes(t) && Sorted(t.nodes) && Labelled(t, fromLeft)
    ensures Partitioned(t)
  {
    var fs := Freqs(t.nodes);
    var top := Rank(fs, |fs| - 1);
    forall g: nat | g <= top ensures g in UsedIds(t) {
      var i := LabelReached(fs, g, fromLeft);
      assert LabelledAt(t, i, fromLeft);
    }
    forall i: nat | i < NUM_TREE_NODES ensures t.nodes[i].group <= top {
      assert LabelledAt(t, i, fromLeft);
      LabelRange(fs, i, fromLeft);
    }
    forall g: nat | top < g < NUM_TREE_NODES ensures g in FreeIds(t) {
      assert t.groups[g] == g;
    }
  }

  lemma SameLabel(fs: seq<nat>, i: nat, j: nat, fromLeft: bool)
    requires i < |fs| && j < |fs| && Descending(fs)
    ensures Label(fs, i, fromLeft) == Label(fs, j, fromLeft) <==> fs[i] == fs[j]
  {
    RanksAddUp(fs, i);
    RanksAddUp(fs, j);
    if i <= j { RankOrder(fs, i, j); } else { RankOrder(fs, j, i); }
  }

  /** Either way of numbering the runs establishes the group part of the invariant. */
  lemma LabelledIsGrouped(t: Tree, fromLeft: bool)
    requires Sizes(t) && Sorted(t.nodes) && Labelled(t, fromLeft)
    ensures Grouped(t)
  {
    LabelledIsPartitioned(t, fromLeft);
    forall i: nat, j: nat | i < NUM_TREE_NODES && j < NUM_TREE_NODES
      ensures SameGroup(t, i, j) <==> t.nodes[i].freq == t.nodes[j].freq
    {
      assert LabelledAt(t, i, fromLeft) && LabelledAt(t, j, fromLeft);
      SameLabel(Freqs(t.nodes), i, j, fromLeft);
    }
    forall i: nat | i < NUM_TREE_NODES ensures Led(t, i) {
      assert LabelledAt(t, i, fromLeft);
      var f := RunStart(Freqs(t.nodes), i);
      assert SameGroup(t, f, i) <==> t.nodes[f].freq == t.nodes[i].freq;
    }
  }

  // ----- Numbering from the left -----

  /** The leader table after numbering positions 0..i over old contents. */
  function LeadersUpTo(fs: seq<nat>, base: seq<nat>, i: nat): (r: seq<nat>)
    requires i < |fs| <= |base|
    ensures |r| == |base|
    decreases i
  {
    if i == 0 then base[0 := 0]
    else if fs[i] == fs[i - 1] then LeadersUpTo(fs, base, i - 1)
    else LeadersUpTo(fs, base, i - 1)[Rank(fs, i) := i]
  }

  lemma {:induction false} LeadersAreRunStarts(fs: seq<nat>, base: seq<nat>, i: nat, k: nat)
    requires k <= i < |fs| <= |base| && Descending(fs)
    ensures LeadersUpTo(fs, base, i)[Rank(fs, k)] == RunStart(fs, k)
    decreases i
  {
    RankOrder(fs, k, i);
    if i > 0 {
      if k < i {
        LeadersAreRunStarts(fs, base, i - 1, k);
        RankOrder(fs, k, i - 1);
      } else if fs[i] == fs[i - 1] {
        LeadersAreRunStarts(fs, base, i - 1, i - 1);
      }
    }
  }

  // ----- Numbering from the right -----

  /** The leader table after numbering positions i and up, right to left. */
  function LeadersDownTo(fs: seq<nat>, base: seq<nat>, i: nat): (r: seq<nat>)
    requires i <= |fs| <= |base|
    ensures |r| == |base|
    decreases |fs| - i
  {
    if i == |fs| then base else LeadersDownTo(fs, base, i + 1)[RankFromRight(fs, i) := i]
  }

  lemma {:induction false} LeadersDownAreRunStarts(fs: seq<nat>, base: seq<nat>, i: nat, k: nat)
    requires i <= k < |fs| <= |base| && Descending(fs)
    ensures LeadersDownTo(fs, base, i)[RankFromRight(fs, k)] == if RunStart(fs, k) < i then i else RunStart(fs, k)
    decreases |fs| - i
  {
    SameLabel(fs, i, k, false);
    RankOrder(fs, i, k);
    RunStartsLeft(fs, i, k);
    if i < k {
      LeadersDownAreRunStarts(fs, base, i + 1, k);
    }
  }

  /** A run reaches back to every position with its frequency, and no further. */
  lemma {:induction false} RunStartsLeft(fs: seq<nat>, i: nat, k: nat)
    requires i <= k < |fs| && Descending(fs)
    ensures RunStart(fs, k) <= i <==> fs[i] == fs[k]
    decreases k
  {
    if i < k { RunStartsLeft(fs, i, k - 1); }
  }

  /** The left end comes as a variable: on a literal the verifier would unfold the recursion over all nodes. */
  lemma NumberedFromRight(t: Tree, fs: seq<nat>, base: seq<nat>, zero: nat)
    requires Sizes(t) && fs == Freqs(t.nodes) && Descending(fs) && |base| == NUM_TREE_NODES && zero == 0
    requires forall i: nat :: i < NUM_TREE_NODES ==> t.nodes[i].group == RankFromRight(fs, i)
    requires t.leader == LeadersDownTo(fs, base, zero) && Fresh(t, RankFromRight(fs, zero) + 1)
    ensures Labelled(t, false)
  {
    RanksAddUp(fs, zero);
    forall i: nat | i < NUM_TREE_NODES ensures LabelledAt(t, i, false) {
      LeadersDownAreRunStarts(fs, base, zero, i);
    }
  }
}
