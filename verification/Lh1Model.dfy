/**
 The -lh1- code tree over a whole stream: the tree at the start, the rebuilt tree, and what
 counting any sequence of codes keeps.
 */
module Lh1Model {
  import opened Lh1Tree
  import opened Lh1Climb
  import opened Lh1Labels
  import opened Lh1Rebuild
  import opened Lh1Paths

  /** The invariant between two codes. */
  ghost predicate TreeOk(t: Tree) {
    Climbing(t, 0) && t.nodes[0].freq <= TREE_REORDER_LIMIT
  }

  // ----- The rebuilt tree -----

  function StartMerge(t: Tree): (s: Merge)
    requires Climbing(t, 0)
    ensures Counts(s)
  {
    GatherGivesAllLeaves(t);
    Merge(Gather(t.nodes), [], [], t.leafNodes)
  }

  /** Position p of the merged list, with the branch that took p's pair as its parent. */
  function Position(s: Merge, p: nat): Node
    requires Counts(s) && |s.built| == NUM_TREE_NODES && p < NUM_TREE_NODES
    requires |s.at| == NUM_CODES - 1
  {
    var it := s.built[LAST - p];
    var above := if p == 0 then 0 else s.at[(LAST - p) / 2];
    Node(it.leaf, it.child, if p == 0 || above > LAST then 0 else LAST - above, it.freq, 0)
  }

  function Positions(s: Merge): (ns: seq<Node>)
    requires Counts(s) && |s.built| == NUM_TREE_NODES && |s.at| == NUM_CODES - 1
    ensures |ns| == NUM_TREE_NODES
  {
    seq(NUM_TREE_NODES, p requires 0 <= p < NUM_TREE_NODES => Position(s, p))
  }

  function Numbered(ns: seq<Node>): (r: seq<Node>)
    ensures |r| == |ns| && Freqs(r) == Freqs(ns)
  {
    var r := seq(|ns|, p requires 0 <= p < |ns| => ns[p].(group := Rank(Freqs(ns), p)));
    assert Freqs(r) == Freqs(ns);
    r
  }

  function Rebuild(t: Tree): Tree
    requires Climbing(t, 0)
  {
    var s := MergeAll(StartMerge(t));
    var ns := Positions(s);
    Tree(Numbered(ns), s.leafNodes, seq(NUM_TREE_NODES, i => i),
         Rank(Freqs(ns), |ns| - 1) + 1, LeadersUpTo(Freqs(ns), t.leader, |ns| - 1))
  }

  lemma StartMerging(t: Tree)
    requires Climbing(t, 0)
    ensures Merging(HalvedFreqs(t), StartMerge(t)) && RoundDone(StartMerge(t))
  {
    GatherGivesAllLeaves(t);
    forall c: nat | c < NUM_CODES ensures CodeKept(StartMerge(t), c) {
      assert HasCode(Gather(t.nodes), c);
    }
  }

  /** Position k of u is the merged item for it, up to the group number. */
  ghost predicate Assembled(s: Merge, u: Tree, k: nat)
    requires Counts(s) && |s.built| == NUM_TREE_NODES && |s.at| == NUM_CODES - 1
    requires Sizes(u) && k < NUM_TREE_NODES
  {
    u.nodes[k] == Position(s, k).(group := u.nodes[k].group)
  }

  ghost predicate AssembledFrom(h: seq<nat>, s: Merge, u: Tree) {
    && Merging(h, s) && |s.built| == NUM_TREE_NODES && |s.at| == NUM_CODES - 1
    && Sizes(u) && u.leafNodes == s.leafNodes
    && forall k: nat :: k < NUM_TREE_NODES ==> Assembled(s, u, k)
  }

  lemma AssembledSorted(h: seq<nat>, s: Merge, u: Tree)
    requires AssembledFrom(h, s, u)
    ensures Sorted(u.nodes)
  {
    forall i: nat, j: nat | i <= j < NUM_TREE_NODES ensures u.nodes[i].freq >= u.nodes[j].freq >= 1 {
      assert Assembled(s, u, i) && Assembled(s, u, j);
      assert s.built[LAST - j].freq <= s.built[LAST - i].freq;
    }
  }

  lemma AssembledDown(h: seq<nat>, s: Merge, u: Tree, p: nat)
    requires AssembledFrom(h, s, u) && p < NUM_TREE_NODES
    ensures PointsDown(u, p) && Exceeds(u, p, 0)
  {
    assert ItemOk(h, s, LAST - p) && Assembled(s, u, p);
    var it := s.built[LAST - p];
    if !it.leaf {
      var j := (LAST - it.child) / 2;
      assert it.child == LAST - 2 * j;
      assert BranchOk(s, j);
      assert Assembled(s, u, it.child) && Assembled(s, u, it.child - 1);
      assert (LAST - (it.child - 1)) / 2 == j;
    }
  }

  lemma AssembledUp(h: seq<nat>, s: Merge, u: Tree, p: nat)
    requires AssembledFrom(h, s, u) && p < NUM_TREE_NODES
    ensures PointsUp(u, p)
  {
    assert Assembled(s, u, p);
    if p > 0 {
      var j := (LAST - p) / 2;
      assert BranchOk(s, j);
      assert Assembled(s, u, LAST - s.at[j]);
      assert PairTop(p) == LAST - 2 * j;
    }
  }

  lemma RebuiltIsAssembled(t: Tree)
    requires Climbing(t, 0)
    ensures AssembledFrom(HalvedFreqs(t), MergeAll(StartMerge(t)), Rebuild(t))
  {
    StartMerging(t);
    MergeAllKeeps(HalvedFreqs(t), StartMerge(t));
  }

  lemma RebuiltIsGrouped(t: Tree)
    requires Climbing(t, 0)
    ensures Sizes(Rebuild(t)) && Sorted(Rebuild(t).nodes) && Grouped(Rebuild(t))
  {
    RebuiltIsAssembled(t);
    var s, u := MergeAll(StartMerge(t)), Rebuild(t);
    AssembledSorted(HalvedFreqs(t), s, u);
    var fs := Freqs(Positions(s));
    assert Freqs(u.nodes) == fs;
    forall i, j | 0 <= i < j < |fs| ensures fs[i] >= fs[j] {
      assert u.nodes[i].freq >= u.nodes[j].freq;
    }
    forall i: nat | i < NUM_TREE_NODES ensures LabelledAt(u, i, true) {
      LeadersAreRunStarts(fs, t.leader, |fs| - 1, i);
    }
    LabelledIsGrouped(u, true);
  }

  /** The rebuilt tree satisfies the invariant and every code keeps its leaf, with half its frequency rounded up. */
  lemma RebuildKeepsTree(t: Tree)
    requires Climbing(t, 0)
    ensures Climbing(Rebuild(t), 0)
    ensures forall c: nat :: c < NUM_CODES ==> CodeFreq(Rebuild(t), c) == Halve(CodeFreq(t, c))
  {
    var h := HalvedFreqs(t);
    var s, u := MergeAll(StartMerge(t)), Rebuild(t);
    RebuiltIsAssembled(t);
    RebuiltIsGrouped(t);
    forall k: nat | k < NUM_TREE_NODES ensures PointsDown(u, k) && PointsUp(u, k) && Exceeds(u, k, Excess(0, k)) {
      AssembledDown(h, s, u, k);
      AssembledUp(h, s, u, k);
    }
    forall c: nat | c < NUM_CODES ensures CodeAt(u, c) && u.nodes[u.leafNodes[c]].freq == Halve(CodeFreq(t, c)) {
      assert CodeKept(s, c);
      assert ItemOk(h, s, LAST - u.leafNodes[c]) && Assembled(s, u, u.leafNodes[c]);
    }
  }

  lemma {:induction false} HalvingTotals(t: Tree, u: Tree, k: nat)
    requires Shape(t) && Shape(u) && k <= NUM_CODES
    requires forall c: nat :: c < NUM_CODES ==> CodeFreq(u, c) == Halve(CodeFreq(t, c))
    ensures 2 * TotalHits(u, k) <= TotalHits(t, k) + k
    decreases k
  {
    if k > 0 { HalvingTotals(t, u, k - 1); }
  }

  /** The number of codes comes as a variable, so that sums over all codes are not unfolded as on a literal. */
  lemma RebuiltRoot(t: Tree, all: nat)
    requires Climbing(t, 0) && all == NUM_CODES
    ensures Climbing(Rebuild(t), 0)
    ensures 2 * Rebuild(t).nodes[0].freq <= t.nodes[0].freq + all
  {
    RebuildKeepsTree(t);
    HalvingTotals(t, Rebuild(t), all);
    RootCountsAllCodes(t, all);
    RootCountsAllCodes(Rebuild(t), all);
  }

  // ----- The tree at the start of the stream -----

  const FIRST_LEAF: nat := NUM_CODES - 1

  /** Initially the tree is laid out like a heap: branch p has the children 2p+1 and 2p+2. */
  ghost predicate HeapAt(fs: seq<nat>, p: nat)
    requires |fs| == NUM_TREE_NODES && p < NUM_TREE_NODES
  {
    fs[p] == if p >= FIRST_LEAF then 1 else fs[2 * p + 1] + fs[2 * p + 2]
  }

  ghost predicate Heap(fs: seq<nat>) {
    |fs| == NUM_TREE_NODES && forall p: nat :: p < NUM_TREE_NODES ==> HeapAt(fs, p)
  }

  /** The heap condition leaves no freedom. */
  lemma {:induction false} HeapIsUnique(fs: seq<nat>, gs: seq<nat>, p: nat)
    requires Heap(fs) && Heap(gs) && p < NUM_TREE_NODES
    ensures fs[p] == gs[p]
    decreases NUM_TREE_NODES - p
  {
    assert HeapAt(fs, p) && HeapAt(gs, p);
    if p < FIRST_LEAF {
      HeapIsUnique(fs, gs, 2 * p + 1);
      HeapIsUnique(fs, gs, 2 * p + 2);
    }
  }

  /** The heap condition at position p + m, for a list that starts at position p. */
  ghost predicate TailAt(s: seq<nat>, p: nat, m: nat)
    requires |s| + p == NUM_TREE_NODES && m < |s|
  {
    s[m] == if p + m >= FIRST_LEAF then 1 else s[2 * m + p + 1] + s[2 * m + p + 2]
  }

  /** The heap's frequencies from position p on. */
  ghost function HeapFrom(p: nat): (s: seq<nat>)
    requires p <= NUM_TREE_NODES
    ensures |s| == NUM_TREE_NODES - p
    ensures forall m: nat :: m < |s| ==> TailAt(s, p, m)
    decreases NUM_TREE_NODES - p
  {
    if p == NUM_TREE_NODES then []
    else
      var rest := HeapFrom(p + 1);
      var s := [HeapHead(p, rest)] + rest;
      HeapExtends(p, p + 1, rest, s);
      s
  }

  function HeapHead(p: nat, rest: seq<nat>): nat
    requires p < NUM_TREE_NODES && |rest| + p + 1 == NUM_TREE_NODES
  {
    if p >= FIRST_LEAF then 1 else rest[p] + rest[p + 1]
  }

  lemma HeapExtends(p: nat, next: nat, rest: seq<nat>, s: seq<nat>)
    requires next == p + 1 && |rest| + next == NUM_TREE_NODES && s == [HeapHead(p, rest)] + rest
    requires forall m: nat :: m < |rest| ==> TailAt(rest, next, m)
    ensures forall m: nat :: m < |s| ==> TailAt(s, p, m)
  {
    forall m: nat | m < |s| ensures TailAt(s, p, m) {
      if m > 0 { assert TailAt(rest, next, m - 1); }
    }
  }

  /** The start comes as a variable: on a literal the verifier would unfold the recursion over all nodes. */
  lemma HeapExists(zero: nat) returns (fs: seq<nat>)
    requires zero == 0
    ensures Heap(fs)
  {
    fs := HeapFrom(zero);
    forall p: nat | p < NUM_TREE_NODES ensures HeapAt(fs, p) {
      assert TailAt(fs, zero, p);
    }
  }

  function HeapNode(fs: seq<nat>, p: nat): Node
    requires p < |fs| == NUM_TREE_NODES
  {
    Node(p >= FIRST_LEAF, if p >= FIRST_LEAF then LAST - p else 2 * p + 2,
         if p == 0 then 0 else (p - 1) / 2, fs[p], RankFromRight(fs, p))
  }

  function InitialTree(fs: seq<nat>): Tree
    requires |fs| == NUM_TREE_NODES
  {
    Tree(seq(NUM_TREE_NODES, p requires 0 <= p < NUM_TREE_NODES => HeapNode(fs, p)),
         seq(NUM_CODES, c requires 0 <= c < NUM_CODES => LAST - c),
         seq(NUM_TREE_NODES, i => i), RankFromRight(fs, 0) + 1,
         LeadersDownTo(fs, seq(NUM_TREE_NODES, i => 0), 0))
  }

  lemma {:induction false} HeapDescends(fs: seq<nat>, p: nat, q: nat)
    requires Heap(fs) && p <= q < NUM_TREE_NODES
    ensures fs[p] >= fs[q] >= 1
    decreases NUM_TREE_NODES - p, q - p
  {
    assert HeapAt(fs, p) && HeapAt(fs, q);
    if p < FIRST_LEAF {
      HeapDescends(fs, 2 * p + 1, if q < FIRST_LEAF then 2 * q + 1 else 2 * p + 1);
      HeapDescends(fs, 2 * p + 2, if q < FIRST_LEAF then 2 * q + 2 else 2 * p + 2);
    }
  }

  lemma InitialSorted(fs: seq<nat>)
    requires Heap(fs)
    ensures Sizes(InitialTree(fs)) && Freqs(InitialTree(fs).nodes) == fs && Descending(fs) && Sorted(InitialTree(fs).nodes)
  {
    forall i, j | 0 <= i <= j < NUM_TREE_NODES ensures fs[i] >= fs[j] >= 1 {
      HeapDescends(fs, i, j);
    }
  }

  lemma InitialGrouped(fs: seq<nat>)
    requires Heap(fs)
    ensures Sizes(InitialTree(fs)) && Sorted(InitialTree(fs).nodes) && Grouped(InitialTree(fs))
  {
    var t := InitialTree(fs);
    InitialSorted(fs);
    NumberedFromRight(t, fs, seq(NUM_TREE_NODES, i => 0), 0);
    LabelledIsGrouped(t, false);
  }

  lemma InitialShape(fs: seq<nat>)
    requires Heap(fs)
    ensures Shape(InitialTree(fs)) && Summed(InitialTree(fs), 0)
    ensures forall c: nat :: c < NUM_CODES ==> CodeFreq(InitialTree(fs), c) == 1
  {
    var t := InitialTree(fs);
    forall k: nat | k < NUM_TREE_NODES ensures PointsDown(t, k) && PointsUp(t, k) && Exceeds(t, k, Excess(0, k)) {
      InitialDown(fs, k);
      InitialUp(fs, k);
    }
    forall c: nat | c < NUM_CODES ensures CodeAt(t, c) && t.nodes[t.leafNodes[c]].freq == 1 {
      assert HeapAt(fs, LAST - c);
    }
  }

  lemma InitialDown(fs: seq<nat>, k: nat)
    requires Heap(fs) && k < NUM_TREE_NODES
    ensures var t := InitialTree(fs); PointsDown(t, k) && Exceeds(t, k, Excess(0, k))
  {
    assert HeapAt(fs, k);
  }

  lemma InitialUp(fs: seq<nat>, k: nat)
    requires Heap(fs) && k < NUM_TREE_NODES
    ensures PointsUp(InitialTree(fs), k)
  {
    var t, p := InitialTree(fs), (k - 1) / 2;
    if k > 0 { assert t.nodes[k].parent == p && t.nodes[p].child == 2 * p + 2 && !t.nodes[p].leaf; }
  }

  /**
   The start of the stream satisfies the invariant, every code having one hit. The number of codes comes as a
   variable, so that sums over all codes are not unfolded as on a literal.
   */
  lemma InitialTreeOk(fs: seq<nat>, all: nat)
    requires Heap(fs) && all == NUM_CODES
    ensures TreeOk(InitialTree(fs))
    ensures forall c: nat :: c < NUM_CODES ==> CodeFreq(InitialTree(fs), c) == 1
  {
    var t := InitialTree(fs);
    InitialGrouped(fs);
    InitialShape(fs);
    OnesTotal(t, all);
    RootCountsAllCodes(t, all);
  }

  lemma {:induction false} OnesTotal(t: Tree, k: nat)
    requires Shape(t) && k <= NUM_CODES
    requires forall c: nat :: c < NUM_CODES ==> CodeFreq(t, c) == 1
    ensures TotalHits(t, k) == k
    decreases k
  {
    if k > 0 { OnesTotal(t, k - 1); }
  }

  // ----- Counting codes -----

  function MaybeRebuild(t: Tree): Tree
    requires Climbing(t, 0)
  {
    if t.nodes[0].freq >= TREE_REORDER_LIMIT then Rebuild(t) else t
  }

  function Increment(t: Tree, c: nat): Tree
    requires Climbing(t, 0) && c < NUM_CODES
  {
    RebuildKeepsTree(t);
    var u := MaybeRebuild(t);
    CountRootStartsClimb(u, c);
    Climb(CountRoot(u), u.leafNodes[c])
  }

  /** The frequency of d before a code is counted: halved, rounding up, just when the root has reached 2^15. */
  function FreqBefore(t: Tree, d: nat): nat
    requires Shape(t) && d < NUM_CODES
  {
    if t.nodes[0].freq >= 0x8000 then (CodeFreq(t, d) + 1) / 2 else CodeFreq(t, d)
  }

  /**
   Counting a code keeps the invariant and the limit. It counts that code once and no other; all frequencies are
   halved before that exactly if the root had reached the limit, and otherwise the root grows by one.
   */
  lemma IncrementKeepsTree(t: Tree, c: nat)
    requires TreeOk(t) && c < NUM_CODES
    ensures TreeOk(Increment(t, c))
    ensures forall d: nat :: d < NUM_CODES ==>
              CodeFreq(Increment(t, c), d) == FreqBefore(t, d) + if d == c then 1 else 0
    ensures t.nodes[0].freq < 0x8000 ==> Increment(t, c).nodes[0].freq == t.nodes[0].freq + 1
  {
    RebuildKeepsTree(t);
    RebuiltRoot(t, NUM_CODES);
    var u := MaybeRebuild(t);
    CountRootStartsClimb(u, c);
    ClimbKeepsTree(CountRoot(u), u.leafNodes[c]);
    forall d: nat | d < NUM_CODES
      ensures CodeFreq(Increment(t, c), d) == FreqBefore(t, d) + if d == c then 1 else 0
    {
      assert CodeAt(u, c) && CodeAt(u, d);
      RootIsGreatest(u, 0, u.leafNodes[c]);
      ClimbFreq(CountRoot(u), u.leafNodes[c], d);
    }
  }

  /** The tree after a whole sequence of codes. */
  function Run(t: Tree, codes: seq<nat>): (u: Tree)
    requires TreeOk(t) && forall i :: 0 <= i < |codes| ==> codes[i] < NUM_CODES
    ensures TreeOk(u)
    decreases |codes|
  {
    if codes == [] then t
    else
      IncrementKeepsTree(t, codes[0]);
      Run(Increment(t, codes[0]), codes[1..])
  }
}
