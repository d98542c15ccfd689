/**
 Rebuilding the -lh1- tree, described out of place: the halved leaves and the new branches are
 merged into one list of non-decreasing frequency, read from the right end of the node table.
 */
module Lh1Rebuild {
  import opened Lh1Tree
  import opened Lh1Groups
  import opened Lh1Climb

  /** The part of a node that the rebuild carries: a leaf and its code, or a branch and its child position. */
  datatype Item = Item(leaf: bool, child: nat, freq: nat)

  const LAST: nat := NUM_TREE_NODES - 1

  // ----- Gathering the leaves, halved, from left to right -----

  function Halve(f: nat): nat { (f + 1) / 2 }

  function Gather(nodes: seq<Node>): seq<Item> {
    if nodes == [] then []
    else
      var n := nodes[|nodes| - 1];
      Gather(nodes[..|nodes| - 1]) + if n.leaf then [Item(true, n.child, Halve(n.freq))] else []
  }

  /** One leaf of the code at hand, with the frequency `h` prescribes. */
  ghost predicate LeafItem(h: seq<nat>, it: Item) {
    it.leaf && it.child < |h| && it.freq == h[it.child] && it.freq >= 1
  }

  /** The leaves of all codes, each once, in non-increasing order of frequency. */
  ghost predicate AllLeaves(h: seq<nat>, leaves: seq<Item>) {
    && (forall k :: 0 <= k < |leaves| ==> LeafItem(h, leaves[k]))
    && (forall k, m :: 0 <= k < m < |leaves| ==> leaves[k].freq >= leaves[m].freq && leaves[k].child != leaves[m].child)
    && (forall c: nat :: c < |h| ==> HasCode(leaves, c))
  }

  ghost predicate HasCode(leaves: seq<Item>, c: nat) {
    exists k :: 0 <= k < |leaves| && leaves[k].child == c
  }

  function HalvedFreqs(t: Tree): seq<nat>
    requires Shape(t)
  {
    seq(NUM_CODES, c requires 0 <= c < NUM_CODES => Halve(CodeFreq(t, c)))
  }

  /** `it` is the halved leaf of its code, found left of position k. */
  ghost predicate GatheredItem(t: Tree, k: nat, it: Item)
    requires Sizes(t)
  {
    && it.leaf && it.child < NUM_CODES && t.leafNodes[it.child] < k && k <= NUM_TREE_NODES
    && it.freq == Halve(t.nodes[t.leafNodes[it.child]].freq)
  }

  ghost predicate Gathered(t: Tree, k: nat, g: seq<Item>)
    requires Sizes(t)
  {
    && (forall q :: 0 <= q < |g| ==> GatheredItem(t, k, g[q]))
    && (forall q, r :: 0 <= q < r < |g| ==> t.leafNodes[g[q].child] < t.leafNodes[g[r].child])
    && (forall c: nat :: c < NUM_CODES && t.leafNodes[c] < k ==> HasCode(g, c))
  }

  /** A code whose leaf lies at k or left of it has been gathered once k is passed. */
  lemma GatherStepCode(t: Tree, k: nat, g: seq<Item>, next: seq<Item>, c: nat)
    requires Shape(t) && k < NUM_TREE_NODES && Gathered(t, k, g) && c < NUM_CODES && t.leafNodes[c] < k + 1
    requires g <= next && (t.nodes[k].leaf ==> |next| > |g| && next[|g|].child == t.nodes[k].child)
    ensures HasCode(next, c)
  {
    assert CodeAt(t, c);
    if t.leafNodes[c] < k {
      assert HasCode(g, c);
      var q :| 0 <= q < |g| && g[q].child == c;
      assert next[q].child == c;
    } else {
      assert next[|g|].child == c;
    }
  }

  lemma GatherLeaf(t: Tree, k: nat, g: seq<Item>, it: Item)
    requires Shape(t) && k < NUM_TREE_NODES && Gathered(t, k, g) && t.nodes[k].leaf
    requires it == Item(true, t.nodes[k].child, Halve(t.nodes[k].freq))
    ensures Gathered(t, k + 1, g + [it])
  {
    var next := g + [it];
    assert PointsDown(t, k);
    forall q | 0 <= q < |next| ensures GatheredItem(t, k + 1, next[q]) {
      assert q < |g| ==> GatheredItem(t, k, g[q]);
    }
    forall c: nat | c < NUM_CODES && t.leafNodes[c] < k + 1 ensures HasCode(next, c) {
      GatherStepCode(t, k, g, next, c);
    }
    forall q, r | 0 <= q < r < |next| ensures t.leafNodes[next[q].child] < t.leafNodes[next[r].child] {
      assert GatheredItem(t, k, g[q]);
    }
  }

  lemma GatherBranch(t: Tree, k: nat, g: seq<Item>)
    requires Shape(t) && k < NUM_TREE_NODES && Gathered(t, k, g) && !t.nodes[k].leaf
    ensures Gathered(t, k + 1, g)
  {
    forall q | 0 <= q < |g| ensures GatheredItem(t, k + 1, g[q]) {
      assert GatheredItem(t, k, g[q]);
    }
    forall c: nat | c < NUM_CODES && t.leafNodes[c] < k + 1 ensures HasCode(g, c) {
      GatherStepCode(t, k, g, g, c);
    }
  }

  lemma {:induction false} GatherFacts(t: Tree, k: nat)
    requires Shape(t) && k <= |t.nodes|
    ensures Gathered(t, k, Gather(t.nodes[..k]))
    decreases k
  {
    if k == 0 {
      assert Gather(t.nodes[..0]) == [];
    } else {
      GatherFacts(t, k - 1);
      var g, node := Gather(t.nodes[..k - 1]), t.nodes[k - 1];
      assert t.nodes[..k][..k - 1] == t.nodes[..k - 1];
      if node.leaf {
        GatherLeaf(t, k - 1, g, Item(true, node.child, Halve(node.freq)));
      } else {
        GatherBranch(t, k - 1, g);
        assert g + [] == g;
      }
    }
  }

  lemma GatherGivesAllLeaves(t: Tree)
    requires Climbing(t, 0)
    ensures AllLeaves(HalvedFreqs(t), Gather(t.nodes)) && |Gather(t.nodes)| == NUM_CODES
  {
    var g, h := Gather(t.nodes), HalvedFreqs(t);
    GatherFacts(t, |t.nodes|);
    assert t.nodes[..|t.nodes|] == t.nodes;
    forall k | 0 <= k < |g| ensures LeafItem(h, g[k]) {
      assert GatheredItem(t, NUM_TREE_NODES, g[k]);
    }
    forall c: nat | c < |h| ensures HasCode(g, c) {
      assert CodeAt(t, c);
    }
    forall k, m | 0 <= k < m < |g| ensures g[k].freq >= g[m].freq && g[k].child != g[m].child {
      assert GatheredItem(t, NUM_TREE_NODES, g[k]) && GatheredItem(t, NUM_TREE_NODES, g[m]);
      var p, q := t.leafNodes[g[k].child], t.leafNodes[g[m].child];
      assert t.nodes[p].freq >= t.nodes[q].freq;
    }
    AllLeavesCount(h, g);
  }

  lemma AllLeavesCount(h: seq<nat>, leaves: seq<Item>)
    requires AllLeaves(h, leaves)
    ensures |leaves| == |h|
  {
    var codes := seq(|leaves|, k requires 0 <= k < |leaves| => leaves[k].child);
    DistinctImage(codes, 0);
    var all := set a: nat | 0 <= a < |codes| :: codes[a];
    forall g: nat ensures g in all <==> g < |h| {
      if g < |h| {
        assert HasCode(leaves, g);
        var k :| 0 <= k < |leaves| && leaves[k].child == g;
        assert codes[k] == g;
      }
      if g in all {
        var a: nat :| a < |codes| && codes[a] == g;
        assert LeafItem(h, leaves[a]);
      }
    }
    RangeCard(all, |h|);
  }

  // ----- Merging -----

  /**
   `built[r]` is the node for position LAST - r, `at[j]` the index in `built` of the j-th branch,
   which takes the pair built[2j], built[2j+1] as its children; `leaves` are still to be placed.
   */
  datatype Merge = Merge(leaves: seq<Item>, built: seq<Item>, at: seq<nat>, leafNodes: seq<nat>)

  /** No leaf or slot is missing: as many leaves have been placed as the branches so far need. */
  ghost predicate Counts(s: Merge) {
    && |s.leaves| <= NUM_CODES && |s.leafNodes| == NUM_CODES
    && |s.built| == NUM_CODES - |s.leaves| + |s.at|
    && |s.at| < NUM_CODES
    && (|s.at| > 0 ==> NUM_CODES - |s.leaves| > |s.at|)
    && (forall k :: 0 <= k < |s.leaves| ==> s.leaves[k].child < NUM_CODES)
  }

  function TakeLeaf(s: Merge): Merge
    requires Counts(s) && s.leaves != [] && |s.built| <= LAST
  {
    var it := s.leaves[|s.leaves| - 1];
    Merge(s.leaves[..|s.leaves| - 1], s.built + [it], s.at, s.leafNodes[it.child := LAST - |s.built|])
  }

  function TakePair(s: Merge): (r: Merge)
    requires Counts(s) && |s.at| < NUM_CODES - 1
    ensures Counts(r) && r.at == s.at
    ensures if |s.built| < 2 * |s.at| + 2 then |r.built| == 2 * |s.at| + 2 else r == s
    decreases |s.leaves|
  {
    if |s.built| < 2 * |s.at| + 2 then TakePair(TakeLeaf(s)) else s
  }

  function TakeUpTo(s: Merge, f: nat): (r: Merge)
    requires Counts(s) && |s.at| < NUM_CODES - 1
    ensures Counts(r) && r.at == s.at && s.built <= r.built
    ensures r.leaves != [] ==> f < r.leaves[|r.leaves| - 1].freq
    decreases |s.leaves|
  {
    if s.leaves != [] && f >= s.leaves[|s.leaves| - 1].freq then TakeUpTo(TakeLeaf(s), f) else s
  }

  function AddBranch(s: Merge, f: nat): Merge
    requires 2 * |s.at| <= LAST
  {
    s.(built := s.built + [Item(false, LAST - 2 * |s.at|, f)], at := s.at + [|s.built|])
  }

  function PairFreq(s: Merge): nat
    requires |s.built| >= 2 * |s.at| + 2
  {
    s.built[2 * |s.at|].freq + s.built[2 * |s.at| + 1].freq
  }

  function Round(s: Merge): (r: Merge)
    requires Counts(s) && |s.at| < NUM_CODES - 1
    ensures Counts(r) && |r.at| == |s.at| + 1
  {
    var p := TakePair(s);
    AddBranch(TakeUpTo(p, PairFreq(p)), PairFreq(p))
  }

  function MergeAll(s: Merge): (r: Merge)
    requires Counts(s)
    ensures Counts(r) && |r.built| == NUM_TREE_NODES && |r.at| == NUM_CODES - 1 && r.leaves == []
    decreases NUM_CODES - |s.at|
  {
    if |s.built| == NUM_TREE_NODES then s else MergeAll(Round(s))
  }

  // ----- What the merge keeps -----

  /** The j-th branch lies right of its pair of children in `built` and has the sum of their frequencies. */
  ghost predicate BranchOk(s: Merge, j: nat)
    requires Counts(s) && j < |s.at|
  {
    && 2 * j + 1 < s.at[j] < |s.built|
    && s.built[s.at[j]] == Item(false, LAST - 2 * j, s.built[2 * j].freq + s.built[2 * j + 1].freq)
  }

  ghost predicate ItemOk(h: seq<nat>, s: Merge, r: nat)
    requires Counts(s) && r < |s.built|
  {
    var it := s.built[r];
    if it.leaf then LeafItem(h, it) && it.child < NUM_CODES && s.leafNodes[it.child] == LAST - r
    else
      && it.child <= LAST && it.child % 2 == 0
      && (LAST - it.child) / 2 < |s.at| && s.at[(LAST - it.child) / 2] == r
  }

  ghost predicate CodeKept(s: Merge, c: nat)
    requires Counts(s) && c < NUM_CODES
  {
    || HasCode(s.leaves, c)
    || (var r := LAST - s.leafNodes[c]; 0 <= r < |s.built| && s.built[r].leaf && s.built[r].child == c)
  }

  ghost predicate Ascending(items: seq<Item>) {
    && (forall q, r :: 0 <= q < r < |items| ==> items[q].freq <= items[r].freq)
    && (forall r :: 0 <= r < |items| ==> items[r].freq >= 1)
  }

  ghost predicate AtMost(items: seq<Item>, f: nat) {
    forall r :: 0 <= r < |items| ==> items[r].freq <= f
  }

  ghost predicate LeavesOk(h: seq<nat>, s: Merge) {
    && (forall k :: 0 <= k < |s.leaves| ==> LeafItem(h, s.leaves[k]) && AtMost(s.built, s.leaves[k].freq))
    && (forall k, m :: 0 <= k < m < |s.leaves| ==>
          s.leaves[k].freq >= s.leaves[m].freq && s.leaves[k].child != s.leaves[m].child)
    && (forall r, k :: 0 <= r < |s.built| && 0 <= k < |s.leaves| && s.built[r].leaf ==>
          s.built[r].child != s.leaves[k].child)
  }

  ghost predicate Merging(h: seq<nat>, s: Merge) {
    && Counts(s) && |h| == NUM_CODES
    && LeavesOk(h, s)
    && Ascending(s.built)
    && (forall j: nat :: j < |s.at| ==> BranchOk(s, j))
    && (forall r: nat :: r < |s.built| ==> ItemOk(h, s, r))
    && (forall c: nat :: c < NUM_CODES ==> CodeKept(s, c))
  }

  lemma TakeLeafKeepsLeaves(h: seq<nat>, s: Merge)
    requires Merging(h, s) && s.leaves != [] && |s.at| < NUM_CODES - 1
    ensures LeavesOk(h, TakeLeaf(s)) && Ascending(TakeLeaf(s).built)
  {
    var u, last := TakeLeaf(s), |s.leaves| - 1;
    assert LeafItem(h, s.leaves[last]) && AtMost(s.built, s.leaves[last].freq);
    forall k | 0 <= k < |u.leaves| ensures LeafItem(h, u.leaves[k]) && AtMost(u.built, u.leaves[k].freq) {
      assert u.leaves[k] == s.leaves[k];
      assert LeafItem(h, s.leaves[k]) && AtMost(s.built, s.leaves[k].freq);
    }
  }

  lemma TakeLeafKeepsCode(h: seq<nat>, s: Merge, c: nat)
    requires Merging(h, s) && s.leaves != [] && |s.at| < NUM_CODES - 1 && c < NUM_CODES
    ensures CodeKept(TakeLeaf(s), c)
  {
    var u, last := TakeLeaf(s), |s.leaves| - 1;
    assert CodeKept(s, c);
    if c != s.leaves[last].child && HasCode(s.leaves, c) {
      var k :| 0 <= k < |s.leaves| && s.leaves[k].child == c;
      assert u.leaves[k].child == c;
    }
  }

  lemma TakeLeafKeeps(h: seq<nat>, s: Merge)
    requires Merging(h, s) && s.leaves != [] && |s.at| < NUM_CODES - 1
    ensures Merging(h, TakeLeaf(s))
  {
    var u, last := TakeLeaf(s), |s.leaves| - 1;
    assert LeafItem(h, s.leaves[last]);
    TakeLeafKeepsLeaves(h, s);
    forall j: nat | j < |u.at| ensures BranchOk(u, j) {
      assert BranchOk(s, j);
    }
    forall r: nat | r < |u.built| ensures ItemOk(h, u, r) {
      assert r < |s.built| ==> ItemOk(h, s, r);
    }
    forall c: nat | c < NUM_CODES ensures CodeKept(u, c) {
      TakeLeafKeepsCode(h, s, c);
    }
  }

  /** Where the next branch may be added, with frequency f. */
  ghost predicate Addable(h: seq<nat>, s: Merge, f: nat) {
    && Merging(h, s) && |s.at| < NUM_CODES - 1 && |s.built| >= 2 * |s.at| + 2
    && f == PairFreq(s) && AtMost(s.built, f)
    && (s.leaves != [] ==> f < s.leaves[|s.leaves| - 1].freq)
  }

  lemma AddBranchKeepsLeaves(h: seq<nat>, s: Merge, f: nat)
    requires Addable(h, s, f)
    ensures LeavesOk(h, AddBranch(s, f))
  {
    var u := AddBranch(s, f);
    forall k | 0 <= k < |u.leaves| ensures LeafItem(h, u.leaves[k]) && AtMost(u.built, u.leaves[k].freq) {
      assert LeafItem(h, s.leaves[k]) && AtMost(s.built, s.leaves[k].freq);
    }
  }

  lemma AddBranchKeepsOrder(h: seq<nat>, s: Merge, f: nat)
    requires Addable(h, s, f)
    ensures Counts(AddBranch(s, f)) && Ascending(AddBranch(s, f).built)
  {
  }

  lemma AddBranchKeepsItems(h: seq<nat>, s: Merge, f: nat)
    requires Addable(h, s, f) && Counts(AddBranch(s, f))
    ensures forall j: nat :: j < |AddBranch(s, f).at| ==> BranchOk(AddBranch(s, f), j)
    ensures forall r: nat :: r < |AddBranch(s, f).built| ==> ItemOk(h, AddBranch(s, f), r)
  {
    var u := AddBranch(s, f);
    forall j: nat | j < |u.at| ensures BranchOk(u, j) {
      assert j < |s.at| ==> BranchOk(s, j);
    }
    forall r: nat | r < |u.built| ensures ItemOk(h, u, r) {
      assert r < |s.built| ==> ItemOk(h, s, r);
    }
  }

  lemma AddBranchKeepsCode(h: seq<nat>, s: Merge, f: nat, c: nat)
    requires Addable(h, s, f) && Counts(AddBranch(s, f)) && c < NUM_CODES
    ensures CodeKept(AddBranch(s, f), c)
  {
    assert CodeKept(s, c);
  }

  lemma AddBranchKeeps(h: seq<nat>, s: Merge, f: nat)
    requires Addable(h, s, f)
    ensures Merging(h, AddBranch(s, f))
  {
    AddBranchKeepsOrder(h, s, f);
    AddBranchKeepsLeaves(h, s, f);
    AddBranchKeepsItems(h, s, f);
    forall c: nat | c < NUM_CODES ensures CodeKept(AddBranch(s, f), c) {
      AddBranchKeepsCode(h, s, f, c);
    }
  }

  lemma {:induction false} TakePairKeeps(h: seq<nat>, s: Merge)
    requires Merging(h, s) && |s.at| < NUM_CODES - 1
    ensures Merging(h, TakePair(s))
    decreases |s.leaves|
  {
    if |s.built| < 2 * |s.at| + 2 {
      TakeLeafKeeps(h, s);
      TakePairKeeps(h, TakeLeaf(s));
    }
  }

  lemma {:induction false} TakeUpToKeeps(h: seq<nat>, s: Merge, f: nat)
    requires Merging(h, s) && |s.at| < NUM_CODES - 1 && AtMost(s.built, f)
    ensures Merging(h, TakeUpTo(s, f)) && AtMost(TakeUpTo(s, f).built, f)
    decreases |s.leaves|
  {
    if s.leaves != [] && f >= s.leaves[|s.leaves| - 1].freq {
      var u := TakeLeaf(s);
      TakeLeafKeeps(h, s);
      assert AtMost(u.built, f);
      TakeUpToKeeps(h, u, f);
      assert TakeUpTo(s, f) == TakeUpTo(u, f);
    }
  }

  /** Between rounds the last item is the branch just added. */
  ghost predicate RoundDone(s: Merge) {
    if s.at == [] then s.built == [] else s.at[|s.at| - 1] == |s.built| - 1
  }

  /** The pair about to be joined outweighs everything placed so far. */
  lemma PairOutweighs(h: seq<nat>, s: Merge)
    requires Merging(h, s) && RoundDone(s) && |s.at| < NUM_CODES - 1
    ensures AtMost(TakePair(s).built, PairFreq(TakePair(s)))
  {
    TakePairKeeps(h, s);
    var p := TakePair(s);
    if p == s {
      assert s.at != [] ==> BranchOk(s, |s.at| - 1);
      SettledPair(h, s);
    } else {
      LastPair(p.built, 2 * |p.at|);
    }
  }

  /** If the pair was there already, the last item is the branch joining the pair before it. */
  lemma SettledPair(h: seq<nat>, s: Merge)
    requires Merging(h, s) && RoundDone(s) && |s.at| < NUM_CODES - 1 && |s.built| >= 2 * |s.at| + 2
    ensures AtMost(s.built, PairFreq(s))
  {
    var b := |s.at|;
    assert BranchOk(s, b - 1);
    var last := s.built[|s.built| - 1].freq;
    assert last == s.built[2 * b - 2].freq + s.built[2 * b - 1].freq;
    assert forall r :: 0 <= r < |s.built| ==> s.built[r].freq <= last;
  }

  lemma LastPair(built: seq<Item>, i: nat)
    requires Ascending(built) && |built| == i + 2
    ensures AtMost(built, built[i].freq + built[i + 1].freq)
  {
    assert forall r :: 0 <= r < |built| ==> built[r].freq <= built[i + 1].freq;
  }

  /** The first half of a round: a pair is there, and it outweighs everything placed. */
  lemma PairReady(h: seq<nat>, s: Merge) returns (p: Merge, f: nat)
    requires Merging(h, s) && RoundDone(s) && |s.at| < NUM_CODES - 1
    ensures Merging(h, p) && |p.at| < NUM_CODES - 1 && |p.built| >= 2 * |p.at| + 2 && f == PairFreq(p) && AtMost(p.built, f)
    ensures Round(s) == AddBranch(TakeUpTo(p, f), f)
  {
    p := TakePair(s);
    f := PairFreq(p);
    TakePairKeeps(h, s);
    PairOutweighs(h, s);
  }

  /** The second half: the leaves that belong before the new branch are placed. */
  lemma BranchReady(h: seq<nat>, p: Merge, f: nat)
    requires Merging(h, p) && |p.at| < NUM_CODES - 1 && |p.built| >= 2 * |p.at| + 2 && f == PairFreq(p) && AtMost(p.built, f)
    ensures Addable(h, TakeUpTo(p, f), f)
  {
    TakeUpToKeeps(h, p, f);
    TakeUpToKeepsPair(p, f);
  }

  lemma RoundKeeps(h: seq<nat>, s: Merge)
    requires Merging(h, s) && RoundDone(s) && |s.at| < NUM_CODES - 1
    ensures Merging(h, Round(s)) && RoundDone(Round(s))
  {
    var p, f := PairReady(h, s);
    BranchReady(h, p, f);
    JoinKeeps(h, TakeUpTo(p, f), f);
  }

  lemma JoinKeeps(h: seq<nat>, q: Merge, f: nat)
    requires Addable(h, q, f)
    ensures Merging(h, AddBranch(q, f)) && RoundDone(AddBranch(q, f))
  {
    AddBranchKeeps(h, q, f);
  }

  lemma TakeUpToKeepsPair(s: Merge, f: nat)
    requires Counts(s) && |s.at| < NUM_CODES - 1 && |s.built| >= 2 * |s.at| + 2
    ensures |TakeUpTo(s, f).built| >= 2 * |s.at| + 2 && PairFreq(TakeUpTo(s, f)) == PairFreq(s)
  {
    var r := TakeUpTo(s, f);
    assert s.built <= r.built && r.at == s.at;
  }

  lemma {:induction false} MergeAllKeeps(h: seq<nat>, s: Merge)
    requires Merging(h, s) && RoundDone(s)
    ensures Merging(h, MergeAll(s))
    decreases NUM_CODES - |s.at|
  {
    if |s.built| != NUM_TREE_NODES {
      RoundKeeps(h, s);
      MergeAllKeeps(h, Round(s));
    }
  }
}
