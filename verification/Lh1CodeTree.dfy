/**
 The -lh1- code tree as the decoder stores it: four fixed tables and a counter, changed in
 place. Every operation is proved to have the effect its value-level description prescribes.
 */
module Lh1CodeTree {
  import opened Lh1Tree
  import opened Lh1Groups
  import opened Lh1Climb
  import opened Lh1Labels
  import opened Lh1Rebuild
  import opened Lh1Model

  /** k is one of the children of branch i. */
  predicate ChildOf(t: Tree, k: nat, i: nat)
    requires i < |t.nodes|
  {
    !t.nodes[i].leaf && (k == t.nodes[i].child || k == t.nodes[i].child - 1)
  }

  /** What node i points at points back at i. */
  function Attached(t: Tree, i: nat): Tree
    requires Sizes(t) && i < NUM_TREE_NODES
  {
    t.(nodes := seq(NUM_TREE_NODES, k requires 0 <= k < NUM_TREE_NODES =>
                      t.nodes[k].(parent := if ChildOf(t, k, i) then i else t.nodes[k].parent)),
       leafNodes := seq(NUM_CODES, c requires 0 <= c < NUM_CODES =>
                          if t.nodes[i].leaf && c == t.nodes[i].child then i else t.leafNodes[c]))
  }

  /** Nodes x and l have exchanged contents but nothing points back at them yet. */
  function Exchanged(t: Tree, x: nat, l: nat): Tree
    requires Sizes(t) && x < NUM_TREE_NODES && l < NUM_TREE_NODES
  {
    t.(nodes := t.nodes[l := t.nodes[l].(leaf := t.nodes[x].leaf, child := t.nodes[x].child)]
                       [x := t.nodes[x].(leaf := t.nodes[l].leaf, child := t.nodes[l].child)])
  }

  lemma RelinkedNode(t: Tree, x: nat, l: nat, k: nat)
    requires Swappable(t, x, l) && k < NUM_TREE_NODES
    ensures Attached(Attached(Exchanged(t, x, l), x), l).nodes[k] == SwapNodes(t, x, l).nodes[k]
  {
    assert PointsDown(t, x) && PointsDown(t, l) && PointsUp(t, k);
  }

  lemma RelinkedCode(t: Tree, x: nat, l: nat, c: nat)
    requires Swappable(t, x, l) && c < NUM_CODES
    ensures Attached(Attached(Exchanged(t, x, l), x), l).leafNodes[c] == SwapNodes(t, x, l).leafNodes[c]
  {
    assert PointsDown(t, x) && PointsDown(t, l) && CodeAt(t, c);
  }

  /** Exchanging two nodes and re-pointing their children and codes is the swap. */
  lemma SwapByRelinking(t: Tree, x: nat, l: nat)
    requires Swappable(t, x, l)
    ensures Attached(Attached(Exchanged(t, x, l), x), l) == SwapNodes(t, x, l)
  {
    var u, v := Attached(Attached(Exchanged(t, x, l), x), l), SwapNodes(t, x, l);
    assert u.nodes == v.nodes by {
      forall k: nat | k < NUM_TREE_NODES ensures u.nodes[k] == v.nodes[k] {
        RelinkedNode(t, x, l, k);
      }
    }
    assert u.leafNodes == v.leafNodes by {
      forall c: nat | c < NUM_CODES ensures u.leafNodes[c] == v.leafNodes[c] {
        RelinkedCode(t, x, l, c);
      }
    }
  }

  lemma TakeUpToStep(s: Merge, f: nat)
    requires Counts(s) && |s.at| < NUM_CODES - 1
    ensures if s.leaves != [] && f >= s.leaves[|s.leaves| - 1].freq
            then |s.built| <= LAST && TakeUpTo(s, f) == TakeUpTo(TakeLeaf(s), f)
            else TakeUpTo(s, f) == s
  {
  }

  lemma GatherNext(was: seq<Node>, i: nat)
    requires i < |was|
    ensures Gather(was[..i + 1]) ==
            Gather(was[..i]) + if was[i].leaf then [Item(true, was[i].child, (was[i].freq + 1) / 2)] else []
  {
    assert was[..i + 1][..i] == was[..i];
  }

  lemma RoundParts(s: Merge) returns (pair: Merge, full: Merge)
    requires Counts(s) && |s.at| < NUM_CODES - 1
    ensures pair == TakePair(s) && pair.at == s.at && Counts(pair)
    ensures |pair.built| >= 2 * |s.at| + 2 && full == TakeUpTo(pair, PairFreq(pair))
    ensures |full.built| >= 2 * |s.at| + 2 && full.at == s.at && Round(s) == AddBranch(full, PairFreq(pair))
  {
    pair := TakePair(s);
    full := TakeUpTo(pair, PairFreq(pair));
    TakeUpToKeepsPair(pair, PairFreq(pair));
  }

  class CodeTree {
    const nodes: array<Node>
    const leafNodes: array<nat>
    const groups: array<nat>
    var numGroups: nat
    const groupLeader: array<nat>

    ghost function Repr(): set<object> { {this, nodes, leafNodes, groups, groupLeader} }

    ghost predicate Valid() {
      && leafNodes != groups && leafNodes != groupLeader && groups != groupLeader
      && nodes.Length == NUM_TREE_NODES && leafNodes.Length == NUM_CODES
      && groups.Length == NUM_TREE_NODES && groupLeader.Length == NUM_TREE_NODES
    }

    ghost function Model(): Tree
      reads Repr()
    {
      Tree(nodes[..], leafNodes[..], groups[..], numGroups, groupLeader[..])
    }

    /** All nodes right of k are final, except for links to parents not yet made. */
    ghost predicate Started(fs: seq<nat>, k: int)
      requires Valid()
      reads Repr()
    {
      && |fs| == NUM_TREE_NODES && -1 <= k < NUM_TREE_NODES - 1
      && (forall a :: 0 <= a < NUM_TREE_NODES ==> groups[a] == a)
      && numGroups == RankFromRight(fs, k + 1) + 1
      && (forall p :: k < p < NUM_TREE_NODES ==> nodes[p] == HeapNode(fs, p).(parent := nodes[p].parent))
      && (forall p :: 1 <= p < NUM_TREE_NODES && (p - 1) / 2 > k ==> nodes[p].parent == (p - 1) / 2)
      && nodes[0].parent == 0
      && groupLeader[..] == LeadersDownTo(fs, Zeros(), k + 1)
    }

    static function Zeros(): seq<nat> { seq(NUM_TREE_NODES, i => 0) }

    /** The leaf of code 0 comes last; every leaf has frequency 1 and they share a group. */
    method InitLeaves(ghost fs: seq<nat>)
      requires Valid() && Heap(fs) && numGroups == 0
      requires forall a :: 0 <= a < NUM_TREE_NODES ==> groups[a] == a
      requires groupLeader[..] == Zeros() && nodes[0].parent == 0
      modifies Repr()
      ensures Started(fs, FIRST_LEAF - 1)
      ensures forall c :: 0 <= c < NUM_CODES ==> leafNodes[c] == LAST - c
    {
      var leafGroup := AllocGroup();
      for i := 0 to NUM_CODES
        invariant numGroups == 1 && nodes[0].parent == 0
        invariant forall a :: 0 <= a < NUM_TREE_NODES ==> groups[a] == a
        invariant forall p :: LAST - i < p < NUM_TREE_NODES ==> nodes[p] == HeapNode(fs, p).(parent := nodes[p].parent)
        invariant forall c :: 0 <= c < i ==> leafNodes[c] == LAST - c
        invariant groupLeader[..] == LeadersDownTo(fs, Zeros(), LAST - i + 1)
        invariant i > 0 ==> RankFromRight(fs, LAST - i + 1) == 0
      {
        var p := LAST - i;
        assert HeapAt(fs, p) && (i > 0 ==> HeapAt(fs, p + 1));
        nodes[p] := nodes[p].(leaf := true, child := i, freq := 1, group := leafGroup);
        groupLeader[leafGroup] := p;
        leafNodes[i] := p;
      }
    }

    /** Makes k the parent of the pair. */
    method LinkBranch(k: nat, child: nat)
      requires Valid() && k + 1 < child < NUM_TREE_NODES
      modifies nodes
      ensures forall p :: 0 <= p < NUM_TREE_NODES && p != k ==>
                nodes[p] == old(nodes[p]).(parent := if p == child || p == child - 1 then k else old(nodes[p].parent))
      ensures nodes[k] == old(nodes[k]).(leaf := false, child := child,
                                         freq := old(nodes[child].freq + nodes[child - 1].freq))
    {
      nodes[k] := nodes[k].(leaf := false, child := child, freq := nodes[child].freq + nodes[child - 1].freq);
      Adopt(child, k);
    }

    /** One step of the way up: branch k takes the pair 2k+1, 2k+2. */
    method InitBranch(k: nat, child: nat, ghost fs: seq<nat>)
      requires Valid() && Heap(fs) && k < FIRST_LEAF && child == 2 * k + 2 && Started(fs, k)
      modifies Repr()
      ensures Started(fs, k - 1) && leafNodes[..] == old(leafNodes[..])
    {
      assert HeapAt(fs, k);
      LinkBranch(k, child);
      if nodes[k].freq == nodes[k + 1].freq {
        nodes[k] := nodes[k].(group := nodes[k + 1].group);
      } else {
        var g := AllocGroup();
        nodes[k] := nodes[k].(group := g);
      }
      groupLeader[nodes[k].group] := k;
    }

    method InitTree(ghost fs: seq<nat>)
      requires Valid() && Heap(fs) && numGroups == 0
      requires forall a :: 0 <= a < NUM_TREE_NODES ==> groups[a] == a
      requires groupLeader[..] == Zeros() && nodes[0].parent == 0
      modifies Repr()
      ensures Model() == InitialTree(fs)
    {
      InitLeaves(fs);
      var k: int := FIRST_LEAF - 1;
      var child: int := NUM_TREE_NODES - 1;
      while k >= 0
        invariant -1 <= k < FIRST_LEAF && child == 2 * k + 2 && Started(fs, k)
        invariant forall c :: 0 <= c < NUM_CODES ==> leafNodes[c] == LAST - c
      {
        InitBranch(k, child, fs);
        k, child := k - 1, child - 2;
      }
      assert nodes[..] == InitialTree(fs).nodes;
      assert leafNodes[..] == InitialTree(fs).leafNodes;
      assert groups[..] == InitialTree(fs).groups;
    }

    /** The tree at the start of a stream. */
    constructor ()
      ensures Valid() && fresh(Repr()) && TreeOk(Model())
      ensures Heap(Freqs(Model().nodes)) && Model() == InitialTree(Freqs(Model().nodes))
    {
      nodes := new Node[NUM_TREE_NODES](_ => Node(false, 0, 0, 0, 0));
      leafNodes := new nat[NUM_CODES](_ => 0);
      groups := new nat[NUM_TREE_NODES](_ => 0);
      groupLeader := new nat[NUM_TREE_NODES](_ => 0);
      numGroups := 0;
      new;
      ghost var fs := HeapExists(0);
      InitGroups();
      InitTree(fs);
      assert Freqs(nodes[..]) == fs;
      InitialTreeOk(fs, NUM_CODES);
    }

    method AllocGroup() returns (g: nat)
      requires Valid() && numGroups < NUM_TREE_NODES
      modifies `numGroups
      ensures g == groups[old(numGroups)] && numGroups == old(numGroups) + 1
    {
      g := groups[numGroups];
      numGroups := numGroups + 1;
    }

    method FreeGroup(g: nat)
      requires Valid() && 0 < numGroups <= NUM_TREE_NODES
      modifies `numGroups, groups
      ensures numGroups == old(numGroups) - 1 && groups[..] == old(groups[..])[numGroups := g]
    {
      numGroups := numGroups - 1;
      groups[numGroups] := g;
    }

    method Reattach(i: nat)
      requires Valid() && Sizes(Model()) && i < NUM_TREE_NODES
      requires nodes[i].leaf ==> nodes[i].child < NUM_CODES
      requires !nodes[i].leaf ==> 1 <= nodes[i].child < NUM_TREE_NODES
      modifies nodes, leafNodes
      ensures Model() == Attached(old(Model()), i)
    {
      var c := nodes[i].child;
      if nodes[i].leaf {
        leafNodes[c] := i;
      } else {
        Adopt(c, i);
      }
      assert nodes[..] == Attached(old(Model()), i).nodes;
      assert leafNodes[..] == Attached(old(Model()), i).leafNodes;
    }

    /** Exchanges what hangs at x with what hangs at l. */
    method Swap(x: nat, l: nat)
      requires Valid() && Swappable(Model(), x, l)
      modifies nodes, leafNodes
      ensures Model() == SwapNodes(old(Model()), x, l)
    {
      ghost var t := Model();
      assert PointsDown(t, x) && PointsDown(t, l);
      SwapByRelinking(t, x, l);
      var node, leader := nodes[x], nodes[l];
      nodes[l] := leader.(leaf := node.leaf, child := node.child);
      nodes[x] := node.(leaf := leader.leaf, child := leader.child);
      assert Model() == Exchanged(t, x, l);
      Reattach(x);
      Reattach(l);
    }

    method MakeGroupLeader(x: nat) returns (l: nat)
      requires Valid() && Climbing(Model(), x) && x >= 1
      modifies nodes, leafNodes
      ensures Led(old(Model()), x) && l == LeaderOf(old(Model()), x)
      ensures Model() == MakeLeader(old(Model()), x)
    {
      LeaderIsSwappable(Model(), x);
      l := groupLeader[nodes[x].group];
      if l != x {
        Swap(x, l);
      }
    }

    method IncrementNodeFreq(x: nat)
      requires Valid() && Leading(Model(), x)
      modifies `numGroups, nodes, groups, groupLeader
      ensures Model() == Bump(old(Model()), x)
    {
      ghost var t := Model();
      assert Led(t, x) && Led(t, x - 1);
      var other := nodes[x - 1];
      nodes[x] := nodes[x].(freq := nodes[x].freq + 1);
      if x < NUM_TREE_NODES - 1 && nodes[x].group == nodes[x + 1].group {
        groupLeader[nodes[x].group] := groupLeader[nodes[x].group] + 1;
        if nodes[x].freq == other.freq {
          nodes[x] := nodes[x].(group := other.group);
        } else {
          SharedGroupLeavesRoom(t, x, x + 1);
          assert t.groups[t.numGroups] in FreeIds(t);
          var g := AllocGroup();
          nodes[x] := nodes[x].(group := g);
          groupLeader[g] := x;
        }
      } else if nodes[x].freq == other.freq {
        SomeGroupUsed(t);
        FreeGroup(nodes[x].group);
        nodes[x] := nodes[x].(group := other.group);
      }
    }

    method Tick(x: nat) returns (above: nat)
      requires Valid() && Climbing(Model(), x) && x >= 1
      modifies Repr()
      ensures Model() == Step(old(Model()), x) && above == Above(old(Model()), x)
    {
      LeaderIsSwappable(Model(), x);
      MakeLeaderKeepsClimbing(Model(), x);
      var l := MakeGroupLeader(x);
      above := CountLeader(l);
    }

    method CountLeader(l: nat) returns (above: nat)
      requires Valid() && Leading(Model(), l)
      modifies `numGroups, nodes, groups, groupLeader
      ensures Model() == Bump(old(Model()), l) && above == old(Model()).nodes[l].parent
    {
      IncrementNodeFreq(l);
      above := nodes[l].parent;
      assert above == Model().nodes[l].parent;
    }

    method ClimbFrom(leaf: nat)
      requires Valid() && Climbing(Model(), leaf)
      modifies Repr()
      ensures Model() == Climb(old(Model()), leaf)
    {
      var x := leaf;
      while x != 0
        invariant Valid() && Climbing(Model(), x)
        invariant Climb(Model(), x) == Climb(old(Model()), leaf)
      {
        StepKeepsClimbing(Model(), x);
        x := Tick(x);
      }
    }

    method CountAndClimb(c: nat)
      requires Valid() && Climbing(Model(), 0) && c < NUM_CODES
      modifies Repr()
      ensures Climbing(CountRoot(old(Model())), old(Model()).leafNodes[c])
      ensures Model() == Climb(CountRoot(old(Model())), old(Model()).leafNodes[c])
    {
      CountRootStartsClimb(Model(), c);
      nodes[0] := nodes[0].(freq := nodes[0].freq + 1);
      assert Model() == CountRoot(old(Model()));
      ClimbFrom(leafNodes[c]);
    }

    /** One hit for every node from the code's leaf to the root, after a rebuild if the limit is reached. */
    method IncrementForCode(c: nat)
      requires Valid() && TreeOk(Model()) && c < NUM_CODES
      modifies Repr()
      ensures Model() == Increment(old(Model()), c)
    {
      RebuildKeepsTree(Model());
      if nodes[0].freq >= TREE_REORDER_LIMIT {
        ReconstructTree();
      }
      CountAndClimb(c);
    }

    // ----- Rebuilding in place -----

    /** Moves all leaves, halved, to the start of the table; no leaf is overwritten before it is moved. */
    method GatherLeaves()
      requires Valid() && Climbing(Model(), 0)
      modifies nodes
      ensures |Gather(old(nodes[..]))| == NUM_CODES
      ensures forall q :: 0 <= q < NUM_CODES ==> AsItem(nodes[q]) == Gather(old(nodes[..]))[q]
      ensures nodes[0].parent == old(nodes[0].parent)
    {
      ghost var was := nodes[..];
      GatherGivesAllLeaves(Model());
      var leaf := 0;
      for i := 0 to NUM_TREE_NODES
        invariant leaf == |Gather(was[..i])| <= i
        invariant forall q :: 0 <= q < leaf ==> AsItem(nodes[q]) == Gather(was[..i])[q]
        invariant forall k :: i <= k < NUM_TREE_NODES ==> nodes[k] == was[k]
        invariant nodes[0].parent == was[0].parent
      {
        GatherNext(was, i);
        if nodes[i].leaf {
          nodes[leaf] := nodes[leaf].(leaf := true, child := nodes[i].child, freq := (nodes[i].freq + 1) / 2);
          leaf := leaf + 1;
        }
      }
      assert was[..NUM_TREE_NODES] == was;
    }

    /** Both children of the j-th branch point at it. */
    ghost predicate Joined(s: Merge, j: nat)
      requires Valid() && Counts(s) && j < |s.at|
      reads nodes
    {
      && 2 * j + 1 < s.at[j] < |s.built|
      && nodes[LAST - 2 * j].parent == nodes[LAST - 2 * j - 1].parent == LAST - s.at[j]
    }

    /** The tables hold the merge so far: remaining leaves at the start, built nodes at the end. */
    ghost predicate Holds(s: Merge)
      requires Valid()
      reads Repr()
    {
      && Counts(s)
      && (forall k :: 0 <= k < |s.leaves| ==> AsItem(nodes[k]) == s.leaves[k])
      && (forall r :: 0 <= r < |s.built| ==> AsItem(nodes[LAST - r]) == s.built[r])
      && (forall j: nat :: j < |s.at| ==> Joined(s, j))
      && leafNodes[..] == s.leafNodes
      && nodes[0].parent == 0
    }

    method PlaceLeaf(leaf: nat, i: nat, ghost s: Merge)
      requires Valid() && Holds(s) && |s.at| < NUM_CODES - 1
      requires s.leaves != [] && leaf == |s.leaves| - 1 && i == LAST - |s.built|
      modifies nodes, leafNodes
      ensures Holds(TakeLeaf(s))
    {
      nodes[i] := nodes[leaf];
      leafNodes[nodes[leaf].child] := i;
      forall j: nat | j < |s.at| ensures Joined(TakeLeaf(s), j) {
        assert old(Joined(s, j));
      }
    }

    lemma PairInTable(s: Merge)
      requires Valid() && Holds(s) && |s.built| >= 2 * |s.at| + 2
      ensures nodes[LAST - 2 * |s.at|].freq + nodes[LAST - 2 * |s.at| - 1].freq == PairFreq(s)
    {
      assert AsItem(nodes[LAST - 2 * |s.at|]) == s.built[2 * |s.at|];
      assert AsItem(nodes[LAST - (2 * |s.at| + 1)]) == s.built[2 * |s.at| + 1];
    }

    method Adopt(child: nat, i: nat)
      requires Valid() && 1 <= child < NUM_TREE_NODES
      modifies nodes
      ensures forall k :: 0 <= k < NUM_TREE_NODES ==>
                nodes[k] == old(nodes[k]).(parent := if k == child || k == child - 1 then i else old(nodes[k].parent))
    {
      nodes[child] := nodes[child].(parent := i);
      nodes[child - 1] := nodes[child - 1].(parent := i);
    }

    method PlaceBranch(i: nat, child: nat, freq: nat, ghost s: Merge)
      requires Valid() && Holds(s) && |s.at| < NUM_CODES - 1
      requires |s.built| >= 2 * |s.at| + 2 && NUM_CODES - |s.leaves| > |s.at| + 1
      requires i == LAST - |s.built| && child == LAST - 2 * |s.at|
      modifies nodes
      ensures Holds(AddBranch(s, freq))
    {
      nodes[i] := nodes[i].(leaf := false, freq := freq, child := child);
      Adopt(child, i);
      forall j: nat | j <= |s.at| ensures Joined(AddBranch(s, freq), j) {
        assert j < |s.at| ==> old(Joined(s, j));
      }
    }

    /** Copies leaves until there are two nodes to join. */
    method CopyUntilPair(leaf: int, child: int, i: int, ghost s: Merge) returns (leaf': int, i': int)
      requires Valid() && Holds(s) && |s.at| < NUM_CODES - 1
      requires leaf == |s.leaves| - 1 && i == LAST - |s.built| && child == LAST - 2 * |s.at|
      modifies nodes, leafNodes
      ensures Holds(TakePair(s))
      ensures leaf' == |TakePair(s).leaves| - 1 && i' == LAST - |TakePair(s).built|
    {
      leaf', i' := leaf, i;
      ghost var now := s;
      while child - i' < 2
        invariant Holds(now) && now.at == s.at && TakePair(now) == TakePair(s)
        invariant leaf' == |now.leaves| - 1 && i' == LAST - |now.built|
        decreases |now.leaves|
      {
        PlaceLeaf(leaf', i', now);
        now, i', leaf' := TakeLeaf(now), i' - 1, leaf' - 1;
      }
    }

    /** Copies leaves until the place for a branch of the given frequency is reached. */
    method CopyUpTo(leaf: int, i: int, freq: nat, ghost s: Merge, ghost full: Merge) returns (leaf': int, i': int)
      requires Valid() && Holds(s) && |s.at| < NUM_CODES - 1 && full == TakeUpTo(s, freq)
      requires leaf == |s.leaves| - 1 && i == LAST - |s.built|
      modifies nodes, leafNodes
      ensures Holds(full) && leaf' == |full.leaves| - 1 && i' == LAST - |full.built|
    {
      leaf', i' := leaf, i;
      ghost var now := s;
      while leaf' >= 0 && freq >= nodes[leaf'].freq
        invariant Holds(now) && |now.at| < NUM_CODES - 1 && TakeUpTo(now, freq) == full
        invariant leaf' == |now.leaves| - 1 && i' == LAST - |now.built|
        decreases |now.leaves|
      {
        TakeUpToStep(now, freq);
        PlaceLeaf(leaf', i', now);
        now, i', leaf' := TakeLeaf(now), i' - 1, leaf' - 1;
      }
      TakeUpToStep(now, freq);
    }

    method AddPair(leaf: int, child: int, i: int, ghost s: Merge, ghost all: Merge) returns (leaf': int, i': int)
      requires Valid() && Holds(s) && |s.at| < NUM_CODES - 1 && all == Round(s)
      requires leaf == |s.leaves| - 1 && i == LAST - |s.built| && child == LAST - 2 * |s.at|
      modifies nodes, leafNodes
      ensures Holds(all) && leaf' == |all.leaves| - 1 && i' == LAST - |all.built|
    {
      leaf', i' := CopyUntilPair(leaf, child, i, s);
      ghost var pair, full := RoundParts(s);
      PairInTable(pair);
      var freq := nodes[child].freq + nodes[child - 1].freq;
      leaf', i' := JoinPair(leaf', child, i', freq, pair, full, all);
    }

    /** Joins the pair at `child`, after the leaves that come before its branch. */
    method JoinPair(leaf: int, child: int, i: int, freq: nat, ghost s: Merge, ghost full: Merge, ghost all: Merge)
      returns (leaf': int, i': int)
      requires Valid() && Holds(s) && |s.at| < NUM_CODES - 1 && full == TakeUpTo(s, freq)
      requires |full.built| >= 2 * |s.at| + 2 && all == AddBranch(full, freq)
      requires leaf == |s.leaves| - 1 && i == LAST - |s.built| && child == LAST - 2 * |s.at|
      modifies nodes, leafNodes
      ensures Holds(all) && leaf' == |all.leaves| - 1 && i' == LAST - |all.built|
    {
      leaf', i' := CopyUpTo(leaf, i, freq, s, full);
      PlaceBranch(i', child, freq, full);
      i' := i' - 1;
    }

    /** Merges leaves and branches from the right end of the table, overwriting nothing it still needs. */
    method MergeInPlace(ghost start: Merge)
      requires Valid() && Holds(start) && start.built == [] && start.at == []
      modifies nodes, leafNodes
      ensures Holds(MergeAll(start))
    {
      var leaf: int, child: int, i: int := NUM_CODES - 1, NUM_TREE_NODES - 1, NUM_TREE_NODES - 1;
      ghost var s := start;
      while i >= 0
        invariant Holds(s) && MergeAll(s) == MergeAll(start)
        invariant leaf == |s.leaves| - 1 && i == LAST - |s.built| && child == LAST - 2 * |s.at|
        decreases NUM_CODES - |s.at|
      {
        leaf, i := AddPair(leaf, child, i, s, Round(s));
        s, child := Round(s), child - 2;
      }
    }

    method InitGroups()
      requires Valid()
      modifies `numGroups, groups
      ensures numGroups == 0 && forall a :: 0 <= a < NUM_TREE_NODES ==> groups[a] == a
    {
      for i := 0 to NUM_TREE_NODES
        invariant forall a :: 0 <= a < i ==> groups[a] == a
      {
        groups[i] := i;
      }
      numGroups := 0;
    }

    /** The first i nodes have been given the group ids of their runs. */
    ghost predicate Assigned(was: seq<Node>, fs: seq<nat>, base: seq<nat>, i: nat)
      requires Valid() && |was| == |fs| == |base| == NUM_TREE_NODES && 1 <= i <= NUM_TREE_NODES
      reads Repr()
    {
      && (forall a :: 0 <= a < NUM_TREE_NODES ==> groups[a] == a)
      && numGroups == Rank(fs, i - 1) + 1
      && (forall k :: 0 <= k < i ==> nodes[k] == was[k].(group := Rank(fs, k)))
      && (forall k :: i <= k < NUM_TREE_NODES ==> nodes[k] == was[k])
      && groupLeader[..] == LeadersUpTo(fs, base, i - 1)
    }

    method AssignNext(i: nat, ghost was: seq<Node>, ghost fs: seq<nat>, ghost base: seq<nat>)
      requires Valid() && |was| == |fs| == |base| == NUM_TREE_NODES && fs == Freqs(was)
      requires 1 <= i < NUM_TREE_NODES && Assigned(was, fs, base, i)
      modifies `numGroups, nodes, groups, groupLeader
      ensures Assigned(was, fs, base, i + 1)
    {
      if nodes[i].freq == nodes[i - 1].freq {
        nodes[i] := nodes[i].(group := nodes[i - 1].group);
      } else {
        var group := AllocGroup();
        nodes[i] := nodes[i].(group := group);
        groupLeader[group] := i;
      }
    }

    /** Numbers the runs of equal frequency from the left. */
    method AssignGroups()
      requires Valid()
      modifies `numGroups, nodes, groups, groupLeader
      ensures nodes[..] == Numbered(old(nodes[..]))
      ensures groups[..] == seq(NUM_TREE_NODES, i => i)
      ensures numGroups == Rank(Freqs(old(nodes[..])), NUM_TREE_NODES - 1) + 1
      ensures groupLeader[..] == LeadersUpTo(Freqs(old(nodes[..])), old(groupLeader[..]), NUM_TREE_NODES - 1)
    {
      ghost var was, base := nodes[..], groupLeader[..];
      ghost var fs := Freqs(was);
      InitGroups();
      var group := AllocGroup();
      nodes[0] := nodes[0].(group := group);
      groupLeader[group] := 0;
      for i := 1 to NUM_TREE_NODES
        invariant Assigned(was, fs, base, i)
      {
        AssignNext(i, was, fs, base);
      }
    }

    lemma MergedPositions(s: Merge)
      requires Valid() && Holds(s) && |s.built| == NUM_TREE_NODES && |s.at| == NUM_CODES - 1
      ensures forall p :: 0 <= p < NUM_TREE_NODES ==> nodes[p] == Position(s, p).(group := nodes[p].group)
    {
      forall p | 0 <= p < NUM_TREE_NODES ensures nodes[p] == Position(s, p).(group := nodes[p].group) {
        assert AsItem(nodes[LAST - (LAST - p)]) == s.built[LAST - p];
        assert p > 0 ==> Joined(s, (LAST - p) / 2);
      }
    }

    method ReconstructTree()
      requires Valid() && Climbing(Model(), 0)
      modifies Repr()
      ensures Model() == Rebuild(old(Model()))
    {
      ghost var t := Model();
      assert PointsUp(t, 0);
      GatherLeaves();
      ghost var start := StartMerge(t);
      MergeInPlace(start);
      NumberGroups(MergeAll(start));
    }

    /** The groups of the finished merge. */
    method NumberGroups(ghost s: Merge)
      requires Valid() && Holds(s) && |s.built| == NUM_TREE_NODES && |s.at| == NUM_CODES - 1
      modifies `numGroups, nodes, groups, groupLeader
      ensures nodes[..] == Numbered(Positions(s)) && groups[..] == seq(NUM_TREE_NODES, i => i)
      ensures numGroups == Rank(Freqs(Positions(s)), NUM_TREE_NODES - 1) + 1
      ensures groupLeader[..] == LeadersUpTo(Freqs(Positions(s)), old(groupLeader[..]), NUM_TREE_NODES - 1)
    {
      MergedPositions(s);
      ghost var merged := nodes[..];
      AssignGroups();
      assert Freqs(merged) == Freqs(Positions(s));
      assert nodes[..] == Numbered(Positions(s));
    }
  }

  function AsItem(n: Node): Item { Item(n.leaf, n.child, n.freq) }
}
