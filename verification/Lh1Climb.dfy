/**
 Counting a symbol: every node from the symbol's leaf to the root becomes the leader of its
 group and then gains one hit. Each step keeps the weakened invariant `Climbing`.
 */
module Lh1Climb {
  import opened Lh1Tree
  import opened Lh1Groups

  function CodeFreq(t: Tree, c: nat): nat
    requires Shape(t) && c < NUM_CODES
  {
    assert CodeAt(t, c);
    t.nodes[t.leafNodes[c]].freq
  }

  /** The root alone has the greatest frequency. */
  lemma RootIsGreatest(t: Tree, x: nat, k: nat)
    requires Climbing(t, x) && 1 <= k < NUM_TREE_NODES
    ensures !t.nodes[0].leaf && t.nodes[0].freq > t.nodes[k].freq
  {
    assert PointsUp(t, 1);
    assert Exceeds(t, 0, Excess(x, 0));
    assert t.nodes[1].freq >= t.nodes[k].freq;
  }

  function LeaderOf(t: Tree, x: nat): nat
    requires Sizes(t) && x < NUM_TREE_NODES && Led(t, x)
  {
    t.leader[t.nodes[x].group]
  }

  /** A leader to the left of x is neither the root nor x's ancestor, and its children lie right of x. */
  lemma LeaderIsSwappable(t: Tree, x: nat)
    requires Climbing(t, x) && x >= 1
    ensures Led(t, x)
    ensures 1 <= LeaderOf(t, x) <= x
    ensures t.nodes[LeaderOf(t, x)].freq == t.nodes[x].freq
    ensures LeaderOf(t, x) < x ==> Swappable(t, x, LeaderOf(t, x))
  {
    assert Led(t, x);
    var l := LeaderOf(t, x);
    assert SameGroup(t, l, x);
    RootIsGreatest(t, x, x);
    if l < x && !t.nodes[l].leaf {
      assert PointsDown(t, l) && Exceeds(t, l, Excess(x, l));
    }
  }

  /** Moves x to the front of its group. */
  function MakeLeader(t: Tree, x: nat): Tree
    requires Climbing(t, x) && x >= 1
  {
    LeaderIsSwappable(t, x);
    if LeaderOf(t, x) == x then t else SwapNodes(t, x, LeaderOf(t, x))
  }

  lemma MakeLeaderKeepsGrouped(t: Tree, x: nat)
    requires Climbing(t, x) && x >= 1
    ensures Led(t, x) && SameGrouping(t, MakeLeader(t, x))
    ensures Grouped(MakeLeader(t, x)) && Sorted(MakeLeader(t, x).nodes)
    ensures Leading(MakeLeader(t, x), LeaderOf(t, x))
  {
    LeaderIsSwappable(t, x);
    GroupingCarries(t, MakeLeader(t, x));
  }

  /** After the swap the leader's position lags behind in place of x. */
  lemma SwapMovesExcess(t: Tree, x: nat, l: nat, i: nat)
    requires Climbing(t, x) && Swappable(t, x, l) && t.nodes[l].freq == t.nodes[x].freq && i < NUM_TREE_NODES
    ensures Exceeds(SwapNodes(t, x, l), i, Excess(l, i))
  {
    var k, u := Transpose(x, l, i), SwapNodes(t, x, l);
    assert Exceeds(t, k, Excess(x, k));
    SwappedAt(t, x, l, i);
    ExcessMoves(x, l, i);
    if !t.nodes[k].leaf {
      var c := t.nodes[k].child;
      SwappedAt(t, x, l, c);
      SwappedAt(t, x, l, c - 1);
    }
  }

  lemma SwappedAt(t: Tree, x: nat, l: nat, i: nat)
    requires Sizes(t) && x < NUM_TREE_NODES && l < NUM_TREE_NODES && i < NUM_TREE_NODES
    requires t.nodes[l].freq == t.nodes[x].freq
    ensures var k, u := Transpose(x, l, i), SwapNodes(t, x, l);
            && u.nodes[i].leaf == t.nodes[k].leaf && u.nodes[i].child == t.nodes[k].child
            && u.nodes[i].freq == t.nodes[i].freq == t.nodes[k].freq
  {
  }

  lemma ExcessMoves(x: nat, l: nat, i: nat)
    requires 1 <= l < x
    ensures Excess(l, i) == Excess(x, Transpose(x, l, i))
  {
  }

  lemma SwapKeepsClimbing(t: Tree, x: nat, l: nat)
    requires Climbing(t, x) && Swappable(t, x, l) && t.nodes[l].freq == t.nodes[x].freq
    requires Grouped(SwapNodes(t, x, l)) && Sorted(SwapNodes(t, x, l).nodes)
    ensures Climbing(SwapNodes(t, x, l), l)
  {
    SwapKeepsShape(t, x, l);
    forall i: nat | i < NUM_TREE_NODES ensures Exceeds(SwapNodes(t, x, l), i, Excess(l, i)) {
      SwapMovesExcess(t, x, l, i);
    }
  }

  lemma MakeLeaderKeepsClimbing(t: Tree, x: nat)
    requires Climbing(t, x) && x >= 1
    ensures Led(t, x) && Climbing(MakeLeader(t, x), LeaderOf(t, x))
    ensures Leading(MakeLeader(t, x), LeaderOf(t, x))
    ensures MakeLeader(t, x).nodes[0].freq == t.nodes[0].freq
  {
    LeaderIsSwappable(t, x);
    MakeLeaderKeepsGrouped(t, x);
    if LeaderOf(t, x) < x {
      SwapKeepsClimbing(t, x, LeaderOf(t, x));
    }
  }

  lemma BumpKeepsShape(t: Tree, x: nat)
    requires Shape(t) && Leading(t, x)
    ensures Shape(Bump(t, x))
  {
    var u := Bump(t, x);
    forall k: nat | k < NUM_TREE_NODES ensures PointsDown(u, k) && PointsUp(u, k) {
      assert PointsDown(t, k) && PointsUp(t, k);
    }
    forall c: nat | c < NUM_CODES ensures CodeAt(u, c) {
      assert CodeAt(t, c);
    }
  }

  lemma BumpMovesExcess(t: Tree, x: nat, i: nat)
    requires Climbing(t, x) && Leading(t, x) && i < NUM_TREE_NODES
    ensures Exceeds(Bump(t, x), i, Excess(t.nodes[x].parent, i))
  {
    var u := Bump(t, x);
    assert PointsUp(t, x);
    assert Exceeds(t, i, Excess(x, i)) && PointsDown(t, i);
    assert u.nodes[i].leaf == t.nodes[i].leaf && u.nodes[i].child == t.nodes[i].child;
    if !t.nodes[i].leaf {
      var c := t.nodes[i].child;
      assert u.nodes[c].freq == t.nodes[c].freq + (if c == x then 1 else 0);
      assert u.nodes[c - 1].freq == t.nodes[c - 1].freq + (if c - 1 == x then 1 else 0);
    }
  }

  /** After the hit the parent is the node that lags behind its children. */
  lemma BumpKeepsClimbing(t: Tree, x: nat)
    requires Climbing(t, x) && Leading(t, x)
    ensures Climbing(Bump(t, x), t.nodes[x].parent) && t.nodes[x].parent < x
    ensures Bump(t, x).nodes[0].freq == t.nodes[0].freq
  {
    BumpKeepsShape(t, x);
    BumpKeepsGrouped(t, x);
    assert PointsUp(t, x);
    forall i: nat | i < NUM_TREE_NODES ensures Exceeds(Bump(t, x), i, Excess(t.nodes[x].parent, i)) {
      BumpMovesExcess(t, x, i);
    }
  }

  // ----- The whole climb -----

  function Step(t: Tree, x: nat): Tree
    requires Climbing(t, x) && x >= 1
  {
    MakeLeaderKeepsClimbing(t, x);
    Bump(MakeLeader(t, x), LeaderOf(t, x))
  }

  function Above(t: Tree, x: nat): nat
    requires Climbing(t, x) && x >= 1
  {
    MakeLeaderKeepsClimbing(t, x);
    MakeLeader(t, x).nodes[LeaderOf(t, x)].parent
  }

  lemma StepKeepsClimbing(t: Tree, x: nat)
    requires Climbing(t, x) && x >= 1
    ensures Above(t, x) < x && Climbing(Step(t, x), Above(t, x))
    ensures Step(t, x).nodes[0].freq == t.nodes[0].freq
  {
    LeaderIsSwappable(t, x);
    MakeLeaderKeepsClimbing(t, x);
    BumpKeepsClimbing(MakeLeader(t, x), LeaderOf(t, x));
  }

  function Climb(t: Tree, x: nat): Tree
    requires Climbing(t, x)
    decreases x
  {
    if x == 0 then t
    else
      StepKeepsClimbing(t, x);
      Climb(Step(t, x), Above(t, x))
  }

  lemma {:induction false} ClimbKeepsTree(t: Tree, x: nat)
    requires Climbing(t, x)
    ensures Climbing(Climb(t, x), 0)
    ensures Climb(t, x).nodes[0].freq == t.nodes[0].freq
    decreases x
  {
    if x != 0 {
      StepKeepsClimbing(t, x);
      ClimbKeepsTree(Step(t, x), Above(t, x));
    }
  }

  /** Making x a leader moves codes about but changes no code's frequency. */
  lemma MakeLeaderFreq(t: Tree, x: nat, c: nat)
    requires Climbing(t, x) && x >= 1 && c < NUM_CODES
    ensures Led(t, x) && Shape(MakeLeader(t, x)) && CodeFreq(MakeLeader(t, x), c) == CodeFreq(t, c)
    ensures MakeLeader(t, x).leafNodes[c] == LeaderOf(t, x) <==> t.leafNodes[c] == x
  {
    LeaderIsSwappable(t, x);
    MakeLeaderKeepsClimbing(t, x);
    assert CodeAt(t, c) && CodeAt(MakeLeader(t, x), c);
  }

  lemma BumpFreq(t: Tree, x: nat, c: nat)
    requires Shape(t) && Leading(t, x) && c < NUM_CODES
    ensures Shape(Bump(t, x)) && Bump(t, x).leafNodes == t.leafNodes
    ensures CodeFreq(Bump(t, x), c) == CodeFreq(t, c) + (if t.leafNodes[c] == x then 1 else 0)
    ensures Bump(t, x).leafNodes[c] != t.nodes[x].parent
  {
    BumpKeepsShape(t, x);
    assert CodeAt(t, c) && CodeAt(Bump(t, x), c) && PointsUp(t, x);
  }

  /** A step counts for the code of the leaf it processes, if it processes one, and for no other. */
  lemma StepFreq(t: Tree, x: nat, c: nat)
    requires Climbing(t, x) && x >= 1 && c < NUM_CODES
    ensures Shape(Step(t, x))
    ensures CodeFreq(Step(t, x), c) == CodeFreq(t, c) + (if t.leafNodes[c] == x then 1 else 0)
    ensures Step(t, x).leafNodes[c] != Above(t, x)
  {
    MakeLeaderKeepsClimbing(t, x);
    MakeLeaderFreq(t, x, c);
    BumpFreq(MakeLeader(t, x), LeaderOf(t, x), c);
  }

  lemma {:induction false} ClimbFreq(t: Tree, x: nat, c: nat)
    requires Climbing(t, x) && c < NUM_CODES
    ensures Shape(Climb(t, x))
    ensures CodeFreq(Climb(t, x), c) == CodeFreq(t, c) + (if x > 0 && t.leafNodes[c] == x then 1 else 0)
    decreases x
  {
    if x != 0 {
      StepKeepsClimbing(t, x);
      StepFreq(t, x, c);
      ClimbFreq(Step(t, x), Above(t, x), c);
    }
  }

  // ----- Starting the climb -----

  function CountRoot(t: Tree): Tree
    requires |t.nodes| > 0
  {
    t.(nodes := t.nodes[0 := t.nodes[0].(freq := t.nodes[0].freq + 1)])
  }

  lemma CountRootKeepsShape(t: Tree)
    requires Shape(t)
    ensures Shape(CountRoot(t))
  {
    var u := CountRoot(t);
    forall k: nat | k < NUM_TREE_NODES ensures PointsDown(u, k) && PointsUp(u, k) {
      assert PointsDown(t, k) && PointsUp(t, k);
    }
    forall d: nat | d < NUM_CODES ensures CodeAt(u, d) {
      assert CodeAt(t, d);
    }
  }

  lemma CountRootSums(t: Tree, x: nat, i: nat)
    requires Climbing(t, 0) && 1 <= x < NUM_TREE_NODES && t.nodes[x].leaf && i < NUM_TREE_NODES
    ensures Exceeds(CountRoot(t), i, Excess(x, i))
  {
    assert Exceeds(t, i, Excess(0, i)) && PointsDown(t, i);
  }

  /** The root has a group of its own, so it may run ahead. */
  lemma CountRootKeepsGrouped(t: Tree)
    requires Climbing(t, 0)
    ensures Grouped(CountRoot(t)) && Sorted(CountRoot(t).nodes)
  {
    var u := CountRoot(t);
    RootIsGreatest(t, 0, 1);
    assert forall k :: 1 <= k < NUM_TREE_NODES ==> t.nodes[1].freq >= t.nodes[k].freq;
    forall i: nat | i < NUM_TREE_NODES ensures Led(u, i) {
      assert Led(t, i) && Led(t, 0);
      assert SameGroup(t, 0, i) <==> t.nodes[0].freq == t.nodes[i].freq;
    }
    forall i: nat, j: nat | i < NUM_TREE_NODES && j < NUM_TREE_NODES
      ensures SameGroup(u, i, j) <==> u.nodes[i].freq == u.nodes[j].freq
    {
      assert SameGroup(t, i, j) <==> t.nodes[i].freq == t.nodes[j].freq;
    }
    SameIds(t, u);
  }

  lemma CountRootStartsClimb(t: Tree, c: nat)
    requires Climbing(t, 0) && c < NUM_CODES
    ensures t.leafNodes[c] > 0 && Climbing(CountRoot(t), t.leafNodes[c])
  {
    var x := t.leafNodes[c];
    assert CodeAt(t, c);
    RootIsGreatest(t, 0, 1);
    CountRootKeepsShape(t);
    CountRootKeepsGrouped(t);
    forall i: nat | i < NUM_TREE_NODES ensures Exceeds(CountRoot(t), i, Excess(x, i)) {
      CountRootSums(t, x, i);
    }
  }
}
