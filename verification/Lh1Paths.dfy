/**
 Root-to-leaf paths of the -lh1- tree: what they sum to, how long they can be, and how they
 serve as codewords.
 */
module Lh1Paths {
  import opened Lh1Tree
  import opened Lh1Climb

  // ----- The root counts every leaf -----

  /** i is k or an ancestor of k. */
  ghost predicate OnPath(t: Tree, k: nat, i: nat)
    requires Shape(t) && k < NUM_TREE_NODES
    decreases k
  {
    assert PointsUp(t, k);
    k == i || (k > 0 && OnPath(t, t.nodes[k].parent, i))
  }

  /** A path through branch i continues through exactly one of its children. */
  lemma {:induction false} PathSplits(t: Tree, k: nat, i: nat)
    requires Shape(t) && k < NUM_TREE_NODES && i < NUM_TREE_NODES && k != i
    ensures OnPath(t, k, i) ==> !t.nodes[i].leaf && i < k
    ensures var c := t.nodes[i].child;
            !t.nodes[i].leaf ==>
              && c >= 1
              && !(OnPath(t, k, c) && OnPath(t, k, c - 1))
              && (OnPath(t, k, i) <==> OnPath(t, k, c) || OnPath(t, k, c - 1))
    decreases k
  {
    assert PointsUp(t, k) && PointsDown(t, i);
    if k > 0 {
      var p := t.nodes[k].parent;
      if p != i {
        PathSplits(t, p, i);
      } else {
        NotOnPathLeft(t, i, t.nodes[i].child);
        NotOnPathLeft(t, i, t.nodes[i].child - 1);
      }
    }
  }

  lemma {:induction false} NotOnPathLeft(t: Tree, k: nat, i: nat)
    requires Shape(t) && k < NUM_TREE_NODES && k < i
    ensures !OnPath(t, k, i)
    decreases k
  {
    assert PointsUp(t, k);
    if k > 0 { NotOnPathLeft(t, t.nodes[k].parent, i); }
  }

  lemma {:induction false} RootOnPath(t: Tree, k: nat)
    requires Shape(t) && k < NUM_TREE_NODES
    ensures OnPath(t, k, 0)
    decreases k
  {
    assert PointsUp(t, k);
    if k > 0 { RootOnPath(t, t.nodes[k].parent); }
  }

  /** The hits of the codes below k whose leaves hang under position i. */
  ghost function HitsUnder(t: Tree, i: nat, k: nat): nat
    requires Shape(t) && k <= NUM_CODES
  {
    if k == 0 then 0 else
      assert CodeAt(t, k - 1);
      HitsUnder(t, i, k - 1) + if OnPath(t, t.leafNodes[k - 1], i) then CodeFreq(t, k - 1) else 0
  }

  function TotalHits(t: Tree, k: nat): nat
    requires Shape(t) && k <= NUM_CODES
  {
    if k == 0 then 0 else TotalHits(t, k - 1) + CodeFreq(t, k - 1)
  }

  lemma {:induction false} HitsUnderRoot(t: Tree, k: nat)
    requires Shape(t) && k <= NUM_CODES
    ensures HitsUnder(t, 0, k) == TotalHits(t, k)
  {
    if k > 0 {
      assert CodeAt(t, k - 1);
      RootOnPath(t, t.leafNodes[k - 1]);
      HitsUnderRoot(t, k - 1);
    }
  }

  lemma {:induction false} HitsUnderLeaf(t: Tree, i: nat, k: nat)
    requires Shape(t) && i < NUM_TREE_NODES && t.nodes[i].leaf && k <= NUM_CODES
    ensures HitsUnder(t, i, k) == if t.nodes[i].child < k then t.nodes[i].freq else 0
    decreases k
  {
    if k > 0 {
      HitsUnderLeaf(t, i, k - 1);
      assert CodeAt(t, k - 1) && PointsDown(t, i);
      if t.leafNodes[k - 1] != i {
        PathSplits(t, t.leafNodes[k - 1], i);
      }
    }
  }

  lemma {:induction false} HitsUnderBranch(t: Tree, i: nat, k: nat)
    requires Shape(t) && i < NUM_TREE_NODES && !t.nodes[i].leaf && k <= NUM_CODES
    ensures t.nodes[i].child >= 1
    ensures HitsUnder(t, i, k) == HitsUnder(t, t.nodes[i].child, k) + HitsUnder(t, t.nodes[i].child - 1, k)
    decreases k
  {
    assert PointsDown(t, i);
    if k > 0 {
      HitsUnderBranch(t, i, k - 1);
      assert CodeAt(t, k - 1);
      PathSplits(t, t.leafNodes[k - 1], i);
    }
  }

  /** The number of codes comes as a variable, so that sums over all codes are not unfolded as on a literal. */
  lemma {:induction false} FreqIsHitsUnder(t: Tree, i: nat, all: nat)
    requires Climbing(t, 0) && i < NUM_TREE_NODES && all == NUM_CODES
    ensures t.nodes[i].freq == HitsUnder(t, i, all)
    decreases NUM_TREE_NODES - i
  {
    assert PointsDown(t, i);
    if t.nodes[i].leaf {
      HitsUnderLeaf(t, i, all);
    } else {
      HitsUnderBranch(t, i, all);
      assert Exceeds(t, i, Excess(0, i));
      FreqIsHitsUnder(t, t.nodes[i].child, all);
      FreqIsHitsUnder(t, t.nodes[i].child - 1, all);
    }
  }

  /** The root's frequency is the sum of the frequencies of all codes, whose number again comes as a variable. */
  lemma RootCountsAllCodes(t: Tree, all: nat)
    requires Climbing(t, 0) && all == NUM_CODES
    ensures t.nodes[0].freq == TotalHits(t, all)
  {
    FreqIsHitsUnder(t, 0, all);
    HitsUnderRoot(t, all);
  }

  // ----- Path length -----

  function Depth(t: Tree, k: nat): nat
    requires Shape(t) && k < NUM_TREE_NODES
    decreases k
  {
    assert PointsUp(t, k);
    if k == 0 then 0 else 1 + Depth(t, t.nodes[k].parent)
  }

  function Fib(n: nat): nat {
    if n < 2 then n else Fib(n - 1) + Fib(n - 2)
  }

  lemma {:induction false} FibGrows(a: nat, b: nat)
    requires a <= b
    ensures Fib(a) <= Fib(b)
    decreases b
  {
    if a < b && b >= 2 { FibGrows(a, b - 1); }
  }

  /** A node is at least as heavy as its child and grandchild together: the sibling left of the grandchild outweighs it. */
  lemma ThreeGenerations(t: Tree, y: nat)
    requires Climbing(t, 0) && y < NUM_TREE_NODES && Depth(t, y) >= 2
    ensures var x := t.nodes[y].parent; x < y && var p := t.nodes[x].parent;
            p < x && t.nodes[p].freq >= t.nodes[x].freq + t.nodes[y].freq
  {
    assert PointsUp(t, y);
    var x := t.nodes[y].parent;
    assert PointsUp(t, x) && PointsDown(t, x);
    SiblingOutweighs(t, x, y);
  }

  /** The parent of x outweighs x together with any node right of x and its sibling. */
  lemma SiblingOutweighs(t: Tree, x: nat, y: nat)
    requires Climbing(t, 0) && 1 <= x && x + 1 <= y < NUM_TREE_NODES && PairTop(x) <= y && PointsUp(t, x)
    ensures t.nodes[t.nodes[x].parent].freq >= t.nodes[x].freq + t.nodes[y].freq
  {
    var p := t.nodes[x].parent;
    assert Exceeds(t, p, Excess(0, p)) && PointsDown(t, p);
    var sibling := if t.nodes[p].child == x then x - 1 else PairTop(x);
    assert t.nodes[sibling].freq >= t.nodes[y].freq;
  }

  /** Frequencies grow at least like Fibonacci numbers on the way up. */
  lemma {:induction false} FibonacciBound(t: Tree, y: nat, a: nat)
    requires Climbing(t, 0) && y < NUM_TREE_NODES && Depth(t, y) >= 1
    requires t.nodes[y].freq >= Fib(a + 1)
    requires y > 0 && PointsUp(t, y) && t.nodes[t.nodes[y].parent].freq >= Fib(a + 2)
    ensures t.nodes[0].freq >= Fib(a + 1 + Depth(t, y))
    decreases y
  {
    var x := t.nodes[y].parent;
    if x > 0 {
      ThreeGenerations(t, y);
      assert PointsUp(t, x);
      FibonacciBound(t, x, a + 1);
    }
  }

  lemma FibDoubles(n: nat)
    ensures Fib(n + 4) == 3 * Fib(n + 1) + 2 * Fib(n) && Fib(n + 5) == 5 * Fib(n + 1) + 3 * Fib(n)
  {
  }

  /** The limit on the root's frequency lies below the 24th Fibonacci number. */
  lemma LimitBelowFib() returns (n: nat)
    ensures n == 24 && Fib(n) == 46368 > TREE_REORDER_LIMIT
  {
    var k := 0;
    FibDoubles(k);
    FibDoubles(k + 4);
    FibDoubles(k + 8);
    FibDoubles(k + 12);
    FibDoubles(k + 16);
    FibDoubles(k + 20);
    n := k + 24;
  }

  /** A node below the root at depth d needs a root of at least the (d+2)-th Fibonacci number. */
  lemma DeepNeedsHeavy(t: Tree, k: nat)
    requires Climbing(t, 0) && 1 <= k < NUM_TREE_NODES
    ensures t.nodes[0].freq >= Fib(2 + Depth(t, k))
  {
    assert PointsUp(t, k);
    var x := t.nodes[k].parent;
    assert Exceeds(t, x, Excess(0, x)) && PointsDown(t, x);
    FibonacciBound(t, k, 1);
  }

  lemma ShortByFib(d: nat, f: nat)
    requires Fib(2 + d) <= f <= TREE_REORDER_LIMIT
    ensures d <= 21
  {
    var n := LimitBelowFib();
    if d > 21 { FibGrows(n, 2 + d); }
  }

  /** Every codeword has at most 21 bits. */
  lemma CodewordsAreShort(t: Tree, k: nat)
    requires Climbing(t, 0) && t.nodes[0].freq <= TREE_REORDER_LIMIT && k < NUM_TREE_NODES
    ensures Depth(t, k) <= 21
  {
    if k > 0 {
      DeepNeedsHeavy(t, k);
      ShortByFib(Depth(t, k), t.nodes[0].freq);
    }
  }
}
