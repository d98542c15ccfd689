/**
 The adaptive Huffman tree of the -lh1- method as a value, with the invariant that every
 decoded symbol keeps. Node 0 is the root; positions are ordered by non-increasing frequency.
 */
module Lh1Tree {

  const NUM_CODES: nat := 314
  const NUM_TREE_NODES: nat := 627
  const TREE_REORDER_LIMIT: nat := 32768

  /** A branch at position i has the children `child` and `child - 1`; a leaf holds its code in `child`. */
  datatype Node = Node(leaf: bool, child: nat, parent: nat, freq: nat, group: nat)

  datatype Tree = Tree(nodes: seq<Node>, leafNodes: seq<nat>, groups: seq<nat>, numGroups: nat, leader: seq<nat>)

  // ----- Shape: sibling pairs, parent links and the leaf index -----

  ghost predicate Sizes(t: Tree) {
    && |t.nodes| == NUM_TREE_NODES
    && |t.leafNodes| == NUM_CODES
    && |t.groups| == NUM_TREE_NODES
    && |t.leader| == NUM_TREE_NODES
    && t.numGroups <= NUM_TREE_NODES
  }

  /** The even member of the sibling pair that position k belongs to. */
  function PairTop(k: nat): nat { k + k % 2 }

  /** Everything node i points at points back at i, and children lie strictly to the right. */
  ghost predicate PointsDown(t: Tree, i: nat)
    requires Sizes(t) && i < NUM_TREE_NODES
  {
    var c := t.nodes[i].child;
    if t.nodes[i].leaf then c < NUM_CODES && t.leafNodes[c] == i
    else c % 2 == 0 && i + 2 <= c < NUM_TREE_NODES && t.nodes[c].parent == i && t.nodes[c - 1].parent == i
  }

  /** The parent of position k is a branch to its left that has k in its pair of children; the root's is unused. */
  ghost predicate PointsUp(t: Tree, k: nat)
    requires Sizes(t) && k < NUM_TREE_NODES
  {
    var p := t.nodes[k].parent;
    if k == 0 then p == 0 else p < k && !t.nodes[p].leaf && t.nodes[p].child == PairTop(k)
  }

  ghost predicate CodeAt(t: Tree, c: nat)
    requires Sizes(t) && c < NUM_CODES
  {
    var i := t.leafNodes[c];
    i < NUM_TREE_NODES && t.nodes[i].leaf && t.nodes[i].child == c
  }

  ghost predicate Shape(t: Tree) {
    && Sizes(t)
    && (forall i: nat :: i < NUM_TREE_NODES ==> PointsDown(t, i))
    && (forall k: nat :: k < NUM_TREE_NODES ==> PointsUp(t, k))
    && (forall c: nat :: c < NUM_CODES ==> CodeAt(t, c))
  }

  // ----- Frequencies -----

  ghost predicate Sorted(nodes: seq<Node>) {
    && (forall i, j :: 0 <= i < j < |nodes| ==> nodes[i].freq >= nodes[j].freq)
    && (forall i :: 0 <= i < |nodes| ==> nodes[i].freq >= 1)
  }

  /** Branch i exceeds the sum of its children by d. */
  ghost predicate Exceeds(t: Tree, i: nat, d: int)
    requires Sizes(t) && i < NUM_TREE_NODES
  {
    var c := t.nodes[i].child;
    !t.nodes[i].leaf ==> 1 <= c < NUM_TREE_NODES && t.nodes[i].freq == t.nodes[c].freq + t.nodes[c - 1].freq + d
  }

  /** While a climb is about to process x, the root is one ahead of its children and x one behind. */
  function Excess(x: nat, i: nat): int {
    if x == 0 then 0 else if i == 0 then 1 else if i == x then -1 else 0
  }

  ghost predicate Summed(t: Tree, x: nat)
    requires Sizes(t)
  {
    forall i: nat :: i < NUM_TREE_NODES ==> Exceeds(t, i, Excess(x, i))
  }

  // ----- Groups -----

  ghost predicate SameGroup(t: Tree, i: nat, j: nat)
    requires Sizes(t) && i < NUM_TREE_NODES && j < NUM_TREE_NODES
  {
    t.nodes[i].group == t.nodes[j].group
  }

  /** The leader of i's group is the leftmost node with i's frequency. */
  ghost predicate Led(t: Tree, i: nat)
    requires Sizes(t) && i < NUM_TREE_NODES
  {
    && t.nodes[i].group < NUM_TREE_NODES
    && var l := t.leader[t.nodes[i].group];
       l <= i && SameGroup(t, l, i) && (l > 0 ==> t.nodes[l - 1].freq > t.nodes[i].freq)
  }

  ghost function UsedIds(t: Tree): set<nat>
    requires Sizes(t)
  {
    set i: nat | i < NUM_TREE_NODES :: t.nodes[i].group
  }

  ghost function FreeIds(t: Tree): set<nat>
    requires Sizes(t)
  {
    set a: nat | t.numGroups <= a < NUM_TREE_NODES :: t.groups[a]
  }

  /** The ids in use and the ids on the free list partition all the ids. */
  ghost predicate Partitioned(t: Tree)
    requires Sizes(t)
  {
    && (forall a, b :: t.numGroups <= a < b < NUM_TREE_NODES ==> t.groups[a] != t.groups[b])
    && UsedIds(t) !! FreeIds(t)
    && (forall g: nat :: g in UsedIds(t) || g in FreeIds(t) <==> g < NUM_TREE_NODES)
  }

  ghost predicate Grouped(t: Tree)
    requires Sizes(t)
  {
    && (forall i: nat, j: nat :: i < NUM_TREE_NODES && j < NUM_TREE_NODES ==>
          (SameGroup(t, i, j) <==> t.nodes[i].freq == t.nodes[j].freq))
    && (forall i: nat :: i < NUM_TREE_NODES ==> Led(t, i))
    && Partitioned(t)
  }

  /** The invariant of a climb about to process x; `Climbing(t, 0)` is the invariant at rest. */
  ghost predicate Climbing(t: Tree, x: nat) {
    && Shape(t)
    && x < NUM_TREE_NODES
    && Sorted(t.nodes)
    && Summed(t, x)
    && Grouped(t)
  }

  // ----- The swap with the group leader -----

  /** Exchanges the names i and l. */
  function Transpose(i: nat, l: nat, k: nat): nat {
    if k == i then l else if k == l then i else k
  }

  /** The subtrees hanging at i and l change places; positions keep frequency and group. */
  function SwapNodes(t: Tree, i: nat, l: nat): Tree
    requires Sizes(t) && i < NUM_TREE_NODES && l < NUM_TREE_NODES
  {
    t.(nodes := seq(NUM_TREE_NODES, k requires 0 <= k < NUM_TREE_NODES =>
                      var from := t.nodes[Transpose(i, l, k)];
                      Node(from.leaf, from.child, Transpose(i, l, t.nodes[k].parent), t.nodes[k].freq, t.nodes[k].group)),
       leafNodes := seq(NUM_CODES, c requires 0 <= c < NUM_CODES => Transpose(i, l, t.leafNodes[c])))
  }

  /** Where a swap is legal: the right-hand node's position is still left of the children it receives. */
  ghost predicate Swappable(t: Tree, i: nat, l: nat) {
    && Shape(t) && 1 <= l < i < NUM_TREE_NODES
    && (!t.nodes[l].leaf ==> t.nodes[l].child > i + 1)
  }

  lemma SwapKeepsDown(t: Tree, i: nat, l: nat, k: nat)
    requires Swappable(t, i, l) && k < NUM_TREE_NODES
    ensures PointsDown(SwapNodes(t, i, l), k)
  {
    assert PointsDown(t, Transpose(i, l, k));
  }

  lemma SwapKeepsUp(t: Tree, i: nat, l: nat, k: nat)
    requires Swappable(t, i, l) && k < NUM_TREE_NODES
    ensures PointsUp(SwapNodes(t, i, l), k)
  {
    assert PointsUp(t, k) && PointsDown(t, l) && PointsDown(t, i);
  }

  lemma SwapKeepsShape(t: Tree, i: nat, l: nat)
    requires Swappable(t, i, l)
    ensures Shape(SwapNodes(t, i, l))
  {
    var u := SwapNodes(t, i, l);
    forall k: nat | k < NUM_TREE_NODES ensures PointsDown(u, k) && PointsUp(u, k) {
      SwapKeepsDown(t, i, l, k);
      SwapKeepsUp(t, i, l, k);
    }
    forall c: nat | c < NUM_CODES ensures CodeAt(u, c) {
      assert CodeAt(t, c);
    }
  }
}
