/**
 The -lh1- bit stream: reading a code by walking down the tree undoes a specification encoder
 that climbs from the code's leaf, over any sequence of codes and any number of rebuilds.
 */
module Lh1Codec {
  import opened Bits
  import opened Lh1Tree
  import opened Lh1Model
  import opened Lh1Paths

  datatype Read = Short | Got(code: nat, rest: seq<Bit>)

  /** Walks down from position i, choosing the right child on 0 and its left neighbour on 1. */
  function Descend(t: Tree, i: nat, bits: seq<Bit>): Read
    requires Shape(t) && i < NUM_TREE_NODES
    decreases NUM_TREE_NODES - i
  {
    assert PointsDown(t, i);
    if t.nodes[i].leaf then Got(t.nodes[i].child, bits)
    else if bits == [] then Short
    else Descend(t, t.nodes[i].child - bits[0], bits[1..])
  }

  /** The bits that lead from the root to position k, found by climbing the parent links. */
  function PathTo(t: Tree, k: nat): (s: seq<Bit>)
    requires Shape(t) && k < NUM_TREE_NODES
    ensures |s| == Depth(t, k)
    decreases k
  {
    assert PointsUp(t, k);
    if k == 0 then [] else PathTo(t, t.nodes[k].parent) + [k % 2]
  }

  function Codeword(t: Tree, c: nat): seq<Bit>
    requires Shape(t) && c < NUM_CODES
  {
    assert CodeAt(t, c);
    PathTo(t, t.leafNodes[c])
  }

  lemma {:induction false} DescendFollowsPath(t: Tree, k: nat, tail: seq<Bit>)
    requires Shape(t) && k < NUM_TREE_NODES
    ensures Descend(t, 0, PathTo(t, k) + tail) == Descend(t, k, tail)
    decreases k
  {
    assert PointsUp(t, k);
    if k == 0 {
      assert PathTo(t, k) + tail == tail;
    } else {
      var p := t.nodes[k].parent;
      DescendFollowsPath(t, p, [k % 2] + tail);
      assert PathTo(t, k) + tail == PathTo(t, p) + ([k % 2] + tail);
      assert ([k % 2] + tail)[1..] == tail;
      assert PointsDown(t, p);
    }
  }

  /** Reading a codeword gives its code back and leaves whatever follows. */
  lemma ReadUndoesCodeword(t: Tree, c: nat, tail: seq<Bit>)
    requires Shape(t) && c < NUM_CODES
    ensures Descend(t, 0, Codeword(t, c) + tail) == Got(c, tail)
  {
    assert CodeAt(t, c);
    DescendFollowsPath(t, t.leafNodes[c], tail);
  }

  lemma {:induction false} DescendTakesPath(t: Tree, i: nat, bits: seq<Bit>)
    requires Shape(t) && i < NUM_TREE_NODES
    ensures var r := Descend(t, i, bits);
            r.Got? ==> r.code < NUM_CODES && PathTo(t, i) + bits == Codeword(t, r.code) + r.rest
    decreases NUM_TREE_NODES - i
  {
    assert PointsDown(t, i);
    if !t.nodes[i].leaf && bits != [] {
      var k := t.nodes[i].child - bits[0];
      DescendTakesPath(t, k, bits[1..]);
      assert PathTo(t, k) == PathTo(t, i) + [bits[0]];
      assert PathTo(t, i) + bits == PathTo(t, k) + bits[1..];
    }
  }

  /** Whatever is read was a codeword: no two bit strings are read as the same code. */
  lemma ReadTakesCodeword(t: Tree, bits: seq<Bit>)
    requires Shape(t)
    ensures var r := Descend(t, 0, bits);
            r.Got? ==> r.code < NUM_CODES && bits == Codeword(t, r.code) + r.rest
  {
    DescendTakesPath(t, 0, bits);
    assert PathTo(t, 0) + bits == bits;
  }

  // ----- The first codewords -----

  /** In a heap the path to k spells the complement of k + 1 without its leading one. */
  lemma {:induction false} HeapPath(t: Tree, k: nat, len: nat)
    requires Shape(t) && k < NUM_TREE_NODES && Pow2(len) <= k + 1 < Pow2(len + 1)
    requires forall i :: 0 < i < NUM_TREE_NODES ==> t.nodes[i].parent == (i - 1) / 2
    ensures PathTo(t, k) == ToBits(Pow2(len + 1) - 2 - k, len)
    decreases len
  {
    if len == 0 {
      assert k == 0;
    } else {
      HeapStep(k, Pow2(len - 1));
      HeapPath(t, (k - 1) / 2, len - 1);
    }
  }

  lemma HeapStep(k: nat, q: nat)
    requires 2 * q <= k + 1 < 4 * q
    ensures k > 0 && q <= (k - 1) / 2 + 1 < 2 * q
    ensures (4 * q - 2 - k) / 2 == 2 * q - 2 - (k - 1) / 2 && (4 * q - 2 - k) % 2 == k % 2
  {
  }

  /** Before anything has been counted, the first 116 codes have nine bits and the others eight, in ascending order. */
  lemma InitialCodewords(fs: seq<nat>, c: nat)
    requires Heap(fs) && c < NUM_CODES
    ensures Shape(InitialTree(fs))
    ensures Codeword(InitialTree(fs), c) == if c < 116 then ToBits(396 + c, 9) else ToBits(c - 116, 8)
  {
    InitialTreeOk(fs, NUM_CODES);
    var t := InitialTree(fs);
    assert Pow2(8) == 256 && Pow2(9) == 512 && Pow2(10) == 1024;
    HeapPath(t, t.leafNodes[c], if c < 116 then 9 else 8);
  }

  // ----- Whole streams of codes -----

  ghost predicate Codes(codes: seq<nat>) {
    forall i :: 0 <= i < |codes| ==> codes[i] < NUM_CODES
  }

  function Encode(t: Tree, codes: seq<nat>): seq<Bit>
    requires TreeOk(t) && Codes(codes)
    decreases |codes|
  {
    if codes == [] then []
    else
      IncrementKeepsTree(t, codes[0]);
      Codeword(t, codes[0]) + Encode(Increment(t, codes[0]), codes[1..])
  }

  /** Reads n codes, counting each in the tree before the next. */
  function Decode(t: Tree, n: nat, bits: seq<Bit>): seq<nat>
    requires TreeOk(t)
    decreases n
  {
    if n == 0 then []
    else
      var r := Descend(t, 0, bits);
      ReadTakesCodeword(t, bits);
      if r.Short? then []
      else
        IncrementKeepsTree(t, r.code);
        [r.code] + Decode(Increment(t, r.code), n - 1, r.rest)
  }

  lemma DecodeOne(t: Tree, c: nat, n: nat, tail: seq<Bit>)
    requires TreeOk(t) && c < NUM_CODES
    ensures TreeOk(Increment(t, c))
    ensures Decode(t, n + 1, Codeword(t, c) + tail) == [c] + Decode(Increment(t, c), n, tail)
  {
    IncrementKeepsTree(t, c);
    ReadUndoesCodeword(t, c, tail);
  }

  lemma {:induction false} DecodeUndoesEncode(t: Tree, codes: seq<nat>, tail: seq<Bit>)
    requires TreeOk(t) && Codes(codes)
    ensures Decode(t, |codes|, Encode(t, codes) + tail) == codes
    decreases |codes|
  {
    if codes != [] {
      IncrementKeepsTree(t, codes[0]);
      var u := Increment(t, codes[0]);
      var rest := Encode(u, codes[1..]);
      DecodeOne(t, codes[0], |codes| - 1, rest + tail);
      DecodeUndoesEncode(u, codes[1..], tail);
      DecodeJoin(t, u, codes, Codeword(t, codes[0]), rest, tail);
    }
  }

  lemma DecodeJoin(t: Tree, u: Tree, codes: seq<nat>, first: seq<Bit>, rest: seq<Bit>, tail: seq<Bit>)
    requires TreeOk(t) && TreeOk(u) && codes != []
    requires Decode(t, |codes|, first + (rest + tail)) == [codes[0]] + Decode(u, |codes| - 1, rest + tail)
    requires Decode(u, |codes| - 1, rest + tail) == codes[1..]
    ensures Decode(t, |codes|, (first + rest) + tail) == codes
  {
    Associate(first, rest, tail);
  }

  /** In every tree the decoder can reach, a codeword has at most 21 bits. */
  lemma ReachableCodewordsAreShort(fs: seq<nat>, codes: seq<nat>, c: nat)
    requires Heap(fs) && Codes(codes) && c < NUM_CODES
    ensures TreeOk(InitialTree(fs)) && Shape(Run(InitialTree(fs), codes))
    ensures |Codeword(Run(InitialTree(fs), codes), c)| <= 21
  {
    InitialTreeOk(fs, NUM_CODES);
    var t := Run(InitialTree(fs), codes);
    assert CodeAt(t, c);
    CodewordsAreShort(t, t.leafNodes[c]);
  }
}
