/**
 For a complete set of code lengths the table built breadth first decodes exactly the canonical
 codewords of section 3.2.2 of RFC 1951.
 */
module CanonicalCodes {
  import opened Bits
  import opened TreeDecode

  // ----- The canonical assignment -----

  /** How many of the first n codes have length len; length 0 means unused. */
  function Count(lens: seq<nat>, len: nat, n: nat): (c: nat)
    requires n <= |lens|
    ensures c <= n
  {
    if n == 0 then 0 else Count(lens, len, n - 1) + if lens[n - 1] == len && len > 0 then 1 else 0
  }

  /** The first codeword value of each length. */
  function FirstCode(lens: seq<nat>, len: nat): nat {
    if len == 0 then 0 else 2 * (FirstCode(lens, len - 1) + Count(lens, len - 1, |lens|))
  }

  /** Codes of equal length take consecutive values in order of their index. */
  function CanonicalValue(lens: seq<nat>, i: nat): nat
    requires i < |lens|
  {
    FirstCode(lens, lens[i]) + Count(lens, lens[i], i)
  }

  function Codeword(lens: seq<nat>, i: nat): seq<Bit>
    requires i < |lens|
  {
    ToBits(CanonicalValue(lens, i), lens[i])
  }

  // ----- Kraft's sum, scaled by 2^top -----

  /** The share of the codes of at least length len among the first n. */
  function Share(lens: seq<nat>, top: nat, len: nat, n: nat): nat
    requires n <= |lens| && LengthsBelow(lens, top + 1)
  {
    if n == 0 then 0
    else Share(lens, top, len, n - 1) + if lens[n - 1] >= len && lens[n - 1] > 0 then Pow2(top - lens[n - 1]) else 0
  }

  /** The codewords exactly fill the space: Kraft's sum over the used codes is 1. */
  ghost predicate Complete(lens: seq<nat>, top: nat) {
    LengthsBelow(lens, top + 1) && Share(lens, top, 1, |lens|) == Pow2(top)
  }

  /** How many used codes are at least as long as len. */
  function AtLeast(lens: seq<nat>, len: nat, n: nat): nat
    requires n <= |lens|
  {
    if n == 0 then 0 else AtLeast(lens, len, n - 1) + if lens[n - 1] >= len && lens[n - 1] > 0 then 1 else 0
  }

  lemma {:induction false} ShareSplits(lens: seq<nat>, top: nat, len: nat, n: nat)
    requires n <= |lens| && LengthsBelow(lens, top + 1) && 1 <= len <= top
    ensures Share(lens, top, len, n) == Count(lens, len, n) * Pow2(top - len) + Share(lens, top, len + 1, n)
    ensures AtLeast(lens, len, n) == Count(lens, len, n) + AtLeast(lens, len + 1, n)
    decreases n
  {
    if n > 0 {
      ShareSplits(lens, top, len, n - 1);
      var p := Pow2(top - len);
      assert (Count(lens, len, n - 1) + 1) * p == Count(lens, len, n - 1) * p + p;
    }
  }

  /** Each code of at least length len takes at most one share of that length, and a positive one. */
  lemma {:induction false} ShareBounds(lens: seq<nat>, top: nat, len: nat, n: nat)
    requires n <= |lens| && LengthsBelow(lens, top + 1) && len <= top
    ensures Share(lens, top, len, n) <= AtLeast(lens, len, n) * Pow2(top - len)
    ensures AtLeast(lens, len, n) > 0 ==> Share(lens, top, len, n) > 0
    decreases n
  {
    if n > 0 {
      ShareBounds(lens, top, len, n - 1);
      var p := Pow2(top - len);
      assert (AtLeast(lens, len, n - 1) + 1) * p == AtLeast(lens, len, n - 1) * p + p;
      if lens[n - 1] >= len && lens[n - 1] > 0 {
        Pow2Grows(top - lens[n - 1], top - len);
      }
    }
  }

  /** Codeword values of length len that no shorter code has taken. */
  function Slots(lens: seq<nat>, len: nat): int {
    Pow2(len) - FirstCode(lens, len)
  }

  lemma SlotsStep(s: int, c: int, p: nat)
    ensures (2 * (s - c)) * p == s * (2 * p) - c * (2 * p)
  {
  }

  lemma FirstSlots(lens: seq<nat>)
    ensures Slots(lens, 1) == 2 && FirstCode(lens, 1) == 0 && Slots(lens, 0) == 1
  {
    CountUnused(lens, |lens|);
    assert FirstCode(lens, 1) == 2 * (FirstCode(lens, 0) + Count(lens, 0, |lens|));
    assert Pow2(1) == 2;
  }

  lemma NextSlots(lens: seq<nat>, len: nat)
    ensures Slots(lens, len + 1) == 2 * (Slots(lens, len) - Count(lens, len, |lens|))
  {
    assert FirstCode(lens, len + 1) == 2 * (FirstCode(lens, len) + Count(lens, len, |lens|));
    assert Pow2(len + 1) == 2 * Pow2(len);
  }

  /** In a complete set the free values of every length are exactly what the codes from there on take. */
  lemma {:induction false} SlotsAreShares(lens: seq<nat>, top: nat, len: nat)
    requires Complete(lens, top) && 1 <= len <= top
    ensures Slots(lens, len) * Pow2(top - len) == Share(lens, top, len, |lens|)
    decreases len
  {
    if len == 1 {
      FirstSlots(lens);
    } else {
      SlotsAreShares(lens, top, len - 1);
      ShareSplits(lens, top, len - 1, |lens|);
      NextSlots(lens, len - 1);
      assert Pow2(top - (len - 1)) == 2 * Pow2(top - len);
      SlotsStep(Slots(lens, len - 1), Count(lens, len - 1, |lens|), Pow2(top - len));
    }
  }

  lemma {:induction false} CountUnused(lens: seq<nat>, n: nat)
    requires n <= |lens|
    ensures Count(lens, 0, n) == 0
  {
    if n > 0 { CountUnused(lens, n - 1); }
  }

  lemma Cancel(a: int, b: int, p: nat)
    requires p > 0 && a * p <= b * p
    ensures a <= b
  {
    assert (a - b) * p == a * p - b * p;
    Multiples(a - b, p);
  }

  lemma {:induction false} NoneLonger(lens: seq<nat>, top: nat, len: nat, n: nat)
    requires n <= |lens| && LengthsBelow(lens, top + 1) && forall i :: 0 <= i < n ==> lens[i] < len
    ensures Share(lens, top, len, n) == 0
    decreases n
  {
    if n > 0 { NoneLonger(lens, top, len, n - 1); }
  }

  /** There is a free value for every code of length len, never more than codes still to come, and none is left over. */
  lemma SlotsSuffice(lens: seq<nat>, top: nat, len: nat)
    requires Complete(lens, top) && 1 <= len <= top
    ensures Count(lens, len, |lens|) <= Slots(lens, len) <= AtLeast(lens, len, |lens|)
    ensures !AnyLonger(lens, len) ==> Slots(lens, len) == Count(lens, len, |lens|)
    ensures AnyLonger(lens, len) ==> len < top
  {
    var n, p := |lens|, Pow2(top - len);
    SlotsAreShares(lens, top, len);
    ShareSplits(lens, top, len, n);
    ShareBounds(lens, top, len, n);
    Cancel(Count(lens, len, n), Slots(lens, len), p);
    Cancel(Slots(lens, len), AtLeast(lens, len, n), p);
    if !AnyLonger(lens, len) {
      NoneLonger(lens, top, len + 1, n);
      Cancel(Slots(lens, len), Count(lens, len, n), p);
    }
  }

  // ----- Finding a codeword in the table -----

  /** The position reached from the root by the len-bit spelling of v, or -1. */
  function Locate(tree: seq<nat>, mark: nat, v: int, len: nat): int
    decreases len
  {
    if len == 0 then (if tree != [] then 0 else -1)
    else
      var q := Locate(tree, mark, v / 2, len - 1);
      if 0 <= q < |tree| && tree[q] < mark then tree[q] + v % 2 else -1
  }

  /** All branches on the way to v lie left of position m. */
  predicate Inside(tree: seq<nat>, mark: nat, v: int, len: nat, m: nat)
    decreases len
  {
    len == 0 || (0 <= Locate(tree, mark, v / 2, len - 1) < m && Inside(tree, mark, v / 2, len - 1, m))
  }

  /** Changes at or right of m disturb no path whose branches lie left of m. */
  lemma {:induction false} LocateIsStable(t: seq<nat>, u: seq<nat>, mark: nat, v: int, len: nat, m: nat, m': nat)
    requires |t| == |u| && m <= m' && forall k :: 0 <= k < m && k < |t| ==> t[k] == u[k]
    requires Inside(t, mark, v, len, m)
    ensures Locate(u, mark, v, len) == Locate(t, mark, v, len) && Inside(u, mark, v, len, m')
    decreases len
  {
    if len > 0 { LocateIsStable(t, u, mark, v / 2, len - 1, m, m'); }
  }

  /** Reading the spelling of v arrives at its position. */
  lemma {:induction false} ReadReachesPosition(tree: seq<nat>, mark: nat, v: nat, len: nat, tail: seq<Bit>)
    requires Forward(tree, mark) && 0 <= Locate(tree, mark, v, len) < |tree|
    ensures ReadTree(tree, mark, ToBits(v, len) + tail) == Follow(tree, mark, tree[Locate(tree, mark, v, len)], tail)
    decreases len
  {
    if len == 0 {
      assert ToBits(v, 0) + tail == tail;
    } else {
      var bit: Bit := v % 2;
      var q := Locate(tree, mark, v / 2, len - 1);
      ReadReachesPosition(tree, mark, v / 2, len - 1, [bit] + tail);
      assert ToBits(v, len) + tail == ToBits(v / 2, len - 1) + ([bit] + tail);
      assert ([bit] + tail)[1..] == tail;
    }
  }

  // ----- Building a complete tree -----

  /** The codeword values still waiting are the last ones of their length, in order of position. */
  ghost predicate Waits(b: Build, mark: nat, len: nat, p: nat)
    requires b.next <= p < b.alloc
  {
    var v := Pow2(len) - (b.alloc - p);
    Locate(b.tree, mark, v, len) == p && Inside(b.tree, mark, v, len, b.next)
  }

  /** Code j has its leaf where its canonical codeword leads. */
  ghost predicate Settled(b: Build, mark: nat, lens: seq<nat>, j: nat)
    requires j < |lens|
  {
    var v := CanonicalValue(lens, j);
    var p := Locate(b.tree, mark, v, lens[j]);
    0 <= p < b.next && p < |b.tree| && b.tree[p] == mark + j && Inside(b.tree, mark, v, lens[j], b.next)
  }

  /** Code j has been placed once the codes below i have been tried at length len. */
  predicate Due(lens: seq<nat>, len: nat, i: nat, j: nat)
    requires j < |lens|
  {
    0 < lens[j] && (lens[j] < len || (lens[j] == len && j < i))
  }

  /** The number of codes placed by then. */
  function DueCount(lens: seq<nat>, len: nat, i: nat): int
    requires i <= |lens|
  {
    AtLeast(lens, 1, |lens|) - AtLeast(lens, len, |lens|) + Count(lens, len, i)
  }

  ghost predicate OnTrack(b: Build, mark: nat, lens: seq<nat>, len: nat, i: nat) {
    && BuildOk(b, mark) && i <= |lens| <= mark
    && b.alloc - b.next == Slots(lens, len) - Count(lens, len, i)
    && b.alloc == 2 * (DueCount(lens, len, i) + (b.alloc - b.next)) - 1
    && (forall p: nat :: b.next <= p < b.alloc ==> Waits(b, mark, len, p))
    && (forall j: nat :: j < |lens| && Due(lens, len, i, j) ==> Settled(b, mark, lens, j))
  }

  /** The children of the k-th waiting position wait for the two values that extend its own. */
  lemma ExpandWaits(b: Build, mark: nat, len: nat, k: nat, bit: Bit)
    requires BuildOk(b, mark) && b.alloc + 2 * (b.alloc - b.next) <= |b.tree|
    requires b.next <= k < b.alloc && Waits(b, mark, len, k)
    ensures Waits(Expand(b), mark, len + 1, b.alloc + 2 * (k - b.next) + bit)
  {
    var e, v := Expand(b), Pow2(len) - (b.alloc - k);
    LocateIsStable(b.tree, e.tree, mark, v, len, b.next, e.next);
    Halves(v, bit);
    assert Pow2(len + 1) - (e.alloc - (b.alloc + 2 * (k - b.next) + bit)) == 2 * v + bit;
    LocateNext(e.tree, mark, v, bit, len, e.next, k);
  }

  lemma LocateNext(tree: seq<nat>, mark: nat, v: int, bit: Bit, len: nat, m: nat, k: nat)
    requires Locate(tree, mark, v, len) == k < m && k < |tree| && tree[k] < mark && Inside(tree, mark, v, len, m)
    ensures Locate(tree, mark, 2 * v + bit, len + 1) == tree[k] + bit && Inside(tree, mark, 2 * v + bit, len + 1, m)
  {
    Halves(v, bit);
  }

  lemma Halves(v: int, bit: Bit)
    ensures (2 * v + bit) / 2 == v && (2 * v + bit) % 2 == bit
  {
  }

  lemma ExpandSettled(b: Build, mark: nat, lens: seq<nat>, j: nat)
    requires BuildOk(b, mark) && j < |lens| && Settled(b, mark, lens, j)
    ensures Settled(Expand(b), mark, lens, j)
  {
    LocateIsStable(b.tree, Expand(b).tree, mark, CanonicalValue(lens, j), lens[j], b.next, Expand(b).next);
  }

  lemma PlaceSettles(b: Build, mark: nat, lens: seq<nat>, len: nat, i: nat)
    requires OnTrack(b, mark, lens, len, i) && i < |lens| && 0 < len == lens[i] && b.next < b.alloc
    ensures Settled(Place(b, mark, i), mark, lens, i)
  {
    var r := Place(b, mark, i);
    assert Waits(b, mark, len, b.next);
    assert CanonicalValue(lens, i) == Pow2(len) - (b.alloc - b.next);
    LocateIsStable(b.tree, r.tree, mark, CanonicalValue(lens, i), len, b.next, r.next);
  }

  lemma PlaceKeepsWaiting(b: Build, mark: nat, len: nat, i: nat, p: nat)
    requires BuildOk(b, mark) && b.next < p < b.alloc && Waits(b, mark, len, p)
    ensures Waits(Place(b, mark, i), mark, len, p)
  {
    var r := Place(b, mark, i);
    LocateIsStable(b.tree, r.tree, mark, Pow2(len) - (b.alloc - p), len, b.next, r.next);
  }

  lemma PlaceKeepsSettled(b: Build, mark: nat, lens: seq<nat>, i: nat, j: nat)
    requires BuildOk(b, mark) && b.next < b.alloc && j < |lens| && Settled(b, mark, lens, j)
    ensures Settled(Place(b, mark, i), mark, lens, j)
  {
    var r := Place(b, mark, i);
    LocateIsStable(b.tree, r.tree, mark, CanonicalValue(lens, j), lens[j], b.next, r.next);
  }

  lemma PlaceKeepsOnTrack(b: Build, mark: nat, lens: seq<nat>, len: nat, i: nat)
    requires OnTrack(b, mark, lens, len, i) && i < |lens| && 0 < len == lens[i] && b.next < b.alloc
    ensures OnTrack(Place(b, mark, i), mark, lens, len, i + 1)
  {
    var r := Place(b, mark, i);
    PlaceSettles(b, mark, lens, len, i);
    forall p: nat | r.next <= p < r.alloc ensures Waits(r, mark, len, p) {
      PlaceKeepsWaiting(b, mark, len, i, p);
    }
    forall j: nat | j < |lens| && Due(lens, len, i + 1, j) && j != i ensures Settled(r, mark, lens, j) {
      PlaceKeepsSettled(b, mark, lens, i, j);
    }
  }

  lemma SkipKeepsOnTrack(b: Build, mark: nat, lens: seq<nat>, len: nat, i: nat)
    requires OnTrack(b, mark, lens, len, i) && i < |lens| && 0 < len != lens[i]
    ensures OnTrack(b, mark, lens, len, i + 1)
  {
    forall j: nat | j < |lens| && Due(lens, len, i + 1, j) ensures Settled(b, mark, lens, j) {
      assert Due(lens, len, i, j);
    }
  }

  lemma {:induction false} CountGrows(lens: seq<nat>, len: nat, i: nat, n: nat)
    requires i <= n <= |lens|
    ensures Count(lens, len, i) <= Count(lens, len, n)
    decreases n
  {
    if i < n { CountGrows(lens, len, i, n - 1); }
  }

  lemma {:induction false} PlaceUpToKeepsOnTrack(b: Build, mark: nat, lens: seq<nat>, len: nat, i: nat)
    requires OnTrack(b, mark, lens, len, 0) && i <= |lens| && 0 < len
    requires Count(lens, len, |lens|) <= Slots(lens, len)
    ensures OnTrack(PlaceUpTo(b, mark, lens, len, i), mark, lens, len, i)
    decreases i
  {
    if i > 0 {
      PlaceUpToKeepsOnTrack(b, mark, lens, len, i - 1);
      var r := PlaceUpTo(b, mark, lens, len, i - 1);
      if lens[i - 1] == len {
        CountGrows(lens, len, i, |lens|);
        PlaceKeepsOnTrack(r, mark, lens, len, i - 1);
      } else {
        SkipKeepsOnTrack(r, mark, lens, len, i - 1);
      }
    }
  }

  lemma {:induction false} AtLeastZero(lens: seq<nat>, n: nat)
    requires n <= |lens|
    ensures AtLeast(lens, 0, n) == AtLeast(lens, 1, n)
  {
    if n > 0 { AtLeastZero(lens, n - 1); }
  }

  /** Deepening finds room whenever the table can hold the whole tree. */
  lemma RoomToExpand(b: Build, mark: nat, lens: seq<nat>, top: nat, len: nat)
    requires OnTrack(b, mark, lens, len, |lens|) && Complete(lens, top) && len < top
    requires 2 * AtLeast(lens, 1, |lens|) - 1 <= |b.tree|
    ensures DueCount(lens, len, |lens|) == DueCount(lens, len + 1, 0)
    ensures b.alloc + 2 * (b.alloc - b.next) <= |b.tree|
    ensures 2 * (b.alloc - b.next) == Slots(lens, len + 1)
  {
    var n := |lens|;
    NextSlots(lens, len);
    SlotsSuffice(lens, top, len + 1);
    if len == 0 {
      AtLeastZero(lens, n);
      CountUnused(lens, n);
    } else {
      ShareSplits(lens, top, len, n);
    }
  }

  lemma ExpandWaitsAt(b: Build, mark: nat, len: nat, p: nat)
    requires BuildOk(b, mark) && b.alloc + 2 * (b.alloc - b.next) <= |b.tree|
    requires b.alloc <= p < b.alloc + 2 * (b.alloc - b.next)
    requires forall k: nat :: b.next <= k < b.alloc ==> Waits(b, mark, len, k)
    ensures Waits(Expand(b), mark, len + 1, p)
  {
    var half, bit: Bit := (p - b.alloc) / 2, (p - b.alloc) % 2;
    assert p == b.alloc + 2 * half + bit;
    ExpandWaits(b, mark, len, half + b.next, bit);
  }

  lemma ExpandKeepsOnTrack(b: Build, mark: nat, lens: seq<nat>, top: nat, len: nat)
    requires OnTrack(b, mark, lens, len, |lens|) && Complete(lens, top) && len < top
    requires 2 * AtLeast(lens, 1, |lens|) - 1 <= |b.tree|
    ensures OnTrack(Expand(b), mark, lens, len + 1, 0)
  {
    var e, n, deeper := Expand(b), |lens|, len + 1;
    RoomToExpand(b, mark, lens, top, len);
    forall p: nat | e.next <= p < e.alloc ensures Waits(e, mark, deeper, p) {
      ExpandWaitsAt(b, mark, len, p);
    }
    forall j: nat | j < |lens| && Due(lens, deeper, 0, j) ensures Settled(e, mark, lens, j) {
      assert Due(lens, len, n, j);
      ExpandSettled(b, mark, lens, j);
    }
  }

  /** Every used code can be read, and the table holds nothing else. */
  ghost predicate AllSettled(r: Build, mark: nat, lens: seq<nat>) {
    && BuildOk(r, mark) && r.next == r.alloc == 2 * AtLeast(lens, 1, |lens|) - 1
    && forall j: nat :: j < |lens| && lens[j] > 0 ==> Settled(r, mark, lens, j)
  }

  lemma LastLevel(r: Build, mark: nat, lens: seq<nat>, top: nat, len: nat)
    requires OnTrack(r, mark, lens, len, |lens|) && Complete(lens, top) && 1 <= len <= top && !AnyLonger(lens, len)
    ensures AllSettled(r, mark, lens)
  {
    var n := |lens|;
    SlotsSuffice(lens, top, len);
    ShareSplits(lens, top, len, n);
    NoneAtLeast(lens, len + 1, n);
    forall j: nat | j < |lens| && lens[j] > 0 ensures Settled(r, mark, lens, j) {
      assert Due(lens, len, n, j);
    }
  }

  lemma LevelKeepsOnTrack(b: Build, mark: nat, lens: seq<nat>, top: nat, len: nat)
    requires OnTrack(b, mark, lens, len, |lens|) && Complete(lens, top) && len < top
    requires 2 * AtLeast(lens, 1, |lens|) - 1 <= |b.tree|
    ensures OnTrack(Level(b, mark, lens, len + 1), mark, lens, len + 1, |lens|)
    ensures AnyLonger(lens, len + 1) ==> len + 1 < top
  {
    ExpandKeepsOnTrack(b, mark, lens, top, len);
    SlotsSuffice(lens, top, len + 1);
    PlaceUpToKeepsOnTrack(Expand(b), mark, lens, len + 1, |lens|);
  }

  lemma {:induction false} LevelsSettleAll(b: Build, mark: nat, lens: seq<nat>, top: nat, len: nat, bound: nat)
    requires OnTrack(b, mark, lens, len, |lens|) && Complete(lens, top) && len < top && LengthsBelow(lens, bound)
    requires 2 * AtLeast(lens, 1, |lens|) - 1 <= |b.tree|
    ensures AllSettled(Levels(b, mark, lens, len, bound), mark, lens)
    decreases bound - len
  {
    var r := Level(b, mark, lens, len + 1);
    LevelKeepsOnTrack(b, mark, lens, top, len);
    if AnyLonger(lens, len + 1) {
      LevelsSettleAll(r, mark, lens, top, len + 1, bound);
    } else {
      LastLevel(r, mark, lens, top, len + 1);
    }
  }

  lemma {:induction false} NoneAtLeast(lens: seq<nat>, len: nat, n: nat)
    requires n <= |lens| && forall i :: 0 <= i < n ==> lens[i] < len
    ensures AtLeast(lens, len, n) == 0
    decreases n
  {
    if n > 0 { NoneAtLeast(lens, len, n - 1); }
  }

  lemma CanonicalValueFits(lens: seq<nat>, top: nat, i: nat)
    requires Complete(lens, top) && i < |lens| && lens[i] > 0
    ensures CanonicalValue(lens, i) < Pow2(lens[i])
  {
    SlotsSuffice(lens, top, lens[i]);
    CountGrows(lens, lens[i], i + 1, |lens|);
  }

  /**
   For every complete set of lengths that fits the table, whatever the table held before: each used
   code is read back from its canonical codeword, leaving what follows, and the tree takes exactly
   one entry less than twice the number of used codes.
   */
  lemma CanonicalCodesAreRead(tree: seq<nat>, mark: nat, lens: seq<nat>, top: nat, i: nat, tail: seq<Bit>)
    requires Forward(tree, mark) && |lens| <= mark && LengthsBelow(lens, MAX_LENGTH)
    requires Complete(lens, top) && 2 * AtLeast(lens, 1, |lens|) - 1 <= |tree|
    requires i < |lens| && lens[i] > 0
    ensures Levels(Build(tree, 1, 0), mark, lens, 0, MAX_LENGTH).alloc == 2 * AtLeast(lens, 1, |lens|) - 1
    ensures Forward(BuildTree(tree, mark, lens), mark)
    ensures ReadTree(BuildTree(tree, mark, lens), mark, Codeword(lens, i) + tail) == Got(i, tail)
    ensures |Codeword(lens, i)| == lens[i] && Value(Codeword(lens, i)) == CanonicalValue(lens, i)
  {
    var b, n := Build(tree, 1, 0), |lens|;
    FirstSlots(lens);
    CountUnused(lens, n);
    AtLeastZero(lens, n);
    assert Waits(b, mark, 0, 0) by { assert Pow2(0) == 1; }
    assert OnTrack(b, mark, lens, 0, n);
    LevelsSettleAll(b, mark, lens, top, 0, MAX_LENGTH);
    var built := BuildTree(tree, mark, lens);
    ReadReachesPosition(built, mark, CanonicalValue(lens, i), lens[i], tail);
    CanonicalValueFits(lens, top, i);
  }
}
