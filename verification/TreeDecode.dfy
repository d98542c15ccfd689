/**
 Trees built from code lengths inside one table, breadth first. An entry of at least `mark` is a
 leaf; any other entry is the position of a pair of children.
 */
module TreeDecode {
  import opened Bits

  // ----- Reading -----

  datatype Read = Short | Got(code: nat, rest: seq<Bit>)

  /** Every entry is a leaf or points strictly forward to a pair inside the table. */
  ghost predicate Forward(tree: seq<nat>, mark: nat) {
    && 1 <= |tree| <= mark
    && forall k :: 0 <= k < |tree| ==> tree[k] >= mark || (k < tree[k] && tree[k] + 1 < |tree|)
  }

  /** Continues at an entry: leaves end the walk, other entries take one bit. */
  function Follow(tree: seq<nat>, mark: nat, entry: nat, bits: seq<Bit>): Read
    requires Forward(tree, mark)
    requires entry < mark ==> entry + 1 < |tree|
    decreases if entry < mark then |tree| - entry else 0
  {
    if entry >= mark then Got(entry - mark, bits)
    else if bits == [] then Short
    else Follow(tree, mark, tree[entry + bits[0]], bits[1..])
  }

  function ReadTree(tree: seq<nat>, mark: nat, bits: seq<Bit>): Read
    requires Forward(tree, mark)
  {
    Follow(tree, mark, tree[0], bits)
  }

  /** Every leaf's code lies below n. */
  ghost predicate CodesBelow(tree: seq<nat>, mark: nat, n: nat) {
    forall k :: 0 <= k < |tree| && tree[k] >= mark ==> tree[k] - mark < n
  }

  /** Whatever the bits, a code that is read lies below the bound on the leaves, and only bits of the input are used. */
  lemma {:induction false} FollowIsBounded(tree: seq<nat>, mark: nat, entry: nat, bits: seq<Bit>, n: nat)
    requires Forward(tree, mark) && CodesBelow(tree, mark, n)
    requires if entry < mark then entry + 1 < |tree| else entry - mark < n
    ensures var r := Follow(tree, mark, entry, bits);
            r.Got? ==> r.code < n && |r.rest| <= |bits| && r.rest == bits[|bits| - |r.rest|..]
    decreases |bits|
  {
    if entry < mark && bits != [] {
      FollowIsBounded(tree, mark, tree[entry + bits[0]], bits[1..], n);
    }
  }

  // ----- Building -----

  /** The table being filled: positions next..alloc-1 wait to become a leaf or a pair of children. */
  datatype Build = Build(tree: seq<nat>, alloc: nat, next: nat)

  ghost predicate BuildOk(b: Build, mark: nat) {
    Forward(b.tree, mark) && b.next <= b.alloc <= |b.tree| && b.alloc >= 1
  }

  /** Every waiting position becomes a branch with a fresh pair, or nothing happens if there is no room. */
  function Expand(b: Build): Build
    requires b.next <= b.alloc
  {
    var fresh_ := (b.alloc - b.next) * 2;
    if b.alloc + fresh_ > |b.tree| then b
    else
      Build(seq(|b.tree|, k requires 0 <= k < |b.tree| =>
              if b.next <= k < b.alloc then b.alloc + 2 * (k - b.next) else b.tree[k]),
            b.alloc + fresh_, b.alloc)
  }

  /** The next waiting position becomes a leaf; position 0 is reused once none is waiting. */
  function Place(b: Build, mark: nat, code: nat): Build
    requires b.tree != [] && b.alloc <= |b.tree|
  {
    if b.next >= b.alloc then b.(tree := b.tree[0 := mark + code])
    else b.(tree := b.tree[b.next := mark + code], next := b.next + 1)
  }

  /** Places the codes below i that have length len. */
  function PlaceUpTo(b: Build, mark: nat, lens: seq<nat>, len: nat, i: nat): (r: Build)
    requires b.tree != [] && b.alloc <= |b.tree| && i <= |lens|
    ensures |r.tree| == |b.tree| && r.alloc == b.alloc
    ensures b.next <= b.alloc ==> b.next <= r.next <= r.alloc
    decreases i
  {
    if i == 0 then b
    else
      var r := PlaceUpTo(b, mark, lens, len, i - 1);
      if lens[i - 1] == len then Place(r, mark, i - 1) else r
  }

  predicate AnyLonger(lens: seq<nat>, len: nat) {
    exists i :: 0 <= i < |lens| && lens[i] > len
  }

  /** One level: deepen the waiting positions, then place the codes of the new length. */
  function Level(b: Build, mark: nat, lens: seq<nat>, len: nat): (r: Build)
    requires b.tree != [] && b.next <= b.alloc <= |b.tree|
    ensures |r.tree| == |b.tree| && r.next <= r.alloc <= |r.tree|
  {
    PlaceUpTo(Expand(b), mark, lens, len, |lens|)
  }

  ghost predicate LengthsBelow(lens: seq<nat>, bound: nat) {
    forall i :: 0 <= i < |lens| ==> lens[i] < bound
  }

  function Levels(b: Build, mark: nat, lens: seq<nat>, len: nat, bound: nat): (r: Build)
    requires b.tree != [] && b.next <= b.alloc <= |b.tree| && LengthsBelow(lens, bound)
    ensures |r.tree| == |b.tree|
    decreases bound - len
  {
    var r := Level(b, mark, lens, len + 1);
    if AnyLonger(lens, len + 1) then Levels(r, mark, lens, len + 1, bound) else r
  }

  const MAX_LENGTH: nat := 256

  /** The table after building a tree over its old contents. */
  function BuildTree(tree: seq<nat>, mark: nat, lens: seq<nat>): seq<nat>
    requires tree != [] && LengthsBelow(lens, MAX_LENGTH)
  {
    Levels(Build(tree, 1, 0), mark, lens, 0, MAX_LENGTH).tree
  }

  // ----- Any lengths at all keep the table readable -----

  /** What every step keeps, whatever the lengths: a readable table whose codes stay below n. */
  ghost predicate Readable(b: Build, mark: nat, n: nat) {
    BuildOk(b, mark) && CodesBelow(b.tree, mark, n)
  }

  lemma ExpandKeepsReadable(b: Build, mark: nat, n: nat)
    requires Readable(b, mark, n)
    ensures Readable(Expand(b), mark, n)
  {
  }

  lemma PlaceKeepsReadable(b: Build, mark: nat, code: nat, n: nat)
    requires Readable(b, mark, n) && code < n
    ensures Readable(Place(b, mark, code), mark, n)
  {
  }

  lemma {:induction false} PlaceUpToKeepsReadable(b: Build, mark: nat, lens: seq<nat>, len: nat, i: nat, n: nat)
    requires Readable(b, mark, n) && i <= |lens| <= n
    ensures Readable(PlaceUpTo(b, mark, lens, len, i), mark, n)
    decreases i
  {
    if i > 0 {
      PlaceUpToKeepsReadable(b, mark, lens, len, i - 1, n);
      PlaceKeepsReadable(PlaceUpTo(b, mark, lens, len, i - 1), mark, i - 1, n);
    }
  }

  lemma {:induction false} LevelsKeepReadable(b: Build, mark: nat, lens: seq<nat>, len: nat, bound: nat, n: nat)
    requires Readable(b, mark, n) && LengthsBelow(lens, bound) && |lens| <= n
    ensures Readable(Levels(b, mark, lens, len, bound), mark, n)
    decreases bound - len
  {
    ExpandKeepsReadable(b, mark, n);
    PlaceUpToKeepsReadable(Expand(b), mark, lens, len + 1, |lens|, n);
    if AnyLonger(lens, len + 1) {
      LevelsKeepReadable(Level(b, mark, lens, len + 1), mark, lens, len + 1, bound, n);
    }
  }

  datatype Operation = Init | Single(code: nat) | FromLengths(lens: seq<nat>)

  ghost predicate Allowed(op: Operation, n: nat) {
    match op
    case Init => true
    case Single(code) => code < n
    case FromLengths(lens) => |lens| <= n && LengthsBelow(lens, MAX_LENGTH)
  }

  function Apply(tree: seq<nat>, mark: nat, op: Operation, n: nat): (r: seq<nat>)
    requires tree != [] && Allowed(op, n)
    ensures |r| == |tree|
  {
    match op
    case Init => seq(|tree|, _ => mark)
    case Single(code) => tree[0 := mark + code]
    case FromLengths(lens) => BuildTree(tree, mark, lens)
  }

  ghost predicate AllAllowed(ops: seq<Operation>, n: nat) {
    forall i :: 0 <= i < |ops| ==> Allowed(ops[i], n)
  }

  function ApplyAll(tree: seq<nat>, mark: nat, ops: seq<Operation>, n: nat): (r: seq<nat>)
    requires tree != [] && AllAllowed(ops, n)
    ensures |r| == |tree|
    decreases |ops|
  {
    if ops == [] then tree
    else Apply(ApplyAll(tree, mark, ops[..|ops| - 1], n), mark, ops[|ops| - 1], n)
  }

  lemma ApplyKeepsReadable(tree: seq<nat>, mark: nat, op: Operation, n: nat)
    requires Forward(tree, mark) && CodesBelow(tree, mark, n) && Allowed(op, n) && n > 0
    ensures Forward(Apply(tree, mark, op, n), mark) && CodesBelow(Apply(tree, mark, op, n), mark, n)
  {
    if op.FromLengths? {
      LevelsKeepReadable(Build(tree, 1, 0), mark, op.lens, 0, MAX_LENGTH, n);
    }
  }

  /**
   After any history of operations, with arbitrary, incomplete or over-full lengths and whatever
   they left behind, the table can be read safely and yields only codes below n.
   */
  lemma {:induction false} HistoryKeepsReadable(size: nat, mark: nat, ops: seq<Operation>, n: nat)
    requires 1 <= size <= mark && n > 0 && AllAllowed(ops, n)
    ensures var t := ApplyAll(seq(size, _ => mark), mark, ops, n);
            Forward(t, mark) && CodesBelow(t, mark, n)
    decreases |ops|
  {
    if ops != [] {
      HistoryKeepsReadable(size, mark, ops[..|ops| - 1], n);
      ApplyKeepsReadable(ApplyAll(seq(size, _ => mark), mark, ops[..|ops| - 1], n), mark, ops[|ops| - 1], n);
    }
  }
}
