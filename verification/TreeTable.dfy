/** The tree table operations as the decoders run them, in place on one array. */
module TreeTable {
  import opened BitReader
  import opened TreeDecode

  method InitTree(tree: array<nat>, mark: nat)
    modifies tree
    ensures tree[..] == seq(tree.Length, _ => mark)
  {
    for i := 0 to tree.Length
      invariant forall k :: 0 <= k < i ==> tree[k] == mark
    {
      tree[i] := mark;
    }
  }

  method SetTreeSingle(tree: array<nat>, mark: nat, code: nat)
    requires tree.Length > 0
    modifies tree
    ensures tree[..] == old(tree[..])[0 := mark + code]
  {
    tree[0] := mark + code;
  }

  class TreeBuildData {
    const tree: array<nat>
    const mark: nat
    var treeAllocated: nat
    var nextEntry: nat

    ghost predicate Valid()
      reads this
    {
      tree.Length > 0 && nextEntry <= treeAllocated <= tree.Length
    }

    ghost function State(): Build
      reads this, tree
    {
      Build(tree[..], treeAllocated, nextEntry)
    }

    constructor (tree: array<nat>, mark: nat)
      requires tree.Length > 0
      ensures this.tree == tree && this.mark == mark && Valid() && State() == Build(tree[..], 1, 0)
    {
      this.tree, this.mark, treeAllocated, nextEntry := tree, mark, 1, 0;
    }

    method ExpandQueue()
      requires Valid()
      modifies this, tree
      ensures Valid() && State() == Expand(old(State()))
    {
      ghost var b := State();
      var newNodes := (treeAllocated - nextEntry) * 2;
      if treeAllocated + newNodes > tree.Length {
        return;
      }
      var endOffset := treeAllocated;
      while nextEntry < endOffset
        invariant b.next <= nextEntry <= endOffset && treeAllocated == b.alloc + 2 * (nextEntry - b.next)
        invariant forall k :: 0 <= k < tree.Length ==>
                    tree[k] == if b.next <= k < nextEntry then b.alloc + 2 * (k - b.next) else b.tree[k]
      {
        tree[nextEntry] := treeAllocated;
        treeAllocated := treeAllocated + 2;
        nextEntry := nextEntry + 1;
      }
      assert tree[..] == Expand(b).tree;
    }

    method ReadNextEntry() returns (result: nat)
      requires Valid()
      modifies `nextEntry
      ensures Valid()
      ensures result == (if old(nextEntry) < treeAllocated then old(nextEntry) else 0)
      ensures nextEntry == (if old(nextEntry) < treeAllocated then old(nextEntry) + 1 else old(nextEntry))
    {
      if nextEntry >= treeAllocated {
        return 0;
      }
      result := nextEntry;
      nextEntry := nextEntry + 1;
    }

    method AddCodesWithLength(codeLengths: seq<nat>, codeLen: nat) returns (codesRemaining: bool)
      requires Valid()
      modifies this, tree
      ensures Valid() && State() == PlaceUpTo(old(State()), mark, codeLengths, codeLen, |codeLengths|)
      ensures codesRemaining == AnyLonger(codeLengths, codeLen)
    {
      codesRemaining := false;
      for i := 0 to |codeLengths|
        invariant Valid() && State() == PlaceUpTo(old(State()), mark, codeLengths, codeLen, i)
        invariant codesRemaining <==> exists k :: 0 <= k < i && codeLengths[k] > codeLen
      {
        if codeLengths[i] == codeLen {
          var node := ReadNextEntry();
          tree[node] := mark + i;
        } else if codeLengths[i] > codeLen {
          codesRemaining := true;
        }
      }
    }
  }

  method BuildTreeInPlace(tree: array<nat>, mark: nat, codeLengths: seq<nat>)
    requires tree.Length > 0 && LengthsBelow(codeLengths, MAX_LENGTH)
    modifies tree
    ensures tree[..] == BuildTree(old(tree[..]), mark, codeLengths)
  {
    var build := new TreeBuildData(tree, mark);
    ghost var start := build.State();
    var codeLen := 0;
    var more := true;
    while more
      invariant build.Valid() && build.tree == tree && build.mark == mark && codeLen < MAX_LENGTH
      invariant more ==> codeLen == 0 || AnyLonger(codeLengths, codeLen)
      invariant Levels(start, mark, codeLengths, 0, MAX_LENGTH)
                == if more then Levels(build.State(), mark, codeLengths, codeLen, MAX_LENGTH) else build.State()
      decreases MAX_LENGTH - codeLen, more
    {
      build.ExpandQueue();
      codeLen := codeLen + 1;
      more := build.AddCodesWithLength(codeLengths, codeLen);
    }
  }

  method ReadFromTree(reader: BitStreamReader, tree: array<nat>, mark: nat) returns (code: int)
    requires reader.Valid() && Forward(tree[..], mark)
    modifies reader
    ensures reader.Valid()
    ensures match ReadTree(tree[..], mark, old(reader.Stream()))
            case Short => code == -1 && reader.Stream() == []
            case Got(c, rest) => code == c && reader.Stream() == rest
  {
    ghost var t := tree[..];
    var entry := tree[0];
    while entry < mark
      invariant reader.Valid() && (entry < mark ==> entry + 1 < |t|)
      invariant Follow(t, mark, entry, reader.Stream()) == ReadTree(t, mark, old(reader.Stream()))
      decreases if entry < mark then |t| - entry else 0
    {
      var bit := reader.ReadBit();
      if bit < 0 {
        return -1;
      }
      entry := tree[entry + bit];
    }
    code := entry - mark;
  }
}
