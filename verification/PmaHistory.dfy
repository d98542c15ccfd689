/**
 The byte history of the PMarc decoders: a circular doubly linked list threaded through a table
 of 256 nodes, against the plain sequence it represents.
 */
module PmaHistory {
  import opened Bits

  const SIZE: nat := 256

  datatype HistoryNode = HistoryNode(prev: Byte, next: Byte)

  /** All bytes, each once, most recent first. */
  ghost predicate Order(order: seq<Byte>) {
    && |order| == SIZE
    && (forall i, j :: 0 <= i < j < SIZE ==> order[i] != order[j])
    && (forall b: Byte :: b in order)
  }

  /** The k-th entry's links lead to its neighbours around the circle. */
  ghost predicate LinkedAt(h: seq<HistoryNode>, order: seq<Byte>, k: nat)
    requires |h| == SIZE && |order| == SIZE && k < SIZE
  {
    && h[order[k]].prev == order[if k == SIZE - 1 then 0 else k + 1]
    && h[order[k]].next == order[if k == 0 then SIZE - 1 else k - 1]
  }

  ghost predicate Linked(h: seq<HistoryNode>, order: seq<Byte>) {
    |h| == SIZE && Order(order) && forall k: nat :: k < SIZE ==> LinkedAt(h, order, k)
  }

  // ----- Moving to the front -----

  function FrontOf(order: seq<Byte>, k: nat): (r: seq<Byte>)
    requires k < |order|
    ensures |r| == |order|
  {
    [order[k]] + order[..k] + order[k + 1..]
  }

  lemma FrontIsOrder(order: seq<Byte>, k: nat)
    requires Order(order) && k < SIZE
    ensures Order(FrontOf(order, k))
  {
    var r := FrontOf(order, k);
    forall b: Byte ensures b in r {
      assert b in order;
      var i :| 0 <= i < SIZE && order[i] == b;
      assert r[if i < k then i + 1 else if i == k then 0 else i] == b;
    }
  }

  /** The six link writes of an update, on values. */
  function Rehooked(h: seq<HistoryNode>, head: Byte, b: Byte): (r: seq<HistoryNode>)
    requires |h| == SIZE
    ensures |r| == SIZE
  {
    var node := h[b];
    var h1 := h[node.next := h[node.next].(prev := node.prev)];
    var h2 := h1[node.prev := h1[node.prev].(next := node.next)];
    var after := h2[head].next;
    var h3 := h2[b := HistoryNode(head, after)];
    var h4 := h3[after := h3[after].(prev := b)];
    h4[head := h4[head].(next := b)]
  }

  lemma RehookedLinks(h: seq<HistoryNode>, order: seq<Byte>, k: nat, j: nat)
    requires Linked(h, order) && 1 <= k < SIZE && j < SIZE
    ensures LinkedAt(Rehooked(h, order[0], order[k]), FrontOf(order, k), j)
  {
    var r, o := Rehooked(h, order[0], order[k]), FrontOf(order, k);
    assert LinkedAt(h, order, k) && LinkedAt(h, order, 0);
    if j > 0 {
      assert LinkedAt(h, order, if j <= k then j - 1 else j);
    }
  }

  lemma RehookedIsLinked(h: seq<HistoryNode>, order: seq<Byte>, k: nat)
    requires Linked(h, order) && 1 <= k < SIZE
    ensures Linked(Rehooked(h, order[0], order[k]), FrontOf(order, k))
  {
    FrontIsOrder(order, k);
    forall j: nat | j < SIZE ensures LinkedAt(Rehooked(h, order[0], order[k]), FrontOf(order, k), j) {
      RehookedLinks(h, order, k, j);
    }
  }

  // ----- What the order means -----

  ghost function IndexOf(order: seq<Byte>, b: Byte): (k: nat)
    requires b in order
    ensures k < |order| && order[k] == b
  {
    var k :| 0 <= k < |order| && order[k] == b;
    k
  }

  ghost function Touch(order: seq<Byte>, b: Byte): (r: seq<Byte>)
    requires Order(order)
    ensures Order(r)
  {
    FrontIsOrder(order, IndexOf(order, b));
    FrontOf(order, IndexOf(order, b))
  }

  ghost function TouchAll(order: seq<Byte>, bytes: seq<Byte>): (r: seq<Byte>)
    requires Order(order)
    ensures Order(r)
    decreases |bytes|
  {
    if bytes == [] then order else Touch(TouchAll(order, bytes[..|bytes| - 1]), bytes[|bytes| - 1])
  }

  /** When b was last output: 0 for never. */
  function LastUse(bytes: seq<Byte>, b: Byte): (n: nat)
    ensures n <= |bytes|
  {
    if bytes == [] then 0
    else if bytes[|bytes| - 1] == b then |bytes|
    else LastUse(bytes[..|bytes| - 1], b)
  }

  lemma IndexIsUnique(order: seq<Byte>, i: nat, j: nat)
    requires Order(order) && i < SIZE && j < SIZE && order[i] == order[j]
    ensures i == j
  {
  }

  lemma TouchIndex(order: seq<Byte>, b: Byte, x: Byte)
    requires Order(order)
    ensures var k, i := IndexOf(order, b), IndexOf(order, x);
            IndexOf(Touch(order, b), x) == if i == k then 0 else if i < k then i + 1 else i
  {
    var k, i := IndexOf(order, b), IndexOf(order, x);
    var r := Touch(order, b);
    IndexIsUnique(r, IndexOf(r, x), if i == k then 0 else if i < k then i + 1 else i);
  }

  /** After any output, bytes are ordered by how recently they were output; unused ones keep their initial order. */
  lemma {:induction false} OrderIsRecency(order: seq<Byte>, bytes: seq<Byte>, x: Byte, y: Byte)
    requires Order(order) && x != y
    ensures var r := TouchAll(order, bytes);
      IndexOf(r, x) < IndexOf(r, y) <==>
        LastUse(bytes, x) > LastUse(bytes, y)
        || (LastUse(bytes, x) == LastUse(bytes, y) == 0 && IndexOf(order, x) < IndexOf(order, y))
    decreases |bytes|
  {
    if bytes != [] {
      var front, b := bytes[..|bytes| - 1], bytes[|bytes| - 1];
      OrderIsRecency(order, front, x, y);
      var was := TouchAll(order, front);
      TouchIndex(was, b, x);
      TouchIndex(was, b, y);
      assert IndexOf(was, x) == IndexOf(was, b) ==> x == b;
      assert IndexOf(was, y) == IndexOf(was, b) ==> y == b;
    }
  }

  // ----- Coding bytes by their place in the history -----

  ghost function Encode(order: seq<Byte>, bytes: seq<Byte>): seq<nat>
    requires Order(order)
    decreases |bytes|
  {
    if bytes == [] then [] else [IndexOf(order, bytes[0])] + Encode(Touch(order, bytes[0]), bytes[1..])
  }

  ghost function Decode(order: seq<Byte>, counts: seq<nat>): seq<Byte>
    requires Order(order) && forall i :: 0 <= i < |counts| ==> counts[i] < SIZE
    decreases |counts|
  {
    if counts == [] then [] else [order[counts[0]]] + Decode(Touch(order, order[counts[0]]), counts[1..])
  }

  lemma {:induction false} DecodeUndoesEncode(order: seq<Byte>, bytes: seq<Byte>)
    requires Order(order)
    ensures forall i :: 0 <= i < |Encode(order, bytes)| ==> Encode(order, bytes)[i] < SIZE
    ensures Decode(order, Encode(order, bytes)) == bytes
    decreases |bytes|
  {
    if bytes != [] {
      DecodeUndoesEncode(Touch(order, bytes[0]), bytes[1..]);
      assert Encode(order, bytes)[1..] == Encode(Touch(order, bytes[0]), bytes[1..]);
    }
  }

  // ----- The initial arrangement -----

  /** Printable ASCII first, then control characters, then three more groups. */
  function InitialByte(i: nat): Byte
    requires i < SIZE
  {
    if i < 96 then 0x20 + i else if i < 128 then i - 96 else if i < 192 then 0xa0 + (i - 128)
    else if i < 224 then 0x80 + (i - 192) else 0xe0 + (i - 224)
  }

  function InitialOrder(): (order: seq<Byte>)
    ensures |order| == SIZE
  {
    seq(SIZE, i requires 0 <= i < SIZE => InitialByte(i))
  }

  lemma InitialIsOrder()
    ensures Order(InitialOrder())
  {
    forall b: Byte ensures b in InitialOrder() {
      var i := if b < 0x20 then b + 96 else if b < 0x80 then b - 0x20 else if b < 0xa0 then b - 0x80 + 192
               else if b < 0xe0 then b - 0xa0 + 128 else b - 0xe0 + 224;
      assert InitialOrder()[i] == b;
    }
  }

  /** The groups of the initial order: printable ASCII, control characters, and three ranges of high bytes. */
  function Group(b: Byte): nat {
    if 0x20 <= b <= 0x7f then 0 else if b <= 0x1f then 1 else if 0xa0 <= b <= 0xdf then 2 else if b <= 0x9f then 3 else 4
  }

  /** At first a byte comes before another exactly if its group does, or if it is the smaller one of a group. */
  lemma InitialOrderIs(i: nat, j: nat)
    requires i < 256 && j < 256
    ensures var a, b := InitialOrder()[i], InitialOrder()[j];
            i < j <==> Group(a) < Group(b) || (Group(a) == Group(b) && a < b)
  {
  }

  /** The links of byte b in the initial list. */
  function InitialNode(b: Byte): HistoryNode {
    HistoryNode(
      if b == 0x7f then 0x00 else if b == 0x1f then 0xa0 else if b == 0xdf then 0x80
      else if b == 0x9f then 0xe0 else if b == 0xff then 0x20 else (b + 1) % 256,
      if b == 0x00 then 0x7f else if b == 0xa0 then 0x1f else if b == 0x80 then 0xdf
      else if b == 0xe0 then 0x9f else if b == 0x20 then 0xff else (b + 255) % 256)
  }

  lemma InitialIsLinked(h: seq<HistoryNode>)
    requires |h| == SIZE && forall b: Byte :: h[b] == InitialNode(b)
    ensures Linked(h, InitialOrder())
  {
    InitialIsOrder();
    forall k: nat | k < SIZE ensures LinkedAt(h, InitialOrder(), k) {
      assert h[InitialByte(k)] == InitialNode(InitialByte(k));
    }
  }

  // ----- The list as stored -----

  class HistoryLinkedList {
    const history: array<HistoryNode>
    var historyHead: Byte
    ghost var order: seq<Byte>

    ghost predicate Valid()
      reads this, history
    {
      history.Length == SIZE && Linked(history[..], order) && historyHead == order[0]
    }

    constructor ()
      ensures Valid() && fresh(history) && order == InitialOrder()
    {
      history := new HistoryNode[SIZE](_ => HistoryNode(0, 0));
      historyHead := 0x20;
      order := InitialOrder();
      new;
      Chain();
      Join(0x7f, 0x00);
      Join(0x1f, 0xa0);
      Join(0xdf, 0x80);
      Join(0x9f, 0xe0);
      Join(0xff, 0x20);
      InitialIsLinked(history[..]);
    }

    /** A linear chain through all bytes, wrapping around at the ends as byte arithmetic does. */
    method Chain()
      requires history.Length == SIZE
      modifies history
      ensures forall k :: 0 <= k < SIZE ==> history[k] == HistoryNode((k + 1) % 256, (k + 255) % 256)
    {
      for i := 0 to SIZE
        invariant forall k :: 0 <= k < i ==> history[k] == HistoryNode((k + 1) % 256, (k + 255) % 256)
      {
        history[i] := HistoryNode((i + 1) % 256, (i + 255) % 256);
      }
    }

    /** Lets the group that ends in a be followed by the group that starts with b. */
    method Join(a: Byte, b: Byte)
      requires history.Length == SIZE
      modifies history
      ensures forall k :: 0 <= k < SIZE ==>
        history[k] == HistoryNode(if k == a then b else old(history[k].prev), if k == b then a else old(history[k].next))
    {
      history[a] := history[a].(prev := b);
      history[b] := history[b].(next := a);
    }

    /** Whichever way round the circle is shorter, the walk ends at entry `count` of the order. */
    method FindInHistoryList(count: Byte) returns (code: Byte)
      requires Valid()
      ensures code == order[count]
    {
      code := historyHead;
      if count < 128 {
        for i := 0 to count
          invariant code == order[i]
        {
          assert LinkedAt(history[..], order, i);
          code := history[code].prev;
        }
      } else {
        for i := 0 to 256 - count
          invariant code == order[if i == 0 then 0 else SIZE - i]
        {
          assert LinkedAt(history[..], order, if i == 0 then 0 else SIZE - i);
          code := history[code].next;
        }
      }
    }

    /** Moves b to the front; all other bytes keep their relative order. */
    method UpdateHistoryList(b: Byte)
      requires Valid()
      modifies this, history
      ensures Valid() && order == Touch(old(order), b)
    {
      ghost var k := IndexOf(order, b);
      if historyHead == b {
        IndexIsUnique(order, k, 0);
        assert FrontOf(order, 0) == order;
        return;
      }
      ghost var h := history[..];
      RehookedIsLinked(h, order, k);
      var node := history[b];
      history[node.next] := history[node.next].(prev := node.prev);
      history[node.prev] := history[node.prev].(next := node.next);
      var after := history[historyHead].next;
      history[b] := HistoryNode(historyHead, after);
      history[after] := history[after].(prev := b);
      history[historyHead] := history[historyHead].(next := b);
      assert history[..] == Rehooked(h, historyHead, b);
      historyHead, order := b, FrontOf(order, k);
    }
  }
}
