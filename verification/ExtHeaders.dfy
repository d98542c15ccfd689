/**
 Extended headers: blocks chained to the end of a file header, each preceded by its length. The length counts
 the block's type and data together with the length field of the block that follows.
 */
module ExtHeaders {
  import opened Bits
  import opened Options

  /** A little-endian field of `size` bytes. */
  function FieldAt(raw: seq<Byte>, at: nat, size: nat): nat
    requires at + size <= |raw|
    decreases size
  {
    if size == 0 then 0 else raw[at] + 256 * FieldAt(raw, at + 1, size - 1)
  }

  function FieldLimit(size: nat): (r: nat)
    ensures r >= 1
  {
    if size == 0 then 1 else 256 * FieldLimit(size - 1)
  }

  function Field(n: nat, size: nat): (r: seq<Byte>)
    ensures |r| == size
  {
    if size == 0 then [] else [n % 256] + Field(n / 256, size - 1)
  }

  lemma {:induction false} FieldAgrees(a: seq<Byte>, b: seq<Byte>, at: nat, size: nat)
    requires at + size <= |a| && at + size <= |b| && forall i :: at <= i < at + size ==> a[i] == b[i]
    ensures FieldAt(a, at, size) == FieldAt(b, at, size)
    decreases size
  {
    if size > 0 { FieldAgrees(a, b, at + 1, size - 1); }
  }

  lemma {:induction false} FieldUndoes(raw: seq<Byte>, at: nat, n: nat, size: nat)
    requires n < FieldLimit(size) && at + size <= |raw| && raw[at..at + size] == Field(n, size)
    ensures FieldAt(raw, at, size) == n
    decreases size
  {
    if size > 0 {
      assert raw[at..at + size][1..] == raw[at + 1..at + size];
      assert raw[at] == raw[at..at + size][0];
      FieldUndoes(raw, at + 1, n / 256, size - 1);
    }
  }

  lemma LowByte(b: Byte, rest: nat)
    ensures (b + 256 * rest) % 256 == b && (b + 256 * rest) / 256 == rest
  {
  }

  lemma {:induction false} FieldIsUnique(raw: seq<Byte>, at: nat, size: nat)
    requires at + size <= |raw|
    ensures FieldAt(raw, at, size) < FieldLimit(size)
    ensures Field(FieldAt(raw, at, size), size) == raw[at..at + size]
    decreases size
  {
    if size > 0 {
      FieldIsUnique(raw, at + 1, size - 1);
      LowByte(raw[at], FieldAt(raw, at + 1, size - 1));
      assert raw[at..at + size] == [raw[at]] + raw[at + 1..at + size];
    }
  }

  // ----- The chain in the raw header -----

  /** Type and data of an extended header. */
  datatype Block = Block(at: nat, size: nat)

  /** The blocks from the length field at `offset` up to the zero length that ends the chain. */
  function Walk(raw: seq<Byte>, offset: nat, width: nat): Option<seq<Block>>
    requires offset + width <= |raw|
    decreases |raw| - offset
  {
    var n := FieldAt(raw, offset, width);
    if n == 0 then Some([])
    else if n < width + 1 || n > |raw| - offset - width then None
    else
      var rest := Walk(raw, offset + n, width);
      if rest.None? then None else Some([Block(offset + width, n - width)] + rest.value)
  }

  function Total(blocks: seq<Block>, width: nat): nat {
    if blocks == [] then 0 else blocks[0].size + width + Total(blocks[1..], width)
  }

  /** The blocks lie one behind the other from `from` on, a length field between each and the next. */
  ghost predicate Laid(blocks: seq<Block>, from: nat, width: nat) {
    blocks != [] ==>
      blocks[0].at == from && blocks[0].size >= 1 && Laid(blocks[1..], from + blocks[0].size + width, width)
  }

  lemma {:induction false} WalkIsLaid(raw: seq<Byte>, offset: nat, width: nat)
    requires offset + width <= |raw| && Walk(raw, offset, width).Some?
    ensures var blocks := Walk(raw, offset, width).value;
            Laid(blocks, offset + width, width) && offset + width + Total(blocks, width) <= |raw|
    decreases |raw| - offset
  {
    var n := FieldAt(raw, offset, width);
    if n != 0 {
      WalkIsLaid(raw, offset + n, width);
      var blocks := Walk(raw, offset, width).value;
      assert blocks[1..] == Walk(raw, offset + n, width).value;
    }
  }

  lemma {:induction false} LaidBounds(blocks: seq<Block>, from: nat, width: nat, i: nat)
    requires Laid(blocks, from, width) && i < |blocks|
    ensures from <= blocks[i].at && blocks[i].at + blocks[i].size + width <= from + Total(blocks, width)
    ensures blocks[i].size >= 1
    decreases |blocks|
  {
    if i > 0 { LaidBounds(blocks[1..], from + blocks[0].size + width, width, i - 1); }
    else if |blocks| > 1 { LaidBounds(blocks[1..], from + blocks[0].size + width, width, 0); }
  }

  /** No two blocks share a byte, and a whole length field lies between them. */
  lemma {:induction false} BlocksAreDisjoint(blocks: seq<Block>, from: nat, width: nat, i: nat, j: nat)
    requires Laid(blocks, from, width) && i < j < |blocks|
    ensures blocks[i].at + blocks[i].size + width <= blocks[j].at
    decreases |blocks|
  {
    var next := from + blocks[0].size + width;
    if i > 0 {
      BlocksAreDisjoint(blocks[1..], next, width, i - 1, j - 1);
    } else {
      LaidBounds(blocks[1..], next, width, j - 1);
    }
  }

  // ----- The chain as a writer lays it out -----

  function Payload(raw: seq<Byte>, b: Block): (r: seq<Byte>)
    requires b.at + b.size <= |raw|
    ensures |r| == b.size
  {
    raw[b.at..b.at + b.size]
  }

  ghost predicate Inside(raw: seq<Byte>, blocks: seq<Block>) {
    forall i :: 0 <= i < |blocks| ==> blocks[i].at + blocks[i].size <= |raw|
  }

  function Payloads(raw: seq<Byte>, blocks: seq<Block>): (r: seq<seq<Byte>>)
    requires Inside(raw, blocks)
    ensures |r| == |blocks|
    ensures forall i :: 0 <= i < |r| ==> r[i] == Payload(raw, blocks[i])
  {
    seq(|blocks|, i requires 0 <= i < |blocks| => Payload(raw, blocks[i]))
  }

  function HeadLength(payloads: seq<seq<Byte>>, width: nat): nat {
    if payloads == [] then 0 else |payloads[0]| + width
  }

  /** The chain with the given contents: the first length, then each block with the length of the next. */
  function Encode(payloads: seq<seq<Byte>>, width: nat): (r: seq<Byte>)
    ensures |r| >= width
  {
    Field(HeadLength(payloads, width), width) + if payloads == [] then [] else payloads[0] + Encode(payloads[1..], width)
  }

  /** Every block has a type, and its length fits the field. */
  ghost predicate Encodable(payloads: seq<seq<Byte>>, width: nat) {
    forall i :: 0 <= i < |payloads| ==> 1 <= |payloads[i]| && |payloads[i]| + width < FieldLimit(width)
  }

  lemma HeadIsRead(raw: seq<Byte>, offset: nat, payloads: seq<seq<Byte>>, width: nat)
    requires Encodable(payloads, width)
    requires offset <= |raw| && Encode(payloads, width) <= raw[offset..]
    ensures offset + width <= |raw| && FieldAt(raw, offset, width) == HeadLength(payloads, width)
  {
    var n := HeadLength(payloads, width);
    var code := Encode(payloads, width);
    assert code[..width] == Field(n, width);
    assert raw[offset..offset + width] == code[..width];
    FieldUndoes(raw, offset, n, width);
  }

  /** What the walk finds in the blocks. */
  function Contents(raw: seq<Byte>, offset: nat, width: nat): Option<seq<seq<Byte>>>
    requires offset + width <= |raw|
    decreases |raw| - offset
  {
    var n := FieldAt(raw, offset, width);
    if n == 0 then Some([])
    else if n < width + 1 || n > |raw| - offset - width then None
    else
      var rest := Contents(raw, offset + n, width);
      if rest.None? then None else Some([raw[offset + width..offset + n]] + rest.value)
  }

  ghost predicate SameBlocks(raw: seq<Byte>, w: Option<seq<Block>>, c: Option<seq<seq<Byte>>>) {
    w.Some? == c.Some? && (w.Some? ==> Inside(raw, w.value) && Payloads(raw, w.value) == c.value)
  }

  lemma {:induction false} ContentsOfWalk(raw: seq<Byte>, offset: nat, width: nat)
    requires offset + width <= |raw|
    ensures SameBlocks(raw, Walk(raw, offset, width), Contents(raw, offset, width))
    decreases |raw| - offset
  {
    var n := FieldAt(raw, offset, width);
    if n > width && n <= |raw| - offset - width {
      ContentsOfWalk(raw, offset + n, width);
      OneBlock(raw, offset, width, n);
      SameCons(raw, Block(offset + width, n - width), Walk(raw, offset + n, width), Contents(raw, offset + n, width));
    }
  }

  /** The block at hand, and those behind it. */
  lemma OneBlock(raw: seq<Byte>, offset: nat, width: nat, n: nat)
    requires offset + width <= |raw| && n == FieldAt(raw, offset, width) && width < n <= |raw| - offset - width
    ensures Walk(raw, offset, width) ==
            match Walk(raw, offset + n, width)
            case None => None
            case Some(rest) => Some([Block(offset + width, n - width)] + rest)
    ensures Contents(raw, offset, width) ==
            match Contents(raw, offset + n, width)
            case None => None
            case Some(rest) => Some([raw[offset + width..offset + n]] + rest)
  {
  }

  lemma SameCons(raw: seq<Byte>, b: Block, w: Option<seq<Block>>, c: Option<seq<seq<Byte>>>)
    requires b.at + b.size <= |raw| && SameBlocks(raw, w, c)
    ensures w.Some? ==> SameBlocks(raw, Some([b] + w.value), Some([raw[b.at..b.at + b.size]] + c.value))
  {
    if w.Some? { PayloadsCons(raw, b, w.value); }
  }

  lemma PayloadsCons(raw: seq<Byte>, b: Block, rest: seq<Block>)
    requires b.at + b.size <= |raw| && Inside(raw, rest)
    ensures Inside(raw, [b] + rest) && Payloads(raw, [b] + rest) == [Payload(raw, b)] + Payloads(raw, rest)
  {
    forall i | 0 < i < |rest| + 1 ensures ([b] + rest)[i] == rest[i - 1] { }
  }

  lemma {:induction false} ContentsUndoEncode(raw: seq<Byte>, offset: nat, payloads: seq<seq<Byte>>, width: nat)
    requires Encodable(payloads, width) && width >= 1
    requires offset <= |raw| && Encode(payloads, width) <= raw[offset..]
    ensures offset + width <= |raw| && Contents(raw, offset, width) == Some(payloads)
    decreases |payloads|
  {
    HeadIsRead(raw, offset, payloads, width);
    if payloads != [] {
      var n := |payloads[0]| + width;
      ChainSplits(raw, offset, payloads, width);
      ContentsUndoEncode(raw, offset + n, payloads[1..], width);
      OneBlock(raw, offset, width, n);
      assert payloads == [payloads[0]] + payloads[1..];
    }
  }

  lemma ChainSplits(raw: seq<Byte>, offset: nat, payloads: seq<seq<Byte>>, width: nat)
    requires payloads != [] && offset <= |raw| && Encode(payloads, width) <= raw[offset..]
    ensures var n := |payloads[0]| + width;
            && offset + n + width <= |raw|
            && raw[offset + width..offset + n] == payloads[0]
            && Encode(payloads[1..], width) <= raw[offset + n..]
  {
    var n := |payloads[0]| + width;
    var code := Encode(payloads, width);
    assert code[width..n] == payloads[0];
    assert code[n..] == Encode(payloads[1..], width);
    assert raw[offset..][width..n] == raw[offset + width..offset + n];
    assert raw[offset..][n..] == raw[offset + n..];
  }

  lemma EncodeCons(p: seq<Byte>, ps: seq<seq<Byte>>, width: nat)
    ensures Encode([p] + ps, width) == Field(|p| + width, width) + (p + Encode(ps, width))
  {
    assert ([p] + ps)[1..] == ps;
  }

  lemma WalkCons(raw: seq<Byte>, offset: nat, width: nat)
    requires offset + width <= |raw| && FieldAt(raw, offset, width) != 0 && Walk(raw, offset, width).Some?
    ensures var n := FieldAt(raw, offset, width);
            && width < n && offset + n + width <= |raw| && Walk(raw, offset + n, width).Some?
            && var rest := Walk(raw, offset + n, width).value;
               && Walk(raw, offset, width).value == [Block(offset + width, n - width)] + rest
               && Total([Block(offset + width, n - width)] + rest, width) == n + Total(rest, width)
  {
    var n := FieldAt(raw, offset, width);
    var rest := Walk(raw, offset + n, width).value;
    assert ([Block(offset + width, n - width)] + rest)[1..] == rest;
  }

  lemma ContentsCons(raw: seq<Byte>, offset: nat, width: nat) returns (n: nat, p: seq<Byte>, ps: seq<seq<Byte>>)
    requires offset + width <= |raw| && FieldAt(raw, offset, width) != 0 && Contents(raw, offset, width).Some?
    ensures n == FieldAt(raw, offset, width) && width < n && offset + n + width <= |raw|
    ensures p == raw[offset + width..offset + n] && Contents(raw, offset + n, width) == Some(ps)
    ensures Contents(raw, offset, width) == Some([p] + ps)
  {
    n := FieldAt(raw, offset, width);
    p, ps := raw[offset + width..offset + n], Contents(raw, offset + n, width).value;
  }

  lemma {:induction false} EncodeUndoesContents(raw: seq<Byte>, offset: nat, width: nat)
    requires offset + width <= |raw| && width >= 1 && Contents(raw, offset, width).Some?
    ensures var payloads := Contents(raw, offset, width).value;
            Encodable(payloads, width) && Encode(payloads, width) <= raw[offset..]
    decreases |raw| - offset
  {
    FieldIsUnique(raw, offset, width);
    if FieldAt(raw, offset, width) == 0 {
      EmptyChain(raw, offset, width);
    } else {
      var n, p, ps := ContentsCons(raw, offset, width);
      EncodeUndoesContents(raw, offset + n, width);
      BlockPrepends(raw, offset, n, p, ps, width);
    }
  }

  lemma BlockPrepends(raw: seq<Byte>, offset: nat, n: nat, p: seq<Byte>, ps: seq<seq<Byte>>, width: nat)
    requires offset + n <= |raw| && width < n && n == FieldAt(raw, offset, width) && p == raw[offset + width..offset + n]
    requires Encodable(ps, width) && Encode(ps, width) <= raw[offset + n..]
    ensures Encodable([p] + ps, width) && Encode([p] + ps, width) <= raw[offset..]
  {
    FieldIsUnique(raw, offset, width);
    EncodableCons(p, ps, width);
    EncodePrepends(raw, offset, p, ps, width);
  }

  lemma EmptyChain(raw: seq<Byte>, offset: nat, width: nat)
    requires offset + width <= |raw| && raw[offset..offset + width] == Field(0, width)
    ensures Encode([], width) <= raw[offset..]
  {
    assert Encode([], width) == Field(0, width);
    assert raw[offset..][..width] == raw[offset..offset + width];
  }

  lemma EncodableCons(p: seq<Byte>, ps: seq<seq<Byte>>, width: nat)
    requires Encodable(ps, width) && 1 <= |p| && |p| + width < FieldLimit(width)
    ensures Encodable([p] + ps, width)
  {
  }

  lemma EncodePrepends(raw: seq<Byte>, offset: nat, p: seq<Byte>, ps: seq<seq<Byte>>, width: nat)
    requires var n := |p| + width;
             && offset + n <= |raw| && raw[offset..offset + width] == Field(n, width)
             && raw[offset + width..offset + n] == p && Encode(ps, width) <= raw[offset + n..]
    ensures Encode([p] + ps, width) <= raw[offset..]
  {
    var n := |p| + width;
    EncodeCons(p, ps, width);
    var end := offset + n + |Encode(ps, width)|;
    assert Encode(ps, width) == raw[offset + n..end];
    JoinSlices(raw, offset, offset + width, offset + n, end);
  }

  lemma JoinSlices<T>(s: seq<T>, a: nat, b: nat, c: nat, d: nat)
    requires a <= b <= c <= d <= |s|
    ensures s[a..d] == s[a..b] + (s[b..c] + s[c..d])
  {
  }

  /** Walking a chain finds what its writer put there, whatever surrounds it. */
  lemma WalkUndoesEncode(raw: seq<Byte>, offset: nat, payloads: seq<seq<Byte>>, width: nat)
    requires Encodable(payloads, width) && width >= 1
    requires offset <= |raw| && Encode(payloads, width) <= raw[offset..]
    ensures offset + width <= |raw|
    ensures var w := Walk(raw, offset, width);
            w.Some? && Inside(raw, w.value) && Payloads(raw, w.value) == payloads
  {
    ContentsUndoEncode(raw, offset, payloads, width);
    ContentsOfWalk(raw, offset, width);
  }

  /** Conversely, wherever a walk succeeds there is a chain with just these blocks. */
  lemma EncodeUndoesWalk(raw: seq<Byte>, offset: nat, width: nat)
    requires offset + width <= |raw| && width >= 1 && Walk(raw, offset, width).Some?
    ensures var blocks := Walk(raw, offset, width).value;
            && Inside(raw, blocks) && Encodable(Payloads(raw, blocks), width)
            && Encode(Payloads(raw, blocks), width) <= raw[offset..]
  {
    ContentsOfWalk(raw, offset, width);
    EncodeUndoesContents(raw, offset, width);
  }

  // ----- Reading the chain of a level 1 header -----

  /** The raw header so far, the bytes still in the stream, and the compressed length. */
  datatype Reading = Reading(raw: seq<Byte>, rest: seq<Byte>, compressed: nat)

  function Pull(r: Reading, n: nat): Reading
    requires n <= |r.rest| && n <= r.compressed
  {
    Reading(r.raw + r.rest[..n], r.rest[n..], r.compressed - n)
  }

  /** Pull in block after block while the last length field read announces another. */
  function ReadChain(r: Reading, width: nat): Option<Reading>
    requires |r.raw| >= width
    decreases |r.rest|
  {
    var n := FieldAt(r.raw, |r.raw| - width, width);
    if n == 0 then Some(r)
    else if n > |r.rest| || n > r.compressed || n < width + 1 then None
    else ReadChain(Pull(r, n), width)
  }

  lemma {:induction false} ReadChainLosesNothing(r: Reading, width: nat)
    requires |r.raw| >= width && ReadChain(r, width).Some?
    ensures var e := ReadChain(r, width).value;
            r.raw <= e.raw && e.raw + e.rest == r.raw + r.rest
    decreases |r.rest|
  {
    var n := FieldAt(r.raw, |r.raw| - width, width);
    if n != 0 {
      ReadChainLosesNothing(Pull(r, n), width);
      assert Pull(r, n).raw + Pull(r, n).rest == r.raw + r.rest;
    }
  }

  /**
   When the chain has been read, the walk from the same place finds it and ends at the very end of the
   header, and its blocks account for the difference in the compressed length.
   */
  lemma {:induction false} ReadChainIsWalk(r: Reading, width: nat)
    requires |r.raw| >= width && ReadChain(r, width).Some?
    ensures var e := ReadChain(r, width).value;
            && |r.raw| <= |e.raw|
            && var w := Walk(e.raw, |r.raw| - width, width);
               && w.Some? && |r.raw| + Total(w.value, width) == |e.raw|
               && e.compressed + Total(w.value, width) == r.compressed
    decreases |r.rest|
  {
    var n := FieldAt(r.raw, |r.raw| - width, width);
    var e := ReadChain(r, width).value;
    ReadChainLosesNothing(r, width);
    FieldAgrees(r.raw, e.raw, |r.raw| - width, width);
    if n != 0 {
      ReadChainIsWalk(Pull(r, n), width);
      WalkCons(e.raw, |r.raw| - width, width);
    }
  }

  /** A level 1 header with this chain when only its first length field has been read. */
  function Unread(
    base: seq<Byte>, payloads: seq<seq<Byte>>, tail: seq<Byte>, compressed: nat, width: nat): (r: Reading)
    ensures |r.raw| == |base| + width
  {
    var code := Encode(payloads, width);
    Reading(base + code[..width], code[width..] + tail, compressed + (|code| - width))
  }

  /** Every chain a writer can lay out is read, and nothing beyond it. */
  lemma {:induction false} ReadChainTakesEncoding(
    base: seq<Byte>, payloads: seq<seq<Byte>>, tail: seq<Byte>, compressed: nat, width: nat)
    requires Encodable(payloads, width)
    ensures ReadChain(Unread(base, payloads, tail, compressed, width), width)
            == Some(Reading(base + Encode(payloads, width), tail, compressed))
    decreases |payloads|
  {
    HeadOfBase(base, payloads, width);
    if payloads == [] {
      UnreadIsRead(base, tail, compressed, width);
    } else {
      var base' := PullTakesOne(base, payloads, tail, compressed, width);
      ReadChainTakesEncoding(base', payloads[1..], tail, compressed, width);
      ReadChainPulls(Unread(base, payloads, tail, compressed, width), |payloads[0]| + width, width);
    }
  }

  lemma UnreadIsRead(base: seq<Byte>, tail: seq<Byte>, compressed: nat, width: nat)
    ensures Unread(base, [], tail, compressed, width) == Reading(base + Encode([], width), tail, compressed)
  {
    var code := Encode([], width);
    assert code[..width] == code && code[width..] + tail == tail;
  }

  lemma ReadChainPulls(r: Reading, n: nat, width: nat)
    requires |r.raw| >= width && n == FieldAt(r.raw, |r.raw| - width, width)
    requires width + 1 <= n <= |r.rest| && n <= r.compressed
    ensures ReadChain(r, width) == ReadChain(Pull(r, n), width)
  {
  }

  lemma HeadOfBase(base: seq<Byte>, payloads: seq<seq<Byte>>, width: nat)
    requires Encodable(payloads, width)
    ensures FieldAt(base + Encode(payloads, width)[..width], |base|, width) == HeadLength(payloads, width)
  {
    var raw := base + Encode(payloads, width)[..width];
    assert raw[|base|..|base| + width] == Field(HeadLength(payloads, width), width);
    FieldUndoes(raw, |base|, HeadLength(payloads, width), width);
  }

  lemma PullTakesOne(base: seq<Byte>, payloads: seq<seq<Byte>>, tail: seq<Byte>, compressed: nat, width: nat)
    returns (base': seq<Byte>)
    requires payloads != []
    ensures var r, n := Unread(base, payloads, tail, compressed, width), |payloads[0]| + width;
            && n <= |r.rest| && n <= r.compressed
            && Pull(r, n) == Unread(base', payloads[1..], tail, compressed, width)
            && base' + Encode(payloads[1..], width) == base + Encode(payloads, width)
  {
    var head, p, after := Field(HeadLength(payloads, width), width), payloads[0], Encode(payloads[1..], width);
    base' := base + head + p;
    HeadAndBody(head, p + after, width);
    SliceOff(p, after, tail, width);
    Associate(base + head, p, after[..width]);
    Associate(base + head, p, after);
    Associate(base, head, p + after);
  }

  lemma HeadAndBody<T>(head: seq<T>, body: seq<T>, width: nat)
    requires |head| == width
    ensures (head + body)[..width] == head && (head + body)[width..] == body
  {
  }

  lemma SliceOff<T>(p: seq<T>, after: seq<T>, tail: seq<T>, width: nat)
    requires width <= |after|
    ensures ((p + after) + tail)[..|p| + width] == p + after[..width]
    ensures ((p + after) + tail)[|p| + width..] == after[width..] + tail
  {
  }

  // ----- Decoding the blocks -----

  datatype ExtType = ExtType(num: Byte, minLen: nat)

  const COMMON: Byte := 0x00
  const FILE_SIZES: Byte := 0x42

  const TYPES: seq<ExtType> := [
    ExtType(COMMON, 2), ExtType(0x01, 1), ExtType(0x02, 1), ExtType(0x50, 2), ExtType(0x51, 4), ExtType(0x53, 1),
    ExtType(0x52, 1), ExtType(0x54, 4), ExtType(0x41, 24), ExtType(FILE_SIZES, 16), ExtType(0xcc, 12)]

  /** Whether some known type admits the payload: its data is long enough for what that decoder reads. */
  ghost predicate Accepted(payload: seq<Byte>)
    requires payload != []
  {
    exists i :: 0 <= i < |TYPES| && TYPES[i].num == payload[0] && TYPES[i].minLen <= |payload| - 1
  }

  /** The types that are known, each with the least data it needs. */
  lemma KnownTypes(payload: seq<Byte>)
    requires payload != []
    ensures var t, n := payload[0], |payload| - 1;
            Accepted(payload) <==>
            || (t in {0x01, 0x02, 0x52, 0x53} && n >= 1) || (t in {0x00, 0x50} && n >= 2) || (t in {0x51, 0x54} && n >= 4)
            || (t == 0xcc && n >= 12) || (t == 0x42 && n >= 16) || (t == 0x41 && n >= 24)
  {
    var t, n := payload[0], |payload| - 1;
    forall i | 0 <= i < |TYPES| && TYPES[i].num == t && TYPES[i].minLen <= n ensures Accepted(payload) { }
    assert TYPES[0] == ExtType(0x00, 2) && TYPES[1] == ExtType(0x01, 1) && TYPES[2] == ExtType(0x02, 1);
    assert TYPES[3] == ExtType(0x50, 2) && TYPES[4] == ExtType(0x51, 4) && TYPES[5] == ExtType(0x53, 1);
    assert TYPES[6] == ExtType(0x52, 1) && TYPES[7] == ExtType(0x54, 4) && TYPES[8] == ExtType(0x41, 24);
    assert TYPES[9] == ExtType(0x42, 16) && TYPES[10] == ExtType(0xcc, 12);
  }

  /** What the blocks tell about the file; `fields` holds the data of the last block of each type. */
  datatype Meta = Meta(commonCrc: Option<nat>, compressed: nat, length: nat, fields: map<Byte, seq<Byte>>)

  ghost function Absorb(m: Meta, payload: seq<Byte>): Meta
    requires payload != []
  {
    if !Accepted(payload) then m
    else
      var r := m.(fields := m.fields[payload[0] := payload[1..]]);
      if payload[0] == COMMON && |payload| >= 3 then r.(commonCrc := Some(FieldAt(payload, 1, 2)))
      else if payload[0] == FILE_SIZES && |payload| >= 17 then
        r.(compressed := FieldAt(payload, 1, 8), length := FieldAt(payload, 9, 8))
      else r
  }

  ghost function AbsorbAll(m: Meta, payloads: seq<seq<Byte>>): Meta
    requires forall i :: 0 <= i < |payloads| ==> payloads[i] != []
  {
    if payloads == [] then m else Absorb(AbsorbAll(m, payloads[..|payloads| - 1]), payloads[|payloads| - 1])
  }

  /** Position i holds one of the two bytes of a header CRC. */
  ghost predicate InCrc(raw: seq<Byte>, blocks: seq<Block>, i: nat)
    requires Inside(raw, blocks)
  {
    exists k :: 0 <= k < |blocks| && CrcOf(raw, blocks[k], i)
  }

  ghost predicate CrcOf(raw: seq<Byte>, b: Block, i: nat)
    requires b.at + b.size <= |raw|
  {
    b.size >= 3 && raw[b.at] == COMMON && (i == b.at + 1 || i == b.at + 2)
  }

  /** The raw header over which the header CRC is computed. */
  ghost function Cleared(raw: seq<Byte>, blocks: seq<Block>): (r: seq<Byte>)
    requires Inside(raw, blocks)
    ensures |r| == |raw|
  {
    seq(|raw|, i requires 0 <= i < |raw| => if InCrc(raw, blocks, i) then 0 else raw[i])
  }

  /** Clearing the CRC does not disturb the chain: the same blocks are found again. */
  lemma {:induction false} ClearedKeepsWalk(raw: seq<Byte>, offset: nat, width: nat)
    requires offset + width <= |raw| && Walk(raw, offset, width).Some?
    ensures Inside(raw, Walk(raw, offset, width).value)
    ensures Walk(Cleared(raw, Walk(raw, offset, width).value), offset, width) == Walk(raw, offset, width)
  {
    WalkInside(raw, offset, width);
    ClearedKeepsTail(raw, Walk(raw, offset, width).value, [], offset, width);
  }

  lemma WalkInside(raw: seq<Byte>, offset: nat, width: nat)
    requires offset + width <= |raw| && Walk(raw, offset, width).Some?
    ensures var blocks := Walk(raw, offset, width).value;
            Inside(raw, blocks) && forall i :: 0 <= i < |blocks| ==> blocks[i].size >= 1
  {
    var blocks := Walk(raw, offset, width).value;
    WalkIsLaid(raw, offset, width);
    forall i | 0 <= i < |blocks| ensures blocks[i].at + blocks[i].size <= |raw| && blocks[i].size >= 1 {
      LaidBounds(blocks, offset + width, width, i);
    }
  }

  /** The blocks before and from the length field at `offset`. */
  ghost predicate Divides(raw: seq<Byte>, all: seq<Block>, before: seq<Block>, offset: nat, width: nat) {
    && offset + width <= |raw| && Inside(raw, all)
    && Walk(raw, offset, width).Some? && all == before + Walk(raw, offset, width).value
    && forall i :: 0 <= i < |before| ==> before[i].at + before[i].size <= offset
  }

  lemma {:induction false} ClearedKeepsTail(raw: seq<Byte>, all: seq<Block>, before: seq<Block>, offset: nat, width: nat)
    requires Divides(raw, all, before, offset, width)
    ensures Walk(Cleared(raw, all), offset, width) == Walk(raw, offset, width)
    decreases |raw| - offset
  {
    FieldIsNotCrc(raw, all, before, offset, width);
    FieldAgrees(raw, Cleared(raw, all), offset, width);
    var n := FieldAt(raw, offset, width);
    if n != 0 {
      DividesNext(raw, all, before, offset, width);
      ClearedKeepsTail(raw, all, before + [Block(offset + width, n - width)], offset + n, width);
    }
  }

  lemma DividesNext(raw: seq<Byte>, all: seq<Block>, before: seq<Block>, offset: nat, width: nat)
    requires Divides(raw, all, before, offset, width) && FieldAt(raw, offset, width) != 0
    ensures var n := FieldAt(raw, offset, width);
            n >= width && Divides(raw, all, before + [Block(offset + width, n - width)], offset + n, width)
  {
    var n := FieldAt(raw, offset, width);
    var b := Block(offset + width, n - width);
    var rest := Walk(raw, offset + n, width).value;
    assert before + ([b] + rest) == (before + [b]) + rest;
  }

  /** No length field overlaps a CRC. */
  lemma FieldIsNotCrc(raw: seq<Byte>, all: seq<Block>, before: seq<Block>, offset: nat, width: nat)
    requires Divides(raw, all, before, offset, width)
    ensures forall i :: offset <= i < offset + width ==> !InCrc(raw, all, i)
  {
    var after := Walk(raw, offset, width).value;
    WalkIsLaid(raw, offset, width);
    forall i, k | offset <= i < offset + width && 0 <= k < |all| ensures !CrcOf(raw, all[k], i) {
      if k < |before| {
        assert all[k] == before[k];
      } else {
        assert all[k] == after[k - |before|];
        LaidBounds(after, offset + width, width, k - |before|);
      }
    }
  }
}
