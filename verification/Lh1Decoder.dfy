/** The -lh1- decoder: codes through the adaptive tree, offsets through the fixed tables, copies through the ring. */
module Lh1Decoder {
  import opened Bits
  import opened BitReader
  import opened History
  import opened Lh1Tree
  import opened Lh1Model
  import opened Lh1Labels
  import opened Lh1Codec
  import opened Lh1Offsets
  import opened Lh1CodeTree

  const RING_BUFFER_SIZE: nat := 4096
  const COPY_THRESHOLD: nat := 3

  // ----- The stream of commands -----

  datatype Command = Literal(b: Byte) | Copy(count: nat, offset: nat)

  ghost predicate Encodable(cmd: Command) {
    cmd.Copy? ==> COPY_THRESHOLD <= cmd.count <= 60 && cmd.offset < RING_BUFFER_SIZE
  }

  function CodeOf(cmd: Command): nat
    requires Encodable(cmd)
  {
    if cmd.Literal? then cmd.b else 0x100 + cmd.count - COPY_THRESHOLD
  }

  function EncodeCommand(t: Tree, cmd: Command): seq<Bit>
    requires Shape(t) && Encodable(cmd)
  {
    Codeword(t, CodeOf(cmd)) + OffsetPart(cmd)
  }

  function OffsetPart(cmd: Command): seq<Bit>
    requires Encodable(cmd)
  {
    if cmd.Literal? then [] else EncodeOffset(cmd.offset)
  }

  datatype Parsed = NoCode | NoCopy(code: nat) | Parsed(cmd: Command, code: nat, rest: seq<Bit>)

  /** The command a code begins, given the bits after it. */
  function ParseRest(code: nat, bits: seq<Bit>): Parsed {
    if code < 0x100 then Parsed(Literal(code), code, bits)
    else
      match ReadOffset(bits)
      case NoOffset => NoCopy(code)
      case Offset(d, tail) => Parsed(Copy(code - 0x100 + COPY_THRESHOLD, d), code, tail)
  }

  function Parse(t: Tree, bits: seq<Bit>): Parsed
    requires Shape(t)
  {
    match Descend(t, 0, bits)
    case Short => NoCode
    case Got(code, rest) => ParseRest(code, rest)
  }

  lemma ParseRestUndoes(cmd: Command, tail: seq<Bit>)
    requires Encodable(cmd)
    ensures ParseRest(CodeOf(cmd), OffsetPart(cmd) + tail) == Parsed(cmd, CodeOf(cmd), tail)
  {
    if cmd.Copy? {
      ReadUndoesEncodeOffset(cmd.offset, tail);
    } else {
      assert OffsetPart(cmd) + tail == tail;
    }
  }

  lemma ParseUndoesEncode(t: Tree, cmd: Command, tail: seq<Bit>)
    requires Shape(t) && Encodable(cmd)
    ensures Parse(t, EncodeCommand(t, cmd) + tail) == Parsed(cmd, CodeOf(cmd), tail)
  {
    var word, more := Codeword(t, CodeOf(cmd)), OffsetPart(cmd);
    Associate(word, more, tail);
    ReadUndoesCodeword(t, CodeOf(cmd), more + tail);
    ParseRestUndoes(cmd, tail);
    ParseIs(t, word + (more + tail), CodeOf(cmd), more + tail);
  }

  lemma ParseIs(t: Tree, bits: seq<Bit>, code: nat, rest: seq<Bit>)
    requires Shape(t) && Descend(t, 0, bits) == Got(code, rest)
    ensures Parse(t, bits) == ParseRest(code, rest)
  {
  }

  /** What a command adds to the output. */
  function Execute(past: seq<Byte>, cmd: Command): seq<Byte> {
    if cmd.Literal? then past + [cmd.b] else LzCopy(past, cmd.offset, cmd.count)
  }

  /** A code below 256 outputs itself; any other code c repeats the output, c - 253 bytes of it. */
  lemma CodesOutput(past: seq<Byte>, code: nat, bits: seq<Bit>)
    requires code < NUM_CODES && ParseRest(code, bits).Parsed?
    ensures var r := Execute(past, ParseRest(code, bits).cmd);
            if code < 256 then r == past + [code]
            else ReadOffset(bits).Offset? && Repeats(past, r, ReadOffset(bits).value + 1, code - 253)
  {
    if code >= 256 {
      var cmd := ParseRest(code, bits).cmd;
      CopyRepeats(past, cmd.offset, cmd.count);
    }
  }

  function EncodeAll(t: Tree, cmds: seq<Command>): seq<Bit>
    requires TreeOk(t) && forall i :: 0 <= i < |cmds| ==> Encodable(cmds[i])
    decreases |cmds|
  {
    if cmds == [] then []
    else
      IncrementKeepsTree(t, CodeOf(cmds[0]));
      EncodeCommand(t, cmds[0]) + EncodeAll(Increment(t, CodeOf(cmds[0])), cmds[1..])
  }

  function ExecuteAll(past: seq<Byte>, cmds: seq<Command>): seq<Byte>
    decreases |cmds|
  {
    if cmds == [] then past else ExecuteAll(Execute(past, cmds[0]), cmds[1..])
  }

  /** The output after n reads. */
  function DecodeAll(t: Tree, past: seq<Byte>, n: nat, bits: seq<Bit>): seq<Byte>
    requires TreeOk(t)
    decreases n
  {
    if n == 0 then past
    else
      ReadTakesCodeword(t, bits);
      var p := Parse(t, bits);
      if !p.Parsed? then past
      else
        IncrementKeepsTree(t, p.code);
        DecodeAll(Increment(t, p.code), Execute(past, p.cmd), n - 1, p.rest)
  }

  lemma DecodeOneCommand(t: Tree, past: seq<Byte>, cmd: Command, n: nat, tail: seq<Bit>)
    requires TreeOk(t) && Encodable(cmd)
    ensures TreeOk(Increment(t, CodeOf(cmd)))
    ensures DecodeAll(t, past, n + 1, EncodeCommand(t, cmd) + tail)
            == DecodeAll(Increment(t, CodeOf(cmd)), Execute(past, cmd), n, tail)
  {
    IncrementKeepsTree(t, CodeOf(cmd));
    ParseUndoesEncode(t, cmd, tail);
  }

  lemma DecodeJoin(t: Tree, u: Tree, past: seq<Byte>, next: seq<Byte>, n: nat,
                   first: seq<Bit>, rest: seq<Bit>, tail: seq<Bit>, result: seq<Byte>)
    requires TreeOk(t) && TreeOk(u)
    requires DecodeAll(t, past, n + 1, first + (rest + tail)) == DecodeAll(u, next, n, rest + tail)
    requires DecodeAll(u, next, n, rest + tail) == result
    ensures DecodeAll(t, past, n + 1, (first + rest) + tail) == result
  {
    Associate(first, rest, tail);
  }

  /** Decoding any encoded sequence of literals and copies reproduces its expansion, whatever follows in the stream. */
  lemma {:induction false} DecodeAllUndoesEncodeAll(t: Tree, past: seq<Byte>, cmds: seq<Command>, tail: seq<Bit>)
    requires TreeOk(t) && forall i :: 0 <= i < |cmds| ==> Encodable(cmds[i])
    ensures DecodeAll(t, past, |cmds|, EncodeAll(t, cmds) + tail) == ExecuteAll(past, cmds)
    decreases |cmds|
  {
    if cmds != [] {
      var cmd := cmds[0];
      IncrementKeepsTree(t, CodeOf(cmd));
      var u := Increment(t, CodeOf(cmd));
      var rest := EncodeAll(u, cmds[1..]);
      DecodeOneCommand(t, past, cmd, |cmds| - 1, rest + tail);
      DecodeAllUndoesEncodeAll(u, Execute(past, cmd), cmds[1..], tail);
      DecodeJoin(t, u, past, Execute(past, cmd), |cmds| - 1, EncodeCommand(t, cmd), rest, tail,
                 ExecuteAll(Execute(past, cmd), cmds[1..]));
    }
  }

  // ----- Reading from the stored structures -----

  /** Walks from the root to a leaf, one bit of input per level. */
  method ReadLeaf(tree: CodeTree, reader: BitStreamReader) returns (ok: bool, code: nat)
    requires tree.Valid() && Shape(tree.Model()) && reader.Valid()
    requires reader !in tree.Repr()
    modifies reader
    ensures reader.Valid()
    ensures match Descend(tree.Model(), 0, old(reader.Stream()))
            case Short => !ok
            case Got(c, rest) => ok && code == c < NUM_CODES && reader.Stream() == rest
  {
    ghost var t := tree.Model();
    ReadTakesCodeword(t, reader.Stream());
    var i: nat := 0;
    while !tree.nodes[i].leaf
      invariant reader.Valid() && i < NUM_TREE_NODES
      invariant Descend(t, i, reader.Stream()) == Descend(t, 0, old(reader.Stream()))
      decreases NUM_TREE_NODES - i
    {
      assert PointsDown(t, i);
      var bit := reader.ReadBit();
      if bit < 0 {
        return false, 0;
      }
      i := tree.nodes[i].child - bit;
    }
    ok, code := true, tree.nodes[i].child;
  }

  method ReadCode(tree: CodeTree, reader: BitStreamReader) returns (ok: bool, code: nat)
    requires tree.Valid() && TreeOk(tree.Model()) && reader.Valid()
    requires reader !in tree.Repr()
    modifies reader, tree.Repr()
    ensures reader.Valid() && TreeOk(tree.Model())
    ensures match Descend(old(tree.Model()), 0, old(reader.Stream()))
            case Short => !ok
            case Got(c, rest) => ok && code == c < NUM_CODES && reader.Stream() == rest
                                 && tree.Model() == Increment(old(tree.Model()), c)
  {
    ok, code := ReadLeaf(tree, reader);
    if ok {
      IncrementKeepsTree(tree.Model(), code);
      tree.IncrementForCode(code);
    }
  }

  method ReadOffsetCode(offsets: OffsetTable, reader: BitStreamReader) returns (ok: bool, offset: nat)
    requires offsets.Valid() && reader.Valid()
    requires reader !in {offsets, offsets.offsetLookup, offsets.offsetLengths}
    modifies reader
    ensures reader.Valid()
    ensures match ReadOffset(old(reader.Stream()))
            case NoOffset => !ok
            case Offset(d, rest) => ok && offset == d < RING_BUFFER_SIZE && reader.Stream() == rest
  {
    ghost var bits := reader.Stream();
    var future := reader.PeekBits(8);
    if future < 0 {
      return false, 0;
    }
    SmallPowers();
    var top := offsets.offsetLookup[future];
    var n := offsets.offsetLengths[top];
    assert top == Lookup(Value(bits[..8])) && n == CodeLength(top);
    var skipped := reader.ReadBits(n);
    SplitOffset(bits, n);
    var low := reader.ReadBits(6);
    ok := low >= 0;
    offset := if ok then top * 64 + low else 0;
  }

  lemma SplitOffset(bits: seq<Bit>, n: nat)
    requires n <= |bits|
    ensures |bits| >= n + 6 ==> bits[n..][..6] == bits[n..n + 6] && bits[n..][6..] == bits[n + 6..]
  {
  }

  method CopyOut(ring: RingBuffer, offset: nat, count: nat) returns (out: seq<Byte>)
    requires ring.Valid() && ring.ringbuf.Length == RING_BUFFER_SIZE && offset < RING_BUFFER_SIZE
    modifies ring, ring.ringbuf
    ensures ring.Valid() && ring.past == LzCopy(old(ring.past), offset, count)
    ensures ring.past == old(ring.past) + out && |out| == count
  {
    ModOf(0, RING_BUFFER_SIZE, offset);
    out := ring.CopyFromHistory(offset, count, WORD / RING_BUFFER_SIZE);
  }

  /** Outputs what a code stands for: a byte, or a copy whose offset is read first. */
  method Emit(ring: RingBuffer, offsets: OffsetTable, reader: BitStreamReader, code: nat) returns (out: seq<Byte>)
    requires ring.Valid() && ring.ringbuf.Length == RING_BUFFER_SIZE && offsets.Valid() && reader.Valid()
    requires reader !in {offsets, offsets.offsetLookup, offsets.offsetLengths, ring, ring.ringbuf}
    requires code < NUM_CODES
    modifies reader, ring, ring.ringbuf
    ensures reader.Valid() && ring.Valid() && ring.past == old(ring.past) + out && |out| <= 60
    ensures match ParseRest(code, old(reader.Stream()))
            case Parsed(cmd, _, rest) =>
              out != [] && ring.past == Execute(old(ring.past), cmd) && reader.Stream() == rest
            case _ => out == []
  {
    out := [];
    if code < 0x100 {
      ring.OutputByte(code);
      out := [code];
    } else {
      var found, offset := ReadOffsetCode(offsets, reader);
      if found {
        out := CopyOut(ring, offset, code - 0x100 + COPY_THRESHOLD);
      }
    }
  }

  // ----- The decoder -----

  class Decoder {
    const reader: BitStreamReader
    const ring: RingBuffer
    const tree: CodeTree
    const offsets: OffsetTable

    ghost function Repr(): set<object> {
      {this, reader, ring, ring.ringbuf} + tree.Repr() + {offsets, offsets.offsetLookup, offsets.offsetLengths}
    }

    ghost predicate Separate() {
      && reader !in tree.Repr() + {offsets, offsets.offsetLookup, offsets.offsetLengths, ring, ring.ringbuf}
      && {ring, ring.ringbuf} !! tree.Repr() !! {offsets, offsets.offsetLookup, offsets.offsetLengths}
    }

    ghost predicate Valid()
      reads Repr()
    {
      && Separate()
      && reader.Valid() && ring.Valid() && ring.ringbuf.Length == RING_BUFFER_SIZE
      && offsets.Valid() && tree.Valid() && TreeOk(tree.Model())
    }

    constructor (input: seq<Byte>)
      ensures Valid()
      ensures reader.Stream() == BytesToBits(input) && ring.past == []
      ensures Heap(Freqs(tree.Model().nodes)) && tree.Model() == InitialTree(Freqs(tree.Model().nodes))
    {
      reader := new BitStreamReader(input);
      offsets := new OffsetTable();
      ring := new RingBuffer(RING_BUFFER_SIZE);
      tree := new CodeTree();
    }

    method TakeCode() returns (ok: bool, code: nat)
      requires Valid()
      modifies reader, tree.Repr()
      ensures Valid()
      ensures match Descend(old(tree.Model()), 0, old(reader.Stream()))
              case Short => !ok
              case Got(c, rest) => ok && code == c < NUM_CODES && reader.Stream() == rest
                                   && tree.Model() == Increment(old(tree.Model()), c)
    {
      ok, code := ReadCode(tree, reader);
    }

    method EmitCode(code: nat) returns (out: seq<Byte>)
      requires Valid() && code < NUM_CODES
      modifies reader, ring, ring.ringbuf
      ensures Valid() && ring.past == old(ring.past) + out && tree.Model() == old(tree.Model())
      ensures match ParseRest(code, old(reader.Stream()))
              case Parsed(cmd, _, rest) =>
                1 <= |out| <= 60 && ring.past == Execute(old(ring.past), cmd) && reader.Stream() == rest
              case _ => out == []
    {
      out := Emit(ring, offsets, reader, code);
    }

    /** Decodes one command and returns the bytes it produced, or nothing at the end of the stream. */
    method Read() returns (out: seq<Byte>)
      requires Valid()
      modifies Repr()
      ensures Valid() && ring.past == old(ring.past) + out
      ensures match Parse(old(tree.Model()), old(reader.Stream()))
              case Parsed(cmd, code, rest) =>
                && ring.past == Execute(old(ring.past), cmd)
                && reader.Stream() == rest && code < NUM_CODES && tree.Model() == Increment(old(tree.Model()), code)
                && 1 <= |out| <= 60
              case _ => out == []
    {
      var ok, code := TakeCode();
      out := [];
      if ok {
        ParseIs(old(tree.Model()), old(reader.Stream()), code, reader.Stream());
        out := EmitCode(code);
      }
    }
  }
}
