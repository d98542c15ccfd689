/** The decoder for the -lh4- to -lh7-, -lhx- and -lk7- formats, working in place on its trees and ring buffer. */
module LhNewDecoder {
  import opened Bits
  import opened BitReader
  import opened TreeDecode
  import TreeTable
  import opened Codings
  import opened LhNewTables
  import opened LhNewBlocks
  import opened LhNewCommands
  import opened DistanceCodes
  import opened History

  // ----- Reading the tables -----

  method ReadLengthValue(reader: BitStreamReader) returns (len: int)
    requires reader.Valid()
    modifies reader
    ensures reader.Valid()
    ensures var r := ReadLength(old(reader.Stream()));
            if r.Done? then len == r.value && reader.Stream() == r.rest else len == -1
  {
    len := reader.ReadBits(LENGTH_BITS);
    if len < 0 || len != 7 { return; }
    ghost var all := Unary(reader.Stream(), len);
    while true
      invariant reader.Valid() && len >= 0 && Unary(reader.Stream(), len) == all
      decreases |reader.Stream()|
    {
      var i := reader.ReadBit();
      if i < 0 { return -1; }
      if i == 0 { return; }
      len := len + 1;
    }
  }

  /** One length, with the unused codes that follow it where there may be a gap. */
  method ReadItemValue(reader: BitStreamReader, gapHere: bool) returns (ok: bool, item: seq<nat>)
    requires reader.Valid()
    modifies reader
    ensures reader.Valid()
    ensures var r := ReadItem(old(reader.Stream()), gapHere);
            ok == r.Done? && (ok ==> item == r.value && reader.Stream() == r.rest)
  {
    var len := ReadLengthValue(reader);
    if len < 0 { return false, []; }
    item := [len % 256];
    if gapHere {
      var gap := reader.ReadBits(GAP_BITS);
      if gap < 0 { return false, []; }
      var before := item;
      for j := 0 to gap
        invariant item == before + Unused(j)
      {
        item := item + [0];
      }
    }
    ok := true;
  }

  method ReadLengthValues(reader: BitStreamReader, n: nat, gapped: bool) returns (ok: bool, lens: seq<nat>)
    requires reader.Valid()
    modifies reader
    ensures reader.Valid()
    ensures var r := ReadLengths(old(reader.Stream()), n, [], gapped);
            ok == r.Done? && (ok ==> lens == r.value && reader.Stream() == r.rest)
  {
    lens := [];
    ghost var all := ReadLengths(reader.Stream(), n, [], gapped);
    while |lens| < n
      invariant reader.Valid() && LengthsBelow(lens, MAX_LENGTH)
      invariant ReadLengths(reader.Stream(), n, lens, gapped) == all
      decreases |reader.Stream()|
    {
      var item;
      ok, item := ReadItemValue(reader, gapped && |lens| == 2);
      if !ok { return; }
      lens := lens + item;
    }
    ok := true;
  }

  /** Put a coding into a table, over what it held before. */
  method PutCoding(tree: array<nat>, c: Coding, ghost n: nat)
    requires Codes(tree[..], n) && Fits(c, n)
    modifies tree
    ensures tree[..] == Built(old(tree[..]), c, n)
  {
    match c
    case Many(lens) => TreeTable.BuildTreeInPlace(tree, MARK, lens);
    case One(code) => TreeTable.SetTreeSingle(tree, MARK, code);
  }

  method ReadCodingValue(reader: BitStreamReader, width: nat, ghost max: nat, gapped: bool) returns (ok: bool, c: Coding)
    requires reader.Valid() && max == Pow2(width) && width <= MAX_PEEK
    modifies reader
    ensures reader.Valid()
    ensures var r := ReadCoding(old(reader.Stream()), width, max, gapped);
            ok == r.Done? && (ok ==> c == r.value && reader.Stream() == r.rest)
  {
    c := One(0);
    var n := reader.ReadBits(width);
    if n < 0 { return false, c; }
    if n == 0 {
      var code := reader.ReadBits(width);
      if code < 0 { return false, c; }
      return true, One(code);
    }
    var lens;
    ok, lens := ReadLengthValues(reader, n, gapped);
    if ok { c := Many(lens[..n]); }
  }

  /** The temporary table and the offset table. */
  method ReadTableInto(reader: BitStreamReader, tree: array<nat>, width: nat, ghost max: nat, gapped: bool) returns (ok: bool)
    requires reader.Valid() && Codes(tree[..], max) && max == Pow2(width) && width <= MAX_PEEK
    modifies reader, tree
    ensures reader.Valid()
    ensures var r := ReadTable(old(reader.Stream()), old(tree[..]), width, max, gapped);
            ok == r.Done? && (ok ==> tree[..] == r.value && reader.Stream() == r.rest)
    ensures !ok ==> tree[..] == old(tree[..])
  {
    var c;
    ok, c := ReadCodingValue(reader, width, max, gapped);
    if ok { PutCoding(tree, c, max); }
  }

  method ReadSkipCountValue(reader: BitStreamReader, range: nat) returns (count: int)
    requires reader.Valid()
    modifies reader
    ensures reader.Valid()
    ensures var r := ReadSkipCount(old(reader.Stream()), range);
            if r.Done? then count == r.value && reader.Stream() == r.rest else count == -1
  {
    if range == 0 { return 1; }
    if range == 1 {
      count := reader.ReadBits(SHORT_SKIP_BITS);
      if count >= 0 { count := count + 3; }
    } else {
      count := reader.ReadBits(LONG_SKIP_BITS);
      if count >= 0 { count := count + 20; }
    }
  }

  /** One symbol of the temporary table: a code length, or a number of unused codes. */
  method ReadRunValue(reader: BitStreamReader, temp: array<nat>, room: nat) returns (ok: bool, run: seq<nat>)
    requires reader.Valid() && Codes(temp[..], TEMP_CODES) && room >= 1
    modifies reader
    ensures reader.Valid()
    ensures var r := ReadRun(old(reader.Stream()), temp[..], room);
            ok == r.Done? && (ok ==> run == r.value && reader.Stream() == r.rest)
  {
    var code := TreeTable.ReadFromTree(reader, temp, MARK);
    if code < 0 { return false, []; }
    if code > 2 { return true, [(code - 2) % 256]; }
    var skip := ReadSkipCountValue(reader, code);
    if skip < 0 { return false, []; }
    run := [];
    ghost var n := if skip <= room then skip else room;
    while |run| < skip && |run| < room
      invariant |run| <= n && run == Unused(|run|)
    {
      run := run + [0];
    }
    ok := true;
  }

  method ReadRunValues(reader: BitStreamReader, temp: array<nat>, n: nat) returns (ok: bool, lens: seq<nat>)
    requires reader.Valid() && Codes(temp[..], TEMP_CODES)
    modifies reader
    ensures reader.Valid()
    ensures var r := ReadRuns(old(reader.Stream()), temp[..], n, []);
            ok == r.Done? && (ok ==> lens == r.value && reader.Stream() == r.rest)
  {
    lens := [];
    ghost var all := ReadRuns(reader.Stream(), temp[..], n, []);
    ok := true;
    while |lens| < n
      invariant reader.Valid() && |lens| <= n && LengthsBelow(lens, MAX_LENGTH) && ok
      invariant ReadRuns(reader.Stream(), temp[..], n, lens) == all
      decreases n - |lens|
    {
      ok, lens := ReadNextRun(reader, temp, n, lens, all);
      if !ok { return; }
    }
  }

  method ReadNextRun(reader: BitStreamReader, temp: array<nat>, n: nat, lens: seq<nat>, ghost all: Fetch<seq<nat>>)
    returns (ok: bool, more: seq<nat>)
    requires reader.Valid() && Codes(temp[..], TEMP_CODES) && |lens| < n && LengthsBelow(lens, MAX_LENGTH)
    requires ReadRuns(reader.Stream(), temp[..], n, lens) == all
    modifies reader
    ensures reader.Valid() && (!ok ==> all.End?)
    ensures ok ==> |lens| < |more| <= n && LengthsBelow(more, MAX_LENGTH) && ReadRuns(reader.Stream(), temp[..], n, more) == all
  {
    var run;
    RunsStep(reader.Stream(), temp[..], n, lens);
    ok, run := ReadRunValue(reader, temp, n - |lens|);
    more := lens + run;
  }

  method ReadCodesValue(reader: BitStreamReader, temp: array<nat>, numCodes: nat) returns (ok: bool, c: Coding)
    requires reader.Valid() && numCodes <= Pow2(CODE_COUNT_BITS) && Codes(temp[..], TEMP_CODES)
    modifies reader
    ensures reader.Valid()
    ensures var r := ReadCodes(old(reader.Stream()), temp[..], numCodes);
            ok == r.Done? && (ok ==> c == r.value && reader.Stream() == r.rest)
  {
    c := One(0);
    var n := reader.ReadBits(CODE_COUNT_BITS);
    if n < 0 { return false, c; }
    if n == 0 {
      var code := reader.ReadBits(CODE_COUNT_BITS);
      if code < 0 { return false, c; }
      return true, One(code);
    }
    if n > numCodes { n := numCodes; }
    var lens;
    ok, lens := ReadRunValues(reader, temp, n);
    if ok { c := Many(lens); }
  }

  method ReadCodeTableInto(reader: BitStreamReader, temp: array<nat>, tree: array<nat>, numCodes: nat) returns (ok: bool)
    requires reader.Valid() && temp != tree && numCodes <= Pow2(CODE_COUNT_BITS)
    requires Codes(temp[..], TEMP_CODES) && Codes(tree[..], Pow2(CODE_COUNT_BITS))
    modifies reader, tree
    ensures reader.Valid()
    ensures var r := ReadCodeTable(old(reader.Stream()), temp[..], old(tree[..]), numCodes);
            ok == r.Done? && (ok ==> tree[..] == r.value && reader.Stream() == r.rest)
    ensures !ok ==> tree[..] == old(tree[..])
  {
    var c;
    ok, c := ReadCodesValue(reader, temp, numCodes);
    if ok { PutCoding(tree, c, Pow2(CODE_COUNT_BITS)); }
  }

  // ----- Commands -----

  /** The extra bits of a distance whose class is known. */
  method ReadOffsetBits(v: Variant, reader: BitStreamReader, class_: nat) returns (offset: int)
    requires reader.Valid() && ExtraWidth(v, class_) <= MAX_PEEK
    modifies reader
    ensures reader.Valid()
    ensures var r := ReadN(old(reader.Stream()), ExtraWidth(v, class_));
            if r.Done? then offset == DistanceOf(v, class_, r.value) && reader.Stream() == r.rest else offset == -1
  {
    if v.lhark {
      if class_ < 4 {
        NoExtra(reader.Stream());
        return class_;
      }
      var width := (class_ - 2) / 2;
      var low := reader.ReadBits(width);
      offset := if low < 0 then -1 else LeftShift(2 + class_ % 2, width) + low;
    } else if class_ < 2 {
      NoExtra(reader.Stream());
      offset := class_;
    } else {
      var low := reader.ReadBits(class_ - 1);
      offset := if low < 0 then -1 else low + Pow2(class_ - 1);
    }
  }

  lemma NoExtra(bits: seq<Bit>)
    ensures ReadN(bits, 0) == Done(0, bits)
  {
    assert bits[..0] == [] && bits[0..] == bits;
  }

  /** A distance: its class from the offset tree, then the extra bits. */
  method ReadOffsetCode(v: Variant, reader: BitStreamReader, tree: array<nat>) returns (offset: int)
    requires reader.Valid() && Forward(tree[..], MARK)
    modifies reader
    ensures reader.Valid()
    ensures var r := ReadDistance(v, tree[..], 0, old(reader.Stream()));
            if r.End? then offset == -1
            else r.value.TooWide? || (r.value.Copy? && offset == r.value.distance && reader.Stream() == r.rest)
  {
    var class_ := TreeTable.ReadFromTree(reader, tree, MARK);
    if class_ < 0 || ExtraWidth(v, class_) > MAX_PEEK { return -1; }
    offset := ReadOffsetBits(v, reader, class_);
  }

  method DecodeCopyCount(v: Variant, reader: BitStreamReader, code: nat) returns (count: int)
    requires reader.Valid() && code >= 256
    modifies reader
    ensures reader.Valid()
    ensures var r := ReadN(old(reader.Stream()), CountWidth(v, code));
            if r.Done? then count == CountOf(v, code, r.value) && reader.Stream() == r.rest else count == -1
  {
    if !v.lhark {
      NoExtra(reader.Stream());
      count := code - 256 + 3;
    } else if code < 264 {
      NoExtra(reader.Stream());
      LharkCountFormula(code, 0);
      count := code - 256 + 3;
    } else if code < 288 {
      var width := (code - 260) / 4;
      LharkCountFormula(code, 0);
      var low := reader.ReadBits(width);
      count := -1;
      if low >= 0 {
        LharkCountFormula(code, low);
        count := LeftShift(4 + code % 4, width) + low + 3;
      }
    } else {
      NoExtra(reader.Stream());
      count := 514;
    }
  }

  /** What follows a code: a byte, or a copy from history once its count and distance have been read. */
  method FinishCommand(v: Variant, reader: BitStreamReader, tree: array<nat>, ring: RingBuffer, code: nat)
    returns (out: seq<Byte>)
    requires reader.Valid() && ring.Valid() && Forward(tree[..], MARK)
    requires v.historyBits <= 32 && ring.ringbuf.Length == RingSize(v)
    modifies reader, ring, ring.ringbuf
    ensures reader.Valid() && ring.Valid() && ring.past == old(ring.past) + out
    ensures var r := EndCommand(v, old(tree[..]), code, old(reader.Stream()));
            if r.End? then out == []
            else r.value.TooWide? || (ring.past == Execute(v, old(ring.past), r.value) && reader.Stream() == r.rest)
  {
    out := [];
    if code < 256 {
      ring.OutputByte(code);
      out := [code];
    } else {
      var count := DecodeCopyCount(v, reader, code);
      if count < 0 { return; }
      var offset := ReadOffsetCode(v, reader, tree);
      if offset >= 0 {
        ghost var wraps := RingDivides(v);
        out := ring.CopyFromHistory(offset, count, wraps);
      }
    }
  }

  lemma RingDivides(v: Variant) returns (wraps: nat)
    requires v.historyBits <= 32
    ensures wraps * RingSize(v) == WORD
  {
    wraps := Pow2(32 - v.historyBits);
    Pow2Adds(32 - v.historyBits, v.historyBits);
    WordIsPow2();
    assert Pow2(32) == 2 * Pow2(31);
  }

  // ----- The decoder -----

  class Decoder {
    const v: Variant
    const reader: BitStreamReader
    const ring: RingBuffer
    const tempTree: array<nat>
    const codeTree: array<nat>
    const offsetTree: array<nat>
    var blockRemaining: nat

    ghost function CurrentTrees(): Trees
      reads tempTree, codeTree, offsetTree
    {
      Trees(tempTree[..], codeTree[..], offsetTree[..])
    }

    ghost function Model(): State
      requires reader.Valid()
      reads this, reader, tempTree, codeTree, offsetTree
    {
      State(CurrentTrees(), blockRemaining, reader.Stream())
    }

    ghost predicate Valid()
      reads this, reader, ring, ring.ringbuf, tempTree, codeTree, offsetTree
    {
      && VariantOk(v) && v.historyBits <= 32
      && tempTree != codeTree && codeTree != offsetTree && offsetTree != tempTree
      && reader.Valid() && ring.Valid() && ring.ringbuf.Length == RingSize(v)
      && TreesOk(v, CurrentTrees())
    }

    constructor (v: Variant, input: seq<Byte>)
      requires VariantOk(v) && v.historyBits <= 32
      ensures Valid() && this.v == v && blockRemaining == 0 && ring.past == []
      ensures reader.Stream() == BytesToBits(input)
      ensures fresh({reader, ring, ring.ringbuf, tempTree, codeTree, offsetTree})
    {
      this.v, blockRemaining := v, 0;
      reader := new BitStreamReader(input);
      ring := new RingBuffer(RingSize(v));
      Powers(v);
      tempTree := new nat[2 * MAX_TEMP_CODES];
      codeTree := new nat[2 * v.numCodes];
      offsetTree := new nat[2 * (Pow2(v.offsetBits) - 1)];
      new;
      TreeTable.InitTree(tempTree, MARK);
      TreeTable.InitTree(codeTree, MARK);
      TreeTable.InitTree(offsetTree, MARK);
      EmptyTree(tempTree[..], TEMP_CODES);
      EmptyTree(codeTree[..], CodeLimit());
      EmptyTree(offsetTree[..], OffsetCodes(v));
    }

    /** The three tables of a block, one coded by means of the other. */
    method ReadTables() returns (ok: bool)
      requires Valid()
      modifies reader, tempTree, codeTree, offsetTree
      ensures Valid()
      ensures var r := ReadTrees(v, old(reader.Stream()), old(CurrentTrees()));
              ok == r.Done? && (ok ==> CurrentTrees() == r.value && reader.Stream() == r.rest)
    {
      Powers(v);
      ok := ReadTableInto(reader, tempTree, TEMP_CODE_BITS, TEMP_CODES, true);
      if ok {
        ok := ReadCodeTableInto(reader, tempTree, codeTree, v.numCodes);
        if ok {
          ok := ReadTableInto(reader, offsetTree, v.offsetBits, OffsetCodes(v), false);
        }
      }
    }

    method StartNewBlock() returns (ok: bool)
      requires Valid()
      modifies this, reader, tempTree, codeTree, offsetTree
      ensures Valid()
      ensures var r := ReadHead(v, old(reader.Stream()), old(CurrentTrees()));
              ok == r.Done? && (ok ==> Model() == State(r.value.trees, r.value.count, r.rest))
    {
      var len := reader.ReadBits(BLOCK_BITS);
      ok := len >= 0;
      if ok {
        blockRemaining := len;
        ok := ReadTables();
      }
    }

    /** Decodes one command and returns the bytes it produced, or nothing at the end of the stream. */
    method Read() returns (out: seq<Byte>)
      requires Valid()
      modifies this, reader, ring, ring.ringbuf, tempTree, codeTree, offsetTree
      ensures Valid() && ring.past == old(ring.past) + out
      ensures match Next(v, old(Model()))
              case Over => out == []
              case Stuck => true
              case Turn(cmd, s) => ring.past == Execute(v, old(ring.past), cmd) && Model() == s
    {
      ghost var next := Next(v, Model());
      while blockRemaining == 0
        invariant Valid() && ring.past == old(ring.past) && Next(v, Model()) == next
        decreases |reader.Stream()|
      {
        var ok := StartNewBlock();
        if !ok { return []; }
      }
      blockRemaining := blockRemaining - 1;
      out := ReadInBlock();
    }

    /** A command of the current block. */
    method ReadInBlock() returns (out: seq<Byte>)
      requires Valid()
      modifies reader, ring, ring.ringbuf
      ensures Valid() && ring.past == old(ring.past) + out
      ensures var r := ReadCommand(v, CurrentTrees(), old(reader.Stream()));
              if r.End? then out == []
              else r.value.TooWide? || (ring.past == Execute(v, old(ring.past), r.value) && reader.Stream() == r.rest)
    {
      var code := TreeTable.ReadFromTree(reader, codeTree, MARK);
      if code < 0 { return []; }
      out := FinishCommand(v, reader, offsetTree, ring, code);
    }
  }

  /** Reading on carries out the commands that the stream yields, one after the other. */
  method ReadCommands(d: Decoder, n: nat, ghost cmds: seq<Command>, ghost e: Turn)
    requires d.Valid() && NoneTooWide(cmds) && n == |cmds| && Yields(Stepper(d.v), Next(d.v, d.Model()), cmds, e)
    modifies d, d.reader, d.ring, d.ring.ringbuf, d.tempTree, d.codeTree, d.offsetTree
    ensures d.Valid() && d.ring.past == ExecuteAll(d.v, old(d.ring.past), cmds)
  {
    ghost var left, all := cmds, ExecuteAll(d.v, d.ring.past, cmds);
    for i := 0 to n
      invariant d.Valid() && |left| == n - i && NoneTooWide(left)
      invariant Yields(Stepper(d.v), Next(d.v, d.Model()), left, e) && ExecuteAll(d.v, d.ring.past, left) == all
    {
      StepperIs(d.v, Next(d.v, d.Model()).state);
      var out := d.Read();
      left := left[1..];
    }
  }

  /**
   Whole streams: a new decoder on any blocks outputs what their commands mean, whatever follows them in
   the input.
   */
  method DecodeBlocks(v: Variant, input: seq<Byte>, n: nat, ghost blocks: seq<Block>, ghost tail: seq<Bit>)
    returns (d: Decoder)
    requires VariantOk(v) && v.historyBits <= 32 && BlocksOk(v, blocks) && n == |AllMeanings(v, blocks)|
    requires BytesToBits(input) == WriteBlocks(v, blocks) + tail
    ensures d.Valid() && d.ring.past == ExecuteAll(v, [], AllMeanings(v, blocks))
  {
    d := new Decoder(v, input);
    ghost var e := StreamYields(v, d.Model(), blocks, tail);
    ReadCommands(d, n, AllMeanings(v, blocks), e);
  }

  lemma StreamYields(v: Variant, s: State, blocks: seq<Block>, tail: seq<Bit>) returns (e: Turn)
    requires VariantOk(v) && TreesOk(v, s.trees) && BlocksOk(v, blocks)
    requires s.remaining == 0 && s.bits == WriteBlocks(v, blocks) + tail
    ensures Yields(Stepper(v), Next(v, s), AllMeanings(v, blocks), e)
  {
    DecodeUndoesEncode(v, s.trees, blocks, tail);
    e := Next(v, State(TreesAfter(v, s.trees, blocks), 0, tail));
  }

  lemma EmptyTree(tree: seq<nat>, n: nat)
    requires 1 <= |tree| <= MARK && n > 0 && tree == seq(|tree|, _ => MARK)
    ensures Codes(tree, n)
  {
  }
}
