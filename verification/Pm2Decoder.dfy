/** The -pm2- decoder, working in place on its trees, its ring buffer and its list of recent bytes. */
module Pm2Decoder {
  import opened Bits
  import opened BitReader
  import opened TreeDecode
  import TreeTable
  import opened History
  import opened PmaHistory
  import opened Pm2Model

  /** Reads n bits, or none if there are fewer. */
  method TryBits(reader: BitStreamReader, n: nat) returns (r: int)
    requires reader.Valid() && n <= MAX_PEEK
    modifies reader
    ensures reader.Valid() && reader.Stream() == Skip(old(reader.Stream()), n)
    ensures var f := ReadN(old(reader.Stream()), n);
            if f.Done? then r == f.value && f.rest == reader.Stream() else r == -1
  {
    r := reader.ReadBits(n);
  }

  lemma LensStep(bits: seq<Bit>, n: nat, width: nat, min: nat, got: seq<nat>)
    requires width <= 7 && 1 <= min <= 7 && |got| < n && LengthsBelow(got, MAX_LENGTH)
    ensures var val := ReadN(bits, width);
            if val.End? then ReadLens(bits, n, width, min, got) == Lens(false, got, bits)
            else LengthsBelow(got + [CodeLength(min, val.value)], MAX_LENGTH)
                 && ReadLens(bits, n, width, min, got) == ReadLens(val.rest, n, width, min, got + [CodeLength(min, val.value)])
  {
    PowersArePow2(width);
  }

  method ReadLensValue(reader: BitStreamReader, n: nat, width: nat, min: nat) returns (all: bool, lens: seq<nat>)
    requires reader.Valid() && width <= 7 && 1 <= min <= 7
    modifies reader
    ensures reader.Valid()
    ensures ReadLens(old(reader.Stream()), n, width, min, []) == Lens(all, lens, reader.Stream())
  {
    lens := [];
    ghost var whole := ReadLens(reader.Stream(), n, width, min, []);
    while |lens| < n
      invariant reader.Valid() && |lens| <= n && LengthsBelow(lens, MAX_LENGTH)
      invariant ReadLens(reader.Stream(), n, width, min, lens) == whole
    {
      LensStep(reader.Stream(), n, width, min, lens);
      var val := TryBits(reader, width);
      if val < 0 { return false, lens; }
      lens := lens + [CodeLength(min, val)];
    }
    all := true;
  }

  /** How many lengths are used, and the last one that is. */
  method CountUsed(lens: seq<nat>) returns (count: nat, last: nat)
    ensures count == UsedCount(lens, |lens|) && last == LastUsed(lens, |lens|)
  {
    count, last := 0, 0;
    for off := 0 to |lens|
      invariant count == UsedCount(lens, off) && last == LastUsed(lens, off)
    {
      if lens[off] != 0 {
        last := off;
        count := count + 1;
      }
    }
  }

  lemma NoCodeTree(t: Trees, bits: seq<Bit>)
    requires TreesOk(t) && (ReadN(bits, CODES_BITS).End? || ReadN(Skip(bits, CODES_BITS), MIN_BITS).End?)
    ensures Pm2Model.ReadCodeTree(t, bits) == Load(t, Skip(Skip(bits, CODES_BITS), MIN_BITS))
  {
  }

  lemma CodeTreeIs(t: Trees, bits: seq<Bit>, n: nat, min: nat)
    requires TreesOk(t)
    requires var a, b := ReadN(bits, CODES_BITS), ReadN(Skip(bits, CODES_BITS), MIN_BITS);
             a.Done? && a.value == n && b.Done? && b.value == min
    ensures min <= 7
    ensures Pm2Model.ReadCodeTree(t, bits)
            == BuildCodeTree(t.(needOffset := NeedsOffsets(n, min)), n, min, Skip(Skip(bits, CODES_BITS), MIN_BITS))
  {
    PowersArePow2(MIN_BITS);
  }

  class Decoder {
    const reader: BitStreamReader
    const ring: RingBuffer
    const historyList: HistoryLinkedList
    const codeTree: array<nat>
    const offsetTree: array<nat>
    var needOffsetTree: bool
    var treeState: Stage
    var treeRebuildRemaining: nat

    ghost function CurrentTrees(): Trees
      reads this, codeTree, offsetTree
    {
      Trees(codeTree[..], offsetTree[..], needOffsetTree)
    }

    ghost function Model(): State
      requires reader.Valid()
      reads this, reader, ring, codeTree, offsetTree
    {
      State(CurrentTrees(), treeState, treeRebuildRemaining, reader.Stream(), ring.past)
    }

    ghost predicate Valid()
      reads this, reader, ring, ring.ringbuf, historyList, historyList.history, codeTree, offsetTree
    {
      && codeTree != offsetTree && reader.Valid()
      && ring.Valid() && ring.ringbuf.Length == RING_BUFFER_SIZE
      && historyList.Valid() && historyList.order == RecentBytes(ring.past)
      && TreesOk(CurrentTrees())
    }

    constructor (input: seq<Byte>)
      ensures Valid() && treeState == Unbuilt && treeRebuildRemaining == 0
      ensures reader.Stream() == BytesToBits(input) && ring.past == []
    {
      reader := new BitStreamReader(input);
      ring := new RingBuffer(RING_BUFFER_SIZE);
      historyList := new HistoryLinkedList();
      codeTree := new nat[CODE_TREE_ELEMENTS];
      offsetTree := new nat[OFFSET_TREE_ELEMENTS];
      needOffsetTree, treeState, treeRebuildRemaining := false, Unbuilt, 0;
      new;
      TreeTable.InitTree(codeTree, MARK);
      TreeTable.InitTree(offsetTree, MARK);
    }

    method ReadCodeTree()
      requires reader.Valid() && codeTree != offsetTree && TreesOk(CurrentTrees())
      modifies reader, codeTree, this`needOffsetTree
      ensures reader.Valid()
      ensures Pm2Model.ReadCodeTree(old(CurrentTrees()), old(reader.Stream())) == Load(CurrentTrees(), reader.Stream())
    {
      ghost var t, bits := CurrentTrees(), reader.Stream();
      var numCodes := TryBits(reader, CODES_BITS);
      var minLength := TryBits(reader, MIN_BITS);
      ghost var rest := Skip(Skip(bits, CODES_BITS), MIN_BITS);
      assert reader.Stream() == rest;
      if minLength < 0 || numCodes < 0 {
        NoCodeTree(t, bits);
      } else {
        CodeTreeIs(t, bits, numCodes, minLength);
        needOffsetTree := NeedsOffsets(numCodes, minLength);
        FillCodeTree(numCodes, minLength);
      }
    }

    method FillCodeTree(numCodes: nat, minLength: nat)
      requires reader.Valid() && codeTree != offsetTree && TreesOk(CurrentTrees()) && numCodes < 32 && minLength <= 7
      modifies reader, codeTree
      ensures reader.Valid()
      ensures BuildCodeTree(old(CurrentTrees()), numCodes, minLength, old(reader.Stream()))
              == Load(CurrentTrees(), reader.Stream())
    {
      if minLength == 0 {
        TreeTable.SetTreeSingle(codeTree, MARK, OnlyCode(numCodes));
      } else {
        var width := TryBits(reader, WIDTH_BITS);
        if width >= 0 {
          FillFromLengths(numCodes, width, minLength);
        }
      }
    }

    method FillFromLengths(numCodes: nat, width: nat, minLength: nat)
      requires reader.Valid() && codeTree != offsetTree && TreesOk(CurrentTrees()) && numCodes < 32 && 1 <= minLength <= 7 && width <= 7
      modifies reader, codeTree
      ensures reader.Valid()
      ensures FromWidth(old(CurrentTrees()), numCodes, minLength, width, old(reader.Stream()))
              == Load(CurrentTrees(), reader.Stream())
    {
      var all, lens := ReadLensValue(reader, numCodes, width, minLength);
      if all {
        TreeTable.BuildTreeInPlace(codeTree, MARK, lens);
      }
    }

    method ReadOffsetTree(numOffsets: nat)
      requires reader.Valid() && codeTree != offsetTree && TreesOk(CurrentTrees()) && 1 <= numOffsets <= NUM_OFFSETS
      modifies reader, offsetTree
      ensures reader.Valid()
      ensures Pm2Model.ReadOffsetTree(old(CurrentTrees()), old(reader.Stream()), numOffsets)
              == Load(CurrentTrees(), reader.Stream())
    {
      if !needOffsetTree { return; }
      var all, lens := ReadLensValue(reader, numOffsets, OFFSET_LENGTH_BITS, 1);
      if !all { return; }
      FillOffsets(lens);
    }

    method FillOffsets(lens: seq<nat>)
      requires codeTree != offsetTree && TreesOk(CurrentTrees()) && 1 <= |lens| <= NUM_OFFSETS && LengthsBelow(lens, MAX_LENGTH)
      modifies offsetTree
      ensures CurrentTrees() == old(CurrentTrees()).(offset := Apply(old(offsetTree[..]), MARK, OffsetOp(lens), NUM_OFFSETS))
    {
      var count, single := CountUsed(lens);
      if count == 1 {
        TreeTable.SetTreeSingle(offsetTree, MARK, single);
      } else {
        TreeTable.BuildTreeInPlace(offsetTree, MARK, lens);
      }
    }

    /** The offset tree alone, or the code tree and then the offset tree. */
    method ReadTrees(both: bool, numOffsets: OffsetCount)
      requires reader.Valid() && codeTree != offsetTree && TreesOk(CurrentTrees())
      modifies reader, codeTree, offsetTree, this`needOffsetTree
      ensures reader.Valid()
      ensures ReadAll(if both then [Codes, Offsets(numOffsets)] else [Offsets(numOffsets)],
                      old(CurrentTrees()), old(reader.Stream())) == Load(CurrentTrees(), reader.Stream())
    {
      if both {
        ReadAllBoth(CurrentTrees(), reader.Stream(), numOffsets);
        ReadCodeTree();
      } else {
        ReadAllOffsets(CurrentTrees(), reader.Stream(), numOffsets);
      }
      ReadOffsetTree(numOffsets);
    }

    /** Reads the trees that are due and sets the countdown to the next ones. */
    method RebuildTree()
      requires reader.Valid() && codeTree != offsetTree && TreesOk(CurrentTrees())
      modifies this, reader, codeTree, offsetTree
      ensures reader.Valid() && Model() == Rebuilt(old(Model()))
    {
      ReadDueTrees();
      treeRebuildRemaining := Interval(treeState);
      treeState := NextStage(treeState);
    }

    method ReadDueTrees()
      requires reader.Valid() && codeTree != offsetTree && TreesOk(CurrentTrees())
      modifies reader, codeTree, offsetTree, this`needOffsetTree
      ensures reader.Valid()
      ensures RebuildTrees(treeState, old(CurrentTrees()), old(reader.Stream())) == Load(CurrentTrees(), reader.Stream())
    {
      match treeState {
        case Unbuilt => ReadTrees(true, 5);
        case Build1 => ReadTrees(false, 6);
        case Build2 => ReadTrees(false, 7);
        case Build3 =>
          var bit := reader.ReadBit();
          ReadTrees(bit == 1, 8);
        case Continuing =>
          var bit := reader.ReadBit();
          if bit == 1 { ReadTrees(true, 8); }
      }
    }

    method CountDown()
      requires reader.Valid() && codeTree != offsetTree && TreesOk(CurrentTrees())
      modifies this, reader, codeTree, offsetTree
      ensures reader.Valid() && Model() == CountedDown(old(Model()))
      ensures TreesOk(CurrentTrees())
    {
      if treeRebuildRemaining > 0 { treeRebuildRemaining := treeRebuildRemaining - 1; }
      if treeRebuildRemaining == 0 {
        RebuildTree();
      }
    }

    /** A byte goes to the ring buffer and to the front of the list, and counts down to the next rebuild. */
    method OutputByte(b: Byte)
      requires Valid()
      modifies this, reader, ring, ring.ringbuf, historyList, historyList.history, codeTree, offsetTree
      ensures Valid() && Model() == Output(old(Model()), b)
      ensures ring.ringbufPos == Advance(RING_BUFFER_SIZE, old(ring.ringbufPos))
    {
      RecentSnoc(ring.past, b);
      ring.OutputByte(b);
      historyList.UpdateHistoryList(b);
      CountDown();
    }

    /** After i turns of the copy loop that began at `from`: n more lead to the state `all`. */
    ghost predicate Copying(from: nat, i: nat, turns: nat, past: seq<Byte>, out: seq<Byte>, offset: nat, n: nat, all: State)
      reads this, reader, ring, ring.ringbuf, historyList, historyList.history, codeTree, offsetTree
    {
      && Valid() && from + i == turns * RING_BUFFER_SIZE + ring.ringbufPos && ring.past == past + out
      && CopyOut(Model(), offset, n) == all
    }

    /** The byte that the copy loop is about to repeat. */
    method PeekBack(start: nat, ghost from: nat, offset: nat, i: nat, ghost turns: nat) returns (b: Byte)
      requires ring.Valid() && ring.ringbuf.Length == RING_BUFFER_SIZE && offset < RING_BUFFER_SIZE && from < RING_BUFFER_SIZE
      requires start == (from + RING_BUFFER_SIZE - 1 - offset) % WORD && from + i == turns * RING_BUFFER_SIZE + ring.ringbufPos
      ensures b == Back(ring.past, offset + 1)
    {
      ModOf(0, RING_BUFFER_SIZE, offset);
      ModOf(turns, RING_BUFFER_SIZE, ring.ringbufPos);
      PositionIsMod(RING_BUFFER_SIZE, from, i);
      b := ring.ReadBack(start, i, from, offset, WORD / RING_BUFFER_SIZE);
    }

    method CopyByte(start: nat, ghost from: nat, offset: nat, i: nat, ghost turns: nat, out: seq<Byte>,
                    ghost past: seq<Byte>, ghost n: nat, ghost all: State)
      returns (more: seq<Byte>, ghost next: nat)
      requires offset < RING_BUFFER_SIZE && from < RING_BUFFER_SIZE
      requires start == (from + RING_BUFFER_SIZE - 1 - offset) % WORD
      requires n > 0 && Copying(from, i, turns, past, out, offset, n, all)
      modifies this, reader, ring, ring.ringbuf, historyList, historyList.history, codeTree, offsetTree
      ensures Copying(from, i + 1, next, past, more, offset, n - 1, all)
    {
      CopyOutStep(Model(), offset, n);
      var b := PeekBack(start, from, offset, i, turns);
      OutputByte(b);
      more := out + [b];
      next := if ring.ringbufPos == 0 then turns + 1 else turns;
      Associate(past, out, [b]);
    }

    /** The copy loop; rebuilds may fall due while it runs. */
    method CopyBytes(offset: nat, count: nat) returns (out: seq<Byte>)
      requires Valid() && offset < RING_BUFFER_SIZE
      modifies this, reader, ring, ring.ringbuf, historyList, historyList.history, codeTree, offsetTree
      ensures Valid() && Model() == CopyOut(old(Model()), offset, count)
      ensures ring.past == old(ring.past) + out
    {
      var start := (ring.ringbufPos + RING_BUFFER_SIZE - 1 - offset) % WORD;
      ghost var from, past, all := ring.ringbufPos, ring.past, CopyOut(Model(), offset, count);
      assert past == past + [];
      ghost var turns;
      out, turns := CopyLoop(start, from, offset, count, past, all);
    }

    method CopyLoop(start: nat, ghost from: nat, offset: nat, count: nat, ghost past: seq<Byte>, ghost all: State)
      returns (out: seq<Byte>, ghost turns: nat)
      requires offset < RING_BUFFER_SIZE && from < RING_BUFFER_SIZE
      requires start == (from + RING_BUFFER_SIZE - 1 - offset) % WORD
      requires Copying(from, 0, 0, past, [], offset, count, all)
      modifies this, reader, ring, ring.ringbuf, historyList, historyList.history, codeTree, offsetTree
      ensures Copying(from, count, turns, past, out, offset, 0, all)
    {
      out, turns := [], 0;
      for i := 0 to count
        invariant Copying(from, i, turns, past, out, offset, count - i, all)
      {
        out, turns := CopyByte(start, from, offset, i, turns, out, past, count - i, all);
      }
    }

    method HistoryGetCount(c: nat) returns (count: int)
      requires reader.Valid() && c < 21
      modifies reader
      ensures reader.Valid()
      ensures var r := ReadN(old(reader.Stream()), CountBits(c));
              if r.Done? then count == CountOf(c, r.value) && reader.Stream() == r.rest else count == -1
    {
      if c < 15 {
        assert reader.Stream()[..0] == [] && reader.Stream()[0..] == reader.Stream();
        return c + 2;
      }
      var extra := reader.ReadBits(COPY_DECODE[c - 15].bits);
      count := if extra < 0 then -1 else COPY_DECODE[c - 15].offset + extra;
    }

    method ReadDistanceBits(class_: nat) returns (offset: int)
      requires reader.Valid() && class_ < NUM_OFFSETS
      modifies reader
      ensures reader.Valid()
      ensures var r := EndDistance(class_, old(reader.Stream()));
              if r.Done? then offset == r.value && reader.Stream() == r.rest else offset == -1
    {
      var base := if class_ == 0 then 0 else Pow2(class_ + 5);
      var val := reader.ReadBits(DistanceBits(class_));
      offset := if val < 0 then -1 else base + val;
    }

    method HistoryGetOffset(c: nat) returns (offset: int)
      requires reader.Valid() && TreesOk(CurrentTrees())
      modifies reader
      ensures reader.Valid()
      ensures var r := ReadDistance(CurrentTrees(), c, old(reader.Stream()));
              if r.Done? then offset == r.value && reader.Stream() == r.rest else offset == -1
    {
      if c == 0 {
        offset := ReadDistanceBits(0);
      } else if c < 20 {
        FollowIsBounded(offsetTree[..], MARK, offsetTree[0], reader.Stream(), NUM_OFFSETS);
        var val := TreeTable.ReadFromTree(reader, offsetTree, MARK);
        if val < 0 { return -1; }
        offset := ReadDistanceBits(val);
      } else {
        offset := 0;
      }
    }

    /** A byte found through the list of recent ones. */
    method ReadSingleByte(code: nat, ghost r: Fetch<Command>) returns (out: seq<Byte>)
      requires Valid() && code < 8 && r == EndRecent(code, reader.Stream())
      modifies this, reader, ring, ring.ringbuf, historyList, historyList.history, codeTree, offsetTree
      ensures Valid() && ring.past == old(ring.past) + out
      ensures if r.End? then out == [] else Model() == Execute(old(Model()).(bits := r.rest), r.value)
    {
      var index := ReadPlace(code);
      if index < 0 { return []; }
      var b := historyList.FindInHistoryList(index);
      OutputByte(b);
      out := [b];
    }

    method ReadPlace(code: nat) returns (index: int)
      requires reader.Valid() && code < 8
      modifies reader
      ensures reader.Valid()
      ensures match EndRecent(code, old(reader.Stream()))
              case End => index == -1
              case Done(c, rest) => 0 <= index < SIZE && c == Recent(index) && reader.Stream() == rest
    {
      var extra := reader.ReadBits(HISTORY_DECODE[code].bits);
      index := if extra < 0 then -1 else HISTORY_DECODE[code].offset + extra;
    }

    method CopyFromHistory(c: nat) returns (out: seq<Byte>)
      requires Valid() && c < 21
      modifies this, reader, ring, ring.ringbuf, historyList, historyList.history, codeTree, offsetTree
      ensures Valid() && ring.past == old(ring.past) + out
      ensures var r := EndCopy(old(CurrentTrees()), c, old(reader.Stream()));
              if r.End? then out == [] else Model() == Execute(old(Model()).(bits := r.rest), r.value)
    {
      var count := HistoryGetCount(c);
      var offset := HistoryGetOffset(c);
      if count < 0 || offset < 0 { return []; }
      out := CopyBytes(offset, count);
    }

    /** Decodes one command and returns the bytes it produced, or nothing at the end of the stream. */
    method Read() returns (out: seq<Byte>)
      requires Valid()
      modifies this, reader, ring, ring.ringbuf, historyList, historyList.history, codeTree, offsetTree
      ensures Valid() && ring.past == old(ring.past) + out
      ensures var s := if old(treeState) != Unbuilt then old(Model())
                       else Rebuilt(old(Model()).(bits := Skip(old(reader.Stream()), 1)));
              && TreesOk(s.trees)
              && var r := ReadCommand(s.trees, s.bits);
                 if r.End? then out == [] else r.value.Beyond? || Model() == Execute(s.(bits := r.rest), r.value)
    {
      if treeState == Unbuilt {
        var _ := reader.ReadBit();
        RebuildTree();
      }
      out := ReadBuilt();
    }

    method ReadBuilt() returns (out: seq<Byte>)
      requires Valid()
      modifies this, reader, ring, ring.ringbuf, historyList, historyList.history, codeTree, offsetTree
      ensures Valid() && ring.past == old(ring.past) + out
      ensures var r := ReadCommand(old(CurrentTrees()), old(reader.Stream()));
              if r.End? then out == []
              else r.value.Beyond? || Model() == Execute(old(Model()).(bits := r.rest), r.value)
    {
      ghost var r := ReadCommand(CurrentTrees(), reader.Stream());
      var code := TreeTable.ReadFromTree(reader, codeTree, MARK);
      if code < 0 { return []; }
      CommandIs(CurrentTrees(), old(reader.Stream()), code, reader.Stream());
      out := ExecuteCode(code, r);
    }

    method ExecuteCode(code: nat, ghost r: Fetch<Command>) returns (out: seq<Byte>)
      requires Valid() && r == EndCommand(CurrentTrees(), code, reader.Stream())
      modifies this, reader, ring, ring.ringbuf, historyList, historyList.history, codeTree, offsetTree
      ensures Valid() && ring.past == old(ring.past) + out
      ensures if r.End? then out == []
              else r.value.Beyond? || Model() == Execute(old(Model()).(bits := r.rest), r.value)
    {
      if code < 8 {
        out := ReadSingleByte(code, r);
      } else if code < NUM_CODES {
        out := CopyFromHistory(code - 8);
      } else {
        out := [];
      }
    }
  }

  lemma RecentSnoc(past: seq<Byte>, b: Byte)
    ensures RecentBytes(past + [b]) == Touch(RecentBytes(past), b)
  {
    assert (past + [b])[..|past|] == past;
  }
}
