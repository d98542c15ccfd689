/**
 The history window of the decoders: a ring buffer that starts filled with spaces, against the
 unbounded sequence of all bytes output so far.
 */
module History {
  import opened Bits

  const SPACE: Byte := 0x20

  /** The byte d positions back from the end of everything output, spaces preceding the output. */
  function Back(past: seq<Byte>, d: nat): Byte
    requires d >= 1
  {
    if d <= |past| then past[|past| - d] else SPACE
  }

  /** Appends `count` bytes, each the byte offset + 1 positions back at its time. */
  function LzCopy(past: seq<Byte>, offset: nat, count: nat): (r: seq<Byte>)
    ensures |r| == |past| + count && past <= r
    decreases count
  {
    if count == 0 then past else LzCopy(past + [Back(past, offset + 1)], offset, count - 1)
  }

  /** A copy repeats the history with period offset + 1, also where it overlaps its own output. */
  lemma {:induction false} CopyIsPeriodic(past: seq<Byte>, offset: nat, count: nat, j: nat)
    requires |past| <= j < |past| + count
    ensures var r := LzCopy(past, offset, count);
            r[j] == if j > offset then r[j - offset - 1] else 0x20
    decreases count
  {
    var next := past + [Back(past, offset + 1)];
    if j == |past| {
      var r := LzCopy(past, offset, count);
      assert next <= r;
      assert r[j] == next[j];
    } else {
      CopyIsPeriodic(next, offset, count - 1, j);
    }
  }

  /** Byte j is the one a period before it; spaces precede everything. */
  ghost predicate RepeatsAt(r: seq<Byte>, period: nat, j: nat)
    requires j < |r| && period >= 1
  {
    r[j] == if j >= period then r[j - period] else 0x20
  }

  /** r is the past with n bytes more, which repeat with the given period. */
  ghost predicate Repeats(past: seq<Byte>, r: seq<Byte>, period: nat, n: nat)
    requires period >= 1
  {
    |r| == |past| + n && past <= r && forall j: nat :: |past| <= j < |r| ==> RepeatsAt(r, period, j)
  }

  lemma CopyRepeats(past: seq<Byte>, offset: nat, count: nat)
    ensures Repeats(past, LzCopy(past, offset, count), offset + 1, count)
  {
    var r, period := LzCopy(past, offset, count), offset + 1;
    forall j: nat | |past| <= j < |r| ensures RepeatsAt(r, period, j) {
      CopyIsPeriodic(past, offset, count, j);
    }
  }

  /** Where the copy loop's running index points, relative to the running write position. */
  lemma RingIndex(size: nat, from: nat, offset: nat, i: nat)
    requires offset < size && from < size
    ensures var pos := (from + i) % size;
            (from + size - offset - 1 + i) % size == if offset < pos then pos - offset - 1 else pos + size - offset - 1
  {
    var x := from + i;
    var q, pos := x / size, x % size;
    assert x == q * size + pos;
    if offset < pos {
      assert x + size - offset - 1 == (q + 1) * size + (pos - offset - 1);
      ModOf(q + 1, size, pos - offset - 1);
    } else {
      ModOf(q, size, pos + size - offset - 1);
    }
  }

  lemma WordAt(x: int)
    ensures x == x / WORD * WORD + x % WORD
  {
  }

  /** Wrapping around at 2^32 on the way does not matter on a ring whose size divides it. */
  lemma WrapsAway(start: int, i: nat, size: nat, wraps: nat)
    requires size > 0 && wraps * size == WORD
    ensures ((start % WORD + i) % WORD) % size == (start + i) % size
  {
    assert wraps > 0;
    var q := start / WORD;
    ModOfMod(start % WORD + i, wraps, size);
    WordAt(start);
    assert q * WORD == (q * wraps) * size;
    ModShifted(start % WORD + i, q * wraps, size);
  }

  /** The copy loop's index in 32-bit arithmetic: offsets beyond the ring wrap around. */
  lemma WrappedIndex(size: nat, wraps: nat, from: nat, offset: nat, i: nat)
    requires size > 0 && wraps * size == WORD && from < size
    ensures (((from + size - offset - 1) % WORD + i) % WORD) % size == (from + size - offset % size - 1 + i) % size
  {
    var start := from + size - offset - 1;
    WrapsAway(start, i, size, wraps);
    assert offset == offset / size * size + offset % size;
    ModShifted(start + i, offset / size, size);
  }

  lemma NextPosition(size: nat, from: nat, i: nat)
    requires 0 < size
    ensures ((from + i) % size + 1) % size == (from + i + 1) % size
  {
    var x := from + i;
    assert x == x / size * size + x % size;
    ModShifted(x % size + 1, x / size, size);
  }

  /** The write position after one more byte. */
  function Advance(size: nat, pos: nat): nat {
    if pos + 1 < size then pos + 1 else 0
  }

  lemma AdvanceIsMod(size: nat, pos: nat)
    requires pos < size
    ensures (pos + 1) % size == Advance(size, pos)
  {
    if pos + 1 < size { ModOf(0, size, pos + 1); } else { ModOf(1, size, 0); }
  }

  /** The write position after n more bytes. */
  ghost function Position(size: nat, from: nat, n: nat): nat {
    if n == 0 then from else Advance(size, Position(size, from, n - 1))
  }

  lemma {:induction false} PositionIsMod(size: nat, from: nat, n: nat)
    requires from < size
    ensures Position(size, from, n) == (from + n) % size
  {
    if n > 0 {
      PositionIsMod(size, from, n - 1);
      AdvanceIsMod(size, (from + n - 1) % size);
      NextPosition(size, from, n - 1);
      assert from + (n - 1) + 1 == from + n;
    }
  }

  /** The slot d places behind pos on a ring. */
  function Slot(size: nat, pos: nat, d: nat): (s: nat)
    requires 1 <= d <= size && pos < size
    ensures s < size
  {
    if d <= pos then pos - d else pos + size - d
  }

  /** Storing a byte at pos and moving on shifts every other slot one place back. */
  lemma SlotMoves(size: nat, pos: nat, d: nat)
    requires pos < size && 1 <= d <= size
    ensures var next := Advance(size, pos);
            next < size && Slot(size, next, d) == if d == 1 then pos else Slot(size, pos, d - 1)
    ensures d > 1 ==> Slot(size, pos, d - 1) != pos
  {
  }

  class RingBuffer {
    const ringbuf: array<Byte>
    var ringbufPos: nat
    ghost var past: seq<Byte>

    /** Reading d places back around the ring gives the byte d places back in the output, for d up to the ring size. */
    ghost predicate Valid()
      reads this, ringbuf
    {
      && ringbufPos < ringbuf.Length
      && forall d: nat :: 1 <= d <= ringbuf.Length ==>
           ringbuf[Slot(ringbuf.Length, ringbufPos, d)] == Back(past, d)
    }

    constructor (size: nat)
      requires size > 0
      ensures Valid() && fresh(ringbuf) && ringbuf.Length == size && past == [] && ringbufPos == 0
    {
      ringbuf := new Byte[size](_ => SPACE);
      ringbufPos, past := 0, [];
    }

    method OutputByte(b: Byte)
      requires Valid()
      modifies this, ringbuf
      ensures Valid() && past == old(past) + [b]
      ensures ringbufPos == Advance(ringbuf.Length, old(ringbufPos))
    {
      ghost var size, at := ringbuf.Length, ringbufPos;
      AdvanceIsMod(size, at);
      ringbuf[ringbufPos] := b;
      ringbufPos := (ringbufPos + 1) % ringbuf.Length;
      past := past + [b];
      forall d: nat | 1 <= d <= size ensures ringbuf[Slot(size, ringbufPos, d)] == Back(past, d) {
        SlotMoves(size, at, d);
        assert d > 1 ==> old(ringbuf[Slot(size, at, d - 1)]) == Back(old(past), d - 1);
      }
    }

    /** The byte that the copy loop reads at its i-th turn, in the 32-bit arithmetic of its running index. */
    method ReadBack(start: nat, i: nat, ghost from: nat, ghost offset: nat, ghost wraps: nat) returns (b: Byte)
      requires Valid() && wraps * ringbuf.Length == WORD && from < ringbuf.Length
      requires start == (from + ringbuf.Length - offset - 1) % WORD && ringbufPos == Position(ringbuf.Length, from, i)
      ensures b == Back(past, offset % ringbuf.Length + 1)
    {
      ghost var size, back := ringbuf.Length, offset % ringbuf.Length;
      PositionIsMod(size, from, i);
      WrappedIndex(size, wraps, from, offset, i);
      RingIndex(size, from, back, i);
      assert ringbuf[Slot(size, ringbufPos, back + 1)] == Back(past, back + 1);
      b := ringbuf[(start + i) % WORD % ringbuf.Length];
    }

    /**
     The copy loop: every byte copied is the byte offset + 1 back in the whole output. The ring's size divides
     2^32, so an offset beyond the ring counts modulo that size.
     */
    method CopyFromHistory(offset: nat, count: nat, ghost wraps: nat) returns (out: seq<Byte>)
      requires Valid() && wraps * ringbuf.Length == WORD
      modifies this, ringbuf
      ensures Valid() && past == LzCopy(old(past), offset % ringbuf.Length, count)
      ensures past == old(past) + out && |out| == count
    {
      out := [];
      var start := (ringbufPos + ringbuf.Length - offset - 1) % WORD;
      ghost var from, back := ringbufPos, offset % ringbuf.Length;
      for i := 0 to count
        invariant Valid() && ringbufPos == Position(ringbuf.Length, from, i)
        invariant LzCopy(past, back, count - i) == LzCopy(old(past), back, count)
        invariant past == old(past) + out && |out| == i
      {
        var b := ReadBack(start, i, from, offset, wraps);
        out := out + [b];
        OutputByte(b);
      }
    }
  }
}
