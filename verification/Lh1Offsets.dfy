/**
 The fixed prefix code of -lh1- copy offsets: 64 codes of 3 to 8 bits, found through a table
 indexed by the next eight bits, each followed by six plain bits.
 */
module Lh1Offsets {
  import opened Bits

  const NUM_OFFSETS: nat := 64
  const MIN_OFFSET_LENGTH: nat := 3

  /** How many codes have 3, 4, ... 8 bits. */
  const OFFSET_FDIST: seq<nat> := [1, 3, 8, 12, 24, 16]

  /** The length of the o-th code. */
  function CodeLength(o: nat): nat {
    if o < 1 then 3 else if o < 4 then 4 else if o < 12 then 5 else if o < 24 then 6 else if o < 48 then 7 else 8
  }

  /** How many bytes start with the o-th code. */
  function Share(o: nat): nat {
    if o < 1 then 32 else if o < 4 then 16 else if o < 12 then 8 else if o < 24 then 4 else if o < 48 then 2 else 1
  }

  /** The first byte that starts with the o-th code; the shares are laid out one after the other. */
  function Start(o: nat): (v: nat)
    requires o <= NUM_OFFSETS
    ensures v <= 256
  {
    if o < 1 then 0 else if o < 4 then 32 + 16 * (o - 1) else if o < 12 then 80 + 8 * (o - 4)
    else if o < 24 then 144 + 4 * (o - 12) else if o < 48 then 192 + 2 * (o - 24) else 240 + (o - 48)
  }

  /** The codeword of the o-th code. */
  function OffsetCode(o: nat): seq<Bit>
    requires o < NUM_OFFSETS
  {
    ToBits(Start(o) / Share(o), CodeLength(o))
  }

  /** The code that byte v starts with. */
  function Lookup(v: Byte): (o: nat)
    ensures o < NUM_OFFSETS && Start(o) <= v < Start(o + 1)
  {
    if v < 32 then 0 else if v < 80 then 1 + (v - 32) / 16 else if v < 144 then 4 + (v - 80) / 8
    else if v < 192 then 12 + (v - 144) / 4 else if v < 240 then 24 + (v - 192) / 2 else 48 + (v - 240)
  }

  /** The shares partition the bytes, so the code found is unique. */
  lemma LookupIsUnique(v: Byte, o: nat)
    requires o < NUM_OFFSETS && Start(o) <= v < Start(o + 1)
    ensures Lookup(v) == o
  {
  }

  lemma ShiftedToCode(v: nat, o: nat)
    ensures Shr(v, 8 - CodeLength(o)) == v / Share(o)
  {
    ShrDivides(v, 8 - CodeLength(o));
    assert Pow2(0) == 1 && Pow2(1) == 2 && Pow2(2) == 4;
    SmallPowers();
  }

  lemma CodeValue(o: nat)
    requires o < NUM_OFFSETS
    ensures Value(OffsetCode(o)) == Start(o) / Share(o)
  {
    SmallPowers();
  }

  lemma ShareStartsAtCode(v: nat, o: nat)
    requires o < NUM_OFFSETS && v / Share(o) == Start(o) / Share(o)
    ensures Start(o) <= v < Start(o + 1)
  {
  }

  /** Eight bits that begin with a codeword look up that code. */
  lemma CodeIsFound(o: nat, eight: seq<Bit>)
    requires o < NUM_OFFSETS && |eight| == 8 && OffsetCode(o) <= eight
    ensures Value(eight) < 256 && Lookup(Value(eight)) == o
  {
    var v := Value(eight);
    ShrDrops(eight, 8 - CodeLength(o));
    assert eight[..CodeLength(o)] == OffsetCode(o);
    CodeValue(o);
    ShiftedToCode(v, o);
    ShareStartsAtCode(v, o);
    LookupIsUnique(v, o);
  }

  lemma SmallPowers()
    ensures Pow2(3) == 8 && Pow2(4) == 16 && Pow2(5) == 32 && Pow2(6) == 64 && Pow2(7) == 128 && Pow2(8) == 256
  {
  }

  // ----- Offsets -----

  datatype OffsetRead = NoOffset | Offset(value: nat, rest: seq<Bit>)

  function ReadOffset(bits: seq<Bit>): OffsetRead {
    if |bits| < 8 then NoOffset
    else
      assert Pow2(8) == 256;
      var o := Lookup(Value(bits[..8]));
      var n := CodeLength(o);
      if |bits| < n + 6 then NoOffset
      else Offset(o * 64 + Value(bits[n..n + 6]), bits[n + 6..])
  }

  function EncodeOffset(d: nat): seq<Bit>
    requires d < 4096
  {
    OffsetCode(d / 64) + ToBits(d % 64, 6)
  }

  /** Every offset is read back exactly, even as the last thing in the stream. */
  /** How many bits an offset takes. */
  lemma OffsetBits(d: nat)
    requires d < 4096
    ensures |EncodeOffset(d)| == if d < 64 then 9 else if d < 256 then 10 else if d < 768 then 11
                                 else if d < 1536 then 12 else if d < 3072 then 13 else 14
  {
  }

  lemma ReadUndoesEncodeOffset(d: nat, tail: seq<Bit>)
    requires d < 4096
    ensures ReadOffset(EncodeOffset(d) + tail) == Offset(d, tail)
  {
    var o, n := d / 64, CodeLength(d / 64);
    var bits := EncodeOffset(d) + tail;
    assert |OffsetCode(o)| == n;
    assert OffsetCode(o) <= bits[..8];
    CodeIsFound(o, bits[..8]);
    assert bits[n..n + 6] == ToBits(d % 64, 6);
    SmallPowers();
    assert bits[n + 6..] == tail;
  }

  // ----- The tables -----

  /** How many codes are shorter than i + 3 bits. */
  function Shorter(i: nat): nat {
    if i == 0 then 0 else if i == 1 then 1 else if i == 2 then 4 else if i == 3 then 12
    else if i == 4 then 24 else if i == 5 then 48 else 64
  }

  lemma Layout(i: nat, j: nat)
    requires i < 6 && j < OFFSET_FDIST[i]
    ensures var o := Shorter(i) + j;
      && o < NUM_OFFSETS && CodeLength(o) == i + MIN_OFFSET_LENGTH && Share(o) == Pow2(8 - CodeLength(o))
      && Start(o) % Share(o) == 0 && Start(o) + Share(o) == Start(o + 1) && Start(o) < 256
    ensures Shorter(i) + OFFSET_FDIST[i] == Shorter(i + 1)
  {
    assert Pow2(5) == 32 && Pow2(4) == 16 && Pow2(3) == 8 && Pow2(2) == 4 && Pow2(1) == 2 && Pow2(0) == 1;
  }

  lemma OrHalves(x: nat, y: nat)
    ensures Or(2 * x, y) == 2 * Or(x, y / 2) + y % 2
  {
    assert (2 * x) / 2 == x && (2 * x) % 2 == 0;
  }

  lemma {:induction false} OrMultiple(q: nat, y: nat, k: nat)
    requires y < Pow2(k)
    ensures Or(q * Pow2(k), y) == q * Pow2(k) + y
    decreases k
  {
    if k > 0 {
      OrMultiple(q, y / 2, k - 1);
      Twice(q, Pow2(k - 1));
      OrHalves(q * Pow2(k - 1), y);
    } else {
      OrZero(q);
    }
  }

  /** Or-ing a number into the zero bits of an aligned one adds it. */
  lemma OrAligned(x: nat, y: nat, k: nat)
    requires x % Pow2(k) == 0 && y < Pow2(k)
    ensures Or(x, y) == x + y
  {
    var p := Pow2(k);
    assert x == x / p * p;
    OrMultiple(x / p, y, k);
  }

  lemma {:induction false} OrZero(x: nat)
    ensures Or(x, 0) == x
  {
    if x > 0 { OrZero(x / 2); }
  }

  lemma NextStart(o: nat)
    requires o < NUM_OFFSETS && Start(o) + Share(o) == Start(o + 1)
    ensures Start(o) < 256 && (Start(o) % 256 + Share(o)) % 256 == Start(o + 1) % 256
  {
  }

  lemma RangeEntry(code: nat, i: nat, offset: nat)
    requires offset < NUM_OFFSETS && code == Start(offset) && i < Share(offset) && code + Share(offset) == Start(offset + 1)
    requires Share(offset) == Pow2(8 - CodeLength(offset)) && code % Share(offset) == 0
    ensures Or(code, i) == code + i < 256 && Lookup(code + i) == offset
  {
    OrAligned(code, i, 8 - CodeLength(offset));
    LookupIsUnique(code + i, offset);
  }

  class OffsetTable {
    const offsetLookup: array<nat>
    const offsetLengths: array<nat>

    ghost predicate Sized() {
      offsetLookup != offsetLengths && offsetLookup.Length == 256 && offsetLengths.Length == NUM_OFFSETS
    }

    /** The first n codes are in place. */
    ghost predicate Filled(n: nat)
      requires Sized() && n <= NUM_OFFSETS
      reads offsetLookup, offsetLengths
    {
      && (forall v: Byte :: v < Start(n) ==> offsetLookup[v] == Lookup(v))
      && (forall o :: 0 <= o < n ==> offsetLengths[o] == CodeLength(o))
    }

    ghost predicate Valid()
      reads offsetLookup, offsetLengths
    {
      Sized() && Filled(NUM_OFFSETS)
    }

    /** Sets every entry whose high bits are `code` and whose low bits lie within `mask`. */
    method FillOffsetRange(code: nat, mask: nat, offset: nat)
      requires Sized() && offset < NUM_OFFSETS && Filled(offset)
      requires code == Start(offset) && mask == Share(offset) - 1 && code + mask + 1 == Start(offset + 1)
      requires Share(offset) == Pow2(8 - CodeLength(offset)) && code % Share(offset) == 0
      modifies offsetLookup
      ensures Filled(offset)
      ensures forall v: Byte :: v < Start(offset + 1) ==> offsetLookup[v] == Lookup(v)
    {
      var i := 0;
      while i <= mask
        invariant i <= mask + 1 && Filled(offset)
        invariant forall v: Byte :: v < code + i ==> offsetLookup[v] == Lookup(v)
      {
        RangeEntry(code, i, offset);
        offsetLookup[Or(code, i)] := offset;
        i := i + 1;
      }
    }

    constructor ()
      ensures Valid() && fresh(offsetLookup) && fresh(offsetLengths)
    {
      offsetLookup := new nat[256](_ => 0);
      offsetLengths := new nat[NUM_OFFSETS](_ => 0);
      new;
      var code, offset := 0, 0;
      for i := 0 to 6
        invariant offset == Shorter(i) <= NUM_OFFSETS && code == Start(offset) % 256 && Filled(offset)
      {
        code, offset := FillLength(i, code, offset);
      }
    }

    /** The codes of one length. */
    method FillLength(i: nat, first: nat, shorter: nat) returns (code: nat, offset: nat)
      requires Sized() && i < 6 && shorter == Shorter(i) <= NUM_OFFSETS && first == Start(shorter) % 256 && Filled(shorter)
      modifies offsetLookup, offsetLengths
      ensures offset == Shorter(i + 1) <= NUM_OFFSETS
      ensures code == Start(offset) % 256 && Filled(offset)
    {
      code, offset := first, shorter;
      var len := i + MIN_OFFSET_LENGTH;
      var iterbit := Pow2(8 - len);
      for j := 0 to OFFSET_FDIST[i]
        invariant offset == shorter + j <= NUM_OFFSETS && code == Start(offset) % 256 && Filled(offset)
      {
        Layout(i, j);
        FillCode(code, iterbit, len, offset);
        NextStart(offset);
        code := (code + iterbit) % 256;
        offset := offset + 1;
      }
      Layout(i, 0);
    }

    method FillCode(code: nat, iterbit: nat, len: nat, offset: nat)
      requires Sized() && offset < NUM_OFFSETS && Filled(offset) && code == Start(offset) && iterbit == Share(offset)
      requires code + iterbit == Start(offset + 1) && len == CodeLength(offset)
      requires iterbit == Pow2(8 - len) && code % iterbit == 0
      modifies offsetLookup, offsetLengths
      ensures Filled(offset + 1)
    {
      FillOffsetRange(code, iterbit - 1, offset);
      offsetLengths[offset] := len;
    }
  }
}
