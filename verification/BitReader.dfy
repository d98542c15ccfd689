/** The bit stream reader shared by all decoders: a 32-bit register over a chunked byte source. */
module BitReader {
  import opened Bits

  /** The 32 bits of the register when its first `bits` are valid and the rest are zero. */
  ghost predicate Register(word: seq<Bit>, bits: nat) {
    |word| == 32 && bits <= 32 && forall i :: bits <= i < 32 ==> word[i] == 0
  }

  /** The register after eight more bits have been put below its valid bits. */
  ghost function Put(word: seq<Bit>, bits: nat, byte: seq<Bit>): (w: seq<Bit>)
    requires Register(word, bits) && bits <= 24 && |byte| == 8
    ensures Register(w, bits + 8) && w[..bits + 8] == word[..bits] + byte
  {
    seq(32, i requires 0 <= i < 32 =>
      if i < bits then word[i] else if i < bits + 8 then byte[i - bits] else 0)
  }

  lemma ShiftedByte(byte: seq<Bit>, bits: nat)
    requires bits <= 24 && |byte| == 8
    ensures Shl(Value(byte), 24 - bits) == Value(Padded(byte, bits))
  {
    var full := Zeros(24) + byte;
    ZerosFirst(24, byte);
    ShlDrops(full, 24 - bits);
    ShiftPads(byte, bits, full);
  }

  lemma ShiftPads(byte: seq<Bit>, bits: nat, full: seq<Bit>)
    requires bits <= 24 && |byte| == 8 && full == Zeros(24) + byte
    ensures full[24 - bits..] + Zeros(24 - bits) == Padded(byte, bits)
  {
    assert full[24 - bits..] == Zeros(bits) + byte;
  }

  ghost function Padded(byte: seq<Bit>, bits: nat): seq<Bit>
    requires bits <= 24
  {
    (Zeros(bits) + byte) + Zeros(24 - bits)
  }

  lemma PutIsPadded(byte: seq<Bit>, bits: nat)
    requires bits <= 24 && |byte| == 8
    ensures Put(Zeros(32), bits, byte) == Padded(byte, bits)
  {
  }

  lemma PutByOr(word: seq<Bit>, bits: nat, byte: seq<Bit>)
    requires Register(word, bits) && bits <= 24 && |byte| == 8
    ensures Or(Value(word), Shl(Value(byte), 24 - bits)) == Value(Put(word, bits, byte))
  {
    var w := Put(Zeros(32), bits, byte);
    ShiftedByte(byte, bits);
    PutIsPadded(byte, bits);
    OrOfValues(word, w);
    assert OrBits(word, w) == Put(word, bits, byte);
  }

  /** The register after its first n bits have been shifted out. */
  ghost function Drop(word: seq<Bit>, bits: nat, n: nat): (w: seq<Bit>)
    requires Register(word, bits) && n <= bits
    ensures Register(w, bits - n) && w[..bits - n] == word[..bits][n..]
  {
    word[n..] + Zeros(n)
  }

  lemma DropFront(a: seq<Bit>, b: seq<Bit>, n: nat)
    requires n <= |a|
    ensures (a + b)[n..] == a[n..] + b
  {
  }

  /** The largest request for which the register can always take another byte. */
  const MAX_PEEK: nat := 25

  class BitStreamReader {
    // The bytes the input callback has not delivered yet.
    var input: seq<Byte>
    var bitBuffer: nat
    var bits: nat
    ghost var word: seq<Bit>

    ghost predicate Valid()
      reads this
    {
      Register(word, bits) && bitBuffer == Value(word)
    }

    /** All the bits still to be read. */
    ghost function Stream(): seq<Bit>
      requires Valid()
      reads this
    {
      word[..bits] + BytesToBits(input)
    }

    constructor (data: seq<Byte>)
      ensures Valid() && Stream() == BytesToBits(data)
    {
      input, bitBuffer, bits, word := data, 0, 0, Zeros(32);
      ZerosAreZero(32);
    }

    /** The input callback: any non-empty chunk of at most `max` bytes, or nothing at end of input. */
    method Callback(max: nat) returns (chunk: seq<Byte>)
      requires max >= 1
      modifies `input
      ensures |chunk| <= max && old(input) == chunk + input
      ensures chunk == [] <==> old(input) == []
    {
      if input == [] {
        return [];
      }
      var k :| 1 <= k <= max && k <= |input|;
      chunk, input := input[..k], input[k..];
    }

    method LoadByte(b: Byte)
      requires Valid() && bits <= 24
      modifies `bitBuffer, `bits, `word
      ensures Valid() && bits == old(bits) + 8 && word[..bits] == old(word[..bits]) + ByteBits(b)
    {
      ValueOfByte(b, 8);
      PutByOr(word, bits, ByteBits(b));
      bitBuffer, bits, word := Or(bitBuffer, Shl(b, 24 - bits)), bits + 8, Put(word, bits, ByteBits(b));
    }

    method LoadChunk(chunk: seq<Byte>)
      requires Valid() && bits + 8 * |chunk| <= 32
      modifies `bitBuffer, `bits, `word
      ensures Valid() && word[..bits] == old(word[..bits]) + BytesToBits(chunk)
    {
      ghost var before := word[..bits];
      for i := 0 to |chunk|
        invariant Valid() && bits == |before| + 8 * i
        invariant word[..bits] == before + BytesToBits(chunk[..i])
      {
        BytesSnoc(chunk, i);
        LoadByte(chunk[i]);
      }
      assert chunk[..|chunk|] == chunk;
    }

    /** One round of the refill loop: as many bytes as fit are requested, and every byte received is kept. */
    method Refill() returns (more: bool)
      requires Valid() && bits <= 24
      modifies this
      ensures Valid() && Stream() == old(Stream())
      ensures if more then bits > old(bits) else bits == old(bits) && input == []
    {
      var chunk := Callback((32 - bits) / 8);
      BytesConcat(chunk, input);
      LoadChunk(chunk);
      assert |word[..bits]| == bits;
      more := chunk != [];
    }

    /** Looks at the next n bits; fails exactly when fewer remain. No bit is lost either way. */
    method PeekBits(n: nat) returns (r: int)
      requires Valid() && n <= MAX_PEEK
      modifies this
      ensures Valid() && Stream() == old(Stream())
      ensures |Stream()| >= n ==> r == Value(Stream()[..n]) && bits >= n
      ensures |Stream()| < n ==> r == -1
    {
      if n == 0 {
        return 0;
      }
      while bits < n
        invariant Valid() && Stream() == old(Stream())
        decreases n - bits
      {
        var more := Refill();
        if !more {
          return -1;
        }
      }
      ShrDrops(word, 32 - n);
      r := Shr(bitBuffer, 32 - n);
      assert Stream()[..n] == word[..n];
    }

    /** Reads and removes the next n bits; fails exactly when fewer remain, and then removes none. */
    method ReadBits(n: nat) returns (r: int)
      requires Valid() && n <= MAX_PEEK
      modifies this
      ensures Valid()
      ensures |old(Stream())| >= n ==> r == Value(old(Stream())[..n]) && Stream() == old(Stream())[n..]
      ensures |old(Stream())| < n ==> r == -1 && Stream() == old(Stream())
    {
      r := PeekBits(n);
      if r >= 0 {
        DropFront(word[..bits], BytesToBits(input), n);
        Consume(n);
      }
    }

    method Consume(n: nat)
      requires Valid() && n <= bits
      modifies `bitBuffer, `bits, `word
      ensures Valid() && word[..bits] == old(word[..bits])[n..]
    {
      ShlDrops(word, n);
      bitBuffer, bits, word := Shl(bitBuffer, n), bits - n, Drop(word, bits, n);
    }

    method ReadBit() returns (r: int)
      requires Valid()
      modifies this
      ensures Valid()
      ensures old(Stream()) != [] ==> r == old(Stream())[0] && Stream() == old(Stream())[1..]
      ensures old(Stream()) == [] ==> r == -1 && Stream() == []
    {
      ghost var s := Stream();
      r := ReadBits(1);
      if s != [] {
        assert s[..1] == [s[0]];
        assert Value([s[0]]) == s[0];
      }
    }
  }
}
