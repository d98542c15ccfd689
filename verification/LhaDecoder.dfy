/**
 The decoder front end: slices whatever chunks a codec returns into the caller's buffers, cuts the
 stream at its stated length, keeps position and CRC, and reports progress in blocks.
 */
module LhaDecoder {
  import opened Crc16
  import opened Bits

  type Bytes = seq<bv8>

  /** Everything a codec produces before it first returns nothing. */
  function Output(chunks: seq<Bytes>): Bytes {
    if chunks == [] || chunks[0] == [] then [] else chunks[0] + Output(chunks[1..])
  }

  function Min(a: nat, b: nat): nat { if a < b then a else b }

  /** The number of blocks, rounded up. */
  function Blocks(n: nat, size: nat): nat
    requires size > 0
  {
    (n + size - 1) / size
  }

  lemma BlocksGrow(a: nat, b: nat, size: nat)
    requires a <= b && size > 0
    ensures Blocks(a, size) <= Blocks(b, size)
  {
    DivGrows(a + size - 1, b + size - 1, size);
  }

  lemma DivGrows(x: nat, y: nat, m: nat)
    requires x <= y && m > 0
    ensures x / m <= y / m
  {
    var q, r := x / m, y / m;
    assert x == q * m + x % m && y == r * m + y % m;
    Multiples(q - r, m);
    assert (q - r) * m == q * m - r * m;
  }

  const BLOCK_GOAL: nat := 131072

  /** The block size after doubling while the stream has more than 128K of them. */
  function ScaledBlockSize(length: nat, size: nat): (r: nat)
    requires size >= 1
    ensures r >= size && length / BLOCK_GOAL <= r
    decreases length - size
  {
    if length / BLOCK_GOAL > size then ScaledBlockSize(length, size * 2) else size
  }

  /** The doubling loop in 32 bits, where the size it leads to can be represented. */
  method ScaleBlockSize(length: nat, size: nat) returns (r: nat)
    requires size >= 1 && ScaledBlockSize(length, size) < UINT_LIMIT
    ensures r == ScaledBlockSize(length, size) && 1 <= r < UINT_LIMIT && length / BLOCK_GOAL <= r
  {
    r := size;
    while length / BLOCK_GOAL > r
      invariant 1 <= r < UINT_LIMIT && ScaledBlockSize(length, r) == ScaledBlockSize(length, size)
      decreases length - r
    {
      r := (r * 2) % UINT_LIMIT;
    }
  }

  // ----- Where the doubling ends -----

  /** The 32-bit block size after k doublings. */
  function WrappedSize(size: nat, k: nat): nat {
    if k == 0 then size else (WrappedSize(size, k - 1) * 2) % UINT_LIMIT
  }

  lemma {:induction false} WrappedPower(j: nat, k: nat)
    requires j < 32
    ensures WrappedSize(Pow2(j), k) == if j + k < 32 then Pow2(j + k) else 0
  {
    WordIsPow2();
    if k > 0 {
      WrappedPower(j, k - 1);
      if j + k < 32 { Pow2Grows(j + k, 31); }
    }
  }

  lemma {:induction false} ScaledPower(length: nat, j: nat) returns (m: nat)
    ensures m >= j && ScaledBlockSize(length, Pow2(j)) == Pow2(m)
    ensures m > j ==> Pow2(m - 1) < length / BLOCK_GOAL
    decreases length - Pow2(j)
  {
    m := j;
    if length / BLOCK_GOAL > Pow2(j) {
      m := ScaledPower(length, j + 1);
    }
  }

  /** The size doubled without end fits 32 bits just as long as 2^31 is enough. */
  lemma ScaledFits(length: nat, j: nat)
    requires j < 32
    ensures ScaledBlockSize(length, Pow2(j)) < UINT_LIMIT <==> length / BLOCK_GOAL <= Pow2(31)
  {
    WordIsPow2();
    var m := ScaledPower(length, j);
    if m <= 31 {
      Pow2Grows(m, 31);
    } else {
      Pow2Grows(31, m - 1);
    }
  }

  /**
   The codecs' block sizes are powers of two, and for these the loop of the original ends exactly where the size
   it leads to fits 32 bits; for longer streams the size becomes zero and stays so.
   */
  lemma ScalingEnds(length: nat, j: nat)
    requires j < 32
    ensures (exists k: nat :: WrappedSize(Pow2(j), k) >= length / BLOCK_GOAL)
            <==> ScaledBlockSize(length, Pow2(j)) < UINT_LIMIT
  {
    ScaledFits(length, j);
    WrappedPower(j, 31 - j);
    forall k: nat ensures WrappedSize(Pow2(j), k) <= Pow2(31) {
      WrappedPower(j, k);
      if j + k < 32 { Pow2Grows(j + k, 31); }
    }
  }

  lemma BlocksAreTight(n: nat, size: nat)
    requires size > 0
    ensures n <= Blocks(n, size) * size < n + size
  {
    var x := n + size - 1;
    assert x == x / size * size + x % size;
  }

  /** Where doubling stops, the number of blocks is at most 128K, plus 128K divided by the block size, rounded up. */
  lemma BlockCountIsBounded(length: nat, size: nat)
    requires size >= 1 && length / BLOCK_GOAL <= size
    ensures Blocks(length, size) <= BLOCK_GOAL + Blocks(BLOCK_GOAL - 1, size) < UINT_LIMIT - 1
  {
    var extra := Blocks(BLOCK_GOAL - 1, size);
    BlocksAreTight(length, size);
    BlocksAreTight(BLOCK_GOAL - 1, size);
    var k := Blocks(length, size) - BLOCK_GOAL - extra;
    assert k * size == Blocks(length, size) * size - BLOCK_GOAL * size - extra * size;
    Multiples(k, size);
    Multiples(extra - BLOCK_GOAL, size);
    assert (extra - BLOCK_GOAL) * size == extra * size - BLOCK_GOAL * size;
    assert BLOCK_GOAL * size >= BLOCK_GOAL;
  }

  /** q is the given size, doubled some number of times. */
  ghost predicate Doubled(q: nat, size: nat) {
    exists k: nat :: q == size * Pow2(k)
  }

  /** Doubling stops at the number sought only if it can be reached by doubling. */
  lemma {:induction false} ScalingReaches(length: nat, size: nat)
    requires size >= 1
    ensures ScaledBlockSize(length, size) == length / BLOCK_GOAL <==> Doubled(length / BLOCK_GOAL, size)
    decreases length - size
  {
    var q := length / BLOCK_GOAL;
    if q > size {
      ScalingReaches(length, size * 2);
      DoubledOnce(q, size);
    } else if q == size {
      assert size == size * Pow2(0);
    } else {
      forall k: nat ensures q != size * Pow2(k) {
        assert (Pow2(k) - 1) * size == Pow2(k) * size - size;
        Multiples(Pow2(k) - 1, size);
      }
    }
  }

  lemma DoubledOnce(q: nat, size: nat)
    requires q > size >= 1
    ensures Doubled(q, size) <==> Doubled(q, size * 2)
  {
    if Doubled(q, size) {
      var k: nat :| q == size * Pow2(k);
      if k == 0 { assert false; }
      TwiceTimes(size, Pow2(k - 1));
    }
    if Doubled(q, size * 2) {
      var k: nat :| q == (size * 2) * Pow2(k);
      TwiceTimes(size, Pow2(k));
      assert Pow2(k + 1) == 2 * Pow2(k);
    }
  }

  lemma TwiceTimes(size: nat, p: nat)
    ensures (size * 2) * p == size * (2 * p)
  {
  }

  /** Whole blocks to the goal and some bytes beyond. */
  lemma BlocksBeyond(goal: nat, size: nat, rest: nat)
    requires size >= 1
    ensures Blocks(goal * size + rest, size) == goal + Blocks(rest, size)
  {
    var x := rest + size - 1;
    assert x == x / size * size + x % size;
    assert goal * size + x == (goal + x / size) * size + x % size;
    DivOf(goal + x / size, size, x % size);
  }

  lemma BlocksWithin(n: nat, goal: nat, size: nat)
    requires size >= 1 && n <= goal * size
    ensures Blocks(n, size) <= goal
  {
    BlocksGrow(n, goal * size, size);
    BlocksBeyond(goal, size, 0);
    NoBlocks(size);
  }

  lemma NoBlocks(size: nat)
    requires size >= 1
    ensures Blocks(0, size) == 0
  {
    DivOf(0, size, size - 1);
  }

  lemma RestBelow(length: nat, goal: nat, size: nat)
    requires goal > 0 && length / goal < size
    ensures length <= goal * size
  {
    var q := length / goal;
    assert length == q * goal + length % goal;
    assert (size - q) * goal == size * goal - q * goal;
    Multiples(size - q, goal);
  }

  /** With blocks of at least the quotient's size the goal is missed only by a remainder. */
  lemma GoalMissed(length: nat, goal: nat, size: nat)
    requires goal > 0 && size >= 1 && length / goal <= size
    ensures var missed := length / goal == size && length % goal > 0;
            && (Blocks(length, size) <= goal <==> !missed)
            && (missed ==> Blocks(length, size) == goal + Blocks(length % goal, size))
  {
    if length / goal == size {
      var r := length % goal;
      assert length == goal * size + r;
      BlocksBeyond(goal, size, r);
      if r == 0 { BlocksWithin(r, 0, size); } else { BlocksAreTight(r, size); }
    } else {
      RestBelow(length, goal, size);
      BlocksWithin(length, goal, size);
    }
  }

  /**
   When the doubling meets the limit of 128K blocks: unless the number of whole 128 KiB in the stream is the
   codec's block size doubled some number of times and bytes are left over. Then it is missed by the
   blocks these bytes take.
   */
  lemma BlockGoalIsMet(length: nat, size: nat)
    requires size >= 1
    ensures var scaled := ScaledBlockSize(length, size);
            var missed := Doubled(length / BLOCK_GOAL, size) && length % BLOCK_GOAL > 0;
            && (Blocks(length, scaled) <= BLOCK_GOAL <==> !missed)
            && (missed ==> Blocks(length, scaled) == BLOCK_GOAL + Blocks(length % BLOCK_GOAL, scaled))
  {
    ScalingReaches(length, size);
    GoalMissed(length, BLOCK_GOAL, ScaledBlockSize(length, size));
  }

  /** One byte more than 128K blocks is reported as one block more than 128K. */
  lemma BlockGoalCanBeMissed()
    ensures ScaledBlockSize(BLOCK_GOAL * 4096 + 1, 4096) == 4096
    ensures Blocks(BLOCK_GOAL * 4096 + 1, 4096) == BLOCK_GOAL + 1
  {
  }

  function Sum(sizes: seq<nat>): nat {
    if sizes == [] then 0 else Sum(sizes[..|sizes| - 1]) + sizes[|sizes| - 1]
  }

  function UpTo(n: nat): seq<nat> { seq(n + 1, i requires 0 <= i <= n => i) }

  const UINT_LIMIT: nat := 0x1_0000_0000

  class Decoder {
    // What the codec's read function will return, call by call; nothing once the list is used up.
    var chunks: seq<Bytes>
    var outbuf: Bytes
    var outbufPos: nat
    var streamPos: nat
    const streamLength: nat
    var decoderFailed: bool
    var crc: bv16
    const codecBlockSize: nat
    var monitored: bool
    var blockSize: nat
    var lastBlock: nat
    var totalBlocks: nat
    // The codec's whole output, the part returned to callers, and the callbacks made.
    ghost const full: Bytes
    ghost var returned: Bytes
    ghost var announced: seq<nat>

    /** What has been decoded but not returned, and what is still to be decoded. */
    ghost function Rest(): Bytes
      reads this
      requires outbufPos <= |outbuf|
    {
      outbuf[outbufPos..] + if decoderFailed then [] else Output(chunks)
    }

    ghost predicate Buffered()
      reads this
    {
      outbufPos <= |outbuf| && (decoderFailed ==> outbuf == [])
    }

    ghost predicate Flowing()
      reads this
    {
      && Buffered() && returned + Rest() == full
      && streamPos == |returned| <= streamLength && crc == Crc(0, returned)
    }

    ghost predicate Reporting()
      reads this
    {
      monitored ==>
        && codecBlockSize >= 1 && blockSize == ScaledBlockSize(streamLength, codecBlockSize)
        && blockSize > 0 && Blocks(streamLength, blockSize) < UINT_LIMIT - 1
        && lastBlock == Blocks(streamPos, blockSize) && announced == UpTo(lastBlock)
    }

    ghost predicate Valid()
      reads this
    {
      Flowing() && Reporting() && (!monitored ==> announced == [] && lastBlock == UINT_LIMIT - 1)
    }

    constructor (chunks: seq<Bytes>, streamLength: nat, codecBlockSize: nat)
      ensures Valid() && full == Output(chunks) && this.streamLength == streamLength && this.codecBlockSize == codecBlockSize
      ensures returned == [] && !monitored
    {
      this.chunks, this.streamLength, this.codecBlockSize := chunks, streamLength, codecBlockSize;
      outbuf, outbufPos, streamPos, decoderFailed, crc := [], 0, 0, false, 0;
      monitored, blockSize, lastBlock, totalBlocks := false, 0, UINT_LIMIT - 1, 0;
      full, returned, announced := Output(chunks), [], [];
    }

    /** One call of the codec's read function. */
    method CodecRead() returns (chunk: Bytes)
      modifies `chunks
      ensures Output(old(chunks)) == if chunk == [] then [] else chunk + Output(chunks)
    {
      if chunks == [] {
        return [];
      }
      chunk, chunks := chunks[0], chunks[1..];
    }

    /** Fetches another chunk once the last one is used up; an empty one ends the stream for good. */
    method Refill()
      requires Buffered() && !decoderFailed
      modifies `chunks, `outbuf, `outbufPos, `decoderFailed
      ensures Buffered() && Rest() == old(Rest())
      ensures decoderFailed || outbufPos < |outbuf|
    {
      if outbufPos >= |outbuf| {
        var chunk := CodecRead();
        outbuf, outbufPos := chunk, 0;
      }
      if |outbuf| == 0 {
        decoderFailed := true;
      }
    }

    /** Moves what the buffer holds to the caller, up to `want` bytes. */
    method Drain(want: nat) returns (part: Bytes)
      requires Buffered()
      modifies `outbufPos
      ensures Buffered() && part + Rest() == old(Rest())
      ensures |part| == Min(want, |outbuf| - old(outbufPos))
    {
      var bytes := |outbuf| - outbufPos;
      if want < bytes {
        bytes := want;
      }
      part := outbuf[outbufPos..outbufPos + bytes];
      outbufPos := outbufPos + bytes;
    }

    /** The loop that fills the caller's buffer. */
    method Fill(want: nat) returns (buf: Bytes)
      requires Buffered()
      modifies `chunks, `outbuf, `outbufPos, `decoderFailed
      ensures Buffered() && buf + Rest() == old(Rest())
      ensures |buf| == Min(want, |old(Rest())|)
    {
      buf := [];
      ghost var all := Rest();
      while |buf| < want
        invariant Buffered() && buf + Rest() == all && |buf| <= want
        invariant buf != [] ==> outbufPos < |outbuf| && !decoderFailed
        decreases want - |buf|, if outbufPos < |outbuf| then 0 else 1
      {
        var part := Drain(want - |buf|);
        Associate(buf, part, Rest());
        buf := buf + part;
        if decoderFailed {
          break;
        }
        Refill();
        if decoderFailed {
          break;
        }
      }
    }

    /** Fills the caller's buffer, then updates CRC and position for exactly the bytes returned. */
    method Deliver(want: nat) returns (buf: Bytes)
      requires Flowing() && streamPos + want <= streamLength
      modifies `chunks, `outbuf, `outbufPos, `decoderFailed, `crc, `streamPos, `returned
      ensures Flowing() && returned == old(returned) + buf && buf + Rest() == old(Rest())
      ensures |buf| == Min(want, |old(Rest())|)
    {
      buf := Fill(want);
      Associate(returned, buf, Rest());
      CrcOfPieces(0, returned, buf);
      crc := CrcBuf(crc, buf);
      streamPos := streamPos + |buf|;
      returned := returned + buf;
    }

    /** Returns the next bytes of the codec's output, cut at the stated stream length. */
    method Read(bufLen: nat) returns (buf: Bytes)
      requires Valid()
      modifies this
      ensures Valid() && monitored == old(monitored) && blockSize == old(blockSize)
      ensures returned == old(returned) + buf && buf + Rest() == old(Rest())
      ensures |buf| == Min(bufLen, Min(streamLength - old(streamPos), |old(Rest())|))
    {
      var want := if streamPos + bufLen > streamLength then streamLength - streamPos else bufLen;
      buf := Deliver(want);
      if monitored {
        BlocksGrow(old(streamPos), streamPos, blockSize);
        BlocksGrow(streamPos, streamLength, blockSize);
        CheckProgressCallback();
      }
    }

    /** Any sequence of reads returns the codec's output up to the bytes asked for, the stream length and the output's end. */
    method ReadSequence(sizes: seq<nat>)
      requires Valid() && returned == []
      modifies this
      ensures Valid()
      ensures returned == full[..Min(Sum(sizes), Min(streamLength, |full|))]
      ensures crc == Crc(0, returned) && streamPos == |returned|
    {
      for i := 0 to |sizes|
        invariant Valid()
        invariant |returned| == Min(Sum(sizes[..i]), Min(streamLength, |full|))
      {
        assert sizes[..i + 1][..i] == sizes[..i];
        assert |full| == |returned| + |Rest()|;
        var buf := Read(sizes[i]);
      }
      assert sizes[..|sizes|] == sizes;
    }

    /**
     Starts progress reports: the block size is scaled up for huge streams, and every block reached so far is
     announced. A second call only replaces the callback.
     */
    method Monitor()
      requires Valid() && codecBlockSize >= 1 && ScaledBlockSize(streamLength, codecBlockSize) < UINT_LIMIT
      modifies `monitored, `blockSize, `totalBlocks, `lastBlock, `announced
      ensures Valid() && monitored && blockSize == ScaledBlockSize(streamLength, codecBlockSize)
      ensures totalBlocks == Blocks(streamLength, blockSize) && old(announced) <= announced
    {
      monitored := true;
      blockSize := ScaleBlockSize(streamLength, codecBlockSize);
      totalBlocks := Blocks(streamLength, blockSize);
      BlockCountIsBounded(streamLength, blockSize);
      BlocksGrow(streamPos, streamLength, blockSize);
      CheckProgressCallback();
    }

    /** Announces every block reached since the last call, each once and in order. */
    method CheckProgressCallback()
      requires monitored && blockSize > 0 && Blocks(streamPos, blockSize) < UINT_LIMIT - 1
      requires if announced == [] then lastBlock == UINT_LIMIT - 1
               else announced == UpTo(lastBlock) && lastBlock <= Blocks(streamPos, blockSize)
      modifies `lastBlock, `announced
      ensures lastBlock == Blocks(streamPos, blockSize) && announced == UpTo(lastBlock)
    {
      var block := Blocks(streamPos, blockSize);
      while lastBlock != block
        invariant if announced == [] then lastBlock == UINT_LIMIT - 1
                  else announced == UpTo(lastBlock) && lastBlock <= block
        decreases if announced == [] then block + 1 else block - lastBlock
      {
        lastBlock := (lastBlock + 1) % UINT_LIMIT;
        announced := announced + [lastBlock];
      }
    }
  }
}
