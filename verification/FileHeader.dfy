/**
 Reading and decoding the extended headers in place, in the raw data of the file header.
 */
module FileHeader {
  import opened Bits
  import opened Options
  import opened ExtHeaders
  import opened InputStream

  const LEVEL_3_MAX_HEADER_LEN := 1024 * 1024

  /** The raw data after one block was decoded: a header CRC is cleared once it has been read. */
  ghost function ClearOne(raw: seq<Byte>, b: Block): (r: seq<Byte>)
    requires b.at + b.size <= |raw|
    ensures |r| == |raw|
  {
    seq(|raw|, i requires 0 <= i < |raw| => if CrcOf(raw, b, i) then 0 else raw[i])
  }

  lemma ClearedSnoc(raw: seq<Byte>, before: seq<Block>, b: Block)
    requires Inside(raw, before + [b]) && Inside(raw, before) && b.at + b.size <= |raw|
    requires b.size >= 1 && forall k :: 0 <= k < |before| ==> before[k].at + before[k].size <= b.at
    ensures Cleared(raw, before)[b.at..] == raw[b.at..]
    ensures Cleared(raw, before + [b]) == ClearOne(Cleared(raw, before), b)
  {
    var all := before + [b];
    assert all[|before|] == b;
    forall i | b.at <= i < |raw| ensures !InCrc(raw, before, i) { }
    assert Cleared(raw, before)[b.at] == raw[b.at];
    forall i | 0 <= i < |raw| ensures InCrc(raw, all, i) == (InCrc(raw, before, i) || CrcOf(raw, b, i)) {
      if InCrc(raw, before, i) {
        var k :| 0 <= k < |before| && CrcOf(raw, before[k], i);
        assert all[k] == before[k];
      }
      if InCrc(raw, all, i) {
        var k :| 0 <= k < |all| && CrcOf(raw, all[k], i);
        assert k < |before| ==> all[k] == before[k];
      }
    }
  }

  /** Decoding has come from `start` to `offset` by way of the blocks `before`. */
  ghost predicate Reached(raw: seq<Byte>, start: nat, offset: nat, before: seq<Block>, width: nat) {
    && start + width <= |raw| && offset + width <= |raw| && Inside(raw, before)
    && (forall k :: 0 <= k < |before| ==> before[k].size >= 1 && before[k].at + before[k].size <= offset)
    && (Walk(raw, start, width).Some? == Walk(raw, offset, width).Some?)
    && (Walk(raw, offset, width).Some? ==> Walk(raw, start, width).value == before + Walk(raw, offset, width).value)
  }

  lemma ReachedEnd(raw: seq<Byte>, start: nat, offset: nat, before: seq<Block>, width: nat)
    requires Reached(raw, start, offset, before, width) && FieldAt(raw, offset, width) == 0
    ensures Walk(raw, start, width) == Some(before)
  {
    assert before + [] == before;
  }

  lemma ReachedBad(raw: seq<Byte>, start: nat, offset: nat, before: seq<Block>, width: nat)
    requires Reached(raw, start, offset, before, width)
    requires var n := FieldAt(raw, offset, width); 0 < n < width + 1 || n > |raw| - offset - width
    ensures Walk(raw, start, width) == None
  {
  }

  lemma ReachedNext(raw: seq<Byte>, start: nat, offset: nat, before: seq<Block>, width: nat)
    requires Reached(raw, start, offset, before, width)
    requires var n := FieldAt(raw, offset, width); width + 1 <= n <= |raw| - offset - width
    ensures var n := FieldAt(raw, offset, width);
            Reached(raw, start, offset + n, before + [Block(offset + width, n - width)], width)
  {
    var n := FieldAt(raw, offset, width);
    var b := Block(offset + width, n - width);
    if Walk(raw, offset, width).Some? {
      var rest := Walk(raw, offset + n, width).value;
      assert before + ([b] + rest) == (before + [b]) + rest;
    }
  }

  lemma AbsorbSnoc(m: Meta, raw: seq<Byte>, before: seq<Block>, b: Block)
    requires Inside(raw, before) && b.at + b.size <= |raw| && b.size >= 1
    requires forall k :: 0 <= k < |before| ==> before[k].size >= 1
    ensures Inside(raw, before + [b])
    ensures forall k :: 0 <= k <= |before| ==> (before + [b])[k].size >= 1
    ensures AbsorbAll(m, Payloads(raw, before + [b])) == Absorb(AbsorbAll(m, Payloads(raw, before)), Payload(raw, b))
  {
    var all := Payloads(raw, before + [b]);
    assert all[..|before|] == Payloads(raw, before);
  }

  class Header {
    const level: nat
    const stream: Stream
    var rawData: seq<Byte>
    var meta: Meta

    constructor (level: nat, rawData: seq<Byte>, meta: Meta, stream: Stream)
      ensures this.level == level && this.rawData == rawData && this.meta == meta && this.stream == stream
    {
      this.level, this.rawData, this.meta, this.stream := level, rawData, meta, stream;
    }

    function Width(): nat { if level == 3 then 4 else 2 }

    ghost function Reading(): Reading
      requires stream.Valid()
      reads this, stream, stream.leadin
    {
      ExtHeaders.Reading(rawData, stream.Rest(), meta.compressed)
    }

    method ExtendRawData(n: nat) returns (ok: bool)
      requires stream.Begun()
      modifies this`rawData, stream, stream.leadin
      ensures stream.Begun() && stream.leadin == old(stream.leadin) && stream.start == old(stream.start)
      ensures ok ==>
        && n <= |old(stream.Rest())| && rawData == old(rawData) + old(stream.Rest())[..n]
        && stream.Rest() == old(stream.Rest())[n..]
        && (stream.leadinLen == 0 || stream.leadinLen + n <= old(stream.leadinLen))
      ensures !ok ==> rawData == old(rawData)
      ensures stream.fills ==> ok == (n <= LEVEL_3_MAX_HEADER_LEN && n <= |old(stream.Rest())|)
    {
      if n > LEVEL_3_MAX_HEADER_LEN { return false; }
      var buf;
      ok, buf := stream.Read(n);
      if ok { rawData := rawData + buf; }
    }

    /**
     One turn of the reading loop: nothing more to read, a failure, or one more block. The width comes as a
     variable, so that functions recursive in it are not unfolded as on a literal.
     */
    method PullBlock(ghost width: nat) returns (ok: bool, n: nat)
      requires width == 2 && |rawData| >= width && stream.Begun() && stream.leadinLen == 0
      modifies this, stream, stream.leadin
      ensures stream.Begun() && stream.leadin == old(stream.leadin) && stream.start == old(stream.start)
      ensures meta == old(meta).(compressed := meta.compressed) && |rawData| >= width
      ensures ok ==> stream.leadinLen == 0 && ReadChain(old(Reading()), width) == ReadChain(Reading(), width)
      ensures ok && n == 0 ==> ReadChain(old(Reading()), width) == Some(Reading())
      ensures ok && n > 0 ==> |stream.Rest()| < |old(stream.Rest())|
      ensures !ok && stream.fills ==> ReadChain(old(Reading()), width).None?
    {
      ghost var was := Reading();
      ok, n := ReadNextExtHeader();
      if !ok || n == 0 { return; }
      if meta.compressed < n { return false, n; }
      meta := meta.(compressed := meta.compressed - n);
      if n < 3 { return false, n; }
      ReadChainPulls(was, n, width);
    }

    method ReadL1ExtendedHeaders() returns (ok: bool)
      requires |rawData| >= 2 && stream.Begun() && stream.leadinLen == 0
      modifies this, stream, stream.leadin
      ensures stream.Begun() && stream.leadin == old(stream.leadin) && stream.start == old(stream.start)
      ensures ok ==>
        && ReadChain(old(Reading()), 2) == Some(Reading()) && stream.leadinLen == 0
        && meta == old(meta).(compressed := meta.compressed)
      ensures stream.fills ==> ok == ReadChain(old(Reading()), 2).Some?
    {
      ghost var width := Number(2);
      ghost var all := ReadChain(Reading(), width);
      var n := 1;
      ok := true;
      while ok && n != 0
        invariant |rawData| >= 2 && meta == old(meta).(compressed := meta.compressed)
        invariant stream.Begun() && stream.leadin == old(stream.leadin) && stream.start == old(stream.start)
        invariant ok ==> stream.leadinLen == 0 && ReadChain(Reading(), width) == all
        invariant ok && n == 0 ==> all == Some(Reading())
        invariant !ok && stream.fills ==> all.None?
        decreases ok, n > 0, |stream.Rest()|
      {
        ok, n := PullBlock(width);
      }
    }

    /** The last two bytes of the raw data hold the size of the next block. */
    method ReadNextExtHeader() returns (ok: bool, n: nat)
      requires |rawData| >= 2 && stream.Begun() && stream.leadinLen == 0
      modifies this`rawData, stream, stream.leadin
      ensures stream.Begun() && stream.leadin == old(stream.leadin) && stream.start == old(stream.start)
      ensures n == FieldAt(old(rawData), |old(rawData)| - 2, 2)
      ensures n == 0 ==> ok && stream.leadinLen == 0 && Reading() == old(Reading())
      ensures !ok ==> rawData == old(rawData)
      ensures ok ==>
        && n <= |old(stream.Rest())| && stream.leadinLen == 0
        && rawData == old(rawData) + old(stream.Rest())[..n] && stream.Rest() == old(stream.Rest())[n..]
      ensures stream.fills ==> ok == (n <= |old(stream.Rest())|)
    {
      n := FieldAt(rawData, |rawData| - 2, 2);
      FieldFits(rawData, |rawData| - 2);
      if n == 0 { return true, 0; }
      ok := ExtendRawData(n);
    }

    /** The first of the known types with this number. */
    method ExtHeaderForNum(num: Byte) returns (t: Option<ExtType>)
      ensures t.Some? ==> t.value in TYPES && t.value.num == num
      ensures t.None? ==> forall i :: 0 <= i < |TYPES| ==> TYPES[i].num != num
    {
      var i := 0;
      while i < |TYPES|
        invariant 0 <= i <= |TYPES| && forall k :: 0 <= k < i ==> TYPES[k].num != num
      {
        if TYPES[i].num == num { return Some(TYPES[i]); }
        i := i + 1;
      }
      return None;
    }

    /** The CRC is read, then cleared, because it was computed over a header that had zero there. */
    method CommonDecoder(at: nat, size: nat)
      requires size >= 3 && at + size <= |rawData| && rawData[at] == COMMON
      modifies this`rawData, this`meta
      ensures rawData == ClearOne(old(rawData), Block(at, size))
      ensures meta == old(meta).(commonCrc := Some(FieldAt(Payload(old(rawData), Block(at, size)), 1, 2)))
    {
      ghost var b := Block(at, size);
      FieldAgrees(Payload(rawData, b), rawData[at..], 1, 2);
      FieldMoves(rawData, at, 1, 2);
      meta := meta.(commonCrc := Some(FieldAt(rawData, at + 1, 2)));
      rawData := rawData[at + 1 := 0][at + 2 := 0];
    }

    method FileSizeDecoder(at: nat, size: nat)
      requires size >= 17 && at + size <= |rawData|
      modifies this`meta
      ensures var payload := Payload(rawData, Block(at, size));
              meta == old(meta).(compressed := FieldAt(payload, 1, 8), length := FieldAt(payload, 9, 8))
    {
      PayloadField(rawData, Block(at, size), 1, 8);
      PayloadField(rawData, Block(at, size), 9, 8);
      meta := meta.(compressed := FieldAt(rawData, at + 1, 8), length := FieldAt(rawData, at + 9, 8));
    }

    /** Decode one block where it lies; a type is only tried on data of sufficient length. */
    method ExtHeaderDecode(at: nat, size: nat)
      requires size >= 1 && at + size <= |rawData|
      modifies this`rawData, this`meta
      ensures rawData == ClearOne(old(rawData), Block(at, size))
      ensures meta == Absorb(old(meta), Payload(old(rawData), Block(at, size)))
    {
      var num := rawData[at];
      var t := ExtHeaderForNum(num);
      TypesAreUnique(Payload(rawData, Block(at, size)), t);
      ClearOneOther(rawData, Block(at, size));
      if t.Some? && size - 1 >= t.value.minLen {
        meta := meta.(fields := meta.fields[num := rawData[at + 1..at + size]]);
        if num == COMMON {
          CommonDecoder(at, size);
        } else if num == FILE_SIZES {
          FileSizeDecoder(at, size);
        }
      }
    }

    /** Decoding has come to `offset`, and all before it is done. */
    ghost predicate Midway(raw: seq<Byte>, was: Meta, start: nat, offset: nat, before: seq<Block>, width: nat)
      reads this
    {
      |rawData| == |raw| && Reached(raw, start, offset, before, width) && Decoded(raw, was, rawData, meta, before)
    }

    /** Decodes the block whose length n stands at `offset`. */
    method DecodeOne(offset: nat, n: nat, width: nat,
                     ghost raw: seq<Byte>, ghost was: Meta, ghost start: nat, ghost before: seq<Block>)
      returns (ghost after: seq<Block>)
      requires Midway(raw, was, start, offset, before, width)
      requires n == FieldAt(raw, offset, width) && width + 1 <= n <= |raw| - offset - width
      modifies this`rawData, this`meta
      ensures Midway(raw, was, start, offset + n, after, width)
    {
      ghost var b := Block(offset + width, n - width);
      StepIsSound(raw, was, rawData, meta, start, offset, before, b, width);
      ghost var cleared, absorbed := ClearOne(rawData, b), Absorb(meta, Payload(rawData, b));
      ExtHeaderDecode(offset + width, n - width);
      assert rawData == cleared && meta == absorbed;
      after := before + [b];
    }

    /** Walks the chain once, decoding as it goes: it meets the blocks of the chain as it was before. */
    method DecodeExtendedHeaders(start: nat) returns (ok: bool)
      requires start + Width() <= |rawData|
      modifies this`rawData, this`meta
      ensures |rawData| == |old(rawData)|
      ensures ok == Walk(old(rawData), start, Width()).Some?
      ensures ok ==> Decoded(old(rawData), old(meta), rawData, meta, Walk(old(rawData), start, Width()).value)
    {
      var width, offset := Width(), start;
      var available := |rawData| - offset - width;
      ghost var raw, was, before: seq<Block> := rawData, meta, [];
      DecodedNone(raw, meta);
      while offset <= |rawData| - width
        invariant available == |raw| - offset - width && Midway(raw, was, start, offset, before, width)
        decreases |raw| - offset
      {
        var n := FieldAt(rawData, offset, width);
        FieldIsUntouched(raw, was, rawData, meta, start, offset, before, width);
        if n == 0 {
          ReachedEnd(raw, start, offset, before, width);
          break;
        } else if n < width + 1 || n > available {
          ReachedBad(raw, start, offset, before, width);
          return false;
        }
        before := DecodeOne(offset, n, width, raw, was, start, before);
        offset, available := offset + n, available - n;
      }
      return true;
    }

    /** Once the chain of a level 1 header has been read, decoding it cannot fail. */
    method DecodeLevel1Chain() returns (ok: bool)
      requires level == 1 && |rawData| >= 2 && stream.Begun() && stream.leadinLen == 0
      modifies this, stream, stream.leadin
      ensures stream.Begun() && stream.leadin == old(stream.leadin) && stream.start == old(stream.start)
      ensures stream.fills ==> ok == ReadChain(old(Reading()), 2).Some?
      ensures ok ==>
        && stream.leadinLen == 0 && ReadChain(old(Reading()), 2).Some?
        && var e := ReadChain(old(Reading()), 2).value;
           && |old(rawData)| <= |e.raw| && stream.Rest() == e.rest
           && var w := Walk(e.raw, |old(rawData)| - 2, 2);
              && w.Some? && Decoded(e.raw, old(meta).(compressed := e.compressed), rawData, meta, w.value)
              && e.compressed + Total(w.value, 2) == old(meta.compressed)
              && |rawData| == |old(rawData)| + Total(w.value, 2)
    {
      ghost var r := Reading();
      var start := |rawData| - 2;
      ok := ReadL1ExtendedHeaders();
      if ok {
        ReadChainIsWalk(r, 2);
        ok := DecodeExtendedHeaders(start);
      }
    }
  }

  /** The raw data and what is known of the file once the given blocks have been decoded. */
  ghost predicate Decoded(raw: seq<Byte>, meta: Meta, raw': seq<Byte>, meta': Meta, blocks: seq<Block>) {
    && Inside(raw, blocks) && (forall k :: 0 <= k < |blocks| ==> blocks[k].size >= 1)
    && raw' == Cleared(raw, blocks)
    && meta' == AbsorbAll(meta, Payloads(raw, blocks))
  }

  lemma DecodedNone(raw: seq<Byte>, meta: Meta)
    ensures Decoded(raw, meta, raw, meta, [])
  {
    assert Cleared(raw, []) == raw;
  }

  lemma FieldIsUntouched(
    raw: seq<Byte>, meta: Meta, raw': seq<Byte>, meta': Meta, start: nat, offset: nat, before: seq<Block>, width: nat)
    requires Reached(raw, start, offset, before, width) && Decoded(raw, meta, raw', meta', before)
    ensures FieldAt(raw', offset, width) == FieldAt(raw, offset, width)
  {
    UntouchedFrom(raw, before, offset);
    FieldAgrees(raw, raw', offset, width);
  }

  /** From where decoding stands, the raw data is as it was read. */
  lemma UntouchedFrom(raw: seq<Byte>, before: seq<Block>, offset: nat)
    requires Inside(raw, before) && forall k :: 0 <= k < |before| ==> before[k].at + before[k].size <= offset
    ensures forall i :: offset <= i < |raw| ==> Cleared(raw, before)[i] == raw[i]
  {
    forall i | offset <= i < |raw| ensures !InCrc(raw, before, i) { }
  }

  /** Decoding the block at the current place keeps what the loop maintains. */
  lemma StepIsSound(
    raw: seq<Byte>, meta: Meta, raw': seq<Byte>, meta': Meta,
    start: nat, offset: nat, before: seq<Block>, b: Block, width: nat)
    requires Reached(raw, start, offset, before, width) && Decoded(raw, meta, raw', meta', before)
    requires var n := FieldAt(raw, offset, width);
             width + 1 <= n <= |raw| - offset - width && b == Block(offset + width, n - width)
    ensures Reached(raw, start, b.at + b.size, before + [b], width)
    ensures Decoded(raw, meta, ClearOne(raw', b), Absorb(meta', Payload(raw', b)), before + [b])
  {
    ReachedNext(raw, start, offset, before, width);
    DecodedSnoc(raw, meta, raw', meta', before, b);
  }

  lemma DecodedSnoc(raw: seq<Byte>, meta: Meta, raw': seq<Byte>, meta': Meta, before: seq<Block>, b: Block)
    requires Decoded(raw, meta, raw', meta', before) && b.size >= 1 && b.at + b.size <= |raw|
    requires forall k :: 0 <= k < |before| ==> before[k].at + before[k].size <= b.at
    ensures b.at + b.size <= |raw'|
    ensures Decoded(raw, meta, ClearOne(raw', b), Absorb(meta', Payload(raw', b)), before + [b])
  {
    AbsorbSnoc(meta, raw, before, b);
    ClearedSnoc(raw, before, b);
    UntouchedFrom(raw, before, b.at);
    assert Payload(raw', b) == Payload(raw, b);
  }

  /** A field of a block's contents is a field of the header. */
  lemma PayloadField(raw: seq<Byte>, b: Block, at: nat, width: nat)
    requires b.at + b.size <= |raw| && at + width <= b.size
    ensures FieldAt(Payload(raw, b), at, width) == FieldAt(raw, b.at + at, width)
  {
    FieldAgrees(Payload(raw, b), raw[b.at..], at, width);
    FieldMoves(raw, b.at, at, width);
  }

  lemma FieldFits(raw: seq<Byte>, at: nat)
    requires at + 2 <= |raw|
    ensures FieldAt(raw, at, 2) < 65536
  {
  }

  lemma TypesAreUnique(payload: seq<Byte>, t: Option<ExtType>)
    requires payload != []
    requires t.Some? ==> t.value in TYPES && t.value.num == payload[0]
    requires t.None? ==> forall i :: 0 <= i < |TYPES| ==> TYPES[i].num != payload[0]
    ensures Accepted(payload) <==> t.Some? && t.value.minLen <= |payload| - 1
    ensures payload[0] == COMMON ==> t.Some? && t.value.minLen == 2
    ensures payload[0] == FILE_SIZES ==> t.Some? && t.value.minLen == 16
  {
    assert TYPES[0].num == COMMON && TYPES[9].num == FILE_SIZES;
  }

  lemma ClearOneOther(raw: seq<Byte>, b: Block)
    requires b.size >= 1 && b.at + b.size <= |raw|
    ensures raw[b.at] != COMMON || b.size < 3 ==> ClearOne(raw, b) == raw
  {
  }

  lemma {:induction false} FieldMoves(raw: seq<Byte>, from: nat, at: nat, size: nat)
    requires from + at + size <= |raw|
    ensures FieldAt(raw[from..], at, size) == FieldAt(raw, from + at, size)
    decreases size
  {
    if size > 0 { FieldMoves(raw, from, at + 1, size - 1); }
  }

  /** The number n as a variable, so that functions recursive in it are not unfolded as on a literal. */
  lemma Number(n: nat) returns (r: nat)
    ensures r == n
  {
    r := n;
  }
}
