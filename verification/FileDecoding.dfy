/**
 Decoding a file of the archive: the front end over a MacBinary passthrough, if there is one, is read to
 its end, and then length and CRC of the inner decoder are tested.
 */
module FileDecoding {
  import opened Bits
  import opened Crc16
  import opened LhaDecoder
  import opened MacBinary

  /** What the passthrough makes of the inner decoder's output. */
  ghost function Content(inner: Bytes, info: FileInfo): Bytes
    requires Suits(inner, info)
  {
    StillToCome(inner, Start(inner, info))
  }

  /** The inner stream is cut at the length of the file, and long enough for the header it may have. */
  ghost predicate Suits(inner: Bytes, info: FileInfo) {
    |inner| <= info.length && (info.length >= MBHDR_SIZE ==> |inner| >= MBHDR_SIZE)
  }

  /** A decoder front end whose codec is the passthrough. */
  class FrontEnd {
    const codec: MacBinaryDecoder
    const info: FileInfo
    var outbuf: Bytes
    var outbufPos: nat
    var streamPos: nat
    var decoderFailed: bool
    var crc: bv16
    // What the codec has returned, call by call, and what was returned to callers.
    ghost var received: seq<Bytes>
    ghost var returned: Bytes

    ghost function Inner(): Bytes {
      Deliverable(codec.decoder)
    }

    /** The codec is where its calls have brought it. */
    ghost predicate InStep()
      reads this, codec, codec.decoder
    {
      && codec.Valid() && Suits(Inner(), info)
      && codec.State() == AfterReads(Inner(), Start(Inner(), info), |received|)
      && received == Reads(Inner(), Start(Inner(), info), |received|)
    }

    /** Of what the codec has returned, `out` has been handed out and the buffer holds the rest. */
    ghost predicate Buffered(out: Bytes)
      reads this
    {
      && outbufPos <= |outbuf| && Flatten(received) == out + outbuf[outbufPos..]
      && (decoderFailed ==> outbuf == [] && received != [] && received[|received| - 1] == [])
    }

    ghost predicate Valid()
      reads this, codec, codec.decoder
    {
      InStep() && Buffered(returned) && streamPos == |returned| <= info.length && crc == Crc(0, returned)
    }

    constructor (codec: MacBinaryDecoder, info: FileInfo)
      requires codec.Valid() && Suits(Deliverable(codec.decoder), info)
      requires codec.State() == Start(Deliverable(codec.decoder), info)
      ensures Valid() && this.codec == codec && this.info == info && returned == []
    {
      this.codec, this.info, outbuf, outbufPos, streamPos, decoderFailed, crc := codec, info, [], 0, 0, false, 0;
      received, returned := [], [];
    }

    /** One call of the codec's read function. */
    method CodecRead() returns (chunk: Bytes)
      requires InStep()
      modifies this`received, codec, codec.decoder
      ensures InStep() && received == old(received) + [chunk]
    {
      ReadsStep(Inner(), Start(Inner(), info), |received|);
      chunk := codec.Read();
      received := received + [chunk];
    }

    /** The next chunk becomes the buffer. */
    method Replace(ghost out: Bytes)
      requires InStep() && Flatten(received) == out
      modifies this`outbuf, this`outbufPos, this`received, codec, codec.decoder
      ensures InStep() && outbufPos == 0 && Flatten(received) == out + outbuf
      ensures received != [] && received[|received| - 1] == outbuf
    {
      ghost var before := received;
      var chunk := CodecRead();
      FlattenSnoc(before, chunk);
      outbuf, outbufPos := chunk, 0;
    }

    /** Fetches another chunk once the last one is used up; an empty one ends the stream for good. */
    method Refill(ghost out: Bytes)
      requires InStep() && Buffered(out) && !decoderFailed
      modifies this`outbuf, this`outbufPos, this`decoderFailed, this`received, codec, codec.decoder
      ensures InStep() && Buffered(out) && (decoderFailed || outbufPos < |outbuf|)
    {
      if outbufPos >= |outbuf| {
        assert out + outbuf[outbufPos..] == out;
        Replace(out);
      }
      if |outbuf| == 0 {
        decoderFailed := true;
      }
    }

    /** Moves what the buffer holds to the caller, up to `want` bytes. */
    method Drain(want: nat, ghost out: Bytes) returns (part: Bytes)
      requires Buffered(out)
      modifies this`outbufPos
      ensures Buffered(out + part) && |part| == Min(want, |outbuf| - old(outbufPos))
    {
      var bytes := |outbuf| - outbufPos;
      if want < bytes {
        bytes := want;
      }
      part := outbuf[outbufPos..outbufPos + bytes];
      outbufPos := outbufPos + bytes;
      Associate(out, part, outbuf[outbufPos..]);
    }

    /** One turn of the loop below. */
    method Turn(want: nat, ghost out: Bytes) returns (part: Bytes)
      requires InStep() && Buffered(out)
      modifies this`outbuf, this`outbufPos, this`decoderFailed, this`received, codec, codec.decoder
      ensures InStep() && Buffered(out + part) && |part| <= want && (decoderFailed || outbufPos < |outbuf|)
      ensures want > 0 && old(outbufPos < |outbuf|) ==> part != []
    {
      part := Drain(want, out);
      if !decoderFailed {
        Refill(out + part);
      }
    }

    /** The loop that fills the caller's buffer; it stops short only where the stream has ended. */
    method Fill(want: nat) returns (buf: Bytes)
      requires InStep() && Buffered(returned)
      modifies this`outbuf, this`outbufPos, this`decoderFailed, this`received, codec, codec.decoder
      ensures InStep() && Buffered(returned + buf) && |buf| <= want && (|buf| < want ==> decoderFailed)
    {
      buf := [];
      assert returned + buf == returned;
      while |buf| < want
        invariant InStep() && Buffered(returned + buf) && |buf| <= want
        decreases want - |buf|, if outbufPos < |outbuf| then 0 else 1
      {
        var part := Turn(want - |buf|, returned + buf);
        Associate(returned, buf, part);
        buf := buf + part;
        if decoderFailed {
          break;
        }
      }
    }

    method Read(bufLen: nat) returns (buf: Bytes)
      requires Valid()
      modifies this, codec, codec.decoder
      ensures Valid() && returned == old(returned) + buf
      ensures |buf| < bufLen ==> streamPos == info.length || decoderFailed
    {
      var want := if streamPos + bufLen > info.length then info.length - streamPos else bufLen;
      buf := Fill(want);
      Count(buf);
    }

    /** Position and CRC of the bytes just filled in. */
    method Count(buf: Bytes)
      requires streamPos == |returned| && crc == Crc(0, returned)
      modifies this`crc, this`streamPos, this`returned
      ensures returned == old(returned) + buf && streamPos == |returned| && crc == Crc(0, returned)
    {
      CrcOfPieces(0, returned, buf);
      crc := CrcBuf(crc, buf);
      streamPos := streamPos + |buf|;
      returned := returned + buf;
    }

    /** Where the outer stream has ended, its content has been returned and the inner decoder has been run to its end. */
    lemma EndReached()
      requires Valid() && (streamPos == info.length || decoderFailed)
      ensures returned == Content(Inner(), info) && |codec.decoder.returned| == |Inner()|
    {
      var inner, n := Inner(), |received|;
      var start := Start(inner, info);
      EndRunsInnerToEnd(inner, info, n, |returned|);
      ReadsTakeFront(inner, start, n);
      ContentFits(inner, info);
      if decoderFailed { NothingAfter(inner, start, n); }
    }
  }

  lemma FlattenSnoc(chunks: seq<Bytes>, chunk: Bytes)
    ensures Flatten(chunks + [chunk]) == Flatten(chunks) + chunk
  {
    assert (chunks + [chunk])[..|chunks|] == chunks;
  }

  lemma ContentFits(inner: Bytes, info: FileInfo)
    requires Suits(inner, info)
    ensures |Content(inner, info)| <= info.length
  {
    PassesStreamOrFork(inner, info);
  }

  /** After an empty chunk nothing is left to come. */
  lemma NothingAfter(inner: Bytes, m: Passthrough, j: nat)
    requires Within(inner, m) && j > 0 && Reads(inner, m, j)[j - 1] == []
    ensures StillToCome(inner, AfterReads(inner, m, j)) == []
  {
    ReadTakesFront(inner, AfterReads(inner, m, j - 1));
  }

  // ----- The check after decoding -----

  /** Reads a decoder to its end, 64 bytes at a time. */
  method DecodeInner(d: Decoder) returns (out: Bytes)
    requires d.Valid() && d.returned == []
    modifies d
    ensures d.Valid() && d.returned == out == Deliverable(d)
  {
    var more := true;
    out := [];
    while more
      invariant d.Valid() && d.returned == out && |out| <= |Deliverable(d)|
      invariant !more ==> out == Deliverable(d)
      decreases |Deliverable(d)| - |out|, more
    {
      var buf := InnerRead(d, 64);
      out := out + buf;
      more := |buf| > 0;
    }
  }

  method DecodeOuter(outer: FrontEnd) returns (out: Bytes)
    requires outer.Valid() && outer.returned == []
    modifies outer, outer.codec, outer.codec.decoder
    ensures outer.codec.decoder.Valid() && out == Content(outer.Inner(), outer.info)
    ensures |outer.codec.decoder.returned| == |outer.Inner()|
  {
    var more := true;
    out := [];
    while more
      invariant outer.Valid() && outer.returned == out
      invariant !more ==> outer.streamPos == outer.info.length || outer.decoderFailed
      decreases outer.info.length - |out|, more
    {
      var buf := outer.Read(64);
      out := out + buf;
      more := |buf| > 0;
    }
    outer.EndReached();
  }

  /**
   Opens the decoders for a file, with the passthrough for one from a Macintosh, decodes it and tests
   length and CRC of the inner decoder: with or without passthrough, the test covers the whole inner stream.
   */
  method DecodeFile(d: Decoder, macintosh: bool, info: FileInfo, crc: bv16) returns (ok: bool, out: Bytes)
    requires d.Valid() && d.returned == [] && d.streamLength == info.length
    modifies d
    ensures ok <==> |d.full| >= info.length && Crc(0, d.full[..info.length]) == crc
    ensures ok ==> out == if macintosh then Content(d.full[..info.length], info) else d.full[..info.length]
  {
    if macintosh {
      var m := MacBinaryDecoder.Create(d, info);
      if m == null { return false, []; }
      var outer := new FrontEnd(m, info);
      out := DecodeOuter(outer);
    } else {
      out := DecodeInner(d);
    }
    assert d.returned == Deliverable(d) by { WholeIsReturned(d); }
    ok := d.streamPos == info.length && d.crc == crc;
  }

  lemma WholeIsReturned(d: Decoder)
    requires d.Valid() && |d.returned| == |Deliverable(d)|
    ensures d.returned == Deliverable(d)
  {
    assert d.full == d.returned + d.Rest();
  }
}
