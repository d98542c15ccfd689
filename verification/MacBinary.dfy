/**
 The MacBinary passthrough: a decoder over another decoder that strips a MacBinary header, keeps
 only one fork, and still runs the inner decoder to its end.
 */
module MacBinary {
  import opened LhaDecoder

  const MBHDR_SIZE: nat := 128
  const OUTPUT_BUFFER_SIZE: nat := 4096

  // ----- Recognising a header -----

  /** The fields of the archive header that a MacBinary header must agree with. */
  datatype FileInfo = FileInfo(filename: Bytes, length: nat, timestamp: nat)

  predicate IsZero(data: Bytes) {
    forall i :: 0 <= i < |data| ==> data[i] == 0
  }

  function BigEndian32(d: Bytes, at: nat): nat
    requires at + 4 <= |d|
  {
    ((d[at] as nat * 256 + d[at + 1] as nat) * 256 + d[at + 2] as nat) * 256 + d[at + 3] as nat
  }

  function DataFork(d: Bytes): nat
    requires |d| == MBHDR_SIZE
  {
    BigEndian32(d, 0x53)
  }

  function ResourceFork(d: Bytes): nat
    requires |d| == MBHDR_SIZE
  {
    BigEndian32(d, 0x57)
  }

  /** Rounded up to a multiple of 128, in 32-bit arithmetic. */
  function RoundedLength(forks: nat): nat {
    ((forks + MBHDR_SIZE) % UINT_LIMIT + 127) % UINT_LIMIT / 128 * 128
  }

  const MAC_TIME_OFFSET: nat := 2082844800
  const MAX_TIME_DIFFERENCE: nat := 14 * 60 * 60

  predicate TimesAgree(modTime: nat, timestamp: nat) {
    && modTime >= MAC_TIME_OFFSET
    && (if timestamp > modTime - MAC_TIME_OFFSET then timestamp - (modTime - MAC_TIME_OFFSET)
        else modTime - MAC_TIME_OFFSET - timestamp) <= MAX_TIME_DIFFERENCE
  }

  predicate IsMacBinaryHeader(d: Bytes, info: FileInfo)
    requires |d| == MBHDR_SIZE
  {
    var nameLen := d[1] as nat;
    && d[0] == 0 && d[0x4a] == 0 && d[0x52] == 0 && IsZero(d[0x63..0x65]) && IsZero(d[0x65..])
    && nameLen <= 63 && nameLen == |info.filename| && d[2..2 + nameLen] == info.filename
    && IsZero(d[2 + nameLen..65])
    && info.length == RoundedLength(DataFork(d) + ResourceFork(d))
    && TimesAgree(BigEndian32(d, 0x5f), info.timestamp)
  }

  // ----- The passthrough on values -----

  /** Bytes of the header still to be returned, bytes still wanted from the inner stream, and the inner position. */
  datatype Passthrough = Passthrough(header: Bytes, remaining: nat, pos: nat)

  ghost predicate Within(inner: Bytes, m: Passthrough) {
    m.pos <= |inner| && |m.header| <= MBHDR_SIZE
  }

  /** The state before the first read, or nothing if the inner stream is too short for a header. */
  function Start(inner: Bytes, info: FileInfo): (m: Passthrough)
    requires info.length >= MBHDR_SIZE ==> |inner| >= MBHDR_SIZE
    ensures Within(inner, m)
  {
    if info.length < MBHDR_SIZE then Passthrough([], info.length, 0)
    else
      var d := inner[..MBHDR_SIZE];
      if !IsMacBinaryHeader(d, info) then Passthrough(d, info.length, MBHDR_SIZE)
      else Passthrough([], if DataFork(d) > 0 then DataFork(d) else ResourceFork(d), MBHDR_SIZE)
  }

  /** What one read takes from the inner stream. */
  function Taken(inner: Bytes, m: Passthrough): nat
    requires Within(inner, m)
  {
    Min(Min(OUTPUT_BUFFER_SIZE - |m.header|, m.remaining), |inner| - m.pos)
  }

  function Chunk(inner: Bytes, m: Passthrough): Bytes
    requires Within(inner, m)
  {
    m.header + inner[m.pos..m.pos + Taken(inner, m)]
  }

  /** Once nothing more is wanted the inner stream is run to its end. */
  function Advance(inner: Bytes, m: Passthrough): (r: Passthrough)
    requires Within(inner, m)
    ensures Within(inner, r)
  {
    var n := Taken(inner, m);
    Passthrough([], m.remaining - n, if m.remaining == n then |inner| else m.pos + n)
  }

  /** What is still to come out. */
  function StillToCome(inner: Bytes, m: Passthrough): Bytes
    requires Within(inner, m)
  {
    m.header + inner[m.pos..Min(m.pos + m.remaining, |inner|)]
  }

  lemma ReadTakesFront(inner: Bytes, m: Passthrough)
    requires Within(inner, m)
    ensures Chunk(inner, m) + StillToCome(inner, Advance(inner, m)) == StillToCome(inner, m)
    ensures Chunk(inner, m) == [] ==> StillToCome(inner, m) == [] && Advance(inner, m).pos == |inner|
  {
    var n := Taken(inner, m);
    var end := Min(m.pos + m.remaining, |inner|);
    assert inner[m.pos..end] == inner[m.pos..m.pos + n] + inner[m.pos + n..end];
    if m.remaining == n {
      assert StillToCome(inner, Advance(inner, m)) == [];
    }
  }

  function Flatten(chunks: seq<Bytes>): Bytes {
    if chunks == [] then [] else Flatten(chunks[..|chunks| - 1]) + chunks[|chunks| - 1]
  }

  /** The state after j reads, and what they returned. */
  function AfterReads(inner: Bytes, m: Passthrough, j: nat): (r: Passthrough)
    requires Within(inner, m)
    ensures Within(inner, r)
  {
    if j == 0 then m else Advance(inner, AfterReads(inner, m, j - 1))
  }

  function Reads(inner: Bytes, m: Passthrough, j: nat): (chunks: seq<Bytes>)
    requires Within(inner, m)
    ensures |chunks| == j
  {
    if j == 0 then [] else Reads(inner, m, j - 1) + [Chunk(inner, AfterReads(inner, m, j - 1))]
  }

  lemma ReadsStep(inner: Bytes, m: Passthrough, j: nat)
    requires Within(inner, m)
    ensures AfterReads(inner, m, j + 1) == Advance(inner, AfterReads(inner, m, j))
    ensures Reads(inner, m, j + 1) == Reads(inner, m, j) + [Chunk(inner, AfterReads(inner, m, j))]
  {
  }

  lemma {:induction false} ReadsTakeFront(inner: Bytes, m: Passthrough, j: nat)
    requires Within(inner, m)
    ensures Flatten(Reads(inner, m, j)) + StillToCome(inner, AfterReads(inner, m, j)) == StillToCome(inner, m)
  {
    if j == 0 {
      assert Flatten([]) + StillToCome(inner, m) == StillToCome(inner, m);
    } else {
      ReadsTakeFront(inner, m, j - 1);
      var was := AfterReads(inner, m, j - 1);
      ReadTakesFront(inner, was);
      assert Reads(inner, m, j)[..j - 1] == Reads(inner, m, j - 1);
      var a, b, c := Flatten(Reads(inner, m, j - 1)), Chunk(inner, was), StillToCome(inner, AfterReads(inner, m, j));
      assert (a + b) + c == a + (b + c);
    }
  }

  /** The passthrough yields the inner stream unchanged, or exactly the chosen fork cut at the inner end. */
  lemma PassesStreamOrFork(inner: Bytes, info: FileInfo)
    requires |inner| <= info.length && (info.length >= MBHDR_SIZE ==> |inner| >= MBHDR_SIZE)
    ensures var d := if info.length >= MBHDR_SIZE then inner[..MBHDR_SIZE] else [];
      StillToCome(inner, Start(inner, info)) ==
        if info.length >= MBHDR_SIZE && IsMacBinaryHeader(d, info) then
          var fork := if DataFork(d) > 0 then DataFork(d) else ResourceFork(d);
          inner[MBHDR_SIZE..Min(MBHDR_SIZE + fork, |inner|)]
        else inner
  {
    if info.length >= MBHDR_SIZE {
      assert inner == inner[..MBHDR_SIZE] + inner[MBHDR_SIZE..];
    }
  }

  /** How the state accounts for the inner position when nothing is stripped. */
  lemma {:induction false} PassthroughPosition(inner: Bytes, info: FileInfo, j: nat)
    requires |inner| <= info.length && (info.length >= MBHDR_SIZE ==> |inner| >= MBHDR_SIZE)
    requires info.length >= MBHDR_SIZE ==> !IsMacBinaryHeader(inner[..MBHDR_SIZE], info)
    ensures var r := AfterReads(inner, Start(inner, info), j);
      && |Flatten(Reads(inner, Start(inner, info), j))| + |r.header| <= r.pos
      && r.pos + r.remaining >= |inner|
    decreases j
  {
    var m := Start(inner, info);
    if j > 0 {
      PassthroughPosition(inner, info, j - 1);
      assert Reads(inner, m, j)[..j - 1] == Reads(inner, m, j - 1);
    }
  }

  /**
   Whenever the outer stream has ended, by an empty chunk or by reaching its stated length, the
   inner stream has been run to its own end.
   */
  lemma EndRunsInnerToEnd(inner: Bytes, info: FileInfo, j: nat, returned: nat)
    requires |inner| <= info.length && (info.length >= MBHDR_SIZE ==> |inner| >= MBHDR_SIZE)
    requires returned <= |Flatten(Reads(inner, Start(inner, info), j))|
    requires (j > 0 && Reads(inner, Start(inner, info), j)[j - 1] == []) || returned == info.length
    ensures AfterReads(inner, Start(inner, info), j).pos == |inner|
  {
    var m := Start(inner, info);
    if j > 0 && Reads(inner, m, j)[j - 1] == [] {
      ReadTakesFront(inner, AfterReads(inner, m, j - 1));
    } else {
      ReadsTakeFront(inner, m, j);
      PassesStreamOrFork(inner, info);
      if info.length < MBHDR_SIZE || !IsMacBinaryHeader(inner[..MBHDR_SIZE], info) {
        PassthroughPosition(inner, info, j);
      }
    }
  }

  // ----- The decoder -----

  /** What the inner decoder can deliver: its codec's output cut at its stream length. */
  ghost function Deliverable(d: Decoder): Bytes {
    d.full[..Min(d.streamLength, |d.full|)]
  }

  /** A read in terms of the deliverable stream. */
  method InnerRead(d: Decoder, n: nat) returns (buf: Bytes)
    requires d.Valid()
    modifies d
    ensures d.Valid() && d.returned == old(d.returned) + buf
    ensures |d.returned| <= |Deliverable(d)| && d.returned == Deliverable(d)[..|d.returned|]
    ensures |buf| == Min(n, |Deliverable(d)| - |old(d.returned)|)
    ensures buf == Deliverable(d)[|old(d.returned)|..|old(d.returned)| + |buf|]
  {
    ghost var before := d.returned;
    DeliveredSoFar(d);
    buf := d.Read(n);
    DeliveredSoFar(d);
    SliceBehind(before, buf, Deliverable(d));
  }

  /** What was returned is the front of what can be delivered. */
  lemma DeliveredSoFar(d: Decoder)
    requires d.Valid()
    ensures |d.returned| <= |Deliverable(d)| && d.returned == Deliverable(d)[..|d.returned|]
    ensures |Deliverable(d)| - |d.returned| == Min(d.streamLength - d.streamPos, |d.Rest()|)
  {
    assert d.full == d.returned + d.Rest();
  }

  lemma SliceBehind(a: Bytes, b: Bytes, s: Bytes)
    requires |a + b| <= |s| && a + b == s[..|a + b|]
    ensures b == s[|a|..|a| + |b|]
  {
    assert b == (a + b)[|a|..];
  }

  class MacBinaryDecoder {
    var mbHeader: Bytes
    var mbHeaderBytes: nat
    const decoder: Decoder
    var streamRemaining: nat

    ghost predicate Valid()
      reads this, decoder
    {
      && decoder.Valid() && mbHeaderBytes <= |mbHeader| <= MBHDR_SIZE
      && |decoder.returned| <= |Deliverable(decoder)|
    }

    ghost function State(): Passthrough
      requires mbHeaderBytes <= |mbHeader|
      reads this, decoder
    {
      Passthrough(mbHeader[..mbHeaderBytes], streamRemaining, |decoder.returned|)
    }

    /** Reads the first 128 bytes; fails if the inner stream ends before. */
    static method ReadHeader(decoder: Decoder) returns (ok: bool, header: Bytes)
      requires decoder.Valid() && decoder.returned == []
      modifies decoder
      ensures decoder.Valid() && decoder.returned == header && header <= Deliverable(decoder)
      ensures ok <==> |Deliverable(decoder)| >= MBHDR_SIZE
      ensures ok ==> |header| == MBHDR_SIZE
    {
      header := [];
      while |header| < MBHDR_SIZE
        invariant decoder.Valid() && decoder.returned == header && |header| <= MBHDR_SIZE
        invariant header <= Deliverable(decoder)
        decreases MBHDR_SIZE - |header|
      {
        var part := InnerRead(decoder, MBHDR_SIZE - |header|);
        if part == [] {
          return false, header;
        }
        header := header + part;
      }
      ok := true;
    }

    /** Sets up the passthrough unless the inner stream is too short for the header it must have. */
    static method Create(decoder: Decoder, info: FileInfo) returns (m: MacBinaryDecoder?)
      requires decoder.Valid() && decoder.returned == []
      modifies decoder
      ensures decoder.Valid() && (m == null <==> info.length >= MBHDR_SIZE && |Deliverable(decoder)| < MBHDR_SIZE)
      ensures m != null ==> fresh(m) && m.decoder == decoder && m.Valid() && m.State() == Start(Deliverable(decoder), info)
    {
      var header, remaining: nat, keep := [], info.length, 0;
      if info.length >= MBHDR_SIZE {
        var ok;
        ok, header := ReadHeader(decoder);
        if !ok {
          return null;
        }
        assert header == Deliverable(decoder)[..MBHDR_SIZE];
        if !IsMacBinaryHeader(header, info) {
          keep := MBHDR_SIZE;
        } else {
          remaining := if DataFork(header) > 0 then DataFork(header) else ResourceFork(header);
        }
      }
      m := new MacBinaryDecoder(decoder, header, keep, remaining);
    }

    constructor (decoder: Decoder, header: Bytes, keep: nat, remaining: nat)
      requires decoder.Valid() && keep <= |header| <= MBHDR_SIZE && |decoder.returned| <= |Deliverable(decoder)|
      ensures Valid() && this.decoder == decoder
      ensures State() == Passthrough(header[..keep], remaining, |decoder.returned|)
    {
      this.decoder, mbHeader, mbHeaderBytes, streamRemaining := decoder, header, keep, remaining;
    }

    method DecodeToEnd()
      requires decoder.Valid()
      modifies decoder
      ensures decoder.Valid() && |decoder.returned| == |Deliverable(decoder)|
    {
      var more := true;
      while more
        invariant decoder.Valid()
        invariant !more ==> |decoder.returned| == |Deliverable(decoder)|
        decreases |Deliverable(decoder)| - |decoder.returned|, more
      {
        var buf := InnerRead(decoder, 128);
        more := |buf| > 0;
      }
    }

    method Read() returns (chunk: Bytes)
      requires Valid()
      modifies this, decoder
      ensures Valid() && chunk == Chunk(Deliverable(decoder), old(State()))
      ensures State() == Advance(Deliverable(decoder), old(State()))
    {
      ghost var inner, m := Deliverable(decoder), State();
      chunk := mbHeader[..mbHeaderBytes];
      mbHeaderBytes := 0;
      var toRead := OUTPUT_BUFFER_SIZE - |chunk|;
      if toRead > streamRemaining {
        toRead := streamRemaining;
      }
      var part := InnerRead(decoder, toRead);
      assert |part| == Taken(inner, m) && chunk + part == Chunk(inner, m);
      streamRemaining := streamRemaining - |part|;
      chunk := chunk + part;
      FinishIfDone();
    }

    /** Once nothing more is wanted, the rest of the inner stream is decoded and thrown away. */
    method FinishIfDone()
      requires Valid() && mbHeaderBytes == 0
      modifies decoder
      ensures Valid()
      ensures State() == old(State()).(pos := if streamRemaining == 0 then |Deliverable(decoder)| else old(State()).pos)
    {
      if streamRemaining == 0 {
        DecodeToEnd();
      }
    }
  }
}
