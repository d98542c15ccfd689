/**
 The basic reader: reads header after header, skipping whatever compressed data was left unread.
 */
module BasicReader {
  import opened Bits
  import opened Options
  import opened ExtHeaders
  import opened InputStream
  import opened FileHeader

  const COMMON_HEADER_LEN := 22
  const LEVEL_0_MIN_HEADER_LEN := 22
  const LEVEL_1_MIN_HEADER_LEN := 25
  const LEVEL_2_HEADER_LEN := 26
  const LEVEL_3_HEADER_LEN := 32

  /** Operating system type 'K': OS-9/68k. */
  const OS_TYPE_OS9_68K: Byte := 0x4b

  // ----- The headers of an archive -----

  /** How many bytes the header at the start of `rest` takes, before any chain of a level 1 header. */
  function BaseLength(rest: seq<Byte>): (r: Option<nat>)
    ensures r.Some? ==> LEADIN_BUFFER_LEN <= r.value <= |rest| && rest[20] <= 3
    ensures r.Some? && rest[20] == 2 ==> r.value >= LEVEL_2_HEADER_LEN
    ensures r.Some? && rest[20] == 3 ==> r.value >= LEVEL_3_HEADER_LEN
  {
    if |rest| < COMMON_HEADER_LEN then None
    else if rest[20] == 0 then ShortBase(rest, LEVEL_0_MIN_HEADER_LEN)
    else if rest[20] == 1 then ShortBase(rest, LEVEL_1_MIN_HEADER_LEN)
    else if rest[20] == 2 then
      var n := FieldAt(rest, 0, 2);
      if n < LEVEL_2_HEADER_LEN || n > |rest| then None
      else if rest[23] != OS_TYPE_OS9_68K then Some(n)
      else if n + 2 > |rest| then None else Some(n + 2)
    else if rest[20] == 3 then
      if FieldAt(rest, 0, 2) != 4 || |rest| < LEVEL_3_HEADER_LEN then None
      else
        var n := FieldAt(rest, 24, 4);
        if n > LEVEL_3_MAX_HEADER_LEN || n < LEVEL_3_HEADER_LEN || n > |rest| then None else Some(n)
    else None
  }

  function ShortBase(rest: seq<Byte>, min: nat): (r: Option<nat>)
    requires |rest| >= COMMON_HEADER_LEN
  {
    var n: nat := rest[0];
    if n < min || n + 2 > |rest| then None else Some(n + 2)
  }

  /** A header as decoded: the raw data with any CRC cleared, and what it says about the file. */
  datatype File = File(raw: seq<Byte>, meta: Meta)

  datatype Parsed = Parsed(file: File, rest: seq<Byte>)

  /** Decode the extended headers that begin at `offset`. */
  ghost function Finish(raw: seq<Byte>, rest: seq<Byte>, meta: Meta, offset: nat, width: nat): (r: Option<Parsed>)
    requires offset + width <= |raw|
    ensures r.Some? ==> r.value.rest == rest
  {
    var w := Walk(raw, offset, width);
    if w.None? then None
    else
      WalkInside(raw, offset, width);
      Some(Parsed(File(Cleared(raw, w.value), AbsorbAll(meta, Payloads(raw, w.value))), rest))
  }

  ghost function BaseMeta(raw: seq<Byte>): Meta
    requires |raw| >= COMMON_HEADER_LEN
  {
    Meta(None, FieldAt(raw, 7, 4), FieldAt(raw, 11, 4), map[])
  }

  /** The header at the start of `rest`, and what follows it. */
  ghost function Parse(rest: seq<Byte>): (r: Option<Parsed>)
    ensures r.Some? ==> |r.value.rest| < |rest|
  {
    var base := BaseLength(rest);
    if base.None? then None
    else
      var n := base.value;
      var raw, after, meta := rest[..n], rest[n..], BaseMeta(rest);
      if rest[20] == 0 then Some(Parsed(File(raw, meta), after))
      else if rest[20] == 1 then ParseChain(ExtHeaders.Reading(raw, after, meta.compressed), meta, 2)
      else if rest[20] == 2 then Finish(raw, after, meta, 24, 2)
      else Finish(raw, after, meta, 28, 4)
  }

  ghost function ParseChain(r: Reading, meta: Meta, width: nat): (p: Option<Parsed>)
    requires |r.raw| >= width
    ensures p.Some? ==> |p.value.rest| <= |r.rest|
  {
    var e := ReadChain(r, width);
    if e.None? then None
    else
      ReadChainLosesNothing(r, width);
      Finish(e.value.raw, e.value.rest, meta.(compressed := e.value.compressed), |r.raw| - width, width)
  }

  /** The same, when the contents must pass a check as well. */
  ghost function HeaderAt(rest: seq<Byte>, accept: File -> bool): (r: Option<Parsed>)
    ensures r.Some? ==> |r.value.rest| < |rest|
  {
    var p := Parse(rest);
    if p.Some? && accept(p.value.file) then p else None
  }

  function Drop(s: seq<Byte>, n: nat): (r: seq<Byte>)
    ensures |r| <= |s|
  {
    if n <= |s| then s[n..] else []
  }

  /** What follows the compressed data is the same, whether part of it was read before or not. */
  lemma DropAfter(s: seq<Byte>, k: nat, n: nat)
    requires k <= n
    ensures if k <= |s| then Drop(s[k..], n - k) == Drop(s, n) else Drop(s, n) == []
  {
    if n <= |s| { assert s[k..][n - k..] == s[n..]; }
  }

  lemma NothingListed(accept: File -> bool)
    ensures Listing([], accept) == []
  {
  }

  /** All the headers of an archive: each is followed by its compressed data, then the next. */
  ghost function Listing(rest: seq<Byte>, accept: File -> bool): seq<File>
    decreases |rest|
  {
    var h := HeaderAt(rest, accept);
    if h.None? then [] else [h.value.file] + Listing(Drop(h.value.rest, h.value.file.meta.compressed), accept)
  }

  // ----- Reading a header -----

  /** The header holds the first bytes of `rest`, and the stream delivers the others. */
  ghost predicate At(h: Header, rest: seq<Byte>)
    reads h, h.stream, h.stream.leadin
  {
    && h.stream.Begun() && |h.rawData| <= |rest|
    && h.rawData == rest[..|h.rawData|] && h.stream.Rest() == rest[|h.rawData|..]
  }

  method ExtendTo(h: Header, length: nat, ghost rest: seq<Byte>) returns (ok: bool)
    requires At(h, rest) && |h.rawData| <= length <= |h.rawData| + LEVEL_3_MAX_HEADER_LEN
    modifies h`rawData, h.stream, h.stream.leadin
    ensures h.stream.Begun() && h.stream.leadin == old(h.stream.leadin) && h.stream.start == old(h.stream.start)
    ensures ok ==> At(h, rest) && |h.rawData| == length
    ensures ok ==> h.stream.leadinLen == 0 || h.stream.leadinLen + length <= old(h.stream.leadinLen + |h.rawData|)
    ensures h.stream.fills ==> ok == (length <= |rest|)
  {
    var n := length - |h.rawData|;
    ok := h.ExtendRawData(n);
    if ok {
      assert rest[..length] == rest[..length - n] + rest[length - n..][..n];
      assert rest[length..] == rest[length - n..][n..];
    }
  }

  /** The header in full, as its level lays down; the lead-in buffer is empty by then. */
  method ReadBase(h: Header, ghost rest: seq<Byte>) returns (ok: bool)
    requires At(h, rest) && |h.rawData| == COMMON_HEADER_LEN && h.level == h.rawData[20]
    requires h.stream.leadinLen + COMMON_HEADER_LEN <= LEADIN_BUFFER_LEN
    modifies h`rawData, h.stream, h.stream.leadin
    ensures h.stream.Begun() && h.stream.leadin == old(h.stream.leadin) && h.stream.start == old(h.stream.start)
    ensures ok ==> At(h, rest) && h.stream.leadinLen == 0 && BaseLength(rest) == Some(|h.rawData|)
    ensures h.stream.fills ==> ok == BaseLength(rest).Some?
  {
    if h.level == 0 {
      ok := ReadShortBase(h, LEVEL_0_MIN_HEADER_LEN, rest);
    } else if h.level == 1 {
      ok := ReadShortBase(h, LEVEL_1_MIN_HEADER_LEN, rest);
    } else if h.level == 2 {
      ok := ReadLevel2(h, rest);
    } else if h.level == 3 {
      ok := ReadLevel3(h, rest);
    } else {
      ok := false;
    }
  }

  method ReadShortBase(h: Header, min: nat, ghost rest: seq<Byte>) returns (ok: bool)
    requires At(h, rest) && |h.rawData| == COMMON_HEADER_LEN && min >= COMMON_HEADER_LEN
    requires h.stream.leadinLen + COMMON_HEADER_LEN <= LEADIN_BUFFER_LEN
    modifies h`rawData, h.stream, h.stream.leadin
    ensures h.stream.Begun() && h.stream.leadin == old(h.stream.leadin) && h.stream.start == old(h.stream.start)
    ensures ok ==> At(h, rest) && h.stream.leadinLen == 0 && ShortBase(rest, min) == Some(|h.rawData|)
    ensures h.stream.fills ==> ok == ShortBase(rest, min).Some?
  {
    var n: nat := h.rawData[0];
    if n < min { return false; }
    ok := ExtendTo(h, n + 2, rest);
  }

  method ReadLevel2(h: Header, ghost rest: seq<Byte>) returns (ok: bool)
    requires At(h, rest) && |h.rawData| == COMMON_HEADER_LEN && h.rawData[20] == 2
    requires h.stream.leadinLen + COMMON_HEADER_LEN <= LEADIN_BUFFER_LEN
    modifies h`rawData, h.stream, h.stream.leadin
    ensures h.stream.Begun() && h.stream.leadin == old(h.stream.leadin) && h.stream.start == old(h.stream.start)
    ensures ok ==> At(h, rest) && h.stream.leadinLen == 0 && BaseLength(rest) == Some(|h.rawData|)
    ensures h.stream.fills ==> ok == BaseLength(rest).Some?
  {
    var n := FieldAt(h.rawData, 0, 2);
    FieldAgrees(h.rawData, rest, 0, 2);
    FieldFits(h.rawData, 0);
    if n < LEVEL_2_HEADER_LEN { return false; }
    ok := ExtendTo(h, n, rest);
    if ok && h.rawData[23] == OS_TYPE_OS9_68K {
      ok := ExtendTo(h, n + 2, rest);
    }
  }

  method ReadLevel3(h: Header, ghost rest: seq<Byte>) returns (ok: bool)
    requires At(h, rest) && |h.rawData| == COMMON_HEADER_LEN && h.rawData[20] == 3
    requires h.stream.leadinLen + COMMON_HEADER_LEN <= LEADIN_BUFFER_LEN
    modifies h`rawData, h.stream, h.stream.leadin
    ensures h.stream.Begun() && h.stream.leadin == old(h.stream.leadin) && h.stream.start == old(h.stream.start)
    ensures ok ==> At(h, rest) && h.stream.leadinLen == 0 && BaseLength(rest) == Some(|h.rawData|)
    ensures h.stream.fills ==> ok == BaseLength(rest).Some?
  {
    var word := FieldAt(h.rawData, 0, 2);
    FieldAgrees(h.rawData, rest, 0, 2);
    if word != 4 { return false; }
    ok := ExtendTo(h, LEVEL_3_HEADER_LEN, rest);
    if !ok { return; }
    var n := FieldAt(h.rawData, 24, 4);
    FieldAgrees(h.rawData, rest, 24, 4);
    if n > LEVEL_3_MAX_HEADER_LEN || n < LEVEL_3_HEADER_LEN { return false; }
    ok := ExtendTo(h, n, rest);
  }

  method DecodeLevel1Extras(h: Header) returns (ok: bool)
    requires h.stream.Begun() && h.stream.leadinLen == 0 && h.level == 1 && |h.rawData| >= 2
    modifies h, h.stream, h.stream.leadin
    ensures h.stream.Begun() && h.stream.leadin == old(h.stream.leadin) && h.stream.start == old(h.stream.start)
    ensures ok ==> h.stream.leadinLen == 0
    ensures ok ==> ParseChain(old(h.Reading()), old(h.meta), 2) == Some(Parsed(File(h.rawData, h.meta), h.stream.Rest()))
    ensures h.stream.fills ==> ok == ParseChain(old(h.Reading()), old(h.meta), 2).Some?
  {
    ghost var r := h.Reading();
    ok := h.DecodeLevel1Chain();
    if ReadChain(r, 2).Some? { ReadChainIsWalk(r, 2); }
  }

  method DecodeOtherExtras(h: Header, offset: nat) returns (ok: bool)
    requires h.stream.Begun() && h.stream.leadinLen == 0 && offset + h.Width() <= |h.rawData|
    modifies h`rawData, h`meta
    ensures ok == Finish(old(h.rawData), h.stream.Rest(), old(h.meta), offset, h.Width()).Some?
    ensures ok ==> Finish(old(h.rawData), h.stream.Rest(), old(h.meta), offset, h.Width())
                   == Some(Parsed(File(h.rawData, h.meta), h.stream.Rest()))
  {
    ok := h.DecodeExtendedHeaders(offset);
  }

  /** The extended headers, as the header's level lays down. */
  method DecodeExtras(h: Header, ghost rest: seq<Byte>) returns (ok: bool)
    requires At(h, rest) && h.stream.leadinLen == 0 && BaseLength(rest) == Some(|h.rawData|)
    requires h.level == rest[20] && h.meta == BaseMeta(rest)
    modifies h, h.stream, h.stream.leadin
    ensures h.stream.Begun() && h.stream.leadin == old(h.stream.leadin) && h.stream.start == old(h.stream.start)
    ensures ok ==> h.stream.leadinLen == 0 && Parse(rest) == Some(Parsed(File(h.rawData, h.meta), h.stream.Rest()))
    ensures h.stream.fills ==> ok == Parse(rest).Some?
  {
    if h.level == 0 {
      ok := true;
    } else if h.level == 1 {
      ok := DecodeLevel1Extras(h);
    } else if h.level == 2 {
      ok := DecodeOtherExtras(h, 24);
    } else {
      ok := DecodeOtherExtras(h, 28);
    }
  }

  method HeaderRead(stream: Stream, accept: File -> bool) returns (file: Option<File>, ghost rest: seq<Byte>)
    requires stream.Valid() && (stream.state == Init || stream.leadinLen == 0)
    modifies stream, stream.leadin
    ensures stream.Valid() && stream.leadin == old(stream.leadin) && stream.state != Init
    ensures old(stream.state) == Init ==> stream.Found()
    ensures old(stream.state) != Init ==> stream.state == old(stream.state) && stream.start == old(stream.start)
    ensures file.Some? ==> stream.state == StreamState.Reading && stream.leadinLen == 0
    ensures stream.state == StreamState.Reading ==>
      && (old(stream.state) == Init ==> stream.start <= |stream.data|)
      && rest == if old(stream.state) == Init then stream.data[stream.start..] else old(stream.Rest())
    ensures file.Some? ==> HeaderAt(rest, accept) == Some(Parsed(file.value, stream.Rest()))
    ensures stream.fills && stream.state == StreamState.Reading ==> file.Some? == HeaderAt(rest, accept).Some?
  {
    rest := stream.Rest();
    var ok, first := stream.Read(COMMON_HEADER_LEN);
    if old(stream.state) == Init && stream.state == StreamState.Reading { rest := stream.data[stream.start..]; }
    file := None;
    if ok { file := HeaderAfter(stream, first, accept, rest); }
  }

  /** The header that begins with the bytes just read. */
  method HeaderAfter(stream: Stream, first: seq<Byte>, accept: File -> bool, ghost rest: seq<Byte>) returns (file: Option<File>)
    requires stream.Begun() && |first| == COMMON_HEADER_LEN <= |rest|
    requires first == rest[..COMMON_HEADER_LEN] && stream.Rest() == rest[COMMON_HEADER_LEN..]
    requires stream.leadinLen + COMMON_HEADER_LEN <= LEADIN_BUFFER_LEN
    modifies stream, stream.leadin
    ensures stream.Begun() && stream.leadin == old(stream.leadin) && stream.start == old(stream.start)
    ensures file.Some? ==> stream.leadinLen == 0 && HeaderAt(rest, accept) == Some(Parsed(file.value, stream.Rest()))
    ensures stream.fills ==> file.Some? == HeaderAt(rest, accept).Some?
  {
    var h := new Header(first[20], first, Meta(None, 0, 0, map[]), stream);
    var ok := ReadBase(h, rest);
    if !ok { return None; }
    MetaAgrees(h.rawData, rest);
    h.meta := Meta(None, FieldAt(h.rawData, 7, 4), FieldAt(h.rawData, 11, 4), map[]);
    ok := DecodeExtras(h, rest);
    file := if ok && accept(File(h.rawData, h.meta)) then Some(File(h.rawData, h.meta)) else None;
  }

  lemma MetaAgrees(raw: seq<Byte>, rest: seq<Byte>)
    requires COMMON_HEADER_LEN <= |raw| && raw <= rest
    ensures BaseMeta(raw) == BaseMeta(rest)
  {
    FieldAgrees(raw, rest, 7, 4);
    FieldAgrees(raw, rest, 11, 4);
  }

  // ----- From file to file -----

  class Reader {
    const stream: Stream
    /** Whether a header's contents make sense; a function of the header alone. */
    const accept: File -> bool
    var currFile: Option<File>
    var currFileRemaining: nat
    var eof: bool

    ghost predicate Valid()
      reads this, stream, stream.leadin
    {
      && stream.Valid()
      && (currFile.Some? ==> stream.Begun() && stream.leadinLen == 0)
      && (currFile.None? && !eof ==> stream.state == Init)
      && (stream.state == Init ==> currFile.None? && !eof)
    }

    /** The bytes behind the current file. */
    ghost function Upcoming(): seq<Byte>
      requires Valid()
      reads this, stream, stream.leadin
    {
      if eof || currFile.None? then [] else Drop(stream.Rest(), currFileRemaining)
    }

    /** The headers still to come. */
    ghost function Pending(): seq<File>
      requires Valid()
      reads this, stream, stream.leadin
    {
      Listing(Upcoming(), accept)
    }

    /** The current header and those still to come. */
    ghost function Unlisted(): seq<File>
      requires Valid()
      reads this, stream, stream.leadin
    {
      if currFile.Some? then [currFile.value] + Pending() else []
    }

    constructor (stream: Stream, accept: File -> bool)
      requires stream.Valid() && stream.state == Init
      ensures Valid() && this.stream == stream && this.accept == accept && currFile == None
    {
      this.stream, this.accept, currFile, currFileRemaining, eof := stream, accept, None, 0, false;
    }

    /** A step through a list of headers: the first one is returned, the others remain. */
    ghost predicate Steps(list: seq<File>, file: Option<File>)
      requires Valid()
      reads this, stream, stream.leadin
    {
      if list == [] then file == None && Pending() == [] else file == Some(list[0]) && Pending() == list[1..]
    }

    /** The next header, whatever was read of the file before it. */
    method NextFile() returns (file: Option<File>)
      requires Valid()
      modifies this, stream, stream.leadin
      ensures Valid() && stream.leadin == old(stream.leadin) && stream.state != Init && file == currFile
      ensures old(stream.state) == Init ==> stream.Found()
      ensures old(stream.state) != Init ==> stream.state == old(stream.state) && stream.start == old(stream.start)
      ensures old(stream.state) == Init && stream.state == Fail ==> file == None
      ensures old(stream.state) == Init && stream.fills && stream.state == StreamState.Reading ==>
        stream.start <= |stream.data| && Steps(Listing(stream.data[stream.start..], accept), file)
      ensures old(stream.state) != Init && stream.fills ==> Steps(old(Pending()), file)
    {
      NothingListed(accept);
      if currFile.Some? {
        currFile := None;
        var ok := stream.Skip(currFileRemaining);
        if !ok { eof := true; }
      }
      if eof { return None; }
      ghost var rest;
      currFile, rest := HeaderRead(stream, accept);
      if currFile.None? {
        eof := true;
        return None;
      }
      currFileRemaining := currFile.value.meta.compressed;
      return currFile;
    }

    /** Some of the compressed data; the headers to come are not affected. */
    method ReadCompressed(n: nat) returns (buf: seq<Byte>)
      requires Valid() && currFile.Some?
      modifies this`currFileRemaining, this`eof, stream, stream.leadin
      ensures Valid() && stream.leadin == old(stream.leadin)
      ensures stream.state == old(stream.state) && stream.start == old(stream.start)
      ensures buf <= old(stream.Rest()) && |buf| <= n && |buf| <= old(currFileRemaining)
      ensures !eof && old(!eof) ==>
        currFileRemaining == old(currFileRemaining) - |buf| && stream.Rest() == old(stream.Rest())[|buf|..]
      ensures stream.fills ==> Upcoming() == old(Upcoming())
    {
      if eof || currFileRemaining == 0 { return []; }
      var k := if n > currFileRemaining then currFileRemaining else n;
      DropAfter(stream.Rest(), k, currFileRemaining);
      var ok;
      ok, buf := stream.Read(k);
      if !ok {
        eof := true;
        return [];
      }
      currFileRemaining := currFileRemaining - k;
    }
  }

  /** Reading some of the current file, in pieces of the given sizes. */
  method ReadParts(reader: Reader, sizes: seq<nat>)
    requires reader.Valid() && reader.currFile.Some? && reader.stream.fills
    modifies reader, reader.stream, reader.stream.leadin
    ensures reader.Valid() && reader.Upcoming() == old(reader.Upcoming())
    ensures reader.stream.leadin == old(reader.stream.leadin)
    ensures reader.stream.state == old(reader.stream.state) && reader.stream.start == old(reader.stream.start)
  {
    var i := 0;
    while i < |sizes|
      invariant reader.Valid() && reader.currFile.Some? && reader.Upcoming() == old(reader.Upcoming())
      invariant reader.stream.leadin == old(reader.stream.leadin)
      invariant reader.stream.state == old(reader.stream.state) && reader.stream.start == old(reader.stream.start)
    {
      var _ := reader.ReadCompressed(sizes[i]);
      i := i + 1;
    }
  }

  /** Past the current file, having read some of it. */
  method Pass(reader: Reader, sizes: seq<nat>)
    requires reader.Valid() && reader.currFile.Some? && reader.stream.fills
    modifies reader, reader.stream, reader.stream.leadin
    ensures reader.Valid() && reader.stream.leadin == old(reader.stream.leadin)
    ensures reader.stream.state == old(reader.stream.state) && reader.stream.start == old(reader.stream.start)
    ensures reader.Unlisted() == old(reader.Pending())
  {
    ReadParts(reader, sizes);
    var _ := reader.NextFile();
  }

  lemma MoveOver<T>(a: seq<T>, x: T, b: seq<T>)
    ensures a + ([x] + b) == (a + [x]) + b
  {
  }

  /** From the current file on, reading any amount of each. */
  method ListFrom(reader: Reader, sizes: nat -> seq<nat>) returns (files: seq<File>)
    requires reader.Valid() && reader.stream.state == StreamState.Reading && reader.stream.fills
    modifies reader, reader.stream, reader.stream.leadin
    ensures reader.Valid() && reader.stream.state == StreamState.Reading && reader.stream.start == old(reader.stream.start)
    ensures files == old(reader.Unlisted())
  {
    files := [];
    ghost var all := reader.Unlisted();
    while reader.currFile.Some?
      invariant reader.Valid() && reader.stream.leadin == old(reader.stream.leadin)
      invariant reader.stream.state == StreamState.Reading && reader.stream.start == old(reader.stream.start)
      invariant all == files + reader.Unlisted()
      decreases |all| - |files|
    {
      MoveOver(files, reader.currFile.value, reader.Pending());
      files := files + [reader.currFile.value];
      Pass(reader, sizes(|files|));
    }
  }

  /**
   Listing an archive while reading any amount of the compressed data in between: on a source that fills
   its reads after the scan, the headers are those of the archive.
   */
  method ListAll(stream: Stream, accept: File -> bool, sizes: nat -> seq<nat>) returns (files: seq<File>)
    requires stream.Valid() && stream.state == Init && stream.fills
    modifies stream, stream.leadin
    ensures stream.Valid() && stream.Found() && stream.state != Init
    ensures stream.state == Fail ==> files == []
    ensures stream.state == StreamState.Reading ==>
      stream.start <= |stream.data| && files == Listing(stream.data[stream.start..], accept)
  {
    var reader := new Reader(stream, accept);
    var file := reader.NextFile();
    files := [];
    if stream.state != Fail { files := ListFrom(reader, sizes); }
  }
}
