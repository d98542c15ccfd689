/**
 Archives as they are written: headers of the four levels with their extended headers, each followed by its
 compressed data. Whatever is written so is what the basic reader lists.
 */
module ArchiveWriter {
  import opened Bits
  import opened Options
  import opened ExtHeaders
  import opened BasicReader

  // ----- What is written -----

  /** An extended header: 64-bit lengths, or any other block. */
  datatype Ext = Sizes(compressed: nat, length: nat, more: seq<Byte>) | Other(payload: seq<Byte>)

  function ExtBytes(e: Ext): seq<Byte> {
    match e
    case Sizes(compressed, length, more) => [0x42] + (Field(compressed, 8) + (Field(length, 8) + more))
    case Other(payload) => payload
  }

  ghost predicate ExtOk(e: Ext) {
    match e
    case Sizes(compressed, length, _) => compressed < FieldLimit(8) && length < FieldLimit(8)
    case Other(payload) => payload != [] && (payload[0] == 0x42 ==> |payload| < 17)
  }

  function ChainPayloads(chain: seq<Ext>): (r: seq<seq<Byte>>)
    ensures |r| == |chain| && forall i :: 0 <= i < |r| ==> r[i] == ExtBytes(chain[i])
  {
    seq(|chain|, i requires 0 <= i < |chain| => ExtBytes(chain[i]))
  }

  datatype Lengths = Lengths(compressed: nat, length: nat)

  /** The lengths of a file: those of its header, unless the chain has others, the last of which count. */
  function LastSizes(chain: seq<Ext>, lengths: Lengths): Lengths {
    if chain == [] then lengths
    else
      match chain[|chain| - 1]
      case Sizes(compressed, length, _) => Lengths(compressed, length)
      case Other(_) => LastSizes(chain[..|chain| - 1], lengths)
  }

  /**
   A header with its two lengths. `method` and `times` are the five bytes before and behind them, `extra` is what
   follows the level, and `padding` what follows the chain of a level 2 or 3 header.
   */
  datatype Head = Head(level: nat, sum: Byte, method_: seq<Byte>, lengths: Lengths, times: seq<Byte>, extra: seq<Byte>,
                       chain: seq<Ext>, padding: seq<Byte>)

  function Width(h: Head): nat {
    if h.level == 3 then 4 else 2
  }

  function Code(h: Head): seq<Byte> {
    Encode(ChainPayloads(h.chain), Width(h))
  }

  /** All the bytes of a header. */
  function Size(h: Head): nat {
    match h.level
    case 0 => 21 + |h.extra|
    case 1 => 21 + |h.extra| + |Code(h)|
    case 2 => 24 + |Code(h)| + |h.padding|
    case _ => 28 + |Code(h)| + |h.padding|
  }

  /** What a level 2 header says of its size: two less for OS-9. */
  function Announced(h: Head): nat
    requires |h.extra| == 3 && Size(h) >= 2
  {
    if h.extra[2] == 0x4b then Size(h) - 2 else Size(h)
  }

  /** What a level 1 header says of its compressed length: the rest of its chain is counted with it. */
  function Stored(h: Head): nat {
    if h.level == 1 then h.lengths.compressed + (|Code(h)| - 2) else h.lengths.compressed
  }

  ghost predicate HeadOk(h: Head) {
    && |h.method_| == 5 && |h.times| == 5 && Stored(h) < FieldLimit(4) && h.lengths.length < FieldLimit(4)
    && (forall i :: 0 <= i < |h.chain| ==> ExtOk(h.chain[i])) && Encodable(ChainPayloads(h.chain), Width(h))
    && match h.level
       case 0 => h.chain == [] && 22 <= 19 + |h.extra| < 256
       case 1 => 25 <= 21 + |h.extra| < 256
       case 2 => |h.extra| == 3 && 26 <= Announced(h) < 65536
       case 3 => |h.extra| == 3 && 32 <= Size(h) <= 1024 * 1024
       case _ => false
  }

  /** The first two bytes: a size and a sum, or a size of two bytes, or the size of a word. */
  ghost function Start(h: Head): (r: seq<Byte>)
    requires HeadOk(h)
    ensures |r| == 2
  {
    match h.level
    case 0 => [19 + |h.extra|, h.sum]
    case 1 => [21 + |h.extra|, h.sum]
    case 2 => Field(Announced(h), 2)
    case _ => Field(4, 2)
  }

  ghost function Body(h: Head): seq<Byte>
    requires HeadOk(h)
  {
    match h.level
    case 0 => h.extra
    case 1 => h.extra + Code(h)
    case 2 => h.extra + (Code(h) + h.padding)
    case _ => h.extra + (Field(Size(h), 4) + (Code(h) + h.padding))
  }

  ghost function WriteHeader(h: Head): (r: seq<Byte>)
    requires HeadOk(h)
    ensures |r| == Size(h)
  {
    (Start(h) + h.method_) + (Field(Stored(h), 4) + (Field(h.lengths.length, 4) + (h.times + ([h.level] + Body(h)))))
  }

  /** Where the chain begins. */
  function ChainAt(h: Head): nat {
    if h.level == 1 then 21 + |h.extra| else if h.level == 2 then 24 else 28
  }

  // ----- Reading the chain -----

  lemma TwoFields<T>(x: T, a: seq<T>, b: seq<T>, more: seq<T>, n: nat)
    requires |a| == n && |b| == n
    ensures var s := [x] + (a + (b + more));
            s[0] == x && s[1..1 + n] == a && s[1 + n..1 + n + n] == b
  {
  }

  lemma SizesAreRead(p: seq<Byte>, x: Byte, compressed: nat, length: nat, more: seq<Byte>, n: nat)
    requires compressed < FieldLimit(n) && length < FieldLimit(n)
    requires p == [x] + (Field(compressed, n) + (Field(length, n) + more))
    ensures |p| > n + n && p[0] == x && FieldAt(p, 1, n) == compressed && FieldAt(p, 1 + n, n) == length
  {
    TwoFields(x, Field(compressed, n), Field(length, n), more, n);
    FieldUndoes(p, 1, compressed, n);
    FieldUndoes(p, 1 + n, length, n);
  }

  /** The width comes as a variable, so that functions recursive in it are not unfolded as on a literal. */
  lemma AbsorbsSizes(m: Meta, e: Ext, eight: nat)
    requires ExtOk(e) && eight == 8
    ensures ExtBytes(e) != []
    ensures var r := Absorb(m, ExtBytes(e));
            Lengths(r.compressed, r.length) ==
            match e
            case Sizes(compressed, length, _) => Lengths(compressed, length)
            case Other(_) => Lengths(m.compressed, m.length)
  {
    if e.Sizes? {
      SizesAreRead(ExtBytes(e), 0x42, e.compressed, e.length, e.more, eight);
      assert TYPES[9].num == 0x42 && TYPES[9].minLen == 16;
    }
  }

  ghost predicate ChainOk(chain: seq<Ext>) {
    forall i :: 0 <= i < |chain| ==> ExtOk(chain[i])
  }

  /** Decoding a chain leaves the lengths that count. */
  lemma {:induction false} ChainLengths(m: Meta, chain: seq<Ext>)
    requires ChainOk(chain)
    ensures forall i :: 0 <= i < |chain| ==> ChainPayloads(chain)[i] != []
    ensures var r := AbsorbAll(m, ChainPayloads(chain));
            Lengths(r.compressed, r.length) == LastSizes(chain, Lengths(m.compressed, m.length))
  {
    if chain != [] {
      var n := |chain| - 1;
      ChainLengths(m, chain[..n]);
      assert ChainPayloads(chain)[..n] == ChainPayloads(chain[..n]);
      AbsorbsSizes(AbsorbAll(m, ChainPayloads(chain[..n])), chain[n], 8);
    }
  }

  // ----- Reading a header -----

  ghost function MetaOf(h: Head): Meta {
    Meta(None, h.lengths.compressed, h.lengths.length, map[])
  }

  lemma ChainIsFound(h: Head, raw: seq<Byte>)
    requires HeadOk(h) && ChainAt(h) <= |raw| && Code(h) <= raw[ChainAt(h)..]
    ensures ChainAt(h) + Width(h) <= |raw|
    ensures var w := Walk(raw, ChainAt(h), Width(h));
            w.Some? && Inside(raw, w.value) && Payloads(raw, w.value) == ChainPayloads(h.chain)
  {
    WalkUndoesEncode(raw, ChainAt(h), ChainPayloads(h.chain), Width(h));
  }

  lemma BehindPrefix(s: seq<Byte>, a: seq<Byte>, more: seq<Byte>)
    requires |s| >= 21 && s[21..] == a + more
    ensures 21 + |a| <= |s| && s[21 + |a|..] == more
  {
    assert s[21 + |a|..] == s[21..][|a|..];
  }

  lemma FrontOf(a: seq<Byte>, b: seq<Byte>)
    ensures a <= a + b
  {
  }

  /** The chain lies in the header where it is looked for. */
  lemma ChainIsThere(h: Head)
    requires HeadOk(h) && h.level > 0
    ensures ChainAt(h) <= Size(h) && Code(h) <= WriteHeader(h)[ChainAt(h)..]
  {
    var s, code := WriteHeader(h), Code(h);
    BodyOf(h);
    FrontOf(code, h.padding);
    if h.level == 1 {
      BehindPrefix(s, h.extra, code);
    } else if h.level == 2 {
      BehindPrefix(s, h.extra, code + h.padding);
    } else {
      var field := Field(Size(h), 4);
      Associate(h.extra, field, code + h.padding);
      BehindPrefix(s, h.extra + field, code + h.padding);
    }
  }

  lemma BodyOf(h: Head)
    requires HeadOk(h)
    ensures Size(h) >= 21 && WriteHeader(h)[21..] == Body(h)
  {
    HeaderParts(h, []);
    assert WriteHeader(h) + [] == WriteHeader(h) && Body(h) + [] == Body(h);
  }

  lemma Layout(a: seq<Byte>, b: seq<Byte>, c: seq<Byte>, d: seq<Byte>, e: seq<Byte>, more: seq<Byte>)
    requires |a| == 7 && |b| == 4 && |c| == 4 && |d| == 5 && |e| == 1
    ensures var s := a + (b + (c + (d + (e + more))));
            && s[..7] == a && s[7..11] == b && s[11..15] == c && s[15..20] == d && s[20] == e[0] && s[21..] == more
  {
  }

  lemma Append(a: seq<Byte>, b: seq<Byte>, c: seq<Byte>, d: seq<Byte>, e: seq<Byte>, more: seq<Byte>, tail: seq<Byte>)
    ensures (a + (b + (c + (d + (e + more))))) + tail == a + (b + (c + (d + (e + (more + tail)))))
  {
  }

  /** The parts of a header, wherever it stands. */
  lemma HeaderParts(h: Head, tail: seq<Byte>)
    requires HeadOk(h)
    ensures var s := WriteHeader(h) + tail;
            && |s| >= 22 && s[..2] == Start(h) && s[7..11] == Field(Stored(h), 4)
            && s[11..15] == Field(h.lengths.length, 4) && s[20] == h.level && s[21..] == Body(h) + tail
  {
    var a, b, c := Start(h) + h.method_, Field(Stored(h), 4), Field(h.lengths.length, 4);
    Append(a, b, c, h.times, [h.level], Body(h), tail);
    Layout(a, b, c, h.times, [h.level], Body(h) + tail);
    var s := WriteHeader(h) + tail;
    assert s[..2] == s[..7][..2];
  }

  lemma LengthsAreRead(h: Head, tail: seq<Byte>)
    requires HeadOk(h)
    ensures |WriteHeader(h) + tail| >= 22
    ensures BaseMeta(WriteHeader(h) + tail) == Meta(None, Stored(h), h.lengths.length, map[])
  {
    var s := WriteHeader(h) + tail;
    HeaderParts(h, tail);
    FieldUndoes(s, 7, Stored(h), 4);
    FieldUndoes(s, 11, h.lengths.length, 4);
  }

  /** The part of a header that is read at once: all of it, but for the chain of level 1. */
  function BaseSize(h: Head): nat {
    if h.level == 1 then 23 + |h.extra| else Size(h)
  }

  lemma BaseIsRead(h: Head, tail: seq<Byte>)
    requires HeadOk(h)
    ensures BaseLength(WriteHeader(h) + tail) == Some(BaseSize(h))
  {
    var s := WriteHeader(h) + tail;
    HeaderParts(h, tail);
    match h.level
    case 0 => assert s[0] == s[..2][0];
    case 1 => assert s[0] == s[..2][0];
    case 2 =>
      FieldOfStart(s, Announced(h));
      OsIsRead(h, tail);
    case _ =>
      FieldOfStart(s, 4);
      SizeIsRead(h, tail);
  }

  lemma FieldOfStart(s: seq<Byte>, n: nat)
    requires |s| >= 2 && n < 65536 && s[..2] == Field(n, 2)
    ensures FieldAt(s, 0, 2) == n
  {
    assert s[0..2] == s[..2];
    FieldUndoes(s, 0, n, 2);
  }

  lemma OsIsRead(h: Head, tail: seq<Byte>)
    requires HeadOk(h) && h.level == 2
    ensures |WriteHeader(h) + tail| > 23 && (WriteHeader(h) + tail)[23] == h.extra[2]
  {
    HeaderParts(h, tail);
    var s := WriteHeader(h) + tail;
    assert s[23] == s[21..][2];
  }

  lemma SizeIsRead(h: Head, tail: seq<Byte>)
    requires HeadOk(h) && h.level == 3
    ensures |WriteHeader(h) + tail| >= 28 && FieldAt(WriteHeader(h) + tail, 24, 4) == Size(h)
  {
    HeaderParts(h, tail);
    var s := WriteHeader(h) + tail;
    var more := Code(h) + h.padding;
    Regroup(h.extra, Field(Size(h), 4), more, tail);
    FieldAfter(s, h.extra, Size(h), more + tail, 4);
  }

  lemma ShiftSlice<T>(s: seq<T>, k: nat, i: nat, j: nat)
    requires k <= |s| && i <= j <= |s| - k
    ensures s[k..][i..j] == s[k + i..k + j]
  {
  }

  lemma Middle<T>(a: seq<T>, b: seq<T>, c: seq<T>)
    ensures (a + (b + c))[|a|..|a| + |b|] == b
  {
  }

  lemma FieldAfter(s: seq<Byte>, a: seq<Byte>, n: nat, more: seq<Byte>, width: nat)
    requires |s| >= 21 && |a| == 3 && n < FieldLimit(width) && s[21..] == a + (Field(n, width) + more)
    ensures 24 + width <= |s| && FieldAt(s, 24, width) == n
  {
    Middle(a, Field(n, width), more);
    ShiftSlice(s, 21, 3, 3 + width);
    FieldUndoes(s, 24, n, width);
  }

  /** The file that a header describes: its bytes with any CRC cleared, and what the chain makes of its lengths. */
  ghost function FileOf(h: Head): File
    requires HeadOk(h)
  {
    if h.level == 0 then File(WriteHeader(h), MetaOf(h))
    else
      ChainIsThere(h);
      ChainIsFound(h, WriteHeader(h));
      ChainLengths(MetaOf(h), h.chain);
      File(Cleared(WriteHeader(h), Walk(WriteHeader(h), ChainAt(h), Width(h)).value),
           AbsorbAll(MetaOf(h), ChainPayloads(h.chain)))
  }

  /** The lengths are those written, unless the chain has others. */
  lemma FileLengths(h: Head)
    requires HeadOk(h)
    ensures var m := FileOf(h).meta; Lengths(m.compressed, m.length) == LastSizes(h.chain, h.lengths)
  {
    ChainLengths(MetaOf(h), h.chain);
  }

  /** The extended headers are decoded. */
  lemma ChainIsFinished(h: Head, tail: seq<Byte>)
    requires HeadOk(h) && h.level > 0
    ensures ChainAt(h) + Width(h) <= Size(h)
    ensures Finish(WriteHeader(h), tail, MetaOf(h), ChainAt(h), Width(h)) == Some(Parsed(FileOf(h), tail))
  {
    ChainIsThere(h);
    ChainIsFound(h, WriteHeader(h));
    WalkInside(WriteHeader(h), ChainAt(h), Width(h));
  }

  lemma Cut(s: seq<Byte>, tail: seq<Byte>)
    ensures (s + tail)[..|s|] == s && (s + tail)[|s|..] == tail
  {
  }

  /** With the first length field read, the chain behind `base` is still unread. */
  lemma UnreadAt(s: seq<Byte>, base: seq<Byte>, code: seq<Byte>, payloads: seq<seq<Byte>>, tail: seq<Byte>,
                 compressed: nat, stored: nat, n: nat, width: nat)
    requires code == Encode(payloads, width) && s == (base + code) + tail
    requires n == |base| + width && stored == compressed + (|code| - width)
    ensures n <= |s| && Reading(s[..n], s[n..], stored) == Unread(base, payloads, tail, compressed, width)
  {
    BaseSplits(base, code, tail, width);
  }

  lemma BaseOf(h: Head) returns (base: seq<Byte>)
    requires HeadOk(h) && h.level == 1
    ensures |base| == 21 + |h.extra| && WriteHeader(h) == base + Code(h)
  {
    BodyOf(h);
    base := WriteHeader(h)[..21 + |h.extra|];
    BaseAndCode(WriteHeader(h), h.extra, Code(h));
  }

  /** A level 1 header before its chain has been read. */
  lemma ChainIsRead(h: Head, s: seq<Byte>, tail: seq<Byte>, width: nat)
    requires HeadOk(h) && h.level == 1 && width == Width(h) && s == WriteHeader(h) + tail
    ensures BaseSize(h) <= |s|
    ensures ReadChain(Reading(s[..BaseSize(h)], s[BaseSize(h)..], Stored(h)), width)
            == Some(Reading(WriteHeader(h), tail, h.lengths.compressed))
  {
    var base := BaseOf(h);
    UnreadAt(s, base, Code(h), ChainPayloads(h.chain), tail, h.lengths.compressed, Stored(h), BaseSize(h), width);
    ReadChainTakesEncoding(base, ChainPayloads(h.chain), tail, h.lengths.compressed, width);
  }

  lemma BaseAndCode(s: seq<Byte>, extra: seq<Byte>, code: seq<Byte>)
    requires |s| >= 21 && s[21..] == extra + code
    ensures s == s[..21 + |extra|] + code
  {
    assert s == s[..21] + s[21..];
  }

  lemma BaseSplits(base: seq<Byte>, code: seq<Byte>, tail: seq<Byte>, width: nat)
    requires |code| >= width
    ensures ((base + code) + tail)[..|base| + width] == base + code[..width]
    ensures ((base + code) + tail)[|base| + width..] == code[width..] + tail
  {
  }

  /** Which way a header of each level is decoded once its base has been read. */
  lemma ParseIs(s: seq<Byte>, n: nat, m: Meta)
    requires BaseLength(s) == Some(n) && BaseMeta(s) == m
    ensures s[20] == 0 ==> Parse(s) == Some(Parsed(File(s[..n], m), s[n..]))
    ensures s[20] == 1 ==> Parse(s) == ParseChain(Reading(s[..n], s[n..], m.compressed), m, 2)
    ensures s[20] == 2 ==> Parse(s) == Finish(s[..n], s[n..], m, 24, 2)
    ensures s[20] == 3 ==> Parse(s) == Finish(s[..n], s[n..], m, 28, 4)
  {
  }

  lemma ParseChainIs(r: Reading, e: Reading, m: Meta, width: nat, at: nat, p: Parsed)
    requires |r.raw| == at + width && ReadChain(r, width) == Some(e)
    requires at + width <= |e.raw| && Finish(e.raw, e.rest, m.(compressed := e.compressed), at, width) == Some(p)
    ensures ParseChain(r, m, width) == Some(p)
  {
    ReadChainLosesNothing(r, width);
  }

  /** What is found at the start of a header that was written. */
  lemma BaseFacts(h: Head, s: seq<Byte>, tail: seq<Byte>)
    requires HeadOk(h) && s == WriteHeader(h) + tail
    ensures BaseLength(s) == Some(BaseSize(h)) && s[20] == h.level
    ensures BaseMeta(s) == Meta(None, Stored(h), h.lengths.length, map[])
  {
    BaseIsRead(h, tail);
    LengthsAreRead(h, tail);
    HeaderParts(h, tail);
  }

  lemma Level1IsParsed(h: Head, s: seq<Byte>, tail: seq<Byte>, width: nat)
    requires HeadOk(h) && h.level == 1 && width == Width(h) && s == WriteHeader(h) + tail
    ensures Parse(s) == Some(Parsed(FileOf(h), tail))
  {
    var n, m := BaseSize(h), Meta(None, Stored(h), h.lengths.length, map[]);
    BaseFacts(h, s, tail);
    ParseIs(s, n, m);
    ChainIsRead(h, s, tail, width);
    ChainIsFinished(h, tail);
    ParseChainIs(Reading(s[..n], s[n..], Stored(h)), Reading(WriteHeader(h), tail, h.lengths.compressed), m, width,
                 ChainAt(h), Parsed(FileOf(h), tail));
  }

  /** A header that was written is read back with its lengths and its chain, and nothing behind it is touched. */
  lemma HeaderIsParsed(h: Head, tail: seq<Byte>)
    requires HeadOk(h)
    ensures Parse(WriteHeader(h) + tail) == Some(Parsed(FileOf(h), tail))
  {
    var s := WriteHeader(h) + tail;
    if h.level == 1 {
      Level1IsParsed(h, s, tail, Width(h));
    } else {
      BaseFacts(h, s, tail);
      ParseIs(s, Size(h), MetaOf(h));
      Cut(WriteHeader(h), tail);
      if h.level > 0 { ChainIsFinished(h, tail); }
    }
  }

  lemma HeaderIsRead(h: Head, accept: File -> bool, tail: seq<Byte>)
    requires HeadOk(h) && accept(FileOf(h))
    ensures HeaderAt(WriteHeader(h) + tail, accept) == Some(Parsed(FileOf(h), tail))
  {
    HeaderIsParsed(h, tail);
  }

  // ----- Whole archives -----

  /** A header and the compressed data behind it. */
  datatype Member = Member(head: Head, data: seq<Byte>)

  ghost predicate MemberOk(m: Member, accept: File -> bool) {
    && HeadOk(m.head) && accept(FileOf(m.head))
    && |m.data| == LastSizes(m.head.chain, m.head.lengths).compressed
  }

  ghost predicate ArchiveOk(members: seq<Member>, accept: File -> bool) {
    forall i :: 0 <= i < |members| ==> MemberOk(members[i], accept)
  }

  ghost function WriteArchive(members: seq<Member>, accept: File -> bool): seq<Byte>
    requires ArchiveOk(members, accept)
  {
    if members == [] then []
    else
      assert MemberOk(members[0], accept);
      (WriteHeader(members[0].head) + members[0].data) + WriteArchive(members[1..], accept)
  }

  ghost function Files(members: seq<Member>, accept: File -> bool): (r: seq<File>)
    requires ArchiveOk(members, accept)
    ensures |r| == |members|
  {
    if members == [] then []
    else
      assert MemberOk(members[0], accept);
      [FileOf(members[0].head)] + Files(members[1..], accept)
  }

  lemma MemberIsListed(m: Member, accept: File -> bool, rest: seq<Byte>)
    requires MemberOk(m, accept)
    ensures Listing(WriteHeader(m.head) + (m.data + rest), accept) == [FileOf(m.head)] + Listing(rest, accept)
  {
    HeaderIsRead(m.head, accept, m.data + rest);
    FileLengths(m.head);
    Cut(m.data, rest);
  }

  /** Listing an archive finds the files it was written from, in order, and goes on behind them. */
  lemma {:induction false} ArchiveIsListed(members: seq<Member>, accept: File -> bool, tail: seq<Byte>)
    requires ArchiveOk(members, accept)
    ensures Listing(WriteArchive(members, accept) + tail, accept) == Files(members, accept) + Listing(tail, accept)
    decreases |members|
  {
    if members == [] {
      assert [] + tail == tail;
      assert Files(members, accept) + Listing(tail, accept) == Listing(tail, accept);
    } else {
      var m, more := members[0], WriteArchive(members[1..], accept);
      assert MemberOk(m, accept);
      ArchiveIsListed(members[1..], accept, tail);
      MemberIsListed(m, accept, more + tail);
      JoinMember(WriteHeader(m.head), m.data, more, tail);
      Associate([FileOf(m.head)], Files(members[1..], accept), Listing(tail, accept));
    }
  }

  lemma JoinMember(head: seq<Byte>, data: seq<Byte>, more: seq<Byte>, tail: seq<Byte>)
    ensures ((head + data) + more) + tail == head + (data + (more + tail))
  {
  }
}
