/** MacBinary headers as they are written: which files they are taken for, and what is left of the file behind them. */
module MacBinaryHeaders {
  import opened LhaDecoder
  import opened MacBinary

  /** What a header tells, with the bytes that do not matter here; numbers are four bytes, the first weighing most. */
  datatype MacFile = MacFile(
    nameLength: bv8, name: Bytes, kind: Bytes, flags: Bytes, data: Bytes, resource: Bytes, created: Bytes, modified: Bytes)

  ghost predicate MacOk(m: MacFile) {
    && m.nameLength as nat == |m.name| <= 63 && |m.kind| == 9 && |m.flags| == 7
    && |m.data| == 4 && |m.resource| == 4 && |m.created| == 4 && |m.modified| == 4
  }

  function Number(b: Bytes): nat
    requires |b| == 4
  {
    0x100_0000 * b[0] as nat + 0x1_0000 * b[1] as nat + 0x100 * b[2] as nat + b[3] as nat
  }

  function Zeros(n: nat): Bytes {
    seq(n, _ => 0)
  }

  /** Version, length of the name, name: 65 bytes. */
  function NamePart(n: bv8, name: Bytes): (r: Bytes)
    requires |name| <= 63
    ensures |r| == 65
  {
    [0, n] + name + Zeros(63 - |name|)
  }

  /** Type, creator and position between zeros at 74 and 82: 18 bytes. */
  function KindPart(kind: Bytes, flags: Bytes): (r: Bytes)
    requires |kind| == 9 && |flags| == 7
    ensures |r| == 18
  {
    kind + [0] + flags + [0]
  }

  ghost function WriteHeader(m: MacFile): (r: Bytes)
    requires MacOk(m)
    ensures |r| == 128
  {
    NamePart(m.nameLength, m.name) + KindPart(m.kind, m.flags)
    + (m.data + m.resource + m.created + m.modified) + Zeros(29)
  }

  // ----- Reading the fields back -----

  lemma NumberIsRead(d: Bytes, at: nat, b: Bytes)
    requires at + 4 <= |d| && |b| == 4 && d[at..at + 4] == b
    ensures BigEndian32(d, at) == Number(b)
  {
    assert d[at] == b[0] && d[at + 1] == b[1] && d[at + 2] == b[2] && d[at + 3] == b[3];
  }

  lemma SliceOfSlice<T>(s: seq<T>, a: nat, b: nat, i: nat, j: nat)
    requires a <= b <= |s| && i <= j <= b - a
    ensures s[a..b][i..j] == s[a + i..a + j]
  {
    assert |s[a..b][i..j]| == |s[a + i..a + j]|;
    forall k | 0 <= k < j - i ensures s[a..b][i..j][k] == s[a + i..a + j][k] { }
  }

  lemma SliceBehind<T>(head: seq<T>, body: seq<T>, k: nat)
    requires k <= |body|
    ensures (head + body)[|head|..|head| + k] == body[..k]
  {
  }

  /** The parts of a header of four parts. */
  lemma PartsOf<T>(a: seq<T>, b: seq<T>, c: seq<T>, e: seq<T>)
    ensures var d := a + b + c + e;
            var i, j, k := |a|, |a| + |b|, |a| + |b| + |c|;
            d[..i] == a && d[i..j] == b && d[j..k] == c && d[k..] == e
  {
  }

  lemma NumbersAreRead(d: Bytes, data: Bytes, resource: Bytes, created: Bytes, modified: Bytes)
    requires |d| == 128 && |data| == 4 && |resource| == 4 && |created| == 4 && |modified| == 4
    requires d[83..99] == data + resource + created + modified
    ensures DataFork(d) == Number(data) && ResourceFork(d) == Number(resource)
    ensures BigEndian32(d, 0x5f) == Number(modified)
  {
    PartsOf(data, resource, created, modified);
    SliceOfSlice(d, 83, 99, 0, 4);
    SliceOfSlice(d, 83, 99, 4, 8);
    SliceOfSlice(d, 83, 99, 12, 16);
    assert d[83..99][12..] == d[83..99][12..16] && d[83..99][..4] == d[83..99][0..4];
    NumberIsRead(d, 83, data);
    NumberIsRead(d, 87, resource);
    NumberIsRead(d, 95, modified);
  }

  lemma KindIsRead(d: Bytes, kind: Bytes, flags: Bytes)
    requires |d| == 128 && |kind| == 9 && |flags| == 7 && d[65..83] == KindPart(kind, flags)
    ensures d[0x4a] == 0 && d[0x52] == 0
  {
    var part := d[65..83];
    assert d[74] == part[9] && d[82] == part[17];
  }

  lemma NameIsRead(d: Bytes, n: bv8, name: Bytes)
    requires |d| == 128 && |name| <= 63 && d[..65] == NamePart(n, name)
    ensures d[0] == 0 && d[1] == n
    ensures d[2..2 + |name|] == name && IsZero(d[2 + |name|..65])
  {
    var part := d[..65];
    assert d[0] == part[0] && d[1] == part[1];
    assert d[2..2 + |name|] == part[2..2 + |name|] == name;
    assert d[2 + |name|..65] == part[2 + |name|..] == Zeros(63 - |name|);
  }

  ghost predicate Agrees(m: MacFile, info: FileInfo)
    requires MacOk(m)
  {
    && info.filename == m.name
    && info.length == RoundedLength(Number(m.data) + Number(m.resource))
    && Number(m.modified) >= 2082844800
    && info.timestamp - 50400 <= Number(m.modified) - 2082844800 <= info.timestamp + 50400
  }

  /** A multiple of 128 that leaves room for the header and both forks, and no smaller one does. */
  lemma RoundedLengthIs(forks: nat)
    requires forks + 255 < 0x1_0000_0000
    ensures var r := RoundedLength(forks); r % 128 == 0 && forks + 128 <= r < forks + 256
  {
  }

  /** A header that was written is recognised exactly if name, rounded length and time, within 14 hours, agree. */
  lemma WrittenIsRecognised(m: MacFile, info: FileInfo)
    requires MacOk(m)
    ensures IsMacBinaryHeader(WriteHeader(m), info) <==> Agrees(m, info)
    ensures DataFork(WriteHeader(m)) == Number(m.data) && ResourceFork(WriteHeader(m)) == Number(m.resource)
  {
    var d := WriteHeader(m);
    PartsOf(NamePart(m.nameLength, m.name), KindPart(m.kind, m.flags), m.data + m.resource + m.created + m.modified, Zeros(29));
    NameIsRead(d, m.nameLength, m.name);
    KindIsRead(d, m.kind, m.flags);
    NumbersAreRead(d, m.data, m.resource, m.created, m.modified);
    assert d[99..] == Zeros(29);
    assert d[0x63..0x65] == d[99..][..2] && d[0x65..] == d[99..][2..];
  }

  lemma ForkBehind(h: Bytes, body: Bytes, info: FileInfo)
    requires |h| == 128 && IsMacBinaryHeader(h, info) && 128 + |body| <= info.length
    ensures var fork := if DataFork(h) > 0 then DataFork(h) else ResourceFork(h);
            StillToCome(h + body, Start(h + body, info)) == body[..Min(fork, |body|)]
  {
    var fork := if DataFork(h) > 0 then DataFork(h) else ResourceFork(h);
    assert (h + body)[..128] == h;
    PassesStreamOrFork(h + body, info);
    CutBehind(h, body, fork);
  }

  lemma CutBehind<T>(h: seq<T>, body: seq<T>, fork: nat)
    requires |h| == 128
    ensures (h + body)[128..Min(128 + fork, |h + body|)] == body[..Min(fork, |body|)]
  {
    SliceBehind(h, body, Min(fork, |body|));
  }

  lemma AllPasses(h: Bytes, body: Bytes, info: FileInfo)
    requires |h| == 128 && !IsMacBinaryHeader(h, info) && 128 + |body| <= info.length
    ensures StillToCome(h + body, Start(h + body, info)) == h + body
  {
    assert (h + body)[..128] == h;
    PassesStreamOrFork(h + body, info);
  }

  /**
   Behind a header that agrees, the data fork comes out, or the resource fork if there is none; otherwise the whole
   stream does, the header included.
   */
  lemma ForkComesOut(m: MacFile, body: Bytes, info: FileInfo)
    requires MacOk(m) && 128 + |body| <= info.length
    ensures var inner, fork := WriteHeader(m) + body, if Number(m.data) > 0 then Number(m.data) else Number(m.resource);
            StillToCome(inner, Start(inner, info)) == if Agrees(m, info) then body[..Min(fork, |body|)] else inner
  {
    WrittenIsRecognised(m, info);
    if Agrees(m, info) {
      ForkBehind(WriteHeader(m), body, info);
    } else {
      AllPasses(WriteHeader(m), body, info);
    }
  }
}
