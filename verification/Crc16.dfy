/** CRC-16 of the archive format: the table-driven loop against the bit-at-a-time reflected CRC with polynomial 0xA001. */
module Crc16 {

  // ----- The definition, one bit at a time -----

  function Shift(x: bv16): bv16 {
    if x & 1 == 1 then (x >> 1) ^ 0xA001 else x >> 1
  }

  function Shifted(x: bv16, n: nat): bv16
    decreases n, x
  {
    if n == 0 then x else Shifted(Shift(x), n - 1)
  }

  function Xor(x: bv16, y: bv16): bv16 { x ^ y }

  function Feed(crc: bv16, b: bv8): bv16 {
    Shifted(Xor(crc, b as bv16), 8)
  }

  /** The CRC of a message, continuing from crc. */
  function Crc(crc: bv16, message: seq<bv8>): bv16
    decreases |message|
  {
    if message == [] then crc else Feed(Crc(crc, message[..|message| - 1]), message[|message| - 1])
  }

  /** A message may be fed in any number of pieces. */
  lemma {:induction false} CrcOfPieces(crc: bv16, a: seq<bv8>, b: seq<bv8>)
    ensures Crc(crc, a + b) == Crc(Crc(crc, a), b)
    decreases |b|
  {
    if b == [] {
      assert a + b == a;
    } else {
      assert (a + b)[..|a + b| - 1] == a + b[..|b| - 1];
      CrcOfPieces(crc, a, b[..|b| - 1]);
    }
  }

  // ----- The table -----

  /** One of sixteen entries, by the low four bits of the index. */
  function Pick(i: bv16, e0: bv16, e1: bv16, e2: bv16, e3: bv16, e4: bv16, e5: bv16, e6: bv16, e7: bv16,
                e8: bv16, e9: bv16, e10: bv16, e11: bv16, e12: bv16, e13: bv16, e14: bv16, e15: bv16): bv16
  {
    var lo := i & 0xf;
    if lo == 0 then e0 else if lo == 1 then e1 else if lo == 2 then e2 else if lo == 3 then e3
    else if lo == 4 then e4 else if lo == 5 then e5 else if lo == 6 then e6 else if lo == 7 then e7
    else if lo == 8 then e8 else if lo == 9 then e9 else if lo == 10 then e10 else if lo == 11 then e11
    else if lo == 12 then e12 else if lo == 13 then e13 else if lo == 14 then e14 else e15
  }

  /** The constant table, sixteen entries to a line. */
  function Table(i: bv16): bv16 {
    var hi := i >> 4;
    if hi == 0 then
      Pick(i, 0x0000, 0xc0c1, 0xc181, 0x0140, 0xc301, 0x03c0, 0x0280, 0xc241, 0xc601, 0x06c0, 0x0780, 0xc741, 0x0500, 0xc5c1, 0xc481, 0x0440)
    else if hi == 1 then
      Pick(i, 0xcc01, 0x0cc0, 0x0d80, 0xcd41, 0x0f00, 0xcfc1, 0xce81, 0x0e40, 0x0a00, 0xcac1, 0xcb81, 0x0b40, 0xc901, 0x09c0, 0x0880, 0xc841)
    else if hi == 2 then
      Pick(i, 0xd801, 0x18c0, 0x1980, 0xd941, 0x1b00, 0xdbc1, 0xda81, 0x1a40, 0x1e00, 0xdec1, 0xdf81, 0x1f40, 0xdd01, 0x1dc0, 0x1c80, 0xdc41)
    else if hi == 3 then
      Pick(i, 0x1400, 0xd4c1, 0xd581, 0x1540, 0xd701, 0x17c0, 0x1680, 0xd641, 0xd201, 0x12c0, 0x1380, 0xd341, 0x1100, 0xd1c1, 0xd081, 0x1040)
    else if hi == 4 then
      Pick(i, 0xf001, 0x30c0, 0x3180, 0xf141, 0x3300, 0xf3c1, 0xf281, 0x3240, 0x3600, 0xf6c1, 0xf781, 0x3740, 0xf501, 0x35c0, 0x3480, 0xf441)
    else if hi == 5 then
      Pick(i, 0x3c00, 0xfcc1, 0xfd81, 0x3d40, 0xff01, 0x3fc0, 0x3e80, 0xfe41, 0xfa01, 0x3ac0, 0x3b80, 0xfb41, 0x3900, 0xf9c1, 0xf881, 0x3840)
    else if hi == 6 then
      Pick(i, 0x2800, 0xe8c1, 0xe981, 0x2940, 0xeb01, 0x2bc0, 0x2a80, 0xea41, 0xee01, 0x2ec0, 0x2f80, 0xef41, 0x2d00, 0xedc1, 0xec81, 0x2c40)
    else if hi == 7 then
      Pick(i, 0xe401, 0x24c0, 0x2580, 0xe541, 0x2700, 0xe7c1, 0xe681, 0x2640, 0x2200, 0xe2c1, 0xe381, 0x2340, 0xe101, 0x21c0, 0x2080, 0xe041)
    else if hi == 8 then
      Pick(i, 0xa001, 0x60c0, 0x6180, 0xa141, 0x6300, 0xa3c1, 0xa281, 0x6240, 0x6600, 0xa6c1, 0xa781, 0x6740, 0xa501, 0x65c0, 0x6480, 0xa441)
    else if hi == 9 then
      Pick(i, 0x6c00, 0xacc1, 0xad81, 0x6d40, 0xaf01, 0x6fc0, 0x6e80, 0xae41, 0xaa01, 0x6ac0, 0x6b80, 0xab41, 0x6900, 0xa9c1, 0xa881, 0x6840)
    else if hi == 10 then
      Pick(i, 0x7800, 0xb8c1, 0xb981, 0x7940, 0xbb01, 0x7bc0, 0x7a80, 0xba41, 0xbe01, 0x7ec0, 0x7f80, 0xbf41, 0x7d00, 0xbdc1, 0xbc81, 0x7c40)
    else if hi == 11 then
      Pick(i, 0xb401, 0x74c0, 0x7580, 0xb541, 0x7700, 0xb7c1, 0xb681, 0x7640, 0x7200, 0xb2c1, 0xb381, 0x7340, 0xb101, 0x71c0, 0x7080, 0xb041)
    else if hi == 12 then
      Pick(i, 0x5000, 0x90c1, 0x9181, 0x5140, 0x9301, 0x53c0, 0x5280, 0x9241, 0x9601, 0x56c0, 0x5780, 0x9741, 0x5500, 0x95c1, 0x9481, 0x5440)
    else if hi == 13 then
      Pick(i, 0x9c01, 0x5cc0, 0x5d80, 0x9d41, 0x5f00, 0x9fc1, 0x9e81, 0x5e40, 0x5a00, 0x9ac1, 0x9b81, 0x5b40, 0x9901, 0x59c0, 0x5880, 0x9841)
    else if hi == 14 then
      Pick(i, 0x8801, 0x48c0, 0x4980, 0x8941, 0x4b00, 0x8bc1, 0x8a81, 0x4a40, 0x4e00, 0x8ec1, 0x8f81, 0x4f40, 0x8d01, 0x4dc0, 0x4c80, 0x8c41)
    else
      Pick(i, 0x4400, 0x84c1, 0x8581, 0x4540, 0x8701, 0x47c0, 0x4680, 0x8641, 0x8201, 0x42c0, 0x4380, 0x8341, 0x4100, 0x81c1, 0x8081, 0x4040)
  }

  /** Eight shifts spelled out. */
  function Shift8(x: bv16): bv16 {
    Shift(Shift(Shift(Shift(Shift(Shift(Shift(Shift(x))))))))
  }

  lemma TableFrom00(i: bv16)
    requires i >> 4 == 0
    ensures Table(i) == Shift8(i)
  {
  }

  lemma TableFrom10(i: bv16)
    requires i >> 4 == 1
    ensures Table(i) == Shift8(i)
  {
  }

  lemma TableFrom20(i: bv16)
    requires i >> 5 == 1
    ensures Table(i) == Shift8(i)
  {
  }

  lemma TableFrom40(i: bv16)
    requires i >> 5 == 2
    ensures Table(i) == Shift8(i)
  {
  }

  lemma TableFrom60(i: bv16)
    requires i >> 5 == 3
    ensures Table(i) == Shift8(i)
  {
  }

  lemma TableFrom80(i: bv16)
    requires i >> 5 == 4
    ensures Table(i) == Shift8(i)
  {
  }

  lemma TableFromA0(i: bv16)
    requires i >> 5 == 5
    ensures Table(i) == Shift8(i)
  {
  }

  lemma TableFromC0(i: bv16)
    requires i >> 5 == 6
    ensures Table(i) == Shift8(i)
  {
  }

  lemma TableFromE0(i: bv16)
    requires i >> 5 == 7
    ensures Table(i) == Shift8(i)
  {
  }

  lemma Shift8IsShifted(x: bv16)
    ensures Shift8(x) == Shifted(x, 8)
  {
    var x1 := Shift(x);
    var x2 := Shift(x1);
    var x3 := Shift(x2);
    var x4 := Shift(x3);
    var x5 := Shift(x4);
    var x6 := Shift(x5);
    var x7 := Shift(x6);
    assert Shifted(x7, 1) == Shift(x7);
    assert Shifted(x6, 2) == Shifted(x7, 1);
    assert Shifted(x5, 3) == Shifted(x6, 2);
    assert Shifted(x4, 4) == Shifted(x5, 3);
    assert Shifted(x3, 5) == Shifted(x4, 4);
    assert Shifted(x2, 6) == Shifted(x3, 5);
    assert Shifted(x1, 7) == Shifted(x2, 6);
  }

  /** Each table entry is what eight shifts do to its index. */
  lemma TableIsShifted(i: bv16)
    requires i <= 0xff
    ensures Table(i) == Shifted(i, 8)
  {
    TableIsShift8(i);
    Shift8IsShifted(i);
  }

  lemma TableIsShift8(i: bv16)
    requires i <= 0xff
    ensures Table(i) == Shift8(i)
  {
    if i >> 4 == 0 { TableFrom00(i); }
    else if i >> 4 == 1 { TableFrom10(i); }
    else if i >> 5 == 1 { TableFrom20(i); }
    else if i >> 5 == 2 { TableFrom40(i); }
    else if i >> 5 == 3 { TableFrom60(i); }
    else if i >> 5 == 4 { TableFrom80(i); }
    else if i >> 5 == 5 { TableFromA0(i); }
    else if i >> 5 == 6 { TableFromC0(i); }
    else { TableFromE0(i); }
  }

  // ----- Shifting is linear and loses nothing -----

  function Iterate<T>(f: T -> T, x: T, n: nat): T
    decreases n
  {
    if n == 0 then x else Iterate(f, f(x), n - 1)
  }

  lemma {:induction false} IterateIsLinear<T(!new)>(f: T -> T, op: (T, T) -> T, x: T, y: T, n: nat)
    requires forall a, b :: f(op(a, b)) == op(f(a), f(b))
    ensures Iterate(f, op(x, y), n) == op(Iterate(f, x, n), Iterate(f, y, n))
    decreases n
  {
    if n > 0 { IterateIsLinear(f, op, f(x), f(y), n - 1); }
  }

  lemma {:induction false} ShiftedIterates(x: bv16, n: nat)
    ensures Shifted(x, n) == Iterate(Shift, x, n)
    decreases n
  {
    if n > 0 { ShiftedIterates(Shift(x), n - 1); }
  }

  lemma XorOfXors(a: bv16, b: bv16, p: bv16)
    ensures (a ^ p) ^ (b ^ p) == a ^ b
    ensures (a ^ p) ^ b == (a ^ b) ^ p
    ensures a ^ (b ^ p) == (a ^ b) ^ p
  {
  }

  lemma XorOfHalves(x: bv16, y: bv16)
    ensures (x ^ y) >> 1 == (x >> 1) ^ (y >> 1)
    ensures ((x ^ y) & 1 == 1) <==> ((x & 1 == 1) != (y & 1 == 1))
  {
  }

  lemma ShiftIsLinear(x: bv16, y: bv16)
    ensures Shift(x ^ y) == Shift(x) ^ Shift(y)
  {
    XorOfHalves(x, y);
    XorOfXors(x >> 1, y >> 1, 0xA001);
  }

  lemma ShiftIsLinearEverywhere()
    ensures forall a, b :: Shift(Xor(a, b)) == Xor(Shift(a), Shift(b))
  {
    forall a, b ensures Shift(Xor(a, b)) == Xor(Shift(a), Shift(b)) {
      ShiftIsLinear(a, b);
    }
  }

  lemma IteratedShiftIsLinear(x: bv16, y: bv16, n: nat)
    ensures Iterate(Shift, Xor(x, y), n) == Xor(Iterate(Shift, x, n), Iterate(Shift, y, n))
  {
    ShiftIsLinearEverywhere();
    IterateIsLinear(Shift, Xor, x, y, n);
  }

  lemma ShiftedIsLinear(x: bv16, y: bv16, n: nat)
    ensures Shifted(Xor(x, y), n) == Xor(Shifted(x, n), Shifted(y, n))
  {
    IteratedShiftIsLinear(x, y, n);
    ShiftedIterates(x, n);
    ShiftedIterates(y, n);
    ShiftedIterates(Xor(x, y), n);
  }

  lemma ShiftIsInjective(x: bv16, y: bv16)
    requires Shift(x) == Shift(y)
    ensures x == y
  {
  }

  lemma {:induction false} ShiftedIsInjective(x: bv16, y: bv16, n: nat)
    requires Shifted(x, n) == Shifted(y, n)
    ensures x == y
    decreases n
  {
    if n > 0 {
      ShiftedIsInjective(Shift(x), Shift(y), n - 1);
      ShiftIsInjective(x, y);
    }
  }

  lemma ShiftOfEven(x: bv16)
    requires x & 1 == 0
    ensures Shift(x) == x >> 1
  {
  }

  lemma ShiftedHighByte(x: bv16)
    requires x & 0xff == 0
    ensures Shifted(x, 8) == x >> 8
  {
    ShiftOfEven(x);
    ShiftOfEven(x >> 1);
    ShiftOfEven(x >> 2);
    ShiftOfEven(x >> 3);
    ShiftOfEven(x >> 4);
    ShiftOfEven(x >> 5);
    ShiftOfEven(x >> 6);
    ShiftOfEven(x >> 7);
    assert Shifted(x >> 7, 1) == x >> 8;
    assert Shifted(x >> 6, 2) == Shifted(x >> 7, 1);
    assert Shifted(x >> 5, 3) == Shifted(x >> 6, 2);
    assert Shifted(x >> 4, 4) == Shifted(x >> 5, 3);
    assert Shifted(x >> 3, 5) == Shifted(x >> 4, 4);
    assert Shifted(x >> 2, 6) == Shifted(x >> 3, 5);
    assert Shifted(x >> 1, 7) == Shifted(x >> 2, 6);
  }

  lemma SplitBytes(x: bv16)
    ensures Xor(x & 0xff00, x & 0xff) == x && (x & 0xff00) & 0xff == 0 && (x & 0xff00) >> 8 == x >> 8
  {
  }

  /** The high byte just moves down; only the low byte meets the polynomial. */
  lemma ShiftedSplits(x: bv16)
    ensures Shifted(x, 8) == Xor(x >> 8, Shifted(x & 0xff, 8))
  {
    SplitBytes(x);
    ShiftedIsLinear(x & 0xff00, x & 0xff, 8);
    ShiftedHighByte(x & 0xff00);
  }

  lemma ShiftedByte(d: bv16)
    requires 0 < d <= 0xff
    ensures Shifted(d, 8) > 0xff
  {
    Shift8IsShifted(d);
    Shift8OfByte(d);
  }

  lemma Shift8OfByte(d: bv16)
    requires 0 < d <= 0xff
    ensures Shift8(d) > 0xff
  {
  }

  // ----- The loop -----

  /** A table that does the work of eight shifts. */
  ghost predicate ShiftTable(table: bv16 -> bv16) {
    forall i :: i <= 0xff ==> table(i) == Shifted(i, 8)
  }

  method CrcByTable(table: bv16 -> bv16, crc: bv16, buf: seq<bv8>) returns (tmp: bv16)
    requires ShiftTable(table)
    ensures tmp == Crc(crc, buf)
  {
    tmp := crc;
    for i := 0 to |buf|
      invariant tmp == Crc(crc, buf[..i])
    {
      assert buf[..i + 1][..i] == buf[..i];
      TableStep(table, tmp, buf[i]);
      var index := Xor(tmp, buf[i] as bv16) & 0xff;
      tmp := Xor(tmp >> 8, table(index));
    }
    assert buf[..|buf|] == buf;
  }

  method CrcBuf(crc: bv16, buf: seq<bv8>) returns (tmp: bv16)
    ensures tmp == Crc(crc, buf)
  {
    TableIsShiftTable();
    tmp := CrcByTable(Table, crc, buf);
  }

  lemma TableIsShiftTable()
    ensures ShiftTable(Table)
  {
    forall i | i <= 0xff ensures Table(i) == Shifted(i, 8) {
      TableIsShifted(i);
    }
  }

  lemma TableStep(table: bv16 -> bv16, crc: bv16, b: bv8)
    requires ShiftTable(table)
    ensures Xor(crc >> 8, table(Xor(crc, b as bv16) & 0xff)) == Feed(crc, b)
  {
    var x := Xor(crc, b as bv16);
    HighByte(crc, b);
    ShiftedSplits(x);
    LowByte(x);
  }

  lemma HighByte(crc: bv16, b: bv8)
    ensures Xor(crc, b as bv16) >> 8 == crc >> 8
  {
  }

  lemma LowByte(x: bv16)
    ensures x & 0xff <= 0xff
  {
  }

  // ----- What the CRC detects -----

  lemma FeedIsInjective(c: bv16, d: bv16, a: bv8, b: bv8)
    requires Feed(c, a) == Feed(d, b)
    ensures Xor(c, a as bv16) == Xor(d, b as bv16)
    ensures c == d <==> a == b
  {
    ShiftedIsInjective(Xor(c, a as bv16), Xor(d, b as bv16), 8);
    WidenXor(c, d, a, b);
  }

  lemma WidenXor(c: bv16, d: bv16, a: bv8, b: bv8)
    requires Xor(c, a as bv16) == Xor(d, b as bv16)
    ensures c == d <==> a == b
  {
    XorCancels(c, d, a as bv16, b as bv16);
    WideningLosesNothing(a, b);
  }

  lemma XorCancels(c: bv16, d: bv16, p: bv16, q: bv16)
    requires Xor(c, p) == Xor(d, q)
    ensures c == d <==> p == q
  {
    XorUndone(c, p);
    XorUndone(d, q);
  }

  lemma XorUndone(c: bv16, p: bv16)
    ensures Xor(Xor(c, p), p) == c && Xor(Xor(c, p), c) == p
  {
  }

  lemma WideningLosesNothing(a: bv8, b: bv8)
    ensures a as bv16 == b as bv16 <==> a == b
  {
  }

  /** Once two states differ, feeding both the same bytes keeps them different. */
  lemma {:induction false} DifferenceStays(c: bv16, d: bv16, message: seq<bv8>)
    requires c != d
    ensures Crc(c, message) != Crc(d, message)
    decreases |message|
  {
    if message != [] {
      var front, b := message[..|message| - 1], message[|message| - 1];
      DifferenceStays(c, d, front);
      if Feed(Crc(c, front), b) == Feed(Crc(d, front), b) {
        FeedIsInjective(Crc(c, front), Crc(d, front), b, b);
      }
    }
  }

  /** Two different pairs of bytes lead to different states: a pair differs by less than the CRC can hold. */
  lemma PairsDiffer(c: bv16, a: bv8, b: bv8, a': bv8, b': bv8)
    requires a != a' || b != b'
    ensures Feed(Feed(c, a), b) != Feed(Feed(c, a'), b')
  {
    var x, y := Feed(c, a), Feed(c, a');
    if Feed(x, b) == Feed(y, b') {
      FeedIsInjective(x, y, b, b');
      if a != a' {
        FeedDifference(c, a, a');
        SmallDifference(x, y, b, b');
        assert false;
      }
    }
  }

  /** Two different bytes fed into the same state leave a difference in the high byte. */
  lemma FeedDifference(c: bv16, a: bv8, a': bv8)
    requires a != a'
    ensures Xor(Feed(c, a), Feed(c, a')) > 0xff
  {
    var d := Xor(a as bv16, a' as bv16);
    CancelState(c, a, a');
    ShiftedIsLinear(Xor(c, a as bv16), Xor(c, a' as bv16), 8);
    ShiftedByte(d);
  }

  lemma CancelState(c: bv16, a: bv8, a': bv8)
    requires a != a'
    ensures Xor(Xor(c, a as bv16), Xor(c, a' as bv16)) == Xor(a as bv16, a' as bv16)
    ensures 0 < Xor(a as bv16, a' as bv16) <= 0xff
  {
  }

  lemma SmallDifference(x: bv16, y: bv16, b: bv8, b': bv8)
    requires Xor(x, b as bv16) == Xor(y, b' as bv16)
    ensures Xor(x, y) <= 0xff
  {
  }

  /** Messages of equal length that differ only within two neighbouring bytes have different CRCs. */
  lemma BurstsAreDetected(crc: bv16, before: seq<bv8>, a: bv8, b: bv8, a': bv8, b': bv8, after: seq<bv8>)
    requires a != a' || b != b'
    ensures Crc(crc, before + [a, b] + after) != Crc(crc, before + [a', b'] + after)
  {
    var c := Crc(crc, before);
    PairsDiffer(c, a, b, a', b');
    CrcOfPair(crc, before, a, b);
    CrcOfPair(crc, before, a', b');
    CrcOfPieces(crc, before + [a, b], after);
    CrcOfPieces(crc, before + [a', b'], after);
    DifferenceStays(Feed(Feed(c, a), b), Feed(Feed(c, a'), b'), after);
  }

  lemma CrcOfPair(crc: bv16, before: seq<bv8>, a: bv8, b: bv8)
    ensures Crc(crc, before + [a, b]) == Feed(Feed(Crc(crc, before), a), b)
  {
    var m := before + [a, b];
    assert m[..|m| - 1] == before + [a];
    assert (before + [a])[..|before|] == before;
  }

  /** Two messages of equal length that differ in exactly one byte have different CRCs. */
  lemma SingleByteErrorsAreDetected(crc: bv16, m: seq<bv8>, n: seq<bv8>, k: nat)
    requires |m| == |n| && k < |m| && m[k] != n[k] && m[..k] == n[..k] && m[k + 1..] == n[k + 1..]
    ensures Crc(crc, m) != Crc(crc, n)
  {
    var c := Crc(crc, m[..k]);
    assert m == m[..k + 1] + m[k + 1..] && n == n[..k + 1] + m[k + 1..];
    assert m[..k + 1][..k] == m[..k] && n[..k + 1][..k] == m[..k];
    if Feed(c, m[k]) == Feed(c, n[k]) {
      FeedIsInjective(c, c, m[k], n[k]);
    }
    CrcOfPieces(crc, m[..k + 1], m[k + 1..]);
    CrcOfPieces(crc, n[..k + 1], m[k + 1..]);
    DifferenceStays(Feed(c, m[k]), Feed(c, n[k]), m[k + 1..]);
  }
}
