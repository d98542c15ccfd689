/** Sequences of bits, most significant bit first, the numbers they stand for, and shifts of such numbers. */
module Bits {
  type Bit = b: nat | b <= 1
  type Byte = b: nat | b < 256

  function Pow2(n: nat): (p: nat)
    ensures p >= 1
  {
    if n == 0 then 1 else 2 * Pow2(n - 1)
  }

  function Value(s: seq<Bit>): (v: nat)
    ensures v < Pow2(|s|)
  {
    if s == [] then 0 else 2 * Value(s[..|s| - 1]) + s[|s| - 1]
  }

  /** The n low bits of v. */
  function ToBits(v: nat, n: nat): (s: seq<Bit>)
    ensures |s| == n
    ensures v < Pow2(n) ==> Value(s) == v
  {
    if n == 0 then [] else ToBits(v / 2, n - 1) + [v % 2]
  }

  /** Bit k of v, counted from the least significant. */
  function BitOf(v: nat, k: nat): Bit {
    if k == 0 then v % 2 else BitOf(v / 2, k - 1)
  }

  function ByteBits(b: Byte): (s: seq<Bit>)
    ensures |s| == 8
  {
    seq(8, j requires 0 <= j < 8 => BitOf(b, 7 - j))
  }

  function BytesToBits(bytes: seq<Byte>): (s: seq<Bit>)
    ensures |s| == 8 * |bytes|
  {
    seq(8 * |bytes|, j requires 0 <= j < 8 * |bytes| => BitOf(bytes[j / 8], 7 - j % 8))
  }

  function Zeros(n: nat): seq<Bit> {
    seq(n, i => 0)
  }

  // ----- Unsigned 32-bit operations -----

  const WORD: nat := 0x1_0000_0000

  function Shr(x: nat, n: nat): nat {
    if n == 0 then x else Shr(x / 2, n - 1)
  }

  function Shl(x: nat, n: nat): nat
    decreases n
  {
    if n == 0 then x else Shl((2 * x) % WORD, n - 1)
  }

  function Or(x: nat, y: nat): nat {
    if x == 0 && y == 0 then 0 else 2 * Or(x / 2, y / 2) + if x % 2 == 1 || y % 2 == 1 then 1 else 0
  }

  // ----- Laws -----

  lemma {:induction false} Pow2Adds(a: nat, b: nat)
    ensures Pow2(a + b) == Pow2(a) * Pow2(b)
  {
    if a > 0 { Pow2Adds(a - 1, b); }
  }

  lemma {:induction false} Pow2Grows(a: nat, b: nat)
    requires a <= b
    ensures Pow2(a) <= Pow2(b)
    decreases b
  {
    if a < b { Pow2Grows(a, b - 1); }
  }

  lemma {:induction false} ToBitsAt(v: nat, n: nat, j: nat)
    requires j < n
    ensures ToBits(v, n)[j] == BitOf(v, n - 1 - j)
    decreases n
  {
    if j < n - 1 { ToBitsAt(v / 2, n - 1, j); }
  }

  /** The width comes as a variable: on a literal the verifier would unfold the recursion completely. */
  lemma ValueOfByte(b: Byte, eight: nat)
    requires eight == 8
    ensures Value(ByteBits(b)) == b
  {
    assert Pow2(8) == 256;
    forall j | 0 <= j < 8 ensures ByteBits(b)[j] == ToBits(b, eight)[j] {
      ToBitsAt(b, eight, j);
    }
    assert ByteBits(b) == ToBits(b, eight);
  }

  lemma BytesConcat(a: seq<Byte>, b: seq<Byte>)
    ensures BytesToBits(a + b) == BytesToBits(a) + BytesToBits(b)
  {
  }

  lemma BytesSnoc(bytes: seq<Byte>, i: nat)
    requires i < |bytes|
    ensures BytesToBits(bytes[..i + 1]) == BytesToBits(bytes[..i]) + ByteBits(bytes[i])
  {
  }

  /** The first bit weighs 2^(n-1). */
  lemma {:induction false} ValueFirst(s: seq<Bit>)
    requires s != []
    ensures Value(s) == Value(s[1..]) + if s[0] == 1 then Pow2(|s| - 1) else 0
  {
    if |s| == 1 {
      assert s[..0] == [] && s[1..] == [];
    } else {
      ValueFirst(s[..|s| - 1]);
      assert s[..|s| - 1][1..] == s[1..][..|s| - 2];
    }
  }

  lemma {:induction false} ZerosAreZero(n: nat)
    ensures Value(Zeros(n)) == 0
  {
    if n > 0 {
      assert Zeros(n)[..n - 1] == Zeros(n - 1);
      ZerosAreZero(n - 1);
    }
  }

  lemma {:induction false} ZerosFirst(n: nat, s: seq<Bit>)
    ensures Value(Zeros(n) + s) == Value(s)
    decreases |s|
  {
    if s == [] {
      assert Zeros(n) + s == Zeros(n);
      ZerosAreZero(n);
    } else {
      assert (Zeros(n) + s)[..n + |s| - 1] == Zeros(n) + s[..|s| - 1];
      ZerosFirst(n, s[..|s| - 1]);
    }
  }

  /** Shifting right drops bits at the end. */
  lemma {:induction false} ShrDrops(s: seq<Bit>, n: nat)
    requires n <= |s|
    ensures Shr(Value(s), n) == Value(s[..|s| - n])
    decreases n
  {
    if n == 0 {
      assert s[..|s|] == s;
    } else {
      ShrDrops(s[..|s| - 1], n - 1);
      assert s[..|s| - 1][..|s| - n] == s[..|s| - n];
    }
  }

  lemma WordIsPow2()
    ensures Pow2(31) == 0x8000_0000
  {
    assert Pow2(5) == 32;
    Pow2Adds(5, 5);
    Pow2Adds(10, 10);
    Pow2Adds(20, 10);
  }

  /** Doubling a 32-bit number drops its first bit and brings in a zero. */
  lemma DoubleDrops(s: seq<Bit>)
    requires |s| == 32
    ensures (2 * Value(s)) % WORD == Value(s[1..] + [0])
  {
    var rest := s[1..];
    var next := rest + [0];
    assert Value(next) == 2 * Value(rest) by { assert next[..|rest|] == rest; }
    FirstBitWeighs(s);
    ModOf(s[0], WORD, 2 * Value(rest));
  }

  lemma FirstBitWeighs(s: seq<Bit>)
    requires |s| == 32
    ensures 2 * Value(s) == s[0] * WORD + 2 * Value(s[1..]) && 2 * Value(s[1..]) < WORD
  {
    WordIsPow2();
    ValueFirst(s);
  }

  lemma ShiftOne<T>(s: seq<T>, zeros: seq<T>, zero: T, n: nat)
    requires 1 <= n <= |s|
    ensures (s[1..] + [zero])[n - 1..] + zeros == s[n..] + ([zero] + zeros)
  {
  }

  /** Shifting a 32-bit number left drops bits at the front and brings in zeros. */
  lemma {:induction false} ShlDrops(s: seq<Bit>, n: nat)
    requires |s| == 32 && n <= 32
    ensures Shl(Value(s), n) == Value(s[n..] + Zeros(n))
    decreases n
  {
    if n == 0 {
      assert s[0..] + Zeros(0) == s;
    } else {
      DoubleDrops(s);
      ShlDrops(s[1..] + [0], n - 1);
      ShiftOne(s, Zeros(n - 1), 0, n);
      assert [0] + Zeros(n - 1) == Zeros(n);
    }
  }

  function OrBits(s: seq<Bit>, t: seq<Bit>): seq<Bit>
    requires |s| == |t|
  {
    seq(|s|, i requires 0 <= i < |s| => if s[i] == 1 || t[i] == 1 then 1 else 0)
  }

  lemma {:induction false} OrOfValues(s: seq<Bit>, t: seq<Bit>)
    requires |s| == |t|
    ensures Or(Value(s), Value(t)) == Value(OrBits(s, t))
  {
    if s != [] {
      var k := |s| - 1;
      OrOfValues(s[..k], t[..k]);
      assert OrBits(s, t)[..k] == OrBits(s[..k], t[..k]);
    }
  }

  // ----- Reading numbers from a stream of bits -----

  /** A value read from the stream, or the end of the stream. */
  datatype Fetch<T> = End | Done(value: T, rest: seq<Bit>)

  function ReadN(bits: seq<Bit>, n: nat): (r: Fetch<nat>)
    ensures r.Done? ==> |r.rest| + n == |bits| && r.value < Pow2(n)
  {
    if |bits| < n then End else Done(Value(bits[..n]), bits[n..])
  }

  lemma ReadNTakes(v: nat, n: nat, tail: seq<Bit>)
    requires v < Pow2(n)
    ensures ReadN(ToBits(v, n) + tail, n) == Done(v, tail)
  {
    assert (ToBits(v, n) + tail)[..n] == ToBits(v, n);
  }

  lemma Associate<T>(a: seq<T>, b: seq<T>, c: seq<T>)
    ensures (a + b) + c == a + (b + c)
  {
  }

  lemma Regroup<T>(a: seq<T>, b: seq<T>, c: seq<T>, d: seq<T>)
    ensures (a + (b + c)) + d == a + (b + (c + d))
  {
  }

  // ----- Division -----

  lemma Multiples(k: int, m: nat)
    ensures k >= 1 ==> k * m >= m
    ensures k <= -1 ==> k * m + m <= 0
  {
  }

  lemma DivOf(q: nat, m: nat, r: nat)
    requires r < m
    ensures (q * m + r) / m == q
  {
    var x := q * m + r;
    assert x == x / m * m + x % m;
    assert (q - x / m) * m == q * m - x / m * m;
    Multiples(q - x / m, m);
  }

  lemma Twice(q: nat, p: nat)
    ensures q * (2 * p) == 2 * (q * p)
  {
  }

  /** What shifting right drops is less than the shifted-out power. */
  lemma {:induction false} ShrLeaves(v: nat, n: nat) returns (r: nat)
    ensures v == Shr(v, n) * Pow2(n) + r && r < Pow2(n)
    decreases n
  {
    if n == 0 {
      r := 0;
    } else {
      var half := ShrLeaves(v / 2, n - 1);
      Twice(Shr(v, n), Pow2(n - 1));
      r := 2 * half + v % 2;
    }
  }

  /** Shifting right divides. */
  lemma ShrDivides(v: nat, n: nat)
    ensures Shr(v, n) == v / Pow2(n)
  {
    var r := ShrLeaves(v, n);
    DivOf(Shr(v, n), Pow2(n), r);
  }

  lemma ModOf(q: int, m: nat, r: nat)
    requires r < m
    ensures (q * m + r) % m == r
  {
    var x := q * m + r;
    assert x == x / m * m + x % m;
    assert (q - x / m) * m == q * m - x / m * m;
    Multiples(q - x / m, m);
  }

  /** Whole multiples do not matter for a remainder. */
  lemma ModShifted(x: int, k: int, m: nat)
    requires m > 0
    ensures (x + k * m) % m == x % m
  {
    assert x == x / m * m + x % m;
    assert x + k * m == (x / m + k) * m + x % m;
    ModOf(x / m + k, m, x % m);
  }

  /** Nor does a wrap-around at a multiple of the divisor. */
  lemma ModOfMod(x: int, k: nat, m: nat)
    requires m > 0 && k > 0
    ensures k * m > 0 && (x % (k * m)) % m == x % m
  {
    Multiples(k, m);
    var n := k * m;
    assert x == x / n * n + x % n;
    assert x / n * n == (x / n * k) * m;
    ModShifted(x % n, x / n * k, m);
  }
}
