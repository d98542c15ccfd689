/**
 Distances and counts as a class and some extra bits. In each of the schemes in use the classes take up, one
 after another, all the numbers from zero on, so that every number has exactly one form.
 */
module DistanceCodes {
  import opened Bits

  /** Distances of -lh4- to -lh7- and -lhx-; distances and copy counts of LHARK; distances of -pm2-. */
  datatype Scheme = Standard | Lhark | LharkCounts | Pm2

  /** k shifted left by n bits. */
  function LeftShift(k: nat, n: nat): nat {
    if n == 0 then k else 2 * LeftShift(k, n - 1)
  }

  /** How many extra bits a class has. */
  function Width(s: Scheme, c: nat): nat {
    match s
    case Standard => if c < 2 then 0 else c - 1
    case Lhark => if c < 4 then 0 else (c - 2) / 2
    case LharkCounts => if c < 8 then 0 else (c - 4) / 4
    case Pm2 => if c == 0 then 6 else c + 5
  }

  /** The first number of a class. */
  function Base(s: Scheme, c: nat): nat {
    match s
    case Standard => if c < 2 then c else Pow2(c - 1)
    case Lhark => if c < 4 then c else LeftShift(2 + c % 2, (c - 2) / 2)
    case LharkCounts => if c < 8 then c else LeftShift(4 + c % 4, (c - 4) / 4)
    case Pm2 => if c == 0 then 0 else Pow2(c + 5)
  }

  // ----- The classes follow one another without gap or overlap -----

  lemma {:induction false} ShiftTable(n: nat)
    ensures var p := Pow2(n);
            && LeftShift(2, n) == 2 * p && LeftShift(3, n) == 3 * p && LeftShift(4, n) == 4 * p
            && LeftShift(5, n) == 5 * p && LeftShift(6, n) == 6 * p && LeftShift(7, n) == 7 * p
  {
    if n > 0 { ShiftTable(n - 1); }
  }

  lemma LharkContiguous(low: nat, odd: nat)
    requires low >= 1 && odd <= 1
    ensures var c := 2 * low + 2 + odd; Base(Lhark, c + 1) == Base(Lhark, c) + Pow2(Width(Lhark, c))
  {
    ShiftTable(low);
    ShiftTable(low + 1);
    var c := 2 * low + 2 + odd;
    assert (c - 2) / 2 == low && c % 2 == odd;
    if odd == 0 {
      assert (c + 1 - 2) / 2 == low && (c + 1) % 2 == 1;
    } else {
      assert (c + 1 - 2) / 2 == low + 1 && (c + 1) % 2 == 0;
    }
  }

  lemma CountsContiguous(low: nat, k: nat)
    requires low >= 1 && k <= 3
    ensures var c := 4 * low + 4 + k; Base(LharkCounts, c + 1) == Base(LharkCounts, c) + Pow2(Width(LharkCounts, c))
  {
    ShiftTable(low);
    ShiftTable(low + 1);
    var c := 4 * low + 4 + k;
    assert (c - 4) / 4 == low && c % 4 == k;
    if k < 3 {
      assert (c + 1 - 4) / 4 == low && (c + 1) % 4 == k + 1;
    } else {
      assert (c + 1 - 4) / 4 == low + 1 && (c + 1) % 4 == 0;
    }
  }

  lemma Contiguous(s: Scheme, c: nat)
    ensures Base(s, 0) == 0 && Base(s, c + 1) == Base(s, c) + Pow2(Width(s, c))
  {
    match s
    case Standard => assert Pow2(0) == 1;
    case Lhark =>
      if c >= 4 { LharkContiguous((c - 2) / 2, c % 2); } else { FirstClasses(); }
    case LharkCounts =>
      if c >= 8 { CountsContiguous((c - 4) / 4, c % 4); } else { FirstClasses(); }
    case Pm2 => assert Pow2(6) == 64;
  }

  lemma FirstClasses()
    ensures Pow2(0) == 1 && Base(Lhark, 4) == 4 && Base(LharkCounts, 8) == 8
  {
    assert LeftShift(2, 1) == 4 && LeftShift(4, 1) == 8;
  }

  lemma {:induction false} BaseGrows(s: Scheme, c: nat, d: nat)
    requires c < d
    ensures Base(s, c) + Pow2(Width(s, c)) <= Base(s, d)
    decreases d
  {
    Contiguous(s, d - 1);
    if c < d - 1 { BaseGrows(s, c, d - 1); } else { assert c == d - 1; }
  }

  // ----- Every number has exactly one form -----

  /** The class of v, sought from c on. */
  function ClassFrom(s: Scheme, v: nat, c: nat): (r: nat)
    requires Base(s, c) <= v
    ensures Base(s, r) <= v < Base(s, r) + Pow2(Width(s, r))
    decreases v - Base(s, c)
  {
    Contiguous(s, c);
    if v < Base(s, c + 1) then c else ClassFrom(s, v, c + 1)
  }

  function ClassOf(s: Scheme, v: nat): (r: nat)
    ensures Base(s, r) <= v < Base(s, r) + Pow2(Width(s, r))
  {
    Contiguous(s, 0);
    ClassFrom(s, v, 0)
  }

  /** A class and extra bits stand for v just if they are v's class and its place in it. */
  lemma UniqueForm(s: Scheme, v: nat, c: nat, extra: nat)
    requires extra < Pow2(Width(s, c))
    ensures Base(s, c) + extra == v <==> c == ClassOf(s, v) && extra == v - Base(s, c)
  {
    var r := ClassOf(s, v);
    if c < r { BaseGrows(s, c, r); } else if r < c { BaseGrows(s, r, c); }
  }

  /** The classes below n are just what the numbers below the n-th base need. */
  lemma ClassBound(s: Scheme, v: nat, n: nat)
    ensures v < Base(s, n) <==> ClassOf(s, v) < n
  {
    var r := ClassOf(s, v);
    if r < n { BaseGrows(s, r, n); } else if n < r { BaseGrows(s, n, r); }
  }

  // ----- How far the classes of the formats reach -----

  lemma {:induction false} LharkReach(n: nat)
    requires n >= 2
    ensures Base(Lhark, 2 * n) == Pow2(n)
  {
    if n == 2 {
      FirstClasses();
      assert Pow2(2) == 4;
    } else {
      LharkReach(n - 1);
      LharkContiguous(n - 2, 0);
      LharkContiguous(n - 2, 1);
      LharkWidths(n);
    }
  }

  lemma LharkWidths(n: nat)
    requires n >= 3
    ensures Width(Lhark, 2 * n - 2) == n - 2 && Width(Lhark, 2 * n - 1) == n - 2 && Pow2(n) == 4 * Pow2(n - 2)
  {
  }

  lemma Pm2Reach()
    ensures Base(Pm2, 8) == 8192
  {
    assert Pow2(6) == 64 && Pow2(7) == 128;
    Pow2Adds(6, 7);
  }

  lemma CountsReach()
    ensures Base(LharkCounts, 31) == 448 && Width(LharkCounts, 31) == 6 && Base(LharkCounts, 32) == 512 && Pow2(6) == 64
  {
    assert LeftShift(7, 6) == 448 && LeftShift(4, 7) == 512 && Pow2(6) == 64;
  }

  // ----- LHARK copy counts -----

  const FIRST_COPY := 256
  const LAST_COPY := 288

  function LharkCountBits(code: nat): nat
    requires code >= FIRST_COPY
  {
    if code < LAST_COPY then Width(LharkCounts, code - FIRST_COPY) else 0
  }

  function LharkCount(code: nat, extra: nat): nat
    requires code >= FIRST_COPY
  {
    if code < LAST_COPY then Base(LharkCounts, code - FIRST_COPY) + extra + 3 else 514
  }

  lemma LharkCountFormula(code: nat, extra: nat)
    requires code >= FIRST_COPY
    ensures code < 264 ==> LharkCountBits(code) == 0 && LharkCount(code, extra) == code - 256 + extra + 3
    ensures 264 <= code < 288 ==>
              && LharkCountBits(code) == (code - 260) / 4
              && LharkCount(code, extra) == LeftShift(4 + code % 4, (code - 260) / 4) + extra + 3
  {
    if code >= 264 { assert (code - 256) % 4 == code % 4; }
  }

  /**
   Two forms give the same count only if they are the same form, with one exception: the longest count,
   514, is both the last code and the top of the class before it.
   */
  lemma LharkCountForms(code: nat, extra: nat, code': nat, extra': nat)
    requires FIRST_COPY <= code <= code' <= LAST_COPY
    requires extra < Pow2(LharkCountBits(code)) && extra' < Pow2(LharkCountBits(code'))
    ensures 3 <= LharkCount(code, extra) <= 514
    ensures LharkCount(code, extra) == LharkCount(code', extra')
            <==> (code == code' && extra == extra') || (code == 287 && extra == 63 && code' == 288)
  {
    CountsReach();
    assert Pow2(0) == 1;
    if code < LAST_COPY {
      if code < 287 { BaseGrows(LharkCounts, code - 256, 31); }
      if code < code' < LAST_COPY { BaseGrows(LharkCounts, code - 256, code' - 256); }
    }
  }

  /** Every count from 3 to 514 has a form. */
  lemma LharkCountExists(n: nat) returns (code: nat, extra: nat)
    requires 3 <= n <= 514
    ensures FIRST_COPY <= code < LAST_COPY && extra < Pow2(LharkCountBits(code)) && LharkCount(code, extra) == n
  {
    CountsReach();
    ClassBound(LharkCounts, n - 3, 32);
    var c := ClassOf(LharkCounts, n - 3);
    code, extra := 256 + c, n - 3 - Base(LharkCounts, c);
  }
}
