/**
 What -lh4- to -lk7- streams put out, in the numbers of the formats: the bits of the simplest block, and the bytes
 that each code adds to the output.
 */
module LhNewOutput {
  import opened Bits
  import opened DistanceCodes
  import opened Codings
  import opened History
  import opened LhNewTables
  import opened LhNewBlocks
  import opened LhNewCommands

  // ----- Counts and distances -----

  lemma {:induction false} ShiftIsProduct(k: nat, n: nat)
    ensures LeftShift(k, n) == k * Pow2(n)
  {
    if n > 0 { ShiftIsProduct(k, n - 1); }
  }

  /** How many bytes a copy code and its extra bits stand for. */
  function CopyLength(lhark: bool, code: nat, extra: nat): nat
    requires code >= 256
  {
    if !lhark || code < 264 then code - 253
    else if code < 288 then (4 + code % 4) * Pow2((code - 260) / 4) + extra + 3
    else 514
  }

  /** How far back, less one, the class of a distance and its extra bits reach. */
  function CopyReach(lhark: bool, class_: nat, extra: nat): nat {
    if !lhark then (if class_ < 2 then class_ else Pow2(class_ - 1) + extra)
    else if class_ < 4 then class_
    else (2 + class_ % 2) * Pow2((class_ - 2) / 2) + extra
  }

  lemma CountIsLength(v: Variant, code: nat, extra: nat)
    requires code >= 256 && extra < Pow2(CountWidth(v, code))
    ensures CountOf(v, code, extra) == CopyLength(v.lhark, code, extra)
  {
    if v.lhark {
      LharkCountFormula(code, extra);
      if 264 <= code < 288 { ShiftIsProduct(4 + code % 4, (code - 260) / 4); }
    }
  }

  lemma DistanceIsReach(v: Variant, class_: nat, extra: nat)
    requires extra < Pow2(ExtraWidth(v, class_))
    ensures DistanceOf(v, class_, extra) == CopyReach(v.lhark, class_, extra)
  {
    assert Pow2(0) == 1;
    if v.lhark && class_ >= 4 { ShiftIsProduct(2 + class_ % 2, (class_ - 2) / 2); }
  }

  /**
   A literal adds itself. A copy repeats the output; outside LHARK code c adds exactly c - 253 bytes, and a
   distance beyond the ring wraps around.
   */
  lemma TokenOutput(v: Variant, t: Tables, past: seq<Byte>, tok: Token)
    requires TokenOk(v, t, tok)
    ensures var r := Execute(v, past, Meaning(v, t, tok));
            match tok
            case Lit(b) => r == past + [b]
            case Match(code, countExtra, class_, extra) =>
              Repeats(past, r, CopyReach(v.lhark, class_, extra) % Pow2(v.historyBits) + 1,
                      CopyLength(v.lhark, code, countExtra))
  {
    if tok.Match? {
      CountIsLength(v, tok.code, tok.countExtra);
      DistanceIsReach(v, tok.class_, tok.extra);
      var far := DistanceOf(v, tok.class_, tok.extra) % RingSize(v);
      CopyRepeats(past, far, CountOf(v, tok.code, tok.countExtra));
    }
  }

  lemma PlainMatchOutput(v: Variant, t: Tables, past: seq<Byte>, tok: Token)
    requires TokenOk(v, t, tok) && tok.Match? && !v.lhark
    ensures |Execute(v, past, Meaning(v, t, tok))| == |past| + tok.code - 253
  {
    TokenOutput(v, t, past, tok);
  }

  // ----- Code lengths -----

  lemma {:induction false} OnesLength(n: nat)
    ensures |Ones(n)| == n
  {
    if n > 0 { OnesLength(n - 1); }
  }

  /** A code length takes three bits, or from seven on four more bits than the length exceeds seven. */
  lemma LengthBits(len: nat)
    ensures |WriteLength(len)| == if len < 7 then 3 else len - 3
  {
    if len >= 7 { OnesLength(len - 7); }
  }

  // ----- The simplest block -----

  /** Tables with a single code each. */
  function SingleTables(code: nat, class_: nat): Tables {
    Tables(One(0), 0, One(code), [], One(class_))
  }

  /** The size of the ring, and the bits that number the classes of distances. */
  ghost predicate HasNumbers(v: Variant, ring: nat, classBits: nat, codes: nat) {
    RingSize(v) == ring && v.offsetBits == classBits && v.numCodes == codes
  }

  lemma FormatNumbers()
    ensures HasNumbers(LH5, 16384, 4, 510) && HasNumbers(LH6, 65536, 5, 510) && HasNumbers(LH7, 131072, 5, 510)
    ensures HasNumbers(LHX, 1048576, 5, 510) && HasNumbers(LK7, 65536, 6, 289)
    ensures LK7.lhark && !LH5.lhark && !LH6.lhark && !LH7.lhark && !LHX.lhark
  {
    assert Pow2(4) == 16 && Pow2(6) == 64 && Pow2(7) == 128;
    Pow2Adds(6, 4);
    Pow2Adds(10, 4);
    Pow2Adds(10, 6);
    Pow2Adds(10, 7);
    Pow2Adds(10, 10);
  }

  /** A block of n commands with single codes: 16 bits of count, then twice 5, twice 9 and twice the class bits. */
  lemma SingleBlock(v: Variant, code: nat, class_: nat, tokens: seq<Token>)
    requires v in FORMATS && code < 512 && class_ < Pow2(v.offsetBits) && |tokens| < 65536
    requires TokensOk(v, SingleTables(code, class_), tokens)
    ensures var b := Block(SingleTables(code, class_), tokens);
            && BlockOk(v, b)
            && WriteBlock(v, b) == ToBits(|tokens|, 16) + ((ToBits(0, 5) + ToBits(0, 5) + (ToBits(0, 9) + ToBits(code, 9)
                 + (ToBits(0, v.offsetBits) + ToBits(class_, v.offsetBits)))) + WriteTokens(v, b.tables, tokens))
  {
    FormatsFit(v, 0);
    Powers(v);
    assert Pow2(8) == 256;
    Pow2Adds(8, 8);
  }
}
