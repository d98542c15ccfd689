/**
 Writing -pm2- streams: commands coded with the current trees, and the trees that fall due while a command
 is carried out. Whatever is written so is read back.
 */
module Pm2Codec {
  import opened Bits
  import opened TreeDecode
  import opened Codings
  import opened Pm2Model

  // ----- Lists of lengths -----

  function LengthField(min: nat, len: nat): nat
    requires min >= 1 && (len == 0 || min <= len)
  {
    if len == 0 then 0 else len - min + 1
  }

  /** The lengths can be told as offsets from `min` in fields of `width` bits. */
  ghost predicate LensOk(lens: seq<nat>, width: nat, min: nat) {
    1 <= min <= 7 && width <= 7 && forall i :: 0 <= i < |lens| ==> FieldOk(lens[i], width, min)
  }

  ghost predicate FieldOk(len: nat, width: nat, min: nat) {
    min >= 1 && (len == 0 || min <= len) && LengthField(min, len) < Pow2(width)
  }

  ghost function WriteLens(lens: seq<nat>, width: nat, min: nat): seq<Bit>
    requires LensOk(lens, width, min)
  {
    if lens == [] then [] else ToBits(LengthField(min, lens[0]), width) + WriteLens(lens[1..], width, min)
  }

  lemma LensBelow(lens: seq<nat>, width: nat, min: nat)
    requires LensOk(lens, width, min)
    ensures LengthsBelow(lens, MAX_LENGTH)
  {
    PowersArePow2(width);
    forall i | 0 <= i < |lens| ensures lens[i] < MAX_LENGTH {
      assert FieldOk(lens[i], width, min);
    }
  }

  lemma LensJoin(field: seq<Bit>, more: seq<Bit>, tail: seq<Bit>, n: nat, width: nat, min: nat,
                 got: seq<nat>, len: nat, others: seq<nat>)
    requires width <= 7 && 1 <= min <= 7 && |got| < n && LengthsBelow(got, MAX_LENGTH) && FieldOk(len, width, min)
    requires field == ToBits(LengthField(min, len), width)
    requires LengthsBelow(got + [len], MAX_LENGTH)
    requires ReadLens(more + tail, n, width, min, got + [len]) == Lens(true, (got + [len]) + others, tail)
    ensures ReadLens((field + more) + tail, n, width, min, got) == Lens(true, got + ([len] + others), tail)
  {
    Associate(field, more, tail);
    Associate(got, [len], others);
    ReadNTakes(LengthField(min, len), width, more + tail);
    PowersArePow2(width);
  }

  lemma {:induction false} LensAreRead(lens: seq<nat>, n: nat, width: nat, min: nat, got: seq<nat>, tail: seq<Bit>)
    requires LensOk(lens, width, min) && LengthsBelow(got, MAX_LENGTH) && n == |got| + |lens|
    ensures ReadLens(WriteLens(lens, width, min) + tail, n, width, min, got) == Lens(true, got + lens, tail)
    decreases |lens|
  {
    if lens == [] {
      assert [] + tail == tail && got + [] == got;
    } else {
      var field, more := ToBits(LengthField(min, lens[0]), width), WriteLens(lens[1..], width, min);
      LensBelow(lens, width, min);
      LensAreRead(lens[1..], n, width, min, got + [lens[0]], tail);
      LensJoin(field, more, tail, n, width, min, got, lens[0], lens[1..]);
      assert [lens[0]] + lens[1..] == lens;
    }
  }

  // ----- The code tree -----

  /** A coding of the commands, and how its lengths are told. */
  datatype CodeSpec = CodeSpec(coding: Coding, min: nat, width: nat)

  ghost predicate CodeSpecOk(c: CodeSpec) {
    match c.coding
    case Many(lens) => |lens| < 32 && LensOk(lens, c.width, c.min)
    case One(code) => code < 31
  }

  function CountField(c: CodeSpec): nat {
    match c.coding
    case Many(lens) => |lens|
    case One(code) => code + 1
  }

  function MinField(c: CodeSpec): nat {
    if c.coding.Many? then c.min else 0
  }

  ghost function WriteCodeTree(c: CodeSpec): seq<Bit>
    requires CodeSpecOk(c)
  {
    ToBits(CountField(c), CODES_BITS) + (ToBits(MinField(c), MIN_BITS) + WriteCodeLens(c))
  }

  ghost function WriteCodeLens(c: CodeSpec): seq<Bit>
    requires CodeSpecOk(c)
  {
    match c.coding
    case Many(lens) => ToBits(c.width, WIDTH_BITS) + WriteLens(lens, c.width, c.min)
    case One(_) => []
  }

  lemma SpecFits(c: CodeSpec)
    requires CodeSpecOk(c)
    ensures Fits(c.coding, CODE_LIMIT) && CountField(c) < Pow2(CODES_BITS) == 32 && MinField(c) < Pow2(MIN_BITS) && MinField(c) <= 7
  {
    PowersArePow2(CODES_BITS);
    PowersArePow2(MIN_BITS);
    if c.coding.Many? { LensBelow(c.coding.lens, c.width, c.min); }
  }

  ghost function WithCode(t: Trees, c: CodeSpec): (r: Trees)
    requires TreesOk(t) && CodeSpecOk(c)
    ensures TreesOk(r)
  {
    SpecFits(c);
    ApplyKeepsReadable(t.code, MARK, Operate(c.coding), CODE_LIMIT);
    t.(needOffset := NeedsOffsets(CountField(c), MinField(c)), code := Apply(t.code, MARK, Operate(c.coding), CODE_LIMIT))
  }

  lemma CodeLensAreRead(t: Trees, c: CodeSpec, tail: seq<Bit>)
    requires TreesOk(t) && CodeSpecOk(c) && t.needOffset == NeedsOffsets(CountField(c), MinField(c)) && MinField(c) <= 7
    ensures BuildCodeTree(t, CountField(c), MinField(c), WriteCodeLens(c) + tail) == Load(WithCode(t, c), tail)
  {
    match c.coding
    case Many(lens) =>
      PowersArePow2(WIDTH_BITS);
      var body := WriteLens(lens, c.width, c.min);
      Associate(ToBits(c.width, WIDTH_BITS), body, tail);
      ReadNTakes(c.width, WIDTH_BITS, body + tail);
      LensAreRead(lens, |lens|, c.width, c.min, [], tail);
      assert [] + lens == lens;
    case One(code) =>
      assert [] + tail == tail;
  }

  lemma CodeTreeIsRead(t: Trees, c: CodeSpec, tail: seq<Bit>)
    requires TreesOk(t) && CodeSpecOk(c)
    ensures ReadCodeTree(t, WriteCodeTree(c) + tail) == Load(WithCode(t, c), tail)
  {
    SpecFits(c);
    var a, b, body := ToBits(CountField(c), CODES_BITS), ToBits(MinField(c), MIN_BITS), WriteCodeLens(c);
    Associate(a, b + body, tail);
    Associate(b, body, tail);
    ReadNTakes(CountField(c), CODES_BITS, b + (body + tail));
    ReadNTakes(MinField(c), MIN_BITS, body + tail);
    CodeLensAreRead(t.(needOffset := NeedsOffsets(CountField(c), MinField(c))), c, tail);
  }

  // ----- The offset tree -----

  /** A single used class needs no code. */
  function OffsetCoding(lens: seq<nat>): Coding {
    if UsedCount(lens, |lens|) == 1 then One(LastUsed(lens, |lens|)) else Many(lens)
  }

  ghost predicate OffsetsOk(lens: seq<nat>, n: nat) {
    |lens| == n && 1 <= n <= NUM_OFFSETS && LensOk(lens, OFFSET_LENGTH_BITS, 1)
  }

  ghost function WriteOffsets(t: Trees, lens: seq<nat>, n: nat): seq<Bit>
    requires OffsetsOk(lens, n)
  {
    if t.needOffset then WriteLens(lens, OFFSET_LENGTH_BITS, 1) else []
  }

  ghost function WithOffsets(t: Trees, lens: seq<nat>, n: nat): (r: Trees)
    requires TreesOk(t) && OffsetsOk(lens, n)
    ensures TreesOk(r)
  {
    LensBelow(lens, OFFSET_LENGTH_BITS, 1);
    ApplyKeepsReadable(t.offset, MARK, Operate(OffsetCoding(lens)), NUM_OFFSETS);
    if t.needOffset then t.(offset := Apply(t.offset, MARK, Operate(OffsetCoding(lens)), NUM_OFFSETS)) else t
  }

  lemma OffsetsAreRead(t: Trees, lens: seq<nat>, n: nat, tail: seq<Bit>)
    requires TreesOk(t) && OffsetsOk(lens, n)
    ensures ReadOffsetTree(t, WriteOffsets(t, lens, n) + tail, n) == Load(WithOffsets(t, lens, n), tail)
  {
    if t.needOffset {
      LensAreRead(lens, n, OFFSET_LENGTH_BITS, 1, [], tail);
      assert [] + lens == lens;
    } else {
      assert [] + tail == tail;
    }
  }

  // ----- Rebuilds -----

  datatype Renewal = Keep | Renew(spec: CodeSpec)

  /** What is to be written at a rebuild. */
  datatype Plan = Plan(code: Renewal, offsets: seq<nat>)

  ghost predicate PlanOk(stage: Stage, p: Plan) {
    && OffsetsOk(p.offsets, OffsetsAt(stage)) && (p.code.Renew? ==> CodeSpecOk(p.code.spec))
    && (stage.Unbuilt? ==> p.code.Renew?) && (stage.Build1? || stage.Build2? ==> p.code.Keep?)
  }

  ghost function WithCodeOf(t: Trees, p: Plan): (r: Trees)
    requires TreesOk(t) && (p.code.Renew? ==> CodeSpecOk(p.code.spec))
    ensures TreesOk(r)
  {
    if p.code.Renew? then WithCode(t, p.code.spec) else t
  }

  /** Whether the offset tree is due: in the end only together with a new code tree. */
  predicate OffsetsDue(stage: Stage, p: Plan) {
    stage.Continuing? ==> p.code.Renew?
  }

  ghost function PlanTrees(stage: Stage, t: Trees, p: Plan): (r: Trees)
    requires TreesOk(t) && PlanOk(stage, p)
    ensures TreesOk(r)
  {
    var u := WithCodeOf(t, p);
    if OffsetsDue(stage, p) then WithOffsets(u, p.offsets, OffsetsAt(stage)) else u
  }

  ghost function WritePlan(stage: Stage, t: Trees, p: Plan): seq<Bit>
    requires TreesOk(t) && PlanOk(stage, p)
  {
    (if HasFlag(stage) then [if p.code.Renew? then 1 else 0] else []) + (PlanCode(p) + PlanOffsets(stage, t, p))
  }

  ghost function PlanCode(p: Plan): seq<Bit>
    requires p.code.Renew? ==> CodeSpecOk(p.code.spec)
  {
    if p.code.Renew? then WriteCodeTree(p.code.spec) else []
  }

  ghost function PlanOffsets(stage: Stage, t: Trees, p: Plan): seq<Bit>
    requires TreesOk(t) && PlanOk(stage, p)
  {
    if OffsetsDue(stage, p) then WriteOffsets(WithCodeOf(t, p), p.offsets, OffsetsAt(stage)) else []
  }

  // ----- How long it is -----

  /** A count of 5 bits and a minimum of 3; then, unless there is a single code, a width of 3 and the lengths. */
  function CodeTreeBits(c: CodeSpec): nat {
    match c.coding
    case Many(lens) => 11 + |lens| * c.width
    case One(_) => 8
  }

  /** Ten codes or more ask for an offset tree, except for the single code that copies from offset zero. */
  predicate AsksForOffsets(c: CodeSpec) {
    match c.coding
    case Many(lens) => |lens| >= 10
    case One(code) => code >= 9 && code != 28
  }

  /** A new code tree with an offset tree of eight lengths, if it asks for one; otherwise what is said. */
  function RenewalBits(r: Renewal, otherwise: nat): nat {
    if r.Keep? then otherwise else CodeTreeBits(r.spec) + if AsksForOffsets(r.spec) then 24 else 0
  }

  lemma {:induction false} LensLength(lens: seq<nat>, width: nat, min: nat)
    requires LensOk(lens, width, min)
    ensures |WriteLens(lens, width, min)| == |lens| * width
  {
    if lens != [] {
      LensLength(lens[1..], width, min);
      assert |lens| * width == (|lens| - 1) * width + width;
    }
  }

  lemma CodeTreeLength(c: CodeSpec)
    requires CodeSpecOk(c)
    ensures |WriteCodeTree(c)| == CodeTreeBits(c)
  {
    if c.coding.Many? { LensLength(c.coding.lens, c.width, c.min); }
  }

  /** How many bits are written, and so read, for a rebuild. */
  lemma PlanLength(stage: Stage, t: Trees, p: Plan)
    requires TreesOk(t) && PlanOk(stage, p)
    ensures |WritePlan(stage, t, p)| == match stage
              case Unbuilt => CodeTreeBits(p.code.spec) + if AsksForOffsets(p.code.spec) then 15 else 0
              case Build1 => if t.needOffset then 18 else 0
              case Build2 => if t.needOffset then 21 else 0
              case Build3 => 1 + RenewalBits(p.code, if t.needOffset then 24 else 0)
              case Continuing => 1 + RenewalBits(p.code, 0)
  {
    if p.code.Renew? { CodeTreeLength(p.code.spec); }
    LensLength(p.offsets, OFFSET_LENGTH_BITS, 1);
  }

  lemma DueIsRead(stage: Stage, t: Trees, p: Plan, tail: seq<Bit>)
    requires TreesOk(t) && PlanOk(stage, p)
    ensures ReadAll(Due(stage, p.code.Renew?), t, (PlanCode(p) + PlanOffsets(stage, t, p)) + tail)
            == Load(PlanTrees(stage, t, p), tail)
  {
    var u, n := WithCodeOf(t, p), OffsetsAt(stage);
    var off := PlanOffsets(stage, t, p);
    Associate(PlanCode(p), off, tail);
    if p.code.Renew? {
      CodeTreeIsRead(t, p.code.spec, off + tail);
      OffsetsAreRead(u, p.offsets, n, tail);
      ReadAllBoth(t, PlanCode(p) + (off + tail), n);
    } else {
      assert [] + (off + tail) == off + tail && [] + tail == tail;
      if OffsetsDue(stage, p) {
        OffsetsAreRead(u, p.offsets, n, tail);
        ReadAllOffsets(t, off + tail, n);
      }
    }
  }

  lemma FlagIsRead(flag: Bit, body: seq<Bit>, tail: seq<Bit>)
    ensures var bits := ([flag] + body) + tail;
            bits != [] && bits[0] == flag && bits[1..] == body + tail && Skip(bits, 1) == body + tail
  {
    assert (([flag] + body) + tail)[1..] == body + tail;
  }

  /** What is written for a rebuild is what the rebuild reads. */
  lemma PlanIsRead(stage: Stage, t: Trees, p: Plan, tail: seq<Bit>)
    requires TreesOk(t) && PlanOk(stage, p)
    ensures RebuildTrees(stage, t, WritePlan(stage, t, p) + tail) == Load(PlanTrees(stage, t, p), tail)
  {
    var body := PlanCode(p) + PlanOffsets(stage, t, p);
    DueIsRead(stage, t, p, tail);
    if HasFlag(stage) {
      FlagIsRead(if p.code.Renew? then 1 else 0, body, tail);
    } else {
      assert [] + body == body;
    }
  }

  // ----- Trees that read a coding -----

  /** Every word of the coding is read from the table. */
  ghost predicate Reads(tree: seq<nat>, c: Coding) {
    && Forward(tree, MARK)
    && forall sym: nat, tail: seq<Bit> :: HasWord(c, sym) ==> ReadTree(tree, MARK, Word(c, sym) + tail) == Got(sym, tail)
  }

  lemma AppliedReads(tree: seq<nat>, c: Coding, n: nat)
    requires Forward(tree, MARK) && CodesBelow(tree, MARK, n) && n > 0 && Fits(c, n) && (c.Many? ==> 2 * |c.lens| - 1 <= |tree|)
    ensures Reads(Apply(tree, MARK, Operate(c), n), c)
  {
    ApplyKeepsReadable(tree, MARK, Operate(c), n);
    forall sym: nat, tail: seq<Bit> | HasWord(c, sym)
      ensures ReadTree(Apply(tree, MARK, Operate(c), n), MARK, Word(c, sym) + tail) == Got(sym, tail)
    {
      AnyWordIsRead(tree, MARK, c, n, sym, tail);
    }
  }

  /** The writer's view: the trees in use, the codings they read, and how much has been output. */
  datatype Writer = Writer(trees: Trees, codes: Coding, offsets: Coding, length: nat)

  ghost predicate WriterOk(w: Writer) {
    TreesOk(w.trees) && Reads(w.trees.code, w.codes) && Reads(w.trees.offset, w.offsets)
  }

  ghost function Renewed(w: Writer, stage: Stage, p: Plan): Writer
    requires TreesOk(w.trees) && PlanOk(stage, p)
  {
    var u := WithCodeOf(w.trees, p);
    w.(trees := PlanTrees(stage, w.trees, p),
       codes := if p.code.Renew? then p.code.spec.coding else w.codes,
       offsets := if OffsetsDue(stage, p) && u.needOffset then OffsetCoding(p.offsets) else w.offsets)
  }

  lemma RenewedIsOk(w: Writer, stage: Stage, p: Plan)
    requires WriterOk(w) && PlanOk(stage, p)
    ensures WriterOk(Renewed(w, stage, p))
  {
    if p.code.Renew? {
      SpecFits(p.code.spec);
      AppliedReads(w.trees.code, p.code.spec.coding, CODE_LIMIT);
    }
    LensBelow(p.offsets, OFFSET_LENGTH_BITS, 1);
    AppliedReads(w.trees.offset, OffsetCoding(p.offsets), NUM_OFFSETS);
  }
}
