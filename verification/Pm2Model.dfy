/**
 The -pm2- format of PMarc: bytes by their place in a list of recent bytes, and copies. The trees that code
 them are read again after fixed amounts of output, in the middle of a copy if need be.
 */
module Pm2Model {
  import opened Bits
  import opened TreeDecode
  import opened DistanceCodes
  import opened History
  import opened PmaHistory

  /** The leaf mark of an 8-bit tree element. */
  const MARK: nat := 0x80

  const RING_BUFFER_SIZE: nat := 8192
  const OUTPUT_BUFFER_SIZE: nat := 256
  const CODE_TREE_ELEMENTS: nat := 65
  const OFFSET_TREE_ELEMENTS: nat := 17

  /** Codes for bytes and copies, and for classes of distances. */
  const NUM_CODES: nat := 29
  const NUM_OFFSETS: nat := 8

  /** What the leaf of an 8-bit tree element can hold. */
  const CODE_LIMIT: nat := 128

  // ----- Variable length values -----

  datatype Entry = Entry(offset: nat, bits: nat)

  const HISTORY_DECODE: seq<Entry> := [
    Entry(0, 3), Entry(8, 3), Entry(16, 4), Entry(32, 5), Entry(64, 5), Entry(96, 5), Entry(128, 6), Entry(192, 6)]

  const COPY_DECODE: seq<Entry> := [
    Entry(17, 3), Entry(25, 3), Entry(33, 5), Entry(65, 6), Entry(129, 7), Entry(256, 0)]

  function Powers(n: nat): nat
    requires n <= 7
  {
    if n == 0 then 1 else if n == 1 then 2 else if n == 2 then 4 else if n == 3 then 8
    else if n == 4 then 16 else if n == 5 then 32 else if n == 6 then 64 else 128
  }

  lemma PowersArePow2(n: nat)
    requires n <= 7
    ensures Powers(n) == Pow2(n)
  {
    assert Pow2(4) == 16 && Pow2(5) == 32 && Pow2(6) == 64 && Pow2(7) == 128;
  }

  /** Every place in the list of recent bytes has exactly one form. */
  lemma HistoryForms(index: nat, header: nat, extra: nat)
    requires header < 8 && extra < Powers(HISTORY_DECODE[header].bits)
    ensures HISTORY_DECODE[header].offset + extra < 256
    ensures HISTORY_DECODE[header].offset + extra == index <==>
            header == HistoryHeader(index) && extra == index - HISTORY_DECODE[header].offset
    ensures index < 256 ==>
            var e := HISTORY_DECODE[HistoryHeader(index)]; e.offset <= index < e.offset + Powers(e.bits)
  {
  }

  function HistoryHeader(index: nat): (h: nat)
    ensures h < 8
  {
    if index < 8 then 0 else if index < 16 then 1 else if index < 32 then 2 else if index < 64 then 3
    else if index < 96 then 4 else if index < 128 then 5 else if index < 192 then 6 else 7
  }

  function CountBits(c: nat): nat
    requires c < 21
  {
    if c < 15 then 0 else COPY_DECODE[c - 15].bits
  }

  function CountOf(c: nat, extra: nat): nat
    requires c < 21
  {
    if c < 15 then c + 2 else COPY_DECODE[c - 15].offset + extra
  }

  /** The first count of the range that n lies in, and the code of that range. */
  function CountStart(n: nat): nat {
    if n < 17 then n else if n < 25 then 17 else if n < 33 then 25 else if n < 65 then 33 else if n < 129 then 65 else 129
  }

  function CountCode(n: nat): nat
    requires n >= 2
  {
    if n < 17 then n - 2 else if n < 25 then 15 else if n < 33 then 16 else if n < 65 then 17 else if n < 129 then 18 else 19
  }

  /**
   A count from 2 to 256 is told by the code of its range and its place there, and in no other way, but for the
   longest: it is also the last code, which always copies from offset zero.
   */
  lemma CountForms(n: nat, c: nat, extra: nat)
    requires 2 <= n && c < 21 && extra < Powers(CountBits(c))
    ensures 2 <= CountOf(c, extra) <= 256
    ensures CountOf(c, extra) == n <==>
            (c == CountCode(n) && extra == n - CountStart(n)) || (n == 256 && c == 20 && extra == 0)
    ensures n <= 256 ==> n - CountStart(n) < Powers(CountBits(CountCode(n)))
  {
  }

  // ----- Distances -----

  function DistanceBits(class_: nat): nat {
    Width(Pm2, class_)
  }

  function ClassDistance(class_: nat, extra: nat): nat {
    Base(Pm2, class_) + extra
  }

  /** The classes below eight are just what the ring buffer needs. */
  lemma DistanceStaysInRing(class_: nat, extra: nat)
    requires extra < Pow2(DistanceBits(class_))
    ensures ClassDistance(class_, extra) < RING_BUFFER_SIZE <==> class_ < NUM_OFFSETS
  {
    Pm2Reach();
    UniqueForm(Pm2, ClassDistance(class_, extra), class_, extra);
    ClassBound(Pm2, ClassDistance(class_, extra), NUM_OFFSETS);
  }

  // ----- Commands -----

  /**
   A byte by its place in the list of recent ones, or a copy from `distance` + 1 back. A code beyond those the
   format knows is no command: the original would look behind the end of its table of counts.
   */
  datatype Command = Recent(index: nat) | Copy(distance: nat, count: nat) | Beyond(code: nat)

  datatype Trees = Trees(code: seq<nat>, offset: seq<nat>, needOffset: bool)

  ghost predicate TreesOk(t: Trees) {
    && |t.code| == CODE_TREE_ELEMENTS && Forward(t.code, MARK) && CodesBelow(t.code, MARK, CODE_LIMIT)
    && |t.offset| == OFFSET_TREE_ELEMENTS && Forward(t.offset, MARK) && CodesBelow(t.offset, MARK, NUM_OFFSETS)
  }

  ghost predicate CommandOk(c: Command) {
    match c
    case Recent(index) => index < SIZE
    case Copy(distance, count) => distance < RING_BUFFER_SIZE && 2 <= count <= OUTPUT_BUFFER_SIZE
    case Beyond(_) => false
  }

  /** The distance of a copy with code c: none is read for the longest. */
  ghost function ReadDistance(t: Trees, c: nat, bits: seq<Bit>): (r: Fetch<nat>)
    requires TreesOk(t)
    ensures r.Done? ==> r.value < RING_BUFFER_SIZE
  {
    if c == 0 then EndDistance(0, bits)
    else if c < 20 then
      FollowIsBounded(t.offset, MARK, t.offset[0], bits, NUM_OFFSETS);
      match ReadTree(t.offset, MARK, bits)
      case Short => End
      case Got(class_, rest) => EndDistance(class_, rest)
    else Done(0, bits)
  }

  function EndDistance(class_: nat, bits: seq<Bit>): (r: Fetch<nat>)
    requires class_ < NUM_OFFSETS
    ensures r.Done? ==> r.value < RING_BUFFER_SIZE
  {
    var extra := ReadN(bits, DistanceBits(class_));
    if extra.End? then End
    else
      DistanceStaysInRing(class_, extra.value);
      Done(ClassDistance(class_, extra.value), extra.rest)
  }

  function EndRecent(code: nat, bits: seq<Bit>): (r: Fetch<Command>)
    requires code < 8
    ensures r.Done? ==> CommandOk(r.value)
  {
    var extra := ReadN(bits, HISTORY_DECODE[code].bits);
    if extra.End? then End
    else
      PowersArePow2(HISTORY_DECODE[code].bits);
      Done(Recent(HISTORY_DECODE[code].offset + extra.value), extra.rest)
  }

  ghost function EndCopy(t: Trees, c: nat, bits: seq<Bit>): (r: Fetch<Command>)
    requires TreesOk(t) && c < 21
    ensures r.Done? ==> CommandOk(r.value)
  {
    var extra := ReadN(bits, CountBits(c));
    if extra.End? then End
    else
      PowersArePow2(CountBits(c));
      var d := ReadDistance(t, c, extra.rest);
      if d.End? then End else Done(Copy(d.value, CountOf(c, extra.value)), d.rest)
  }

  ghost function EndCommand(t: Trees, code: nat, bits: seq<Bit>): (r: Fetch<Command>)
    requires TreesOk(t)
    ensures r.Done? ==> CommandOk(r.value) || r.value.Beyond?
    ensures r.Done? && r.value.Beyond? <==> code >= NUM_CODES
  {
    if code < 8 then EndRecent(code, bits)
    else if code < NUM_CODES then EndCopy(t, code - 8, bits)
    else Done(Beyond(code), bits)
  }

  /** The next command: whatever trees were read, a known code names a recent byte or a copy from within the ring. */
  ghost function ReadCommand(t: Trees, bits: seq<Bit>): (r: Fetch<Command>)
    requires TreesOk(t)
    ensures r.Done? ==> CommandOk(r.value) || r.value.Beyond?
    ensures r.Done? && r.value.Beyond? <==>
            ReadTree(t.code, MARK, bits).Got? && ReadTree(t.code, MARK, bits).code >= NUM_CODES
  {
    match ReadTree(t.code, MARK, bits)
    case Short => End
    case Got(code, rest) => EndCommand(t, code, rest)
  }

  lemma CommandIs(t: Trees, bits: seq<Bit>, code: nat, rest: seq<Bit>)
    requires TreesOk(t) && ReadTree(t.code, MARK, bits) == Got(code, rest)
    ensures ReadCommand(t, bits) == EndCommand(t, code, rest)
  {
  }

  // ----- Reading the trees -----

  /** What reading a tree leaves behind. */
  datatype Load = Load(trees: Trees, rest: seq<Bit>)

  /** The bits left after an attempt to read n of them. */
  function Skip(bits: seq<Bit>, n: nat): (r: seq<Bit>)
    ensures |r| <= |bits|
  {
    if |bits| < n then bits else bits[n..]
  }

  datatype Lens = Lens(all: bool, lens: seq<nat>, rest: seq<Bit>)

  function CodeLength(min: nat, val: nat): nat
    requires min >= 1
  {
    if val == 0 then 0 else min + val - 1
  }

  /** Up to n fields of `width` bits, each telling a length. */
  function ReadLens(bits: seq<Bit>, n: nat, width: nat, min: nat, got: seq<nat>): (r: Lens)
    requires width <= 7 && 1 <= min <= 7 && |got| <= n && LengthsBelow(got, MAX_LENGTH)
    ensures LengthsBelow(r.lens, MAX_LENGTH) && |r.lens| <= n && (r.all ==> |r.lens| == n) && |r.rest| <= |bits|
    decreases n - |got|
  {
    if |got| == n then Lens(true, got, bits)
    else
      var val := ReadN(bits, width);
      if val.End? then Lens(false, got, bits)
      else
        PowersArePow2(width);
        ReadLens(val.rest, n, width, min, got + [CodeLength(min, val.value)])
  }

  const CODES_BITS: nat := 5
  const MIN_BITS: nat := 3
  const WIDTH_BITS: nat := 3

  ghost function ReadCodeTree(t: Trees, bits: seq<Bit>): (r: Load)
    requires TreesOk(t)
    ensures TreesOk(r.trees)
    ensures |r.rest| <= |bits|
  {
    var n := ReadN(bits, CODES_BITS);
    var after := Skip(bits, CODES_BITS);
    var min := ReadN(after, MIN_BITS);
    var rest := Skip(after, MIN_BITS);
    if n.End? || min.End? then Load(t, rest)
    else
      PowersArePow2(MIN_BITS);
      BuildCodeTree(t.(needOffset := NeedsOffsets(n.value, min.value)), n.value, min.value, rest)
  }

  /** Whether an offset tree is read as well. */
  predicate NeedsOffsets(n: nat, min: nat) {
    n >= 10 && !(n == 29 && min == 0)
  }

  /** The only code is one less than the count; for a count of zero all bits of the leaf are set. */
  function OnlyCode(n: nat): nat {
    if n == 0 then CODE_LIMIT - 1 else n - 1
  }

  ghost function BuildCodeTree(t: Trees, n: nat, min: nat, bits: seq<Bit>): (r: Load)
    requires TreesOk(t) && n < 32 && min <= 7
    ensures TreesOk(r.trees)
    ensures |r.rest| <= |bits|
  {
    if min == 0 then
      ApplyKeepsReadable(t.code, MARK, Single(OnlyCode(n)), CODE_LIMIT);
      Load(t.(code := Apply(t.code, MARK, Single(OnlyCode(n)), CODE_LIMIT)), bits)
    else
      var width := ReadN(bits, WIDTH_BITS);
      if width.End? then Load(t, bits)
      else
        PowersArePow2(WIDTH_BITS);
        FromWidth(t, n, min, width.value, width.rest)
  }

  ghost function FromWidth(t: Trees, n: nat, min: nat, width: nat, bits: seq<Bit>): (r: Load)
    requires TreesOk(t) && n < 32 && 1 <= min <= 7 && width <= 7
    ensures TreesOk(r.trees)
    ensures |r.rest| <= |bits|
  {
    var lens := ReadLens(bits, n, width, min, []);
    if !lens.all then Load(t, lens.rest)
    else
      ApplyKeepsReadable(t.code, MARK, FromLengths(lens.lens), CODE_LIMIT);
      Load(t.(code := Apply(t.code, MARK, FromLengths(lens.lens), CODE_LIMIT)), lens.rest)
  }

  /** How many of the lengths are used, and the last of them. */
  function UsedCount(lens: seq<nat>, n: nat): nat
    requires n <= |lens|
  {
    if n == 0 then 0 else UsedCount(lens, n - 1) + if lens[n - 1] != 0 then 1 else 0
  }

  function LastUsed(lens: seq<nat>, n: nat): (k: nat)
    requires n <= |lens|
    ensures k < n || k == 0
  {
    if n == 0 then 0 else if lens[n - 1] != 0 then n - 1 else LastUsed(lens, n - 1)
  }

  /** A class that is the only one takes no bits. */
  function OffsetOp(lens: seq<nat>): Operation {
    if UsedCount(lens, |lens|) == 1 then Single(LastUsed(lens, |lens|)) else FromLengths(lens)
  }

  const OFFSET_LENGTH_BITS: nat := 3

  ghost function ReadOffsetTree(t: Trees, bits: seq<Bit>, n: nat): (r: Load)
    requires TreesOk(t) && 1 <= n <= NUM_OFFSETS
    ensures TreesOk(r.trees) && |r.rest| <= |bits|
  {
    if !t.needOffset then Load(t, bits)
    else
      var lens := ReadLens(bits, n, OFFSET_LENGTH_BITS, 1, []);
      if !lens.all then Load(t, lens.rest)
      else
        ApplyKeepsReadable(t.offset, MARK, OffsetOp(lens.lens), NUM_OFFSETS);
        Load(t.(offset := Apply(t.offset, MARK, OffsetOp(lens.lens), NUM_OFFSETS)), lens.rest)
  }

  // ----- The schedule of rebuilds -----

  datatype Stage = Unbuilt | Build1 | Build2 | Build3 | Continuing

  function NextStage(stage: Stage): Stage {
    match stage
    case Unbuilt => Build1
    case Build1 => Build2
    case Build2 => Build3
    case Build3 => Continuing
    case Continuing => Continuing
  }

  function Interval(stage: Stage): nat {
    match stage
    case Unbuilt => 1024
    case Build1 => 1024
    case Build2 => 2048
    case Build3 => 4096
    case Continuing => 4096
  }

  type OffsetCount = n: nat | 1 <= n <= NUM_OFFSETS witness 1

  datatype Reading = Codes | Offsets(n: OffsetCount)

  /** The later rebuilds begin with a bit that says whether there is a code tree. */
  predicate HasFlag(stage: Stage) {
    stage.Build3? || stage.Continuing?
  }

  function OffsetsAt(stage: Stage): OffsetCount {
    match stage
    case Unbuilt => 5
    case Build1 => 6
    case Build2 => 7
    case Build3 => 8
    case Continuing => 8
  }

  /** The trees to read; in the end the offset tree comes only with a new code tree. */
  function Due(stage: Stage, renew: bool): seq<Reading> {
    if renew then [Codes, Offsets(OffsetsAt(stage))]
    else if stage.Continuing? then []
    else [Offsets(OffsetsAt(stage))]
  }

  ghost function ReadAll(due: seq<Reading>, t: Trees, bits: seq<Bit>): (r: Load)
    requires TreesOk(t)
    ensures TreesOk(r.trees)
    decreases |due|, 1
  {
    if due == [] then Load(t, bits) else ReadFirst(due, t, bits)
  }

  ghost function ReadFirst(due: seq<Reading>, t: Trees, bits: seq<Bit>): (r: Load)
    requires TreesOk(t) && due != []
    ensures TreesOk(r.trees)
    decreases |due|, 0
  {
    var first := match due[0]
      case Codes => ReadCodeTree(t, bits)
      case Offsets(n) => ReadOffsetTree(t, bits, n);
    ReadAll(due[1..], first.trees, first.rest)
  }

  lemma ReadAllOffsets(t: Trees, bits: seq<Bit>, n: OffsetCount)
    requires TreesOk(t)
    ensures ReadAll([Offsets(n)], t, bits) == ReadOffsetTree(t, bits, n)
  {
    assert ReadAll([Offsets(n)], t, bits) == ReadFirst([Offsets(n)], t, bits);
  }

  lemma ReadAllBoth(t: Trees, bits: seq<Bit>, n: OffsetCount)
    requires TreesOk(t)
    ensures var code := ReadCodeTree(t, bits);
            ReadAll([Codes, Offsets(n)], t, bits) == ReadOffsetTree(code.trees, code.rest, n)
  {
    var due, code := [Codes, Offsets(n)], ReadCodeTree(t, bits);
    assert ReadAll(due, t, bits) == ReadFirst(due, t, bits) == ReadAll(due[1..], code.trees, code.rest);
    assert due[1..] == [Offsets(n)];
    ReadAllOffsets(code.trees, code.rest, n);
  }

  ghost function RebuildTrees(stage: Stage, t: Trees, bits: seq<Bit>): (r: Load)
    requires TreesOk(t)
    ensures TreesOk(r.trees)
  {
    var renew := stage.Unbuilt? || (HasFlag(stage) && bits != [] && bits[0] == 1);
    ReadAll(Due(stage, renew), t, if HasFlag(stage) then Skip(bits, 1) else bits)
  }

  // ----- Output -----

  datatype State = State(trees: Trees, stage: Stage, remaining: nat, bits: seq<Bit>, past: seq<Byte>)

  /** Which trees are in use after n bytes of output, and how many bytes remain before the next rebuild. */
  function StageAt(n: nat): Stage {
    if n < 1024 then Build1 else if n < 2048 then Build2 else if n < 4096 then Build3 else Continuing
  }

  function RemainingAt(n: nat): (r: nat)
    ensures r >= 1
  {
    if n < 1024 then 1024 - n else if n < 2048 then 2048 - n else if n < 4096 then 4096 - n else 4096 - n % 4096
  }

  /** The trees can be read and the schedule is on time. */
  ghost predicate StateOk(s: State) {
    TreesOk(s.trees) && s.stage == StageAt(|s.past|) && s.remaining == RemainingAt(|s.past|)
  }

  ghost function Rebuilt(s: State): State {
    if !TreesOk(s.trees) then s
    else
      var l := RebuildTrees(s.stage, s.trees, s.bits);
      s.(trees := l.trees, bits := l.rest,
         stage := NextStage(s.stage), remaining := Interval(s.stage))
  }

  ghost function CountedDown(s: State): (r: State)
    ensures TreesOk(s.trees) ==> TreesOk(r.trees)
    ensures r.past == s.past
  {
    var r := s.(remaining := if s.remaining > 0 then s.remaining - 1 else 0);
    if r.remaining == 0 then Rebuilt(r) else r
  }

  /** Output of a byte; the trees are rebuilt when the countdown ends. */
  ghost function Output(s: State, b: Byte): (r: State)
    ensures r.past == s.past + [b]
  {
    CountedDown(s.(past := s.past + [b]))
  }

  /** The rebuilds come after 1, 2, 4 and 8 kilobytes and then every four, whatever the commands. */
  lemma OutputKeepsState(s: State, b: Byte)
    requires StateOk(s)
    ensures StateOk(Output(s, b)) && Output(s, b).past == s.past + [b]
  {
    ScheduleStep(|s.past|);
  }

  lemma ScheduleStep(n: nat)
    ensures RemainingAt(n) > 1 ==> StageAt(n + 1) == StageAt(n) && RemainingAt(n + 1) == RemainingAt(n) - 1
    ensures RemainingAt(n) == 1 ==> StageAt(n + 1) == NextStage(StageAt(n)) && RemainingAt(n + 1) == Interval(StageAt(n))
  {
    if n >= 4095 {
      var q := n / 4096;
      assert n == 4096 * q + n % 4096;
      if n % 4096 < 4095 { assert (n + 1) % 4096 == n % 4096 + 1; } else { assert (n + 1) % 4096 == 0; }
    }
  }

  ghost function CopyOut(s: State, distance: nat, count: nat): State
    decreases count
  {
    if count == 0 then s else CopyOut(Output(s, Back(s.past, distance + 1)), distance, count - 1)
  }

  lemma CopyOutStep(s: State, distance: nat, count: nat)
    requires count > 0
    ensures CopyOut(s, distance, count) == CopyOut(Output(s, Back(s.past, distance + 1)), distance, count - 1)
  {
  }

  /** A copy repeats the past even where rebuilds fall into it. */
  lemma {:induction false} CopyOutIsCopy(s: State, distance: nat, count: nat)
    requires StateOk(s)
    ensures StateOk(CopyOut(s, distance, count)) && CopyOut(s, distance, count).past == LzCopy(s.past, distance, count)
    decreases count
  {
    if count > 0 {
      OutputKeepsState(s, Back(s.past, distance + 1));
      CopyOutIsCopy(Output(s, Back(s.past, distance + 1)), distance, count - 1);
    }
  }

  /** The bytes output so far, the last one first, then those never output in their initial order. */
  ghost function RecentBytes(past: seq<Byte>): (order: seq<Byte>)
    ensures Order(order)
  {
    InitialIsOrder();
    TouchAll(InitialOrder(), past)
  }

  ghost function Execute(s: State, c: Command): State
    requires CommandOk(c)
  {
    match c
    case Recent(index) => Output(s, RecentBytes(s.past)[index])
    case Copy(distance, count) => CopyOut(s, distance, count)
  }

  lemma ExecuteKeepsState(s: State, c: Command)
    requires StateOk(s) && CommandOk(c)
    ensures StateOk(Execute(s, c))
    ensures Execute(s, c).past == match c
                                  case Recent(index) => s.past + [RecentBytes(s.past)[index]]
                                  case Copy(distance, count) => LzCopy(s.past, distance, count)
  {
    match c
    case Recent(index) => OutputKeepsState(s, RecentBytes(s.past)[index]);
    case Copy(distance, count) => CopyOutIsCopy(s, distance, count);
  }

  // ----- Whole streams -----

  /** The trees before any has been read. */
  function NoTrees(): Trees {
    Trees(seq(CODE_TREE_ELEMENTS, _ => MARK), seq(OFFSET_TREE_ELEMENTS, _ => MARK), false)
  }

  /** The first bit is not used; then the first trees are read. */
  ghost function Begin(bits: seq<Bit>): State {
    Rebuilt(State(NoTrees(), Unbuilt, 0, Skip(bits, 1), []))
  }

  lemma BeginIsOk(bits: seq<Bit>)
    ensures StateOk(Begin(bits)) && Begin(bits).past == []
  {
    assert TreesOk(NoTrees());
  }

  ghost function Step(s: State): State {
    if !TreesOk(s.trees) then s
    else
      var c := ReadCommand(s.trees, s.bits);
      if c.End? || c.value.Beyond? then s else Execute(s.(bits := c.rest), c.value)
  }

  ghost function Steps(s: State, n: nat): State
    decreases n
  {
    if n == 0 then s else Steps(Step(s), n - 1)
  }

  lemma StepKeepsState(s: State)
    requires StateOk(s)
    ensures StateOk(Step(s))
  {
    var c := ReadCommand(s.trees, s.bits);
    if c.Done? && !c.value.Beyond? { ExecuteKeepsState(s.(bits := c.rest), c.value); }
  }

  lemma {:induction false} StepsKeepState(s: State, n: nat)
    requires StateOk(s)
    ensures StateOk(Steps(s, n))
    decreases n
  {
    if n > 0 {
      StepKeepsState(s);
      StepsKeepState(Step(s), n - 1);
    }
  }

  /**
   After any number of commands of any stream the trees can be read, so that every distance stays inside
   the ring buffer, and the next rebuild is due when the format says.
   */
  lemma StreamStaysOk(bits: seq<Bit>, n: nat)
    ensures StateOk(Steps(Begin(bits), n))
  {
    BeginIsOk(bits);
    StepsKeepState(Begin(bits), n);
  }
}
