/** Whole -pm2- streams: any commands, with any trees at the rebuilds, are read back as they were written. */
module Pm2Streams {
  import opened Bits
  import opened TreeDecode
  import opened Codings
  import opened History
  import opened PmaHistory
  import opened Pm2Model
  import opened Pm2Codec

  // ----- Commands -----

  /** A command as it is spelled: the place of a byte, or codes for count and distance with the bits completing them. */
  datatype Token = Known(index: nat) | Match(c: nat, extra: nat, class_: nat, low: nat)

  ghost predicate TokenOk(w: Writer, tok: Token) {
    match tok
    case Known(index) => index < SIZE && HasWord(w.codes, HistoryHeader(index))
    case Match(c, extra, class_, low) =>
      && c < 21 && HasWord(w.codes, c + 8) && extra < Pow2(CountBits(c))
      && class_ < NUM_OFFSETS && low < Pow2(DistanceBits(class_))
      && (c == 0 ==> class_ == 0) && (0 < c < 20 ==> HasWord(w.offsets, class_))
  }

  /** The longest copy takes no distance. */
  function Meaning(tok: Token): Command
    requires tok.Match? ==> tok.c < 21
  {
    match tok
    case Known(index) => Recent(index)
    case Match(c, extra, class_, low) => Copy(if c < 20 then ClassDistance(class_, low) else 0, CountOf(c, extra))
  }

  ghost function WriteToken(w: Writer, tok: Token): seq<Bit>
    requires TokenOk(w, tok)
  {
    match tok
    case Known(index) =>
      Word(w.codes, HistoryHeader(index)) + RecentField(index)
    case Match(c, extra, _, _) => Word(w.codes, c + 8) + (ToBits(extra, CountBits(c)) + WriteDistance(w, tok))
  }

  ghost function WriteDistance(w: Writer, tok: Token): seq<Bit>
    requires TokenOk(w, tok) && tok.Match?
  {
    if tok.c == 0 then ToBits(tok.low, DistanceBits(0))
    else if tok.c < 20 then Word(w.offsets, tok.class_) + ToBits(tok.low, DistanceBits(tok.class_))
    else []
  }

  /** A place within its range. */
  function RecentField(index: nat): seq<Bit> {
    var e := HISTORY_DECODE[HistoryHeader(index)];
    if index < e.offset then [] else ToBits(index - e.offset, e.bits)
  }

  lemma RecentIsRead(index: nat, tail: seq<Bit>)
    requires index < SIZE
    ensures EndRecent(HistoryHeader(index), RecentField(index) + tail) == Done(Recent(index), tail)
  {
    var e := HISTORY_DECODE[HistoryHeader(index)];
    PowersArePow2(e.bits);
    ReadNTakes(index - e.offset, e.bits, tail);
  }

  lemma DistanceIsRead(w: Writer, tok: Token, tail: seq<Bit>)
    requires WriterOk(w) && TokenOk(w, tok) && tok.Match?
    ensures ReadDistance(w.trees, tok.c, WriteDistance(w, tok) + tail)
            == Done(if tok.c < 20 then ClassDistance(tok.class_, tok.low) else 0, tail)
  {
    if tok.c < 20 {
      var low := ToBits(tok.low, DistanceBits(tok.class_));
      ReadNTakes(tok.low, DistanceBits(tok.class_), tail);
      if tok.c > 0 {
        Associate(Word(w.offsets, tok.class_), low, tail);
        assert ReadTree(w.trees.offset, MARK, Word(w.offsets, tok.class_) + (low + tail)) == Got(tok.class_, low + tail);
      }
    } else {
      assert [] + tail == tail;
    }
  }

  lemma CopyIsRead(w: Writer, tok: Token, tail: seq<Bit>)
    requires WriterOk(w) && TokenOk(w, tok) && tok.Match?
    ensures EndCopy(w.trees, tok.c, (ToBits(tok.extra, CountBits(tok.c)) + WriteDistance(w, tok)) + tail)
            == Done(Meaning(tok), tail)
  {
    var extra, far := ToBits(tok.extra, CountBits(tok.c)), WriteDistance(w, tok);
    Associate(extra, far, tail);
    ReadNTakes(tok.extra, CountBits(tok.c), far + tail);
    DistanceIsRead(w, tok, tail);
  }

  lemma CodeIsRead(w: Writer, code: nat, body: seq<Bit>, tail: seq<Bit>)
    requires WriterOk(w) && HasWord(w.codes, code)
    ensures ReadTree(w.trees.code, MARK, (Word(w.codes, code) + body) + tail) == Got(code, body + tail)
  {
    Associate(Word(w.codes, code), body, tail);
  }

  lemma KnownJoin(w: Writer, h: nat, body: seq<Bit>, index: nat, tail: seq<Bit>)
    requires WriterOk(w) && h < 8 && HasWord(w.codes, h) && EndRecent(h, body + tail) == Done(Recent(index), tail)
    ensures ReadCommand(w.trees, (Word(w.codes, h) + body) + tail) == Done(Recent(index), tail)
  {
    CodeIsRead(w, h, body, tail);
    CommandIs(w.trees, (Word(w.codes, h) + body) + tail, h, body + tail);
  }

  lemma KnownIsRead(w: Writer, index: nat, tail: seq<Bit>)
    requires WriterOk(w) && TokenOk(w, Known(index))
    ensures ReadCommand(w.trees, WriteToken(w, Known(index)) + tail) == Done(Recent(index), tail)
  {
    RecentIsRead(index, tail);
    KnownJoin(w, HistoryHeader(index), RecentField(index), index, tail);
  }

  lemma MatchIsRead(w: Writer, tok: Token, tail: seq<Bit>)
    requires WriterOk(w) && TokenOk(w, tok) && tok.Match?
    ensures ReadCommand(w.trees, WriteToken(w, tok) + tail) == Done(Meaning(tok), tail)
  {
    var body := ToBits(tok.extra, CountBits(tok.c)) + WriteDistance(w, tok);
    CodeIsRead(w, tok.c + 8, body, tail);
    CopyIsRead(w, tok, tail);
    CommandIs(w.trees, (Word(w.codes, tok.c + 8) + body) + tail, tok.c + 8, body + tail);
  }

  lemma TokenIsRead(w: Writer, tok: Token, tail: seq<Bit>)
    requires WriterOk(w) && TokenOk(w, tok)
    ensures ReadCommand(w.trees, WriteToken(w, tok) + tail) == Done(Meaning(tok), tail)
  {
    match tok
    case Known(index) => KnownIsRead(w, index, tail);
    case Match(_, _, _, _) => MatchIsRead(w, tok, tail);
  }

  // ----- Output, with the rebuilds that fall into it -----

  /** The plans suit the rebuilds, whenever they come; a plan is named by the output length before the byte that is due. */
  ghost predicate PlansOk(plan: nat -> Plan) {
    forall n: nat :: PlanOk(StageAt(n), plan(n))
  }

  ghost predicate Agrees(w: Writer, s: State) {
    s.trees == w.trees && |s.past| == w.length && StateOk(s)
  }

  ghost function Tick(w: Writer, plan: nat -> Plan): Writer
    requires WriterOk(w) && PlansOk(plan)
  {
    (if RemainingAt(w.length) > 1 then w else Renewed(w, StageAt(w.length), plan(w.length))).(length := w.length + 1)
  }

  ghost function TickBits(w: Writer, plan: nat -> Plan): seq<Bit>
    requires WriterOk(w) && PlansOk(plan)
  {
    if RemainingAt(w.length) > 1 then [] else WritePlan(StageAt(w.length), w.trees, plan(w.length))
  }

  lemma TickIsOk(w: Writer, plan: nat -> Plan)
    requires WriterOk(w) && PlansOk(plan)
    ensures WriterOk(Tick(w, plan))
  {
    RenewedIsOk(w, StageAt(w.length), plan(w.length));
  }

  /**
   In numbers: the trees come with the bytes that make the output 1, 2 and 4 KiB long and every four KiB from there
   on, an offset tree with 6, 7 or 8 lengths of three bits if the code tree asks for one.
   */
  lemma RebuildBits(w: Writer, plan: nat -> Plan)
    requires WriterOk(w) && PlansOk(plan)
    ensures var n, need, p := w.length + 1, w.trees.needOffset, plan(w.length);
            |TickBits(w, plan)| == if n == 1024 then (if need then 18 else 0)
                                   else if n == 2048 then (if need then 21 else 0)
                                   else if n == 4096 then 1 + RenewalBits(p.code, if need then 24 else 0)
                                   else if n > 4096 && n % 4096 == 0 then 1 + RenewalBits(p.code, 0)
                                   else 0
  {
    if RemainingAt(w.length) <= 1 { PlanLength(StageAt(w.length), w.trees, plan(w.length)); }
    ScheduleEnds(w.length);
  }

  lemma ScheduleEnds(n: nat)
    ensures RemainingAt(n) <= 1 <==> n + 1 in {1024, 2048, 4096} || (n >= 4096 && (n + 1) % 4096 == 0)
  {
  }

  /** A byte of output reads just what was written for it. */
  lemma OutputTicks(w: Writer, s: State, b: Byte, plan: nat -> Plan, tail: seq<Bit>)
    requires WriterOk(w) && PlansOk(plan) && Agrees(w, s) && s.bits == TickBits(w, plan) + tail
    ensures Agrees(Tick(w, plan), Output(s, b)) && Output(s, b).bits == tail
  {
    OutputKeepsState(s, b);
    if RemainingAt(w.length) > 1 {
      assert [] + tail == tail;
    } else {
      PlanIsRead(StageAt(w.length), w.trees, plan(w.length), tail);
    }
  }

  ghost function Emitted(w: Writer, n: nat, plan: nat -> Plan): (r: Writer)
    requires WriterOk(w) && PlansOk(plan)
    ensures WriterOk(r)
    decreases n
  {
    TickIsOk(w, plan);
    if n == 0 then w else Emitted(Tick(w, plan), n - 1, plan)
  }

  ghost function EmitBits(w: Writer, n: nat, plan: nat -> Plan): seq<Bit>
    requires WriterOk(w) && PlansOk(plan)
    decreases n
  {
    TickIsOk(w, plan);
    if n == 0 then [] else TickBits(w, plan) + EmitBits(Tick(w, plan), n - 1, plan)
  }

  lemma {:induction false} CopyEmits(w: Writer, s: State, d: nat, n: nat, plan: nat -> Plan, tail: seq<Bit>)
    requires WriterOk(w) && PlansOk(plan) && Agrees(w, s) && s.bits == EmitBits(w, n, plan) + tail
    ensures Agrees(Emitted(w, n, plan), CopyOut(s, d, n)) && CopyOut(s, d, n).bits == tail
    decreases n
  {
    if n == 0 {
      assert [] + tail == tail;
    } else {
      TickIsOk(w, plan);
      var next, b := Tick(w, plan), Back(s.past, d + 1);
      Associate(TickBits(w, plan), EmitBits(next, n - 1, plan), tail);
      OutputTicks(w, s, b, plan, EmitBits(next, n - 1, plan) + tail);
      CopyEmits(next, Output(s, b), d, n - 1, plan, tail);
    }
  }

  function OutputLength(c: Command): nat {
    match c
    case Recent(_) => 1
    case Copy(_, count) => count
    case Beyond(_) => 0
  }

  lemma CommandEmits(w: Writer, s: State, c: Command, plan: nat -> Plan, tail: seq<Bit>)
    requires WriterOk(w) && PlansOk(plan) && Agrees(w, s) && CommandOk(c)
    requires s.bits == EmitBits(w, OutputLength(c), plan) + tail
    ensures Agrees(Emitted(w, OutputLength(c), plan), Execute(s, c)) && Execute(s, c).bits == tail
  {
    match c
    case Recent(index) =>
      TickIsOk(w, plan);
      assert EmitBits(Tick(w, plan), 0, plan) == [] && TickBits(w, plan) + [] == TickBits(w, plan);
      OutputTicks(w, s, RecentBytes(s.past)[index], plan, tail);
    case Copy(distance, count) => CopyEmits(w, s, distance, count, plan, tail);
  }

  // ----- Whole streams -----

  ghost predicate TokensOk(w: Writer, toks: seq<Token>, plan: nat -> Plan)
    requires WriterOk(w) && PlansOk(plan)
    decreases |toks|
  {
    toks != [] ==>
      TokenOk(w, toks[0]) && TokensOk(Emitted(w, OutputLength(Meaning(toks[0])), plan), toks[1..], plan)
  }

  /** Each command is followed by the trees that fall due in its output. */
  ghost function WriteTokens(w: Writer, toks: seq<Token>, plan: nat -> Plan): seq<Bit>
    requires WriterOk(w) && PlansOk(plan) && TokensOk(w, toks, plan)
    decreases |toks|
  {
    if toks == [] then []
    else
      var n := OutputLength(Meaning(toks[0]));
      WriteToken(w, toks[0]) + (EmitBits(w, n, plan) + WriteTokens(Emitted(w, n, plan), toks[1..], plan))
  }

  /** What a command adds to the output. */
  ghost function Expand(past: seq<Byte>, c: Command): seq<Byte>
    requires CommandOk(c)
  {
    match c
    case Recent(index) => past + [RecentBytes(past)[index]]
    case Copy(distance, count) => LzCopy(past, distance, count)
  }

  lemma MeaningIsOk(w: Writer, tok: Token)
    requires WriterOk(w) && TokenOk(w, tok)
    ensures CommandOk(Meaning(tok))
  {
    TokenIsRead(w, tok, []);
  }

  /**
   In numbers: a count of n is told by the code of its range, and the distance by a class of 64 numbers at the
   start or of 2^(k+5) numbers from there on; the longest copy repeats the last byte.
   */
  lemma CopyOutput(past: seq<Byte>, tok: Token, n: nat)
    requires tok.Match? && 2 <= n <= 256 && tok.class_ < 8 && tok.low < Pow2(if tok.class_ == 0 then 6 else tok.class_ + 5)
    requires (tok.c == CountCode(n) && tok.extra == n - CountStart(n)) || (n == 256 && tok.c == 20 && tok.extra == 0)
    ensures CommandOk(Meaning(tok))
    ensures var far := if tok.c == 20 then 0 else (if tok.class_ == 0 then 0 else Pow2(tok.class_ + 5)) + tok.low;
            Repeats(past, Expand(past, Meaning(tok)), far + 1, n)
  {
    CountForms(n, tok.c, tok.extra);
    DistanceStaysInRing(tok.class_, tok.low);
    var cmd := Meaning(tok);
    CopyRepeats(past, cmd.distance, cmd.count);
  }

  ghost function ExpandAll(past: seq<Byte>, cmds: seq<Command>): seq<Byte>
    requires forall i :: 0 <= i < |cmds| ==> CommandOk(cmds[i])
    decreases |cmds|
  {
    if cmds == [] then past else ExpandAll(Expand(past, cmds[0]), cmds[1..])
  }

  ghost function Meanings(w: Writer, toks: seq<Token>, plan: nat -> Plan): (r: seq<Command>)
    requires WriterOk(w) && PlansOk(plan) && TokensOk(w, toks, plan)
    ensures |r| == |toks| && forall i :: 0 <= i < |r| ==> CommandOk(r[i])
    decreases |toks|
  {
    if toks == [] then []
    else
      MeaningIsOk(w, toks[0]);
      [Meaning(toks[0])] + Meanings(Emitted(w, OutputLength(Meaning(toks[0])), plan), toks[1..], plan)
  }

  lemma StepTakesToken(w: Writer, s: State, tok: Token, plan: nat -> Plan, tail: seq<Bit>)
    requires WriterOk(w) && PlansOk(plan) && Agrees(w, s) && TokenOk(w, tok)
    requires s.bits == WriteToken(w, tok) + (EmitBits(w, OutputLength(Meaning(tok)), plan) + tail)
    ensures CommandOk(Meaning(tok))
    ensures Agrees(Emitted(w, OutputLength(Meaning(tok)), plan), Step(s)) && Step(s).bits == tail
    ensures Step(s).past == Expand(s.past, Meaning(tok))
  {
    var after := EmitBits(w, OutputLength(Meaning(tok)), plan) + tail;
    MeaningIsOk(w, tok);
    TokenIsRead(w, tok, after);
    CommandEmits(w, s.(bits := after), Meaning(tok), plan, tail);
    ExecuteKeepsState(s.(bits := after), Meaning(tok));
  }

  /** Decoding undoes encoding: the commands are carried out one by one, through all the rebuilds. */
  lemma {:induction false} DecodeUndoesEncode(w: Writer, s: State, toks: seq<Token>, plan: nat -> Plan, tail: seq<Bit>)
    requires WriterOk(w) && PlansOk(plan) && Agrees(w, s) && TokensOk(w, toks, plan)
    requires s.bits == WriteTokens(w, toks, plan) + tail
    ensures Steps(s, |toks|).past == ExpandAll(s.past, Meanings(w, toks, plan)) && Steps(s, |toks|).bits == tail
    decreases |toks|
  {
    if toks == [] {
      assert [] + tail == tail;
    } else {
      var n := OutputLength(Meaning(toks[0]));
      var next := Emitted(w, n, plan);
      var more := WriteTokens(next, toks[1..], plan);
      Regroup(WriteToken(w, toks[0]), EmitBits(w, n, plan), more, tail);
      StepTakesToken(w, s, toks[0], plan, more + tail);
      DecodeUndoesEncode(next, Step(s), toks[1..], plan, tail);
    }
  }

  /** The writer at the start: the trees that the first rebuild reads. */
  ghost function Beginning(first: Plan): (w: Writer)
    requires PlanOk(Unbuilt, first)
    ensures WriterOk(w) && w.length == 0
  {
    var none := Writer(NoTrees(), One(0), One(0), 0);
    EmptyTreesRead();
    RenewedIsOk(none, Unbuilt, first);
    Renewed(none, Unbuilt, first)
  }

  lemma EmptyTreesRead()
    ensures WriterOk(Writer(NoTrees(), One(0), One(0), 0))
  {
    forall tail: seq<Bit> ensures [] + tail == tail { }
  }

  /** A stream from its unused first bit on: whatever it was made from is what the decoder puts out. */
  lemma StreamIsRead(unused: Bit, first: Plan, toks: seq<Token>, plan: nat -> Plan, tail: seq<Bit>)
    requires PlanOk(Unbuilt, first) && PlansOk(plan) && TokensOk(Beginning(first), toks, plan)
    ensures var w := Beginning(first);
            var bits := [unused] + (WritePlan(Unbuilt, NoTrees(), first) + (WriteTokens(w, toks, plan) + tail));
            Steps(Begin(bits), |toks|).past == ExpandAll([], Meanings(w, toks, plan))
  {
    var w := Beginning(first);
    var head, body := WritePlan(Unbuilt, NoTrees(), first), WriteTokens(w, toks, plan) + tail;
    var bits := [unused] + (head + body);
    assert Skip(bits, 1) == head + body;
    PlanIsRead(Unbuilt, NoTrees(), first, body);
    BeginIsOk(bits);
    DecodeUndoesEncode(w, Begin(bits), toks, plan, tail);
  }
}
