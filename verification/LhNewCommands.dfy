/** Commands, blocks and whole streams of the -lh4- to -lh7-, -lhx- and -lk7- formats. */
module LhNewCommands {
  import opened Bits
  import opened TreeDecode
  import opened Codings
  import opened LhNewTables
  import opened LhNewBlocks
  import opened DistanceCodes
  import opened History
  import opened BitReader

  /**
   Output a byte, or repeat `count` bytes of the output from `distance` + 1 back. A class with more extra bits than
   the bit reader can look at is no command: what the original does there depends on how its input is cut up.
   */
  datatype Command = Literal(b: Byte) | Copy(distance: nat, count: nat) | TooWide(class_: nat)

  // ----- Reading a command -----

  function SchemeOf(v: Variant): Scheme {
    if v.lhark then Lhark else Standard
  }

  function ExtraWidth(v: Variant, class_: nat): nat {
    Width(SchemeOf(v), class_)
  }

  function DistanceOf(v: Variant, class_: nat, extra: nat): nat {
    Base(SchemeOf(v), class_) + extra
  }

  function CountWidth(v: Variant, code: nat): nat {
    if v.lhark && code >= FIRST_COPY then LharkCountBits(code) else 0
  }

  function CountOf(v: Variant, code: nat, extra: nat): nat
    requires code >= 256
  {
    if v.lhark then LharkCount(code, extra) else code - 256 + 3
  }

  function EndDistance(v: Variant, class_: nat, count: nat, bits: seq<Bit>): Fetch<Command> {
    if ExtraWidth(v, class_) > MAX_PEEK then Done(TooWide(class_), bits)
    else
      var extra := ReadN(bits, ExtraWidth(v, class_));
      if extra.End? then End else Done(Copy(DistanceOf(v, class_, extra.value), count), extra.rest)
  }

  ghost function ReadDistance(v: Variant, offset: seq<nat>, count: nat, bits: seq<Bit>): Fetch<Command>
    requires Forward(offset, MARK)
  {
    match ReadTree(offset, MARK, bits)
    case Short => End
    case Got(class_, rest) => EndDistance(v, class_, count, rest)
  }

  ghost function EndCommand(v: Variant, offset: seq<nat>, code: nat, bits: seq<Bit>): Fetch<Command>
    requires Forward(offset, MARK)
  {
    if code < 256 then Done(Literal(code), bits)
    else
      var extra := ReadN(bits, CountWidth(v, code));
      if extra.End? then End else ReadDistance(v, offset, CountOf(v, code, extra.value), extra.rest)
  }

  ghost function ReadCommand(v: Variant, t: Trees, bits: seq<Bit>): Fetch<Command>
    requires TreesOk(v, t)
  {
    match ReadTree(t.code, MARK, bits)
    case Short => End
    case Got(code, rest) => EndCommand(v, t.offset, code, rest)
  }

  // ----- Reading command after command -----

  datatype State = State(trees: Trees, remaining: nat, bits: seq<Bit>)

  datatype Turn = Over | Stuck | Turn(command: Command, state: State)

  ghost predicate Good(v: Variant, s: State) {
    VariantOk(v) && TreesOk(v, s.trees)
  }

  /** The next command; a new block is begun whenever the last one is used up, even with an empty one. */
  ghost function Next(v: Variant, s: State): (r: Turn)
    ensures r.Turn? ==> Good(v, s) && Good(v, r.state) && !r.command.TooWide?
    decreases |s.bits|, s.remaining
  {
    if !Good(v, s) then Over
    else if s.remaining > 0 then
      var c := ReadCommand(v, s.trees, s.bits);
      if c.End? then Over
      else if c.value.TooWide? then Stuck
      else Turn(c.value, State(s.trees, s.remaining - 1, c.rest))
    else
      var h := ReadHead(v, s.bits, s.trees);
      if h.End? then Over else Next(v, State(h.value.trees, h.value.count, h.rest))
  }

  /** Reading as a function of the state. */
  ghost function Stepper(v: Variant): State -> Turn {
    (s: State) => Next(v, s)
  }

  lemma StepperIs(v: Variant, s: State)
    ensures Stepper(v)(s) == Next(v, s)
  {
  }

  /** Turn n begins with just these commands, and goes on with turn e. */
  ghost predicate Yields(step: State -> Turn, n: Turn, cmds: seq<Command>, e: Turn)
    decreases |cmds|
  {
    if cmds == [] then n == e
    else n.Turn? && n.command == cmds[0] && Yields(step, step(n.state), cmds[1..], e)
  }

  lemma YieldsOne(step: State -> Turn, n: Turn, cmds: seq<Command>, e: Turn)
    requires n.Turn? && Yields(step, step(n.state), cmds, e)
    ensures Yields(step, n, [n.command] + cmds, e)
  {
    assert ([n.command] + cmds)[1..] == cmds;
  }

  lemma {:induction false} YieldsJoins(step: State -> Turn, n: Turn, a: seq<Command>, m: Turn, b: seq<Command>, e: Turn)
    requires Yields(step, n, a, m) && Yields(step, m, b, e)
    ensures Yields(step, n, a + b, e)
    decreases |a|
  {
    if a == [] {
      assert a + b == b;
    } else {
      YieldsJoins(step, step(n.state), a[1..], m, b, e);
      YieldsOne(step, n, a[1..] + b, e);
      assert a + b == [n.command] + (a[1..] + b);
    }
  }

  // ----- Writing commands -----

  /** A command as a compressor spells it: codes for the count and the distance, and the bits that complete them. */
  datatype Token = Lit(b: Byte) | Match(code: nat, countExtra: nat, class_: nat, extra: nat)

  ghost predicate TokenOk(v: Variant, t: Tables, tok: Token) {
    match tok
    case Lit(b) => HasWord(t.codes, b)
    case Match(code, countExtra, class_, extra) =>
      && HasWord(t.codes, code) && code >= 256 && countExtra < Pow2(CountWidth(v, code))
      && HasWord(t.offsets, class_) && extra < Pow2(ExtraWidth(v, class_)) && ExtraWidth(v, class_) <= MAX_PEEK
  }

  ghost function Meaning(v: Variant, t: Tables, tok: Token): (c: Command)
    requires TokenOk(v, t, tok)
    ensures !c.TooWide?
  {
    match tok
    case Lit(b) => Literal(b)
    case Match(code, countExtra, class_, extra) => Copy(DistanceOf(v, class_, extra), CountOf(v, code, countExtra))
  }

  ghost function WriteToken(v: Variant, t: Tables, tok: Token): seq<Bit>
    requires TokenOk(v, t, tok)
  {
    match tok
    case Lit(b) => Word(t.codes, b)
    case Match(code, countExtra, class_, extra) =>
      Word(t.codes, code) + (ToBits(countExtra, CountWidth(v, code))
        + (Word(t.offsets, class_) + ToBits(extra, ExtraWidth(v, class_))))
  }

  /** A distance is spelled in exactly one way. */
  lemma SpellingIsUnique(v: Variant, d: nat, class_: nat, extra: nat)
    requires extra < Pow2(ExtraWidth(v, class_))
    ensures DistanceOf(v, class_, extra) == d <==>
            class_ == ClassOf(SchemeOf(v), d) && extra == d - Base(SchemeOf(v), class_)
  {
    UniqueForm(SchemeOf(v), d, class_, extra);
  }

  // ----- Commands are read as written -----

  lemma DistanceIsRead(v: Variant, trees: Trees, t: Tables, class_: nat, extra: nat, count: nat, tail: seq<Bit>)
    requires VariantOk(v) && TreesOk(v, trees) && TablesOk(v, t)
    requires HasWord(t.offsets, class_) && extra < Pow2(ExtraWidth(v, class_)) && ExtraWidth(v, class_) <= MAX_PEEK
    ensures ReadDistance(v, BuiltTrees(v, trees, t).offset, count,
                         (Word(t.offsets, class_) + ToBits(extra, ExtraWidth(v, class_))) + tail)
            == Done(Copy(DistanceOf(v, class_, extra), count), tail)
  {
    TablesFit(v, t);
    var word, low := Word(t.offsets, class_), ToBits(extra, ExtraWidth(v, class_));
    assert (word + low) + tail == word + (low + tail);
    WordIsRead(trees.offset, t.offsets, OffsetCodes(v), class_, low + tail);
    ReadNTakes(extra, ExtraWidth(v, class_), tail);
  }

  /** What follows the code of a copy. */
  ghost function CopyTail(v: Variant, t: Tables, tok: Token): seq<Bit>
    requires TokenOk(v, t, tok) && tok.Match?
  {
    ToBits(tok.countExtra, CountWidth(v, tok.code)) + (Word(t.offsets, tok.class_) + ToBits(tok.extra, ExtraWidth(v, tok.class_)))
  }

  lemma CopyIsRead(v: Variant, trees: Trees, t: Tables, tok: Token, tail: seq<Bit>)
    requires VariantOk(v) && TreesOk(v, trees) && TablesOk(v, t) && TokenOk(v, t, tok) && tok.Match?
    ensures EndCommand(v, BuiltTrees(v, trees, t).offset, tok.code, CopyTail(v, t, tok) + tail) == Done(Meaning(v, t, tok), tail)
  {
    var low := ToBits(tok.countExtra, CountWidth(v, tok.code));
    var far := Word(t.offsets, tok.class_) + ToBits(tok.extra, ExtraWidth(v, tok.class_));
    assert (low + far) + tail == low + (far + tail);
    ReadNTakes(tok.countExtra, CountWidth(v, tok.code), far + tail);
    DistanceIsRead(v, trees, t, tok.class_, tok.extra, CountOf(v, tok.code, tok.countExtra), tail);
  }

  lemma CodeIsRead(v: Variant, trees: Trees, t: Tables, code: nat, tail: seq<Bit>)
    requires VariantOk(v) && TreesOk(v, trees) && TablesOk(v, t) && HasWord(t.codes, code)
    ensures ReadTree(BuiltTrees(v, trees, t).code, MARK, Word(t.codes, code) + tail) == Got(code, tail)
  {
    TablesFit(v, t);
    WordIsRead(trees.code, t.codes, CodeLimit(), code, tail);
  }

  lemma TokenIsRead(v: Variant, trees: Trees, t: Tables, tok: Token, tail: seq<Bit>)
    requires VariantOk(v) && TreesOk(v, trees) && TablesOk(v, t) && TokenOk(v, t, tok)
    ensures ReadCommand(v, BuiltTrees(v, trees, t), WriteToken(v, t, tok) + tail) == Done(Meaning(v, t, tok), tail)
  {
    var built := BuiltTrees(v, trees, t);
    match tok
    case Lit(b) =>
      CodeIsRead(v, trees, t, b, tail);
      CommandIs(v, built, Word(t.codes, b) + tail, b, tail);
    case Match(code, _, _, _) =>
      var word, more := Word(t.codes, code), CopyTail(v, t, tok);
      Associate(word, more, tail);
      CodeIsRead(v, trees, t, code, more + tail);
      CopyIsRead(v, trees, t, tok, tail);
      CommandIs(v, built, word + (more + tail), code, more + tail);
  }

  lemma CommandIs(v: Variant, trees: Trees, bits: seq<Bit>, code: nat, rest: seq<Bit>)
    requires TreesOk(v, trees) && ReadTree(trees.code, MARK, bits) == Got(code, rest)
    ensures ReadCommand(v, trees, bits) == EndCommand(v, trees.offset, code, rest)
  {
  }

  ghost predicate TokensOk(v: Variant, t: Tables, toks: seq<Token>) {
    forall i :: 0 <= i < |toks| ==> TokenOk(v, t, toks[i])
  }

  ghost function WriteTokens(v: Variant, t: Tables, toks: seq<Token>): seq<Bit>
    requires TokensOk(v, t, toks)
  {
    if toks == [] then [] else WriteToken(v, t, toks[0]) + WriteTokens(v, t, toks[1..])
  }

  ghost function Meanings(v: Variant, t: Tables, toks: seq<Token>): (r: seq<Command>)
    requires TokensOk(v, t, toks)
    ensures NoneTooWide(r)
  {
    if toks == [] then [] else [Meaning(v, t, toks[0])] + Meanings(v, t, toks[1..])
  }

  /** One command out of several. */
  lemma CommandStep(v: Variant, trees: Trees, n: nat, bits: seq<Bit>, cmd: Command, rest: seq<Bit>)
    requires VariantOk(v) && TreesOk(v, trees) && n > 0 && ReadCommand(v, trees, bits) == Done(cmd, rest) && !cmd.TooWide?
    ensures Next(v, State(trees, n, bits)) == Turn(cmd, State(trees, n - 1, rest))
  {
  }

  lemma {:induction false} TokensAreRead(v: Variant, trees: Trees, t: Tables, toks: seq<Token>, tail: seq<Bit>)
    requires VariantOk(v) && TreesOk(v, trees) && TablesOk(v, t) && TokensOk(v, t, toks)
    ensures var built := BuiltTrees(v, trees, t);
            Yields(Stepper(v), Next(v, State(built, |toks|, WriteTokens(v, t, toks) + tail)), Meanings(v, t, toks),
                   Next(v, State(built, 0, tail)))
    decreases |toks|
  {
    var built := BuiltTrees(v, trees, t);
    if toks == [] {
      assert [] + tail == tail;
    } else {
      var first, more := WriteToken(v, t, toks[0]), WriteTokens(v, t, toks[1..]);
      TokenIsRead(v, trees, t, toks[0], more + tail);
      TokensAreRead(v, trees, t, toks[1..], tail);
      TokensJoin(v, built, |toks|, first, more, tail, Meaning(v, t, toks[0]), Meanings(v, t, toks[1..]),
                 Next(v, State(built, 0, tail)));
    }
  }

  lemma TokensJoin(v: Variant, built: Trees, n: nat, first: seq<Bit>, more: seq<Bit>, tail: seq<Bit>,
                   cmd: Command, cmds: seq<Command>, end: Turn)
    requires VariantOk(v) && TreesOk(v, built) && n > 0 && !cmd.TooWide?
    requires ReadCommand(v, built, first + (more + tail)) == Done(cmd, more + tail)
    requires Yields(Stepper(v), Next(v, State(built, n - 1, more + tail)), cmds, end)
    ensures Yields(Stepper(v), Next(v, State(built, n, (first + more) + tail)), [cmd] + cmds, end)
  {
    Associate(first, more, tail);
    CommandStep(v, built, n, first + (more + tail), cmd, more + tail);
    StepperIs(v, State(built, n - 1, more + tail));
    YieldsOne(Stepper(v), Turn(cmd, State(built, n - 1, more + tail)), cmds, end);
  }

  // ----- Blocks and whole streams -----

  datatype Block = Block(tables: Tables, tokens: seq<Token>)

  ghost predicate BlockOk(v: Variant, b: Block) {
    TablesOk(v, b.tables) && TokensOk(v, b.tables, b.tokens) && |b.tokens| < Pow2(BLOCK_BITS)
  }

  ghost function WriteBlock(v: Variant, b: Block): seq<Bit>
    requires BlockOk(v, b)
  {
    ToBits(|b.tokens|, BLOCK_BITS) + (WriteTables(v, b.tables) + WriteTokens(v, b.tables, b.tokens))
  }

  lemma HeadIsRead(v: Variant, trees: Trees, b: Block, tail: seq<Bit>)
    requires VariantOk(v) && TreesOk(v, trees) && BlockOk(v, b)
    ensures var after := WriteTokens(v, b.tables, b.tokens) + tail;
            ReadHead(v, WriteBlock(v, b) + tail, trees) == Done(Head(|b.tokens|, BuiltTrees(v, trees, b.tables)), after)
  {
    var tables, tokens := WriteTables(v, b.tables), WriteTokens(v, b.tables, b.tokens);
    TablesAreRead(v, trees, b.tables, tokens + tail);
    HeadJoin(v, trees, |b.tokens|, tables, tokens, tail, BuiltTrees(v, trees, b.tables));
  }

  lemma HeadJoin(v: Variant, trees: Trees, n: nat, tables: seq<Bit>, tokens: seq<Bit>, tail: seq<Bit>, built: Trees)
    requires VariantOk(v) && TreesOk(v, trees) && n < Pow2(BLOCK_BITS)
    requires ReadTrees(v, tables + (tokens + tail), trees) == Done(built, tokens + tail)
    ensures ReadHead(v, (ToBits(n, BLOCK_BITS) + (tables + tokens)) + tail, trees) == Done(Head(n, built), tokens + tail)
  {
    Regroup(ToBits(n, BLOCK_BITS), tables, tokens, tail);
    ReadNTakes(n, BLOCK_BITS, tables + (tokens + tail));
  }

  lemma HeadStep(v: Variant, trees: Trees, bits: seq<Bit>, h: Head, rest: seq<Bit>)
    requires VariantOk(v) && TreesOk(v, trees) && ReadHead(v, bits, trees) == Done(h, rest)
    ensures Next(v, State(trees, 0, bits)) == Next(v, State(h.trees, h.count, rest))
  {
  }

  lemma BlockIsRead(v: Variant, trees: Trees, b: Block, tail: seq<Bit>)
    requires VariantOk(v) && TreesOk(v, trees) && BlockOk(v, b)
    ensures Yields(Stepper(v), Next(v, State(trees, 0, WriteBlock(v, b) + tail)), Meanings(v, b.tables, b.tokens),
                   Next(v, State(BuiltTrees(v, trees, b.tables), 0, tail)))
  {
    HeadIsRead(v, trees, b, tail);
    HeadStep(v, trees, WriteBlock(v, b) + tail, Head(|b.tokens|, BuiltTrees(v, trees, b.tables)),
             WriteTokens(v, b.tables, b.tokens) + tail);
    TokensAreRead(v, trees, b.tables, b.tokens, tail);
  }

  ghost predicate BlocksOk(v: Variant, blocks: seq<Block>) {
    forall i :: 0 <= i < |blocks| ==> BlockOk(v, blocks[i])
  }

  ghost function WriteBlocks(v: Variant, blocks: seq<Block>): seq<Bit>
    requires BlocksOk(v, blocks)
  {
    if blocks == [] then [] else WriteBlock(v, blocks[0]) + WriteBlocks(v, blocks[1..])
  }

  ghost function AllMeanings(v: Variant, blocks: seq<Block>): (r: seq<Command>)
    requires BlocksOk(v, blocks)
    ensures NoneTooWide(r)
  {
    if blocks == [] then []
    else
      var b := blocks[0];
      assert BlockOk(v, b);
      Meanings(v, b.tables, b.tokens) + AllMeanings(v, blocks[1..])
  }

  ghost function TreesAfter(v: Variant, trees: Trees, blocks: seq<Block>): (r: Trees)
    requires VariantOk(v) && TreesOk(v, trees) && BlocksOk(v, blocks)
    ensures TreesOk(v, r)
    decreases |blocks|
  {
    if blocks == [] then trees
    else
      var b := blocks[0];
      assert BlockOk(v, b);
      TreesAfter(v, BuiltTrees(v, trees, b.tables), blocks[1..])
  }

  /**
   Decoding undoes encoding: from trees in any state, what was written in any number of blocks, each with
   tables of its own and possibly empty, is read back command by command, and reading goes on behind it.
   */
  lemma {:induction false} DecodeUndoesEncode(v: Variant, trees: Trees, blocks: seq<Block>, tail: seq<Bit>)
    requires VariantOk(v) && TreesOk(v, trees) && BlocksOk(v, blocks)
    ensures Yields(Stepper(v), Next(v, State(trees, 0, WriteBlocks(v, blocks) + tail)), AllMeanings(v, blocks),
                   Next(v, State(TreesAfter(v, trees, blocks), 0, tail)))
    decreases |blocks|
  {
    if blocks == [] {
      assert [] + tail == tail;
    } else {
      var b, more := blocks[0], WriteBlocks(v, blocks[1..]);
      assert BlockOk(v, b);
      var built := BuiltTrees(v, trees, b.tables);
      var first, after := WriteBlock(v, b), TreesAfter(v, built, blocks[1..]);
      BlockIsRead(v, trees, b, more + tail);
      DecodeUndoesEncode(v, built, blocks[1..], tail);
      BlocksJoin(v, trees, built, after, first, more, tail, Meanings(v, b.tables, b.tokens), AllMeanings(v, blocks[1..]));
    }
  }

  lemma BlocksJoin(v: Variant, trees: Trees, built: Trees, after: Trees, first: seq<Bit>, more: seq<Bit>, tail: seq<Bit>,
                   a: seq<Command>, b: seq<Command>)
    requires Yields(Stepper(v), Next(v, State(trees, 0, first + (more + tail))), a, Next(v, State(built, 0, more + tail)))
    requires Yields(Stepper(v), Next(v, State(built, 0, more + tail)), b, Next(v, State(after, 0, tail)))
    ensures Yields(Stepper(v), Next(v, State(trees, 0, (first + more) + tail)), a + b, Next(v, State(after, 0, tail)))
  {
    assert (first + more) + tail == first + (more + tail);
    YieldsJoins(Stepper(v), Next(v, State(trees, 0, first + (more + tail))), a, Next(v, State(built, 0, more + tail)), b,
                Next(v, State(after, 0, tail)));
  }

  // ----- What commands do -----

  function RingSize(v: Variant): nat { Pow2(v.historyBits) }

  /** The distance of a copy counts on a ring: beyond its size it wraps around. */
  function Execute(v: Variant, past: seq<Byte>, cmd: Command): (r: seq<Byte>)
    requires !cmd.TooWide?
    ensures past <= r
  {
    match cmd
    case Literal(b) => past + [b]
    case Copy(distance, count) => LzCopy(past, distance % RingSize(v), count)
  }

  /** Within the ring buffer a copy goes back by its distance. */
  lemma ExecuteInRing(v: Variant, past: seq<Byte>, distance: nat, count: nat)
    requires distance < RingSize(v)
    ensures Execute(v, past, Copy(distance, count)) == LzCopy(past, distance, count)
  {
    ModOf(0, RingSize(v), distance);
  }

  ghost predicate NoneTooWide(cmds: seq<Command>) {
    forall i :: 0 <= i < |cmds| ==> !cmds[i].TooWide?
  }

  function ExecuteAll(v: Variant, past: seq<Byte>, cmds: seq<Command>): seq<Byte>
    requires NoneTooWide(cmds)
    decreases |cmds|
  {
    if cmds == [] then past else ExecuteAll(v, Execute(v, past, cmds[0]), cmds[1..])
  }

  // ----- The formats -----

  ghost predicate ClassInRing(v: Variant, class_: nat) {
    if v.lhark then class_ < 2 * v.historyBits else class_ <= v.historyBits
  }

  /** These are just the classes that the distances of the ring buffer need. */
  lemma ClassOfRing(v: Variant, class_: nat, extra: nat)
    requires extra < Pow2(ExtraWidth(v, class_)) && v.historyBits >= 2
    ensures ClassInRing(v, class_) <==> DistanceOf(v, class_, extra) < RingSize(v)
  {
    var d := DistanceOf(v, class_, extra);
    SpellingIsUnique(v, d, class_, extra);
    ClassBound(SchemeOf(v), d, if v.lhark then 2 * v.historyBits else v.historyBits + 1);
    LharkReach(v.historyBits);
  }

  const FORMATS: set<Variant> := {LH5, LH6, LH7, LHX, LK7}

  /**
   In each of the formats the offset table has room for every class of the ring buffer, and their extra bits
   can be read; the ring's size divides 2^32.
   */
  lemma FormatsFit(v: Variant, class_: nat)
    requires v in FORMATS
    ensures VariantOk(v) && 2 <= v.historyBits <= 20
    ensures ClassInRing(v, class_) ==> class_ < OffsetCodes(v) - 1 && ExtraWidth(v, class_) <= MAX_PEEK
  {
    assert Pow2(4) == 16 && Pow2(5) == 32 && Pow2(6) == 64;
  }

  /** Outside LHARK each count has one code, 253 more than the count. */
  lemma PlainCounts(v: Variant, code: nat, extra: nat, count: nat)
    requires !v.lhark && code >= 256
    ensures CountOf(v, code, extra) == count <==> code == count + 253
  {
  }

  /** Every copy within the ring buffer can be spelled with the codes the tables of a format can hold. */
  lemma CopyHasSpelling(v: Variant, distance: nat, count: nat) returns (tok: Token)
    requires v in FORMATS && distance < RingSize(v) && 3 <= count <= if v.lhark then 514 else 256
    ensures tok.Match? && 256 <= tok.code < v.numCodes && tok.class_ < OffsetCodes(v) - 1
    ensures tok.countExtra < Pow2(CountWidth(v, tok.code)) && tok.extra < Pow2(ExtraWidth(v, tok.class_))
    ensures ExtraWidth(v, tok.class_) <= MAX_PEEK
    ensures DistanceOf(v, tok.class_, tok.extra) == distance && CountOf(v, tok.code, tok.countExtra) == count
    ensures !v.lhark ==> tok.code == count + 253
  {
    var code, extra := count + 253, 0;
    if v.lhark { code, extra := LharkCountExists(count); }
    var c := ClassOf(SchemeOf(v), distance);
    tok := Match(code, extra, c, distance - Base(SchemeOf(v), c));
    FormatsFit(v, c);
    ClassOfRing(v, c, tok.extra);
  }
}
