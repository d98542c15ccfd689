/**
 The tables at the head of each block of the -lh4- to -lh7-, -lhx- and -lk7- formats, as they are read from
 the bit stream and as a compressor may write them.
 */
module LhNewTables {
  import opened Bits
  import opened TreeDecode
  import opened Codings

  /** The leaf mark of a 16-bit tree element. */
  const MARK: nat := 0x8000

  const TEMP_CODE_BITS: nat := 5

  /** Bits of a code length, and of the count of lengths passed over. */
  const LENGTH_BITS: nat := 3
  const GAP_BITS: nat := 2
  const MAX_TEMP_CODES: nat := 31
  const TEMP_CODES: nat := 32

  // ----- A single length -----

  function Unary(bits: seq<Bit>, len: nat): (r: Fetch<nat>)
    ensures r.Done? ==> |r.rest| < |bits|
    decreases |bits|
  {
    if bits == [] then End
    else if bits[0] == 0 then Done(len, bits[1..])
    else Unary(bits[1..], len + 1)
  }

  /** Three bits; the value seven is extended by ones up to a zero. */
  function ReadLength(bits: seq<Bit>): (r: Fetch<nat>)
    ensures r.Done? ==> |r.rest| < |bits|
  {
    var r := ReadN(bits, LENGTH_BITS);
    if r.Done? && r.value == 7 then Unary(r.rest, 7) else r
  }

  function Ones(n: nat): seq<Bit> {
    if n == 0 then [] else [1] + Ones(n - 1)
  }

  function WriteLength(len: nat): seq<Bit> {
    if len < 7 then ToBits(len, LENGTH_BITS) else ToBits(7, LENGTH_BITS) + (Ones(len - 7) + [0])
  }

  lemma {:induction false} UnaryTakes(n: nat, len: nat, tail: seq<Bit>)
    ensures Unary((Ones(n) + [0]) + tail, len) == Done(len + n, tail)
    decreases n
  {
    var bits := (Ones(n) + [0]) + tail;
    if n == 0 {
      assert bits[1..] == tail;
    } else {
      assert bits[1..] == (Ones(n - 1) + [0]) + tail;
      UnaryTakes(n - 1, len + 1, tail);
    }
  }

  lemma LengthIsRead(len: nat, tail: seq<Bit>)
    ensures ReadLength(WriteLength(len) + tail) == Done(len, tail)
  {
    assert Pow2(LENGTH_BITS) == 8;
    if len < 7 {
      ReadNTakes(len, LENGTH_BITS, tail);
    } else {
      UnaryTakes(len - 7, 7, tail);
      LongLength(ToBits(7, LENGTH_BITS), Ones(len - 7) + [0], len, tail);
    }
  }

  lemma LongLength(seven: seq<Bit>, more: seq<Bit>, len: nat, tail: seq<Bit>)
    requires seven == ToBits(7, LENGTH_BITS) && Pow2(LENGTH_BITS) == 8 && Unary(more + tail, 7) == Done(len, tail)
    ensures ReadLength((seven + more) + tail) == Done(len, tail)
  {
    assert (seven + more) + tail == seven + (more + tail);
    ReadNTakes(7, LENGTH_BITS, more + tail);
  }

  // ----- A list of lengths -----

  /** A run of unused codes. */
  function Unused(n: nat): (r: seq<nat>)
    ensures |r| == n && LengthsBelow(r, MAX_LENGTH)
  {
    seq(n, _ => 0)
  }

  /** A length, cut to eight bits; where there may be a gap, two bits tell how many unused codes follow. */
  function ReadItem(bits: seq<Bit>, gapHere: bool): (r: Fetch<seq<nat>>)
    ensures r.Done? ==> |r.value| >= 1 && LengthsBelow(r.value, MAX_LENGTH) && |r.rest| < |bits|
  {
    var len := ReadLength(bits);
    if len.End? then End else EndItem(len.value % 256, len.rest, gapHere)
  }

  function EndItem(len: nat, bits: seq<Bit>, gapHere: bool): (r: Fetch<seq<nat>>)
    requires len < 256
    ensures r.Done? ==> |r.value| >= 1 && LengthsBelow(r.value, MAX_LENGTH) && |r.rest| <= |bits|
  {
    if !gapHere then Done([len], bits)
    else
      var gap := ReadN(bits, GAP_BITS);
      if gap.End? then End else Done([len] + Unused(gap.value), gap.rest)
  }

  /** Lengths until there are n of them or more. The temporary table has its gap after the third. */
  function ReadLengths(bits: seq<Bit>, n: nat, got: seq<nat>, gapped: bool): (r: Fetch<seq<nat>>)
    requires LengthsBelow(got, MAX_LENGTH)
    ensures r.Done? ==> |r.value| >= n && LengthsBelow(r.value, MAX_LENGTH) && |r.rest| <= |bits|
    decreases |bits|
  {
    if |got| >= n then Done(got, bits)
    else
      var item := ReadItem(bits, gapped && |got| == 2);
      if item.End? then End else ReadLengths(item.rest, n, got + item.value, gapped)
  }

  function WriteItem(len: nat, gapHere: bool, gap: nat): seq<Bit> {
    WriteLength(len) + if gapHere then ToBits(gap, GAP_BITS) else []
  }

  function NextItem(i: nat, gapped: bool, gap: nat): nat {
    if gapped && i == 2 then i + 1 + gap else i + 1
  }

  /** The lengths from i on, passing over `gap` unused codes after the third. */
  function WriteLengths(lens: seq<nat>, i: nat, gapped: bool, gap: nat): seq<Bit>
    decreases |lens| - i
  {
    if i >= |lens| then []
    else WriteItem(lens[i], gapped && i == 2, gap) + WriteLengths(lens, NextItem(i, gapped, gap), gapped, gap)
  }

  ghost predicate GapOk(lens: seq<nat>, gapped: bool, gap: nat) {
    gapped && |lens| >= 3 ==> gap <= 3 && gap + 3 <= |lens| && forall k :: 3 <= k < 3 + gap ==> lens[k] == 0
  }

  lemma PlainItemIsRead(len: nat, here: bool, gap: nat, tail: seq<Bit>)
    requires len < 256 && !here
    ensures ReadItem(WriteItem(len, here, gap) + tail, here) == Done([len], tail)
  {
    LengthIsRead(len, [] + tail);
    ItemEnds(WriteLength(len), len, [], tail, here);
    assert [] + tail == tail;
  }

  lemma ItemEnds(w: seq<Bit>, len: nat, field: seq<Bit>, tail: seq<Bit>, here: bool)
    requires len < 256 && ReadLength(w + (field + tail)) == Done(len, field + tail)
    ensures ReadItem((w + field) + tail, here) == EndItem(len, field + tail, here)
  {
    assert (w + field) + tail == w + (field + tail);
  }

  lemma GapItemIsRead(len: nat, here: bool, gap: nat, tail: seq<Bit>)
    requires len < 256 && gap <= 3 && here
    ensures ReadItem(WriteItem(len, here, gap) + tail, here) == Done([len] + Unused(gap), tail)
  {
    var field := ToBits(gap, GAP_BITS);
    LengthIsRead(len, field + tail);
    ItemEnds(WriteLength(len), len, field, tail, here);
    GapEnds(len, gap, tail);
  }

  lemma GapEnds(len: nat, gap: nat, tail: seq<Bit>)
    requires len < 256 && gap <= 3
    ensures EndItem(len, ToBits(gap, GAP_BITS) + tail, true) == Done([len] + Unused(gap), tail)
  {
    assert Pow2(GAP_BITS) == 4;
    ReadNTakes(gap, GAP_BITS, tail);
  }

  lemma ItemIsRead(lens: seq<nat>, i: nat, gapped: bool, gap: nat, tail: seq<Bit>)
    requires LengthsBelow(lens, MAX_LENGTH) && i < |lens| && GapOk(lens, gapped, gap)
    ensures var next, here := NextItem(i, gapped, gap), gapped && i == 2;
            && next <= |lens|
            && ReadItem(WriteItem(lens[i], here, gap) + tail, here) == Done(lens[i..next], tail)
  {
    var next, here := NextItem(i, gapped, gap), gapped && i == 2;
    if here {
      GapItemIsRead(lens[i], here, gap, tail);
      assert [lens[i]] + Unused(gap) == lens[i..next];
    } else {
      PlainItemIsRead(lens[i], here, gap, tail);
      assert [lens[i]] == lens[i..next];
    }
  }

  lemma {:induction false} LengthsAreRead(lens: seq<nat>, i: nat, gapped: bool, gap: nat, tail: seq<Bit>)
    requires LengthsBelow(lens, MAX_LENGTH) && i <= |lens| && GapOk(lens, gapped, gap)
    ensures ReadLengths(WriteLengths(lens, i, gapped, gap) + tail, |lens|, lens[..i], gapped) == Done(lens, tail)
    decreases |lens| - i
  {
    if i == |lens| {
      assert lens[..i] == lens && [] + tail == tail;
    } else {
      var next := NextItem(i, gapped, gap);
      var item, more := WriteItem(lens[i], gapped && i == 2, gap), WriteLengths(lens, next, gapped, gap);
      ItemIsRead(lens, i, gapped, gap, more + tail);
      LengthsAreRead(lens, next, gapped, gap, tail);
      Associate(item, more, tail);
      SliceJoins(lens, i, next);
      LengthsStep((item + more) + tail, |lens|, lens[..i], gapped, lens[i..next], more + tail, lens[..next], Done(lens, tail));
    }
  }

  lemma SliceJoins<T>(s: seq<T>, i: nat, j: nat)
    requires i <= j <= |s|
    ensures s[..i] + s[i..j] == s[..j]
  {
  }

  lemma LengthsStep(bits: seq<Bit>, n: nat, got: seq<nat>, gapped: bool, item: seq<nat>, rest: seq<Bit>, more: seq<nat>,
                    result: Fetch<seq<nat>>)
    requires LengthsBelow(got, MAX_LENGTH) && |got| < n && ReadItem(bits, gapped && |got| == 2) == Done(item, rest)
    requires more == got + item && LengthsBelow(more, MAX_LENGTH) && ReadLengths(rest, n, more, gapped) == result
    ensures ReadLengths(bits, n, got, gapped) == result
  {
  }

  // ----- Trees -----

  /** A table that can be read, with codes below n. */
  ghost predicate Codes(tree: seq<nat>, n: nat) {
    Forward(tree, MARK) && CodesBelow(tree, MARK, n) && n > 0
  }

  /** The table after the coding has been put into it, over whatever it held. */
  ghost function Built(tree: seq<nat>, c: Coding, n: nat): (r: seq<nat>)
    requires Codes(tree, n) && Fits(c, n)
    ensures Codes(r, n) && |r| == |tree|
  {
    ApplyKeepsReadable(tree, MARK, Operate(c), n);
    Apply(tree, MARK, Operate(c), n)
  }

  lemma WordIsRead(tree: seq<nat>, c: Coding, n: nat, sym: nat, tail: seq<Bit>)
    requires Codes(tree, n) && Fits(c, n) && HasWord(c, sym) && (c.Many? ==> 2 * |c.lens| <= |tree|)
    ensures ReadTree(Built(tree, c, n), MARK, Word(c, sym) + tail) == Got(sym, tail)
  {
    AnyWordIsRead(tree, MARK, c, n, sym, tail);
  }

  // ----- The temporary table and the offset table -----

  /** A count of `width` bits and that many lengths; a count of zero is followed by the only code. */
  function ReadCoding(bits: seq<Bit>, width: nat, max: nat, gapped: bool): (r: Fetch<Coding>)
    requires max == Pow2(width)
    ensures r.Done? ==> Fits(r.value, max) && |r.rest| <= |bits|
  {
    var n := ReadN(bits, width);
    if n.End? then End
    else if n.value == 0 then
      var code := ReadN(n.rest, width);
      if code.End? then End else Done(One(code.value), code.rest)
    else
      var lens := ReadLengths(n.rest, n.value, [], gapped);
      if lens.End? then End else Done(Many(lens.value[..n.value]), lens.rest)
  }

  ghost function ReadTable(bits: seq<Bit>, tree: seq<nat>, width: nat, max: nat, gapped: bool): (r: Fetch<seq<nat>>)
    requires Codes(tree, max) && max == Pow2(width)
    ensures r.Done? ==> Codes(r.value, max) && |r.value| == |tree| && |r.rest| <= |bits|
  {
    var c := ReadCoding(bits, width, max, gapped);
    if c.End? then End else Done(Built(tree, c.value, max), c.rest)
  }

  /** A coding as such a table: as many lengths as the count can tell. */
  ghost predicate Tabular(c: Coding, max: nat, gapped: bool, gap: nat) {
    match c
    case Many(lens) => 1 <= |lens| < max && LengthsBelow(lens, MAX_LENGTH) && GapOk(lens, gapped, gap)
    case One(code) => code < max
  }

  function WriteTable(c: Coding, width: nat, gapped: bool, gap: nat): seq<Bit> {
    match c
    case Many(lens) => ToBits(|lens|, width) + WriteLengths(lens, 0, gapped, gap)
    case One(code) => ToBits(0, width) + ToBits(code, width)
  }

  lemma ManyAreRead(lens: seq<nat>, width: nat, gapped: bool, gap: nat, tail: seq<Bit>)
    requires Tabular(Many(lens), Pow2(width), gapped, gap)
    ensures ReadCoding(WriteTable(Many(lens), width, gapped, gap) + tail, width, Pow2(width), gapped) == Done(Many(lens), tail)
  {
    var count, body := ToBits(|lens|, width), WriteLengths(lens, 0, gapped, gap);
    assert (count + body) + tail == count + (body + tail);
    ReadNTakes(|lens|, width, body + tail);
    assert lens[..0] == [] && lens[..|lens|] == lens;
    LengthsAreRead(lens, 0, gapped, gap, tail);
  }

  lemma OneIsRead(code: nat, width: nat, gapped: bool, gap: nat, tail: seq<Bit>)
    requires code < Pow2(width)
    ensures ReadCoding(WriteTable(One(code), width, gapped, gap) + tail, width, Pow2(width), gapped) == Done(One(code), tail)
  {
    var count, body := ToBits(0, width), ToBits(code, width);
    assert (count + body) + tail == count + (body + tail);
    ReadNTakes(0, width, body + tail);
    ReadNTakes(code, width, tail);
  }

  lemma TableIsRead(tree: seq<nat>, c: Coding, width: nat, max: nat, gapped: bool, gap: nat, tail: seq<Bit>)
    requires Codes(tree, max) && max == Pow2(width) && Tabular(c, max, gapped, gap)
    ensures ReadTable(WriteTable(c, width, gapped, gap) + tail, tree, width, max, gapped) == Done(Built(tree, c, max), tail)
  {
    match c
    case Many(lens) => ManyAreRead(lens, width, gapped, gap, tail);
    case One(code) => OneIsRead(code, width, gapped, gap, tail);
  }

  // ----- The code table -----

  const CODE_COUNT_BITS: nat := 9
  const SHORT_SKIP_BITS: nat := 4
  const LONG_SKIP_BITS: nat := 9

  function ReadSkipCount(bits: seq<Bit>, range: nat): (r: Fetch<nat>)
    ensures r.Done? ==> r.value >= 1 && |r.rest| <= |bits|
  {
    if range == 0 then Done(1, bits)
    else
      var r := ReadN(bits, if range == 1 then SHORT_SKIP_BITS else LONG_SKIP_BITS);
      if r.End? then End else Done(r.value + if range == 1 then 3 else 20, r.rest)
  }

  /** What a symbol of the temporary table adds to the code lengths: unused codes, or a length. */
  ghost function ReadRun(bits: seq<Bit>, temp: seq<nat>, room: nat): (r: Fetch<seq<nat>>)
    requires Codes(temp, TEMP_CODES) && room >= 1
    ensures r.Done? ==> 1 <= |r.value| <= room && LengthsBelow(r.value, MAX_LENGTH) && |r.rest| <= |bits|
  {
    ReadIsBounded(temp, bits);
    match ReadTree(temp, MARK, bits)
    case Short => End
    case Got(code, rest) => EndRun(code, rest, room)
  }

  function EndRun(code: nat, bits: seq<Bit>, room: nat): (r: Fetch<seq<nat>>)
    requires room >= 1
    ensures r.Done? ==> 1 <= |r.value| <= room && LengthsBelow(r.value, MAX_LENGTH) && |r.rest| <= |bits|
  {
    if code > 2 then Done([(code - 2) % 256], bits)
    else
      var skip := ReadSkipCount(bits, code);
      if skip.End? then End else Done(Unused(if skip.value <= room then skip.value else room), skip.rest)
  }

  lemma ReadIsBounded(temp: seq<nat>, bits: seq<Bit>)
    requires Codes(temp, TEMP_CODES)
    ensures var r := ReadTree(temp, MARK, bits);
            r.Got? ==> |r.rest| <= |bits| && r.code <= MAX_TEMP_CODES
  {
    FollowIsBounded(temp, MARK, temp[0], bits, TEMP_CODES);
  }

  ghost function ReadRuns(bits: seq<Bit>, temp: seq<nat>, n: nat, got: seq<nat>): (r: Fetch<seq<nat>>)
    requires Codes(temp, TEMP_CODES) && |got| <= n && LengthsBelow(got, MAX_LENGTH)
    ensures r.Done? ==> |r.value| == n && LengthsBelow(r.value, MAX_LENGTH) && |r.rest| <= |bits|
    decreases n - |got|
  {
    if |got| == n then Done(got, bits)
    else
      var run := ReadRun(bits, temp, n - |got|);
      if run.End? then End else ReadRuns(run.rest, temp, n, got + run.value)
  }

  lemma RunsStep(bits: seq<Bit>, temp: seq<nat>, n: nat, got: seq<nat>)
    requires Codes(temp, TEMP_CODES) && |got| < n && LengthsBelow(got, MAX_LENGTH)
    ensures var run := ReadRun(bits, temp, n - |got|);
            if run.End? then ReadRuns(bits, temp, n, got) == End
            else LengthsBelow(got + run.value, MAX_LENGTH)
                 && ReadRuns(bits, temp, n, got) == ReadRuns(run.rest, temp, n, got + run.value)
  {
  }

  /** The coding of the code table. There may be codes beyond those that lengths can be given for. */
  ghost function ReadCodes(bits: seq<Bit>, temp: seq<nat>, numCodes: nat): (r: Fetch<Coding>)
    requires Codes(temp, TEMP_CODES) && numCodes <= Pow2(CODE_COUNT_BITS)
    ensures r.Done? ==> Fits(r.value, Pow2(CODE_COUNT_BITS)) && |r.rest| <= |bits|
  {
    var n := ReadN(bits, CODE_COUNT_BITS);
    if n.End? then End
    else if n.value == 0 then
      var code := ReadN(n.rest, CODE_COUNT_BITS);
      if code.End? then End else Done(One(code.value), code.rest)
    else
      var lens := ReadRuns(n.rest, temp, if n.value > numCodes then numCodes else n.value, []);
      if lens.End? then End else Done(Many(lens.value), lens.rest)
  }

  ghost function ReadCodeTable(bits: seq<Bit>, temp: seq<nat>, tree: seq<nat>, numCodes: nat): (r: Fetch<seq<nat>>)
    requires Codes(temp, TEMP_CODES) && Codes(tree, Pow2(CODE_COUNT_BITS)) && numCodes <= Pow2(CODE_COUNT_BITS)
    ensures r.Done? ==> Codes(r.value, Pow2(CODE_COUNT_BITS)) && |r.value| == |tree| && |r.rest| <= |bits|
  {
    var c := ReadCodes(bits, temp, numCodes);
    if c.End? then End else Done(Built(tree, c.value, Pow2(CODE_COUNT_BITS)), c.rest)
  }

  /** How a compressor may spell code lengths. */
  datatype Run = Used(len: nat) | Skip(count: nat)

  ghost predicate RunOk(r: Run) {
    match r
    case Used(len) => 1 <= len < MAX_TEMP_CODES
    case Skip(count) => count == 1 || 3 <= count < 19 || 20 <= count < 532
  }

  function RunSymbol(r: Run): nat {
    match r
    case Used(len) => len + 2
    case Skip(count) => if count == 1 then 0 else if count < 20 then 1 else 2
  }

  function RunLens(r: Run): seq<nat> {
    match r
    case Used(len) => [len]
    case Skip(count) => Unused(count)
  }

  function SkipField(r: Run): seq<Bit> {
    match r
    case Used(_) => []
    case Skip(count) =>
      if count < 3 then [] else if count < 20 then ToBits(count - 3, SHORT_SKIP_BITS) else ToBits(count - 20, LONG_SKIP_BITS)
  }

  ghost predicate RunHasWord(r: Run, temp: Coding) {
    RunOk(r) && HasWord(temp, RunSymbol(r))
  }

  ghost function WriteRun(r: Run, temp: Coding): seq<Bit>
    requires RunHasWord(r, temp)
  {
    Word(temp, RunSymbol(r)) + SkipField(r)
  }

  lemma SkipIsRead(r: Run, tail: seq<Bit>)
    requires RunOk(r) && r.Skip?
    ensures ReadSkipCount(SkipField(r) + tail, RunSymbol(r)) == Done(r.count, tail)
  {
    PowersOfSkips();
    if r.count == 1 {
      assert [] + tail == tail;
    } else if r.count < 20 {
      ReadNTakes(r.count - 3, SHORT_SKIP_BITS, tail);
    } else {
      ReadNTakes(r.count - 20, LONG_SKIP_BITS, tail);
    }
  }

  lemma PowersOfSkips()
    ensures Pow2(SHORT_SKIP_BITS) == 16 && Pow2(LONG_SKIP_BITS) == 512
  {
    assert Pow2(4) == 16;
    Pow2Adds(4, 5);
  }

  lemma RunEnds(r: Run, room: nat, tail: seq<Bit>)
    requires RunOk(r) && 1 <= |RunLens(r)| <= room
    ensures EndRun(RunSymbol(r), SkipField(r) + tail, room) == Done(RunLens(r), tail)
  {
    if r.Skip? {
      SkipIsRead(r, tail);
    } else {
      assert [] + tail == tail;
    }
  }

  /** The temporary table as it is when the code table is read. */
  ghost predicate TempOk(tree: seq<nat>, temp: Coding) {
    Codes(tree, TEMP_CODES) && Fits(temp, TEMP_CODES) && (temp.Many? ==> 2 * |temp.lens| <= |tree|)
  }

  lemma RunIsRead(r: Run, tree: seq<nat>, temp: Coding, room: nat, tail: seq<Bit>)
    requires TempOk(tree, temp) && RunHasWord(r, temp) && 1 <= |RunLens(r)| <= room
    ensures ReadRun(WriteRun(r, temp) + tail, Built(tree, temp, TEMP_CODES), room) == Done(RunLens(r), tail)
  {
    var word, field := Word(temp, RunSymbol(r)), SkipField(r);
    Associate(word, field, tail);
    WordIsRead(tree, temp, TEMP_CODES, RunSymbol(r), field + tail);
    RunEnds(r, room, tail);
    RunIs(word + (field + tail), Built(tree, temp, TEMP_CODES), room, RunSymbol(r), field + tail);
  }

  lemma RunIs(bits: seq<Bit>, built: seq<nat>, room: nat, code: nat, rest: seq<Bit>)
    requires Codes(built, TEMP_CODES) && room >= 1 && ReadTree(built, MARK, bits) == Got(code, rest)
    ensures ReadRun(bits, built, room) == EndRun(code, rest, room)
  {
  }
}
