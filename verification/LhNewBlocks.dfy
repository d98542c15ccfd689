/**
 Blocks of the -lh4- to -lh7-, -lhx- and -lk7- formats: tables, then commands coded with them. Whatever
 commands a compressor writes, in blocks and codings of its choice, are what is read back.
 */
module LhNewBlocks {
  import opened Bits
  import opened TreeDecode
  import opened Codings
  import opened LhNewTables

  /** What distinguishes the formats. */
  datatype Variant = Variant(historyBits: nat, offsetBits: nat, numCodes: nat, lhark: bool)

  const LH5 := Variant(14, 4, 510, false)
  const LH6 := Variant(16, 5, 510, false)
  const LH7 := Variant(17, 5, 510, false)
  const LHX := Variant(20, 5, 510, false)
  const LK7 := Variant(16, 6, 289, true)

  const BLOCK_BITS: nat := 16

  function CodeLimit(): nat { Pow2(CODE_COUNT_BITS) }

  function OffsetCodes(v: Variant): nat { Pow2(v.offsetBits) }

  /** The tables fit their 16-bit elements, and a block can name every code. */
  ghost predicate VariantOk(v: Variant) {
    1 <= v.offsetBits <= 8 && 256 <= v.numCodes < 512
  }

  datatype Trees = Trees(temp: seq<nat>, code: seq<nat>, offset: seq<nat>)

  ghost predicate TreesOk(v: Variant, t: Trees) {
    && Codes(t.temp, TEMP_CODES) && |t.temp| == 2 * MAX_TEMP_CODES
    && Codes(t.code, CodeLimit()) && |t.code| == 2 * v.numCodes
    && Codes(t.offset, OffsetCodes(v)) && |t.offset| == 2 * (OffsetCodes(v) - 1)
  }

  lemma Powers(v: Variant)
    requires VariantOk(v)
    ensures Pow2(TEMP_CODE_BITS) == TEMP_CODES && CodeLimit() == 512 && 2 <= OffsetCodes(v) <= 256
  {
    assert Pow2(5) == 32 && Pow2(4) == 16 && Pow2(1) == 2;
    Pow2Adds(5, 4);
    Pow2Adds(4, 4);
    Pow2Grows(1, v.offsetBits);
    Pow2Grows(v.offsetBits, 8);
  }

  // ----- The head of a block -----

  datatype Head = Head(count: nat, trees: Trees)

  ghost function ReadHead(v: Variant, bits: seq<Bit>, t: Trees): (r: Fetch<Head>)
    requires VariantOk(v) && TreesOk(v, t)
    ensures r.Done? ==> TreesOk(v, r.value.trees) && |r.rest| < |bits|
  {
    var count := ReadN(bits, BLOCK_BITS);
    if count.End? then End
    else
      var trees := ReadTrees(v, count.rest, t);
      if trees.End? then End else Done(Head(count.value, trees.value), trees.rest)
  }

  ghost function ReadTrees(v: Variant, bits: seq<Bit>, t: Trees): (r: Fetch<Trees>)
    requires VariantOk(v) && TreesOk(v, t)
    ensures r.Done? ==> TreesOk(v, r.value) && |r.rest| <= |bits|
  {
    Powers(v);
    var temp := ReadTable(bits, t.temp, TEMP_CODE_BITS, TEMP_CODES, true);
    if temp.End? then End
    else
      var code := ReadCodeTable(temp.rest, temp.value, t.code, v.numCodes);
      if code.End? then End
      else
        var offset := ReadTable(code.rest, t.offset, v.offsetBits, OffsetCodes(v), false);
        if offset.End? then End else Done(Trees(temp.value, code.value, offset.value), offset.rest)
  }

  // ----- Writing the code table -----

  function Flatten(runs: seq<Run>): seq<nat> {
    if runs == [] then [] else RunLens(runs[0]) + Flatten(runs[1..])
  }

  ghost predicate RunsOk(runs: seq<Run>, temp: Coding) {
    forall i :: 0 <= i < |runs| ==> RunHasWord(runs[i], temp)
  }

  ghost function WriteRuns(runs: seq<Run>, temp: Coding): seq<Bit>
    requires RunsOk(runs, temp)
  {
    if runs == [] then [] else WriteRun(runs[0], temp) + WriteRuns(runs[1..], temp)
  }

  /** Whatever run is written with the coding is read from the table. */
  ghost predicate ReadsRuns(built: seq<nat>, temp: Coding) {
    && Codes(built, TEMP_CODES)
    && forall r: Run, room: nat, tail: seq<Bit> :: RunHasWord(r, temp) && 1 <= |RunLens(r)| <= room ==>
        ReadRun(WriteRun(r, temp) + tail, built, room) == Done(RunLens(r), tail)
  }

  lemma BuiltReadsRuns(tree: seq<nat>, temp: Coding)
    requires TempOk(tree, temp)
    ensures ReadsRuns(Built(tree, temp, TEMP_CODES), temp)
  {
    forall r: Run, room: nat, tail: seq<Bit> | RunHasWord(r, temp) && 1 <= |RunLens(r)| <= room
      ensures ReadRun(WriteRun(r, temp) + tail, Built(tree, temp, TEMP_CODES), room) == Done(RunLens(r), tail)
    {
      RunIsRead(r, tree, temp, room, tail);
    }
  }

  lemma {:induction false} RunsAreRead(
    runs: seq<Run>, temp: Coding, built: seq<nat>, n: nat, got: seq<nat>, tail: seq<Bit>)
    requires ReadsRuns(built, temp)
    requires RunsOk(runs, temp) && LengthsBelow(got, MAX_LENGTH) && n == |got| + |Flatten(runs)|
    ensures ReadRuns(WriteRuns(runs, temp) + tail, built, n, got) == Done(got + Flatten(runs), tail)
    decreases |runs|
  {
    if runs == [] {
      NoRuns(built, n, got, tail);
    } else {
      var word, more, lens := WriteRun(runs[0], temp), WriteRuns(runs[1..], temp), RunLens(runs[0]);
      FirstRun(runs[0], temp, built, n - |got|, more + tail);
      RunsAreRead(runs[1..], temp, built, n, got + lens, tail);
      RunsJoin(word, more, tail, built, n, got, lens, Flatten(runs[1..]));
    }
  }

  lemma FirstRun(r: Run, temp: Coding, built: seq<nat>, room: nat, tail: seq<Bit>)
    requires ReadsRuns(built, temp) && RunHasWord(r, temp) && |RunLens(r)| <= room
    ensures 1 <= |RunLens(r)| && LengthsBelow(RunLens(r), MAX_LENGTH)
    ensures ReadRun(WriteRun(r, temp) + tail, built, room) == Done(RunLens(r), tail)
  {
  }

  lemma NoRuns(tree: seq<nat>, n: nat, got: seq<nat>, tail: seq<Bit>)
    requires Codes(tree, TEMP_CODES) && LengthsBelow(got, MAX_LENGTH) && n == |got|
    ensures ReadRuns([] + tail, tree, n, got) == Done(got + [], tail)
  {
    assert [] + tail == tail && got + [] == got;
  }

  lemma RunsJoin(
    word: seq<Bit>, more: seq<Bit>, tail: seq<Bit>, tree: seq<nat>, n: nat, got: seq<nat>, lens: seq<nat>, others: seq<nat>)
    requires Codes(tree, TEMP_CODES) && |got + lens| <= n && |got| < n
    requires LengthsBelow(got, MAX_LENGTH) && LengthsBelow(got + lens, MAX_LENGTH)
    requires ReadRun(word + (more + tail), tree, n - |got|) == Done(lens, more + tail)
    requires ReadRuns(more + tail, tree, n, got + lens) == Done((got + lens) + others, tail)
    ensures ReadRuns((word + more) + tail, tree, n, got) == Done(got + (lens + others), tail)
  {
    RunsStep(word + (more + tail), tree, n, got);
    assert (word + more) + tail == word + (more + tail);
    assert (got + lens) + others == got + (lens + others);
  }

  /** The lengths of the code table, spelled in runs; or its only code. */
  ghost predicate CodesSpelled(v: Variant, codes: Coding, runs: seq<Run>, temp: Coding) {
    match codes
    case Many(lens) =>
      1 <= |lens| <= v.numCodes && LengthsBelow(lens, MAX_LENGTH) && Flatten(runs) == lens && RunsOk(runs, temp)
    case One(code) => code < CodeLimit()
  }

  ghost function WriteCodeTable(v: Variant, codes: Coding, runs: seq<Run>, temp: Coding): seq<Bit>
    requires CodesSpelled(v, codes, runs, temp)
  {
    match codes
    case Many(lens) => ToBits(|lens|, CODE_COUNT_BITS) + WriteRuns(runs, temp)
    case One(code) => ToBits(0, CODE_COUNT_BITS) + ToBits(code, CODE_COUNT_BITS)
  }

  lemma ManyCodesAreRead(tree: seq<nat>, lens: seq<nat>, body: seq<Bit>, numCodes: nat, tail: seq<Bit>)
    requires Codes(tree, TEMP_CODES) && 1 <= |lens| <= numCodes < Pow2(CODE_COUNT_BITS)
    requires ReadRuns(body + tail, tree, |lens|, []) == Done(lens, tail)
    ensures ReadCodes((ToBits(|lens|, CODE_COUNT_BITS) + body) + tail, tree, numCodes) == Done(Many(lens), tail)
  {
    var count := ToBits(|lens|, CODE_COUNT_BITS);
    assert (count + body) + tail == count + (body + tail);
    ReadNTakes(|lens|, CODE_COUNT_BITS, body + tail);
  }

  lemma OneCodeIsRead(tree: seq<nat>, code: nat, numCodes: nat, tail: seq<Bit>)
    requires Codes(tree, TEMP_CODES) && numCodes <= Pow2(CODE_COUNT_BITS) && code < Pow2(CODE_COUNT_BITS)
    ensures ReadCodes((ToBits(0, CODE_COUNT_BITS) + ToBits(code, CODE_COUNT_BITS)) + tail, tree, numCodes)
            == Done(One(code), tail)
  {
    var count, body := ToBits(0, CODE_COUNT_BITS), ToBits(code, CODE_COUNT_BITS);
    assert (count + body) + tail == count + (body + tail);
    ReadNTakes(0, CODE_COUNT_BITS, body + tail);
    ReadNTakes(code, CODE_COUNT_BITS, tail);
  }

  lemma SpelledCodesAreRead(v: Variant, codes: Coding, runs: seq<Run>, temp: Coding, tempTree: seq<nat>, tail: seq<Bit>)
    requires VariantOk(v) && CodesSpelled(v, codes, runs, temp) && TempOk(tempTree, temp)
    ensures Fits(codes, CodeLimit()) && v.numCodes <= CodeLimit()
    ensures ReadCodes(WriteCodeTable(v, codes, runs, temp) + tail, Built(tempTree, temp, TEMP_CODES), v.numCodes)
            == Done(codes, tail)
  {
    Powers(v);
    var tree := Built(tempTree, temp, TEMP_CODES);
    match codes
    case Many(lens) =>
      BuiltReadsRuns(tempTree, temp);
      RunsAreRead(runs, temp, tree, |lens|, [], tail);
      assert [] + Flatten(runs) == lens;
      ManyCodesAreRead(tree, lens, WriteRuns(runs, temp), v.numCodes, tail);
    case One(code) =>
      OneCodeIsRead(tree, code, v.numCodes, tail);
  }

  lemma CodeTableIsRead(
    v: Variant, codes: Coding, runs: seq<Run>, temp: Coding, tempTree: seq<nat>, tree: seq<nat>, tail: seq<Bit>)
    requires VariantOk(v) && CodesSpelled(v, codes, runs, temp) && TempOk(tempTree, temp) && Codes(tree, CodeLimit())
    ensures Fits(codes, CodeLimit()) && v.numCodes <= CodeLimit()
    ensures ReadCodeTable(WriteCodeTable(v, codes, runs, temp) + tail, Built(tempTree, temp, TEMP_CODES), tree, v.numCodes)
            == Done(Built(tree, codes, CodeLimit()), tail)
  {
    SpelledCodesAreRead(v, codes, runs, temp, tempTree, tail);
  }

  // ----- Writing the head of a block -----

  datatype Tables = Tables(temp: Coding, gap: nat, codes: Coding, runs: seq<Run>, offsets: Coding)

  ghost predicate TablesOk(v: Variant, t: Tables) {
    && Tabular(t.temp, TEMP_CODES, true, t.gap)
    && CodesSpelled(v, t.codes, t.runs, t.temp)
    && Tabular(t.offsets, OffsetCodes(v), false, 0)
  }

  ghost function WriteTables(v: Variant, t: Tables): seq<Bit>
    requires TablesOk(v, t)
  {
    WriteTable(t.temp, TEMP_CODE_BITS, true, t.gap)
    + (WriteCodeTable(v, t.codes, t.runs, t.temp) + WriteTable(t.offsets, v.offsetBits, false, 0))
  }

  lemma TablesFit(v: Variant, t: Tables)
    requires VariantOk(v) && TablesOk(v, t)
    ensures Fits(t.temp, TEMP_CODES) && Fits(t.codes, CodeLimit()) && Fits(t.offsets, OffsetCodes(v))
    ensures t.temp.Many? ==> |t.temp.lens| <= MAX_TEMP_CODES
    ensures t.codes.Many? ==> |t.codes.lens| <= v.numCodes
    ensures t.offsets.Many? ==> |t.offsets.lens| <= OffsetCodes(v) - 1
  {
    Powers(v);
  }

  /** The trees that the tables stand for, built over the old ones. */
  ghost function BuiltTrees(v: Variant, old_: Trees, t: Tables): (r: Trees)
    requires VariantOk(v) && TreesOk(v, old_) && TablesOk(v, t)
    ensures TreesOk(v, r)
  {
    TablesFit(v, t);
    Trees(Built(old_.temp, t.temp, TEMP_CODES), Built(old_.code, t.codes, CodeLimit()),
          Built(old_.offset, t.offsets, OffsetCodes(v)))
  }

  lemma TempIsRead(v: Variant, trees: Trees, t: Tables, tail: seq<Bit>)
    requires VariantOk(v) && TreesOk(v, trees) && TablesOk(v, t)
    ensures Pow2(TEMP_CODE_BITS) == TEMP_CODES
    ensures ReadTable(WriteTable(t.temp, TEMP_CODE_BITS, true, t.gap) + tail, trees.temp, TEMP_CODE_BITS, TEMP_CODES, true)
            == Done(BuiltTrees(v, trees, t).temp, tail)
  {
    Powers(v);
    TableIsRead(trees.temp, t.temp, TEMP_CODE_BITS, TEMP_CODES, true, t.gap, tail);
  }

  lemma CodesAreRead(v: Variant, trees: Trees, t: Tables, tail: seq<Bit>)
    requires VariantOk(v) && TreesOk(v, trees) && TablesOk(v, t)
    ensures v.numCodes <= Pow2(CODE_COUNT_BITS)
    ensures ReadCodeTable(WriteCodeTable(v, t.codes, t.runs, t.temp) + tail, BuiltTrees(v, trees, t).temp, trees.code, v.numCodes)
            == Done(BuiltTrees(v, trees, t).code, tail)
  {
    TablesFit(v, t);
    CodeTableIsRead(v, t.codes, t.runs, t.temp, trees.temp, trees.code, tail);
  }

  lemma OffsetsAreRead(v: Variant, trees: Trees, t: Tables, tail: seq<Bit>)
    requires VariantOk(v) && TreesOk(v, trees) && TablesOk(v, t)
    ensures ReadTable(WriteTable(t.offsets, v.offsetBits, false, 0) + tail, trees.offset, v.offsetBits, OffsetCodes(v), false)
            == Done(BuiltTrees(v, trees, t).offset, tail)
  {
    TableIsRead(trees.offset, t.offsets, v.offsetBits, OffsetCodes(v), false, 0, tail);
  }

  /** The head of a block is read as it was written, over trees left by any earlier block. */
  lemma TablesAreRead(v: Variant, trees: Trees, t: Tables, tail: seq<Bit>)
    requires VariantOk(v) && TreesOk(v, trees) && TablesOk(v, t)
    ensures ReadTrees(v, WriteTables(v, t) + tail, trees) == Done(BuiltTrees(v, trees, t), tail)
  {
    var a := WriteTable(t.temp, TEMP_CODE_BITS, true, t.gap);
    var b := WriteCodeTable(v, t.codes, t.runs, t.temp);
    var c := WriteTable(t.offsets, v.offsetBits, false, 0);
    TempIsRead(v, trees, t, b + (c + tail));
    CodesAreRead(v, trees, t, c + tail);
    OffsetsAreRead(v, trees, t, tail);
    TablesJoin(v, trees, BuiltTrees(v, trees, t), a, b, c, tail);
  }

  lemma TablesJoin(v: Variant, t: Trees, r: Trees, a: seq<Bit>, b: seq<Bit>, c: seq<Bit>, tail: seq<Bit>)
    requires VariantOk(v) && TreesOk(v, t) && TreesOk(v, r)
    requires Pow2(TEMP_CODE_BITS) == TEMP_CODES && v.numCodes <= Pow2(CODE_COUNT_BITS)
    requires ReadTable(a + (b + (c + tail)), t.temp, TEMP_CODE_BITS, TEMP_CODES, true) == Done(r.temp, b + (c + tail))
    requires ReadCodeTable(b + (c + tail), r.temp, t.code, v.numCodes) == Done(r.code, c + tail)
    requires ReadTable(c + tail, t.offset, v.offsetBits, OffsetCodes(v), false) == Done(r.offset, tail)
    ensures ReadTrees(v, (a + (b + c)) + tail, t) == Done(r, tail)
  {
    Regroup(a, b, c, tail);
  }
}
