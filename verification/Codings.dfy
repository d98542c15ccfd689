/** How a stream codes the symbols of one tree. */
module Codings {
  import opened Bits
  import opened TreeDecode
  import opened CanonicalCodes

  /** By code lengths, or, when there is only one symbol, not at all. */
  datatype Coding = Many(lens: seq<nat>) | One(code: nat)

  ghost predicate Fits(c: Coding, n: nat) {
    match c
    case Many(lens) => |lens| <= n && LengthsBelow(lens, MAX_LENGTH)
    case One(code) => code < n
  }

  /** What the decoder does to its table. */
  function Operate(c: Coding): Operation {
    match c
    case Many(lens) => FromLengths(lens)
    case One(code) => Single(code)
  }

  ghost predicate HasWord(c: Coding, sym: nat) {
    match c
    case Many(lens) => sym < |lens| && lens[sym] > 0 && exists top :: Complete(lens, top)
    case One(code) => sym == code
  }

  function Word(c: Coding, sym: nat): seq<Bit>
    requires c.Many? ==> sym < |c.lens|
  {
    match c
    case Many(lens) => Codeword(lens, sym)
    case One(_) => []
  }

  lemma {:induction false} AtLeastBound(lens: seq<nat>, len: nat, n: nat)
    requires n <= |lens|
    ensures AtLeast(lens, len, n) <= n
  {
    if n > 0 { AtLeastBound(lens, len, n - 1); }
  }

  /** The word of a symbol is read as that symbol, from a table with room for two entries for each code but one. */
  lemma AnyWordIsRead(tree: seq<nat>, mark: nat, c: Coding, n: nat, sym: nat, tail: seq<Bit>)
    requires Forward(tree, mark) && CodesBelow(tree, mark, n) && n > 0
    requires Fits(c, n) && HasWord(c, sym) && (c.Many? ==> 2 * |c.lens| - 1 <= |tree| && |c.lens| <= mark)
    ensures Forward(Apply(tree, mark, Operate(c), n), mark)
    ensures ReadTree(Apply(tree, mark, Operate(c), n), mark, Word(c, sym) + tail) == Got(sym, tail)
  {
    ApplyKeepsReadable(tree, mark, Operate(c), n);
    match c
    case One(code) =>
      assert [] + tail == tail;
    case Many(lens) =>
      var top :| Complete(lens, top);
      AtLeastBound(lens, 1, |lens|);
      CanonicalCodesAreRead(tree, mark, lens, top, sym, tail);
  }
}
