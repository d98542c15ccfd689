/**
 What the -lh1- tree counts, without the tree: a frequency for each code, halved whenever their sum has reached the
 limit. Every run of the tree follows this tally.
 */
module Lh1Tally {
  import opened Lh1Tree
  import opened Lh1Climb
  import opened Lh1Model
  import opened Lh1Paths

  // ----- The tally -----

  /** The sum of the first k frequencies. */
  function Sum(counts: seq<nat>, k: nat): nat
    requires k <= |counts|
  {
    if k == 0 then 0 else Sum(counts, k - 1) + counts[k - 1]
  }

  function Halved(counts: seq<nat>): (r: seq<nat>)
    ensures |r| == |counts|
  {
    seq(|counts|, d requires 0 <= d < |counts| => (counts[d] + 1) / 2)
  }

  /** One more hit for c, after halving if the sum has reached 2^15. */
  function Tally(counts: seq<nat>, c: nat): (r: seq<nat>)
    requires c < |counts|
    ensures |r| == |counts|
  {
    var base := if Sum(counts, |counts|) >= 0x8000 then Halved(counts) else counts;
    base[c := base[c] + 1]
  }

  function TallyAll(counts: seq<nat>, codes: seq<nat>): (r: seq<nat>)
    requires forall i :: 0 <= i < |codes| ==> codes[i] < |counts|
    ensures |r| == |counts|
    decreases |codes|
  {
    if codes == [] then counts else TallyAll(Tally(counts, codes[0]), codes[1..])
  }

  function Occurrences(codes: seq<nat>, d: nat): nat {
    if codes == [] then 0 else (if codes[0] == d then 1 else 0) + Occurrences(codes[1..], d)
  }

  // ----- The tree follows it -----

  function Frequencies(t: Tree): seq<nat>
    requires Shape(t)
  {
    seq(NUM_CODES, d requires 0 <= d < NUM_CODES => CodeFreq(t, d))
  }

  lemma {:induction false} SumIsTotal(t: Tree, k: nat)
    requires Shape(t) && k <= NUM_CODES
    ensures Sum(Frequencies(t), k) == TotalHits(t, k)
  {
    if k > 0 { SumIsTotal(t, k - 1); }
  }

  /** The number of codes comes as a variable, so that sums over all codes are not unfolded as on a literal. */
  lemma RootIsSum(t: Tree, all: nat)
    requires Climbing(t, 0) && all == NUM_CODES
    ensures Sum(Frequencies(t), all) == t.nodes[0].freq
  {
    RootCountsAllCodes(t, all);
    SumIsTotal(t, all);
  }

  lemma IncrementTallies(t: Tree, c: nat)
    requires TreeOk(t) && c < NUM_CODES
    ensures TreeOk(Increment(t, c)) && Frequencies(Increment(t, c)) == Tally(Frequencies(t), c)
  {
    IncrementKeepsTree(t, c);
    var counts, next := Frequencies(t), Frequencies(Increment(t, c));
    RootIsSum(t, |counts|);
    TallyIs(counts, next, c, t.nodes[0].freq);
  }

  lemma TallyIs(counts: seq<nat>, next: seq<nat>, c: nat, root: nat)
    requires c < |counts| == |next| && root == Sum(counts, |counts|)
    requires forall d :: 0 <= d < |counts| ==>
               next[d] == (if root >= 0x8000 then (counts[d] + 1) / 2 else counts[d]) + if d == c then 1 else 0
    ensures next == Tally(counts, c)
  {
    var base := if root >= 0x8000 then Halved(counts) else counts;
    var all := base[c := base[c] + 1];
    forall d | 0 <= d < |counts| ensures next[d] == all[d] { }
    assert next == all;
  }

  /** Over any run, however many rebuilds fall into it, the frequencies are those of the tally. */
  lemma {:induction false} RunTallies(t: Tree, codes: seq<nat>)
    requires TreeOk(t) && forall i :: 0 <= i < |codes| ==> codes[i] < NUM_CODES
    ensures Frequencies(Run(t, codes)) == TallyAll(Frequencies(t), codes)
    decreases |codes|
  {
    if codes != [] {
      IncrementTallies(t, codes[0]);
      RunTallies(Increment(t, codes[0]), codes[1..]);
    }
  }

  /** A stream starts with every code counted once. */
  lemma StreamTallies(fs: seq<nat>, codes: seq<nat>)
    requires Heap(fs) && forall i :: 0 <= i < |codes| ==> codes[i] < NUM_CODES
    ensures TreeOk(InitialTree(fs))
    ensures Frequencies(Run(InitialTree(fs), codes)) == TallyAll(seq(NUM_CODES, _ => 1), codes)
  {
    InitialTreeOk(fs, NUM_CODES);
    assert Frequencies(InitialTree(fs)) == seq(NUM_CODES, _ => 1);
    RunTallies(InitialTree(fs), codes);
  }

  /** As long as the limit is not reached, a run counts just the occurrences of each code. */
  lemma {:induction false} ShortRunCounts(t: Tree, codes: seq<nat>, d: nat)
    requires TreeOk(t) && t.nodes[0].freq + |codes| <= 0x8000 && d < NUM_CODES
    requires forall i :: 0 <= i < |codes| ==> codes[i] < NUM_CODES
    ensures CodeFreq(Run(t, codes), d) == CodeFreq(t, d) + Occurrences(codes, d)
    ensures Run(t, codes).nodes[0].freq == t.nodes[0].freq + |codes|
    decreases |codes|
  {
    if codes != [] {
      IncrementKeepsTree(t, codes[0]);
      ShortRunCounts(Increment(t, codes[0]), codes[1..], d);
    }
  }

  /** From the start of a stream that is for the first 32768 - 314 codes. */
  lemma EarlyRunCounts(fs: seq<nat>, codes: seq<nat>, d: nat)
    requires Heap(fs) && |codes| <= 0x8000 - 314 && d < NUM_CODES
    requires forall i :: 0 <= i < |codes| ==> codes[i] < NUM_CODES
    ensures TreeOk(InitialTree(fs))
    ensures CodeFreq(Run(InitialTree(fs), codes), d) == 1 + Occurrences(codes, d)
  {
    InitialRoot(fs, NUM_CODES);
    ShortRunCounts(InitialTree(fs), codes, d);
  }

  lemma InitialRoot(fs: seq<nat>, all: nat)
    requires Heap(fs) && all == NUM_CODES
    ensures TreeOk(InitialTree(fs)) && InitialTree(fs).nodes[0].freq == 314
    ensures forall c: nat :: c < NUM_CODES ==> CodeFreq(InitialTree(fs), c) == 1
  {
    var t := InitialTree(fs);
    InitialTreeOk(fs, all);
    OnesTotal(t, all);
    RootCountsAllCodes(t, all);
  }
}
