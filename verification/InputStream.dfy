/**
 The input stream: a self-extracting program in front of the archive is skipped through a small lead-in
 buffer; whatever is left there is delivered before the source is read again.
 */
module InputStream {
  import opened Bits

  const MAX_SFX_HEADER_LEN := 256 * 1024
  const LEADIN_BUFFER_LEN := 24

  /** Bytes that must be in view before a position is examined. */
  const VIEW := 12

  /** "LHA-SFX" and "LhASFX V1.2," */
  const DECLHA_SFX_ID: seq<Byte> := [0x4c, 0x48, 0x41, 0x2d, 0x53, 0x46, 0x58]
  const AMIGA_LHASFX_ID: seq<Byte> := [0x4c, 0x68, 0x41, 0x53, 0x46, 0x58, 0x20, 0x56, 0x31, 0x2e, 0x32, 0x2c]

  predicate FileHeaderMatch(b: seq<Byte>)
    requires |b| >= 7
  {
    && b[2] as char == '-' && b[6] as char == '-'
    && (|| (b[3] as char == 'l' && b[4] as char == 'h')
        || (b[3] as char == 'l' && b[4] as char == 'z' && b[5] as char in {'4', '5', 's'})
        || (b[3] as char == 'p' && b[4] as char == 'm' && b[5] as char != 's'))
  }

  /** Whether position p can be examined at all. */
  predicate InView(data: seq<Byte>, p: nat) {
    p + VIEW < |data|
  }

  /** The mark of a self-extractor that contains something resembling a header. */
  predicate SfxMark(b: seq<Byte>)
    requires |b| == VIEW
  {
    DECLHA_SFX_ID <= b || AMIGA_LHASFX_ID == b
  }

  predicate MatchAt(data: seq<Byte>, p: nat) {
    InView(data, p) && FileHeaderMatch(data[p..p + VIEW])
  }

  predicate IdAt(data: seq<Byte>, p: nat) {
    InView(data, p) && SfxMark(data[p..p + VIEW])
  }

  /** How many header-like strings are still to be passed over when the scan comes to p. */
  function SkipAt(data: seq<Byte>, p: nat): (r: nat)
    ensures r <= 1
    decreases p, 0
  {
    if p == 0 then 0 else SkipPast(data, p - 1)
  }

  function SkipPast(data: seq<Byte>, p: nat): (r: nat)
    ensures r <= 1
    decreases p, 1
  {
    var skip := SkipAt(data, p);
    if IdAt(data, p) then 1 else if MatchAt(data, p) && skip > 0 then skip - 1 else skip
  }

  /** A header-like string that is not the first one after the mark of a special self-extractor. */
  ghost predicate Eligible(data: seq<Byte>, p: nat) {
    MatchAt(data, p) && !exists q :: 0 <= q < p && DecoyMark(data, q, p)
  }

  /** A mark at q with no header-like string between it and p. */
  ghost predicate DecoyMark(data: seq<Byte>, q: nat, p: nat) {
    IdAt(data, q) && forall r :: q < r < p ==> !MatchAt(data, r)
  }

  /** The counter tells just whether the next header-like string is a decoy. */
  lemma {:induction false} SkipMeansDecoy(data: seq<Byte>, p: nat)
    ensures SkipAt(data, p) > 0 <==> exists q :: 0 <= q < p && DecoyMark(data, q, p)
  {
    if p > 0 {
      SkipMeansDecoy(data, p - 1);
      assert SkipAt(data, p) == SkipPast(data, p - 1);
      if IdAt(data, p - 1) {
        assert DecoyMark(data, p - 1, p);
      } else {
        assert !DecoyMark(data, p - 1, p);
        if SkipAt(data, p) > 0 {
          var q :| 0 <= q < p - 1 && DecoyMark(data, q, p - 1);
          DecoyStep(data, q, p - 1);
        } else {
          forall q | 0 <= q < p - 1 ensures !DecoyMark(data, q, p) {
            DecoyStep(data, q, p - 1);
          }
        }
      }
    }
  }

  lemma DecoyStep(data: seq<Byte>, q: nat, p: nat)
    requires q < p
    ensures DecoyMark(data, q, p + 1) <==> DecoyMark(data, q, p) && !MatchAt(data, p)
  {
  }

  /** No header can be taken before p. */
  ghost predicate NoneBefore(data: seq<Byte>, p: nat) {
    forall r :: 0 <= r < p ==> !Eligible(data, r)
  }

  lemma SamePlace(data: seq<Byte>, buf: seq<Byte>, at: nat, i: nat)
    requires at + |buf| <= |data| && buf == data[at..at + |buf|] && InView(buf, i)
    ensures MatchAt(buf, i) == MatchAt(data, at + i) && IdAt(buf, i) == IdAt(data, at + i)
  {
    SliceOfSlice(data, at, at + |buf|, i, i + VIEW);
  }

  lemma SliceOfSlice<T>(s: seq<T>, a: nat, b: nat, i: nat, j: nat)
    requires a <= b <= |s| && i <= j <= b - a
    ensures s[a..b][i..j] == s[a + i..a + j]
  {
    assert |s[a..b][i..j]| == |s[a + i..a + j]|;
    forall k | 0 <= k < j - i ensures s[a..b][i..j][k] == s[a + i..a + j][k] { }
  }

  /** Examining position p: a match is taken just when no decoy is expected. */
  lemma ScanStep(data: seq<Byte>, p: nat)
    requires NoneBefore(data, p)
    ensures Eligible(data, p) <==> MatchAt(data, p) && SkipAt(data, p) == 0
    ensures !Eligible(data, p) ==> NoneBefore(data, p + 1)
  {
    SkipMeansDecoy(data, p);
  }

  /** What position i of the buffer shows, and what follows for the scan. */
  lemma ScanAt(data: seq<Byte>, buf: seq<Byte>, at: nat, i: nat, skip: nat, match_: bool, mark: bool)
    requires at + |buf| <= |data| && buf == data[at..at + |buf|] && InView(buf, i)
    requires skip == SkipAt(data, at + i) && NoneBefore(data, at + i)
    requires match_ == FileHeaderMatch(buf[i..i + VIEW]) && mark == SfxMark(buf[i..i + VIEW])
    ensures skip <= 1 && (match_ && skip == 0 ==> Eligible(data, at + i))
    ensures !(match_ && skip == 0) ==>
              && NoneBefore(data, at + i + 1)
              && SkipAt(data, at + i + 1) == if mark then 1 else if match_ then skip - 1 else skip
  {
    SamePlace(data, buf, at, i);
    ScanStep(data, at + i);
  }

  /** Examines one position of the buffer. */
  method Examine(buf: seq<Byte>, i: nat, skipFiles: nat, ghost data: seq<Byte>, ghost at: nat, ghost p: nat)
    returns (found: bool, skip: nat)
    requires at + |buf| <= |data| && buf == data[at..at + |buf|] && InView(buf, i) && p == at + i
    requires skipFiles == SkipAt(data, p) && NoneBefore(data, p)
    ensures found ==> Eligible(data, p) && skip == skipFiles
    ensures !found ==> NoneBefore(data, p + 1) && skip == SkipAt(data, p + 1)
  {
    var match_, mark := FileHeaderMatch(buf[i..i + VIEW]), SfxMark(buf[i..i + VIEW]);
    ScanAt(data, buf, at, i, skipFiles, match_, mark);
    found, skip := false, skipFiles;
    if match_ {
      if skip == 0 {
        return true, skip;
      }
      skip := skip - 1;
    }
    if mark {
      skip := 1;
    }
  }

  /** The positions of the buffer that are in view are examined from left to right. */
  method ScanBuffer(buf: seq<Byte>, skipFiles: nat, ghost data: seq<Byte>, ghost at: nat)
    returns (found: bool, i: nat, skip: nat)
    requires at + |buf| <= |data| && buf == data[at..at + |buf|]
    requires skipFiles == SkipAt(data, at) && NoneBefore(data, at)
    ensures NoneBefore(data, at + i) && skip == SkipAt(data, at + i)
    ensures found ==> InView(buf, i) && Eligible(data, at + i)
    ensures !found ==> i == if |buf| > VIEW then |buf| - VIEW else 0
  {
    i, skip, found := 0, skipFiles, false;
    ghost var p := at;
    while i + VIEW < |buf|
      invariant (i == 0 || i + VIEW <= |buf|) && p == at + i
      invariant NoneBefore(data, p) && skip == SkipAt(data, p)
    {
      found, skip := Examine(buf, i, skip, data, at, p);
      if found { return; }
      i, p := i + 1, p + 1;
    }
  }

  datatype StreamState = Init | Reading | Fail

  class Stream {
    /** The source, and how far it has been read; `fills` if outside the scan it delivers all it is asked for. */
    const data: seq<Byte>
    const fills: bool
    var pos: nat
    var state: StreamState
    var leadin: array<Byte>
    var leadinLen: nat
    /** Where the archive was found. */
    ghost var start: nat

    ghost predicate Sane()
      reads this, leadin
    {
      pos <= |data| && leadin.Length == LEADIN_BUFFER_LEN && leadinLen <= LEADIN_BUFFER_LEN
    }

    ghost predicate Valid()
      reads this, leadin
    {
      Sane() && (state == Init ==> pos == 0 && leadinLen == 0)
    }

    /** The scan is over and the archive was found. */
    ghost predicate Begun()
      reads this, leadin
    {
      Valid() && state == Reading
    }

    ghost function Buffered(): seq<Byte>
      requires Sane()
      reads this, leadin
    {
      leadin[..leadinLen]
    }

    /** What is still to be read. */
    ghost function Rest(): seq<Byte>
      requires Sane()
      reads this, leadin
    {
      Buffered() + data[pos..]
    }

    constructor (data: seq<Byte>, fills: bool)
      ensures Valid() && fresh(leadin) && state == Init && this.data == data && this.fills == fills
    {
      this.data, this.fills, pos, state, leadinLen := data, fills, 0, Init, 0;
      leadin := new Byte[LEADIN_BUFFER_LEN](_ => 0);
    }

    /** The source delivers some of the bytes asked for, at least one unless it is at its end. */
    method DoRead(n: nat) returns (chunk: seq<Byte>)
      requires n >= 1 && pos <= |data|
      modifies this`pos
      ensures old(pos) <= pos <= |data| && chunk == data[old(pos)..pos] && |chunk| <= n
      ensures chunk == [] ==> old(pos) == |data|
      ensures fills && state == Reading ==> |chunk| == if n <= |data| - old(pos) then n else |data| - old(pos)
    {
      var most := if n <= |data| - pos then n else |data| - pos;
      var k := most;
      if most > 0 && !(fills && state == Reading) {
        k :| 1 <= k <= most;
      }
      chunk := data[pos..pos + k];
      pos := pos + k;
    }

    method EmptyLeadin(n: nat)
      requires Sane() && n <= leadinLen
      modifies this`leadinLen, leadin
      ensures Sane() && leadinLen == old(leadinLen) - n && Buffered() == old(Buffered())[n..]
    {
      forall i | 0 <= i < leadinLen - n { leadin[i] := leadin[i + n]; }
      leadinLen := leadinLen - n;
    }

    /** Add bytes to the lead-in buffer. */
    method FillLeadin() returns (any: bool)
      requires Sane() && leadinLen < LEADIN_BUFFER_LEN
      modifies this`leadinLen, this`pos, leadin
      ensures Sane() && old(pos) <= pos && Buffered() == old(Buffered()) + data[old(pos)..pos]
      ensures any == (old(pos) < pos) && (!any ==> pos == |data|)
    {
      var chunk := DoRead(LEADIN_BUFFER_LEN - leadinLen);
      forall k | 0 <= k < |chunk| { leadin[leadinLen + k] := chunk[k]; }
      leadinLen := leadinLen + |chunk|;
      any := chunk != [];
    }

    /**
     Finds the first header that can be taken, however the source cuts up its data: always when
     it begins below the limit, and none is taken more than a buffer beyond.
     */
    method SkipSfx() returns (found: bool)
      requires Sane() && pos == 0 && leadinLen == 0
      modifies this`leadinLen, this`pos, this`start, leadin
      ensures Sane()
      ensures found ==> start < MAX_SFX_HEADER_LEN + VIEW && Eligible(data, start) && NoneBefore(data, start)
      ensures found ==> start <= |data| && Rest() == data[start..]
      ensures !found ==> NoneBefore(data, MAX_SFX_HEADER_LEN)
    {
      var filepos: nat, skip: nat := 0, 0;
      found := false;
      while filepos < MAX_SFX_HEADER_LEN && !found
        invariant Sane() && (found ==> start < MAX_SFX_HEADER_LEN + VIEW && start <= |data|)
        invariant found ==> Eligible(data, start) && NoneBefore(data, start) && Rest() == data[start..]
        invariant !found ==> Follows(filepos, skip)
        decreases |data| - pos
      {
        var any, hit, i, skip' := ScanMore(filepos, skip);
        if !any { return; }
        if hit {
          found, start := true, filepos + i;
          RestFrom(start);
        } else {
          filepos, skip := filepos + i, skip';
        }
      }
    }

    /** Fill the buffer once more and examine what has come into view. */
    method ScanMore(ghost filepos: nat, skip: nat) returns (any: bool, hit: bool, i: nat, skip': nat)
      requires Sane() && Follows(filepos, skip)
      modifies this`leadinLen, this`pos, leadin
      ensures Sane() && i <= VIEW && any == (old(pos) < pos)
      ensures !any ==> NoneBefore(data, MAX_SFX_HEADER_LEN)
      ensures any ==> Holds(filepos + i) && NoneBefore(data, filepos + i)
      ensures any ==> if hit then Eligible(data, filepos + i) else leadinLen <= VIEW && skip' == SkipAt(data, filepos + i)
    {
      any := FillLeadin();
      hit, i, skip' := false, 0, skip;
      if !any {
        NothingInView(data, filepos);
      } else {
        assert Holds(filepos);
        hit, i, skip' := ScanBuffer(leadin[..leadinLen], skip, data, filepos);
        EmptyLeadin(i);
      }
    }

    /** The buffer holds what the source delivered from position p on. */
    ghost predicate Holds(p: nat)
      requires Sane()
      reads this, leadin
    {
      pos == p + leadinLen && Buffered() == data[p..pos]
    }

    lemma RestFrom(p: nat)
      requires Sane() && Holds(p)
      ensures p <= |data| && Rest() == data[p..]
    {
      assert data[p..] == data[p..pos] + data[pos..];
    }

    /** Between two fillings of the buffer: what it holds begins at `filepos`, and nothing before can be taken. */
    ghost predicate Follows(filepos: nat, skip: nat)
      requires Sane()
      reads this, leadin
    {
      && Holds(filepos) && leadinLen <= VIEW
      && skip == SkipAt(data, filepos) && NoneBefore(data, filepos)
    }

    /** Reads n bytes, from the lead-in buffer first. */
    method Read(n: nat) returns (ok: bool, buf: seq<Byte>)
      requires Valid()
      modifies this, leadin
      ensures Valid() && leadin == old(leadin) && state != Init
      ensures old(state) != Init ==> state == old(state) && start == old(start)
      ensures old(state) == Init ==> Found()
      ensures state == Fail ==> !ok
      ensures state == Reading ==>
        Taken(if old(state) == Init && start <= |data| then data[start..] else old(Rest()), n, ok, buf)
      ensures state == Reading ==>
        leadinLen == 0 || leadinLen + n <= if old(state) == Init then LEADIN_BUFFER_LEN else old(leadinLen)
    {
      if state == Init {
        var found := SkipSfx();
        state := if found then Reading else Fail;
      }
      if state == Fail { return false, []; }
      ok, buf := ReadOn(n);
    }

    ghost predicate Found()
      reads this
    {
      && (state == Reading ==>
            start < MAX_SFX_HEADER_LEN + VIEW && start <= |data| && Eligible(data, start) && NoneBefore(data, start))
      && (state == Fail ==> NoneBefore(data, MAX_SFX_HEADER_LEN))
    }

    /** A successful read takes the first n bytes of what was there; a source that fills succeeds whenever it can. */
    ghost predicate Taken(rest: seq<Byte>, n: nat, ok: bool, buf: seq<Byte>)
      requires Sane()
      reads this, leadin
    {
      && (ok ==> n <= |rest| && buf == rest[..n] && Rest() == rest[n..])
      && (fills ==> ok == (n <= |rest|))
    }

    /** Fill the buffer from what the scan left over, then from the source. */
    method ReadOn(n: nat) returns (ok: bool, buf: seq<Byte>)
      requires Valid() && state == Reading
      modifies this`leadinLen, this`pos, leadin
      ensures Valid() && Taken(old(Rest()), n, ok, buf)
      ensures leadinLen == 0 || leadinLen + n <= old(leadinLen)
    {
      ghost var rest, held, before := Rest(), Buffered(), pos;
      buf := [];
      if leadinLen > 0 {
        var k := if n < leadinLen then n else leadinLen;
        buf := leadin[..k];
        EmptyLeadin(k);
      }
      assert buf == rest[..|buf|] && Rest() == rest[|buf|..];
      if |buf| < n {
        ghost var first := buf;
        var chunk := DoRead(n - |buf|);
        buf := buf + chunk;
        assert data[before..] == chunk + data[pos..];
        assert rest == first + (chunk + data[pos..]);
      }
      ok := |buf| == n;
    }

    /** The dedicated skip goes straight to the source; it is exact once the lead-in buffer is empty. */
    method Skip(n: nat) returns (ok: bool)
      requires Valid() && state == Reading && leadinLen == 0
      modifies this`pos
      ensures Valid() && Rest() == if n <= |old(Rest())| then old(Rest())[n..] else []
      ensures n <= |old(Rest())| ==> ok
    {
      if n <= |data| - pos {
        pos, ok := pos + n, true;
      } else {
        pos, ok := |data|, *;
      }
    }
  }

  lemma NothingInView(data: seq<Byte>, p: nat)
    requires NoneBefore(data, p) && p + VIEW >= |data|
    ensures forall r :: NoneBefore(data, r)
  {
  }
}
