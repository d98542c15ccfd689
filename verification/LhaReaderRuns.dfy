/**
 Whole runs of the archive reader: any sequence of calls to fetch the next file and to extract it.
 */
module LhaReaderRuns {
  import opened LhaReader

  /** A call on the reader. `made` tells whether the operating system created the directory or the placeholder. */
  datatype Action = Next | Extract(made: bool)

  /** Whether ".." stands at i as a whole component of the target. */
  predicate DotDotAt(t: string, i: nat) {
    && i + 2 <= |t| && t[i] == '.' && t[i + 1] == '.'
    && (i == 0 || t[i - 1] == '/') && (i + 2 == |t| || t[i + 2] == '/')
  }

  /** A link that can lead out of the directory it lives in. */
  predicate Dangerous(t: string) {
    (t != "" && t[0] == '/') || exists i :: 0 <= i < |t| && DotDotAt(t, i)
  }

  method IsDangerousSymlink(t: string) returns (dangerous: bool)
    ensures dangerous == Dangerous(t)
  {
    if t != "" && t[0] == '/' { return true; }
    var start, p := 0, 0;
    while p < |t|
      invariant 0 <= start <= p <= |t|
      invariant start == 0 || t[start - 1] == '/'
      invariant forall k :: start <= k < p ==> t[k] != '/'
      invariant forall i :: 0 <= i < start ==> !DotDotAt(t, i)
    {
      if t[p] == '/' {
        if p - start == 2 && t[start] == '.' && t[start + 1] == '.' {
          assert DotDotAt(t, start);
          return true;
        }
        start := p + 1;
      }
      p := p + 1;
    }
    if p - start == 2 && t[start] == '.' && t[start + 1] == '.' {
      assert DotDotAt(t, start);
      return true;
    }
    return false;
  }

  /** Only entries fresh from the archive change the lists when they are extracted. */
  function Extracted(policy: DirPolicy, s: State, made: bool): State
    requires s.fileType == Normal ==> s.curr.Some? && s.log != []
  {
    if s.fileType != Normal || !made then s
    else match s.curr.value.header.kind
         case File => s
         case Directory => if policy == Plain then s else PushDir(s)
         case Symlink(target) => if Dangerous(target) then DeferLink(s) else s
  }

  function Step(policy: DirPolicy, archive: seq<Header>, s: State, a: Action): (r: State)
    requires |s.since| == |s.stack|
    requires s.fileType == Normal ==> s.curr.Some? && s.log != []
    ensures |r.since| == |r.stack|
    ensures r.fileType == Normal ==> r.curr.Some? && r.log != []
  {
    match a
    case Next => NextFile(policy, archive, s)
    case Extract(made) => Extracted(policy, s, made)
  }

  /** The state after the given calls on a new reader. */
  function Run(policy: DirPolicy, archive: seq<Header>, calls: seq<Action>): (r: State)
    ensures |r.since| == |r.stack|
    ensures r.fileType == Normal ==> r.curr.Some? && r.log != []
  {
    if calls == [] then INITIAL
    else Step(policy, archive, Run(policy, archive, calls[..|calls| - 1]), calls[|calls| - 1])
  }

  /** Directory headers are only accepted with a path. */
  ghost predicate WellFormed(archive: seq<Header>) {
    forall i :: 0 <= i < |archive| ==> archive[i].kind.Directory? ==> archive[i].path.Some?
  }

  /** No entry is extracted twice. */
  ghost predicate Once(calls: seq<Action>) {
    forall i :: 0 < i < |calls| ==> calls[i].Extract? ==> calls[i - 1].Next?
  }

  lemma {:induction false} RunKeepsValid(policy: DirPolicy, archive: seq<Header>, calls: seq<Action>)
    requires WellFormed(archive)
    ensures Valid(policy, archive, Run(policy, archive, calls))
  {
    if calls == [] {
      InitialIsValid(policy, archive);
    } else {
      var before := Run(policy, archive, calls[..|calls| - 1]);
      RunKeepsValid(policy, archive, calls[..|calls| - 1]);
      if calls[|calls| - 1].Next? {
        NextFileKeepsValid(policy, archive, before);
      } else {
        ExtractedKeepsValid(policy, archive, before, calls[|calls| - 1].made);
      }
    }
  }

  lemma ExtractedKeepsValid(policy: DirPolicy, archive: seq<Header>, s: State, made: bool)
    requires WellFormed(archive) && Valid(policy, archive, s)
    ensures s.fileType == Normal ==> s.curr.Some? && s.log != []
    ensures Valid(policy, archive, Extracted(policy, s, made))
  {
    if s.fileType == Normal {
      var kind := s.curr.value.header.kind;
      if kind.Directory? {
        PushDirKeepsValid(policy, archive, s);
      } else if kind.Symlink? {
        DeferLinkKeepsValid(policy, archive, s);
      }
    }
  }

  // ----- Nothing is pushed or deferred twice -----

  /** Only entries already returned were saved, once each; the current one only if it was extracted. */
  ghost predicate SavedOnce(s: State, extracted: bool) {
    forall e :: e in s.pushed + s.deferred ==>
      && (s.pushed + s.deferred)[e] == 1
      && e.index + (if s.fileType == Normal && extracted then 0 else 1) < s.asked
  }

  lemma NextFileKeepsSaved(policy: DirPolicy, archive: seq<Header>, s: State, extracted: bool)
    requires |s.since| == |s.stack| && SavedOnce(s, extracted)
    ensures SavedOnce(NextFile(policy, archive, s), false)
  {
  }

  lemma ExtractedKeepsSaved(policy: DirPolicy, archive: seq<Header>, s: State, made: bool)
    requires SavedOnce(s, false)
    requires s.fileType == Normal ==> s.log != [] && s.curr.Some? && s.curr == Input(archive, s.asked)
    ensures SavedOnce(Extracted(policy, s, made), true)
  {
    var r := Extracted(policy, s, made);
    if s.fileType == Normal && r != s {
      var e := s.curr.value;
      assert e.index == s.asked - 1;
      assert r.pushed + r.deferred == s.pushed + s.deferred + multiset{e};
    }
  }

  lemma NormalIsInput(policy: DirPolicy, archive: seq<Header>, calls: seq<Action>)
    requires WellFormed(archive)
    ensures var s := Run(policy, archive, calls);
            s.fileType == Normal ==> s.log != [] && s.curr.Some? && s.curr == Input(archive, s.asked)
  {
    RunKeepsValid(policy, archive, calls);
  }

  lemma {:induction false} RunSavesOnce(policy: DirPolicy, archive: seq<Header>, calls: seq<Action>)
    requires WellFormed(archive) && Once(calls)
    ensures SavedOnce(Run(policy, archive, calls), calls != [] && calls[|calls| - 1].Extract?)
  {
    if calls != [] {
      var n := |calls| - 1;
      var before := Run(policy, archive, calls[..n]);
      RunSavesOnce(policy, archive, calls[..n]);
      match calls[n]
      case Next => NextFileKeepsSaved(policy, archive, before, n > 0 && calls[n - 1].Extract?);
      case Extract(made) =>
        NormalIsInput(policy, archive, calls[..n]);
        ExtractedKeepsSaved(policy, archive, before, made);
    }
  }

  // ----- What is saved, from the calls -----

  /** The entries that were fresh from the archive when they were extracted with success, in the order of the calls. */
  function Extractions(policy: DirPolicy, archive: seq<Header>, calls: seq<Action>): seq<Entry> {
    if calls == [] then []
    else
      var n := |calls| - 1;
      var s := Run(policy, archive, calls[..n]);
      Extractions(policy, archive, calls[..n])
      + if calls[n] == Extract(true) && s.fileType == Normal then [s.curr.value] else []
  }

  function Directories(es: seq<Entry>): seq<Entry> {
    if es == [] then []
    else
      var e := es[|es| - 1];
      Directories(es[..|es| - 1]) + if e.header.kind.Directory? then [e] else []
  }

  /** The links that are absolute or have ".." as a component. */
  function DangerousLinks(es: seq<Entry>): seq<Entry> {
    if es == [] then []
    else
      var e := es[|es| - 1];
      DangerousLinks(es[..|es| - 1])
      + if e.header.kind.Symlink? && Dangerous(e.header.kind.target) then [e] else []
  }

  /** The directories that will come back: none under the plain policy. */
  function ExtractedDirs(policy: DirPolicy, archive: seq<Header>, calls: seq<Action>): seq<Entry> {
    if policy == Plain then [] else Directories(Extractions(policy, archive, calls))
  }

  function ExtractedLinks(policy: DirPolicy, archive: seq<Header>, calls: seq<Action>): seq<Entry> {
    DangerousLinks(Extractions(policy, archive, calls))
  }

  lemma ExtractionsSnoc(es: seq<Entry>, e: Entry)
    ensures Directories(es + [e]) == Directories(es) + if e.header.kind.Directory? then [e] else []
    ensures DangerousLinks(es + [e])
            == DangerousLinks(es) + if e.header.kind.Symlink? && Dangerous(e.header.kind.target) then [e] else []
  {
    assert (es + [e])[..|es|] == es;
  }

  /** What a call in state s saves: the directory, or the link. */
  function DirSaved(policy: DirPolicy, s: State, a: Action): seq<Entry>
    requires s.fileType == Normal ==> s.curr.Some?
  {
    if a == Extract(true) && s.fileType == Normal && policy != Plain && s.curr.value.header.kind.Directory?
    then [s.curr.value] else []
  }

  function LinkSaved(s: State, a: Action): seq<Entry>
    requires s.fileType == Normal ==> s.curr.Some?
  {
    if && a == Extract(true) && s.fileType == Normal
       && s.curr.value.header.kind.Symlink? && Dangerous(s.curr.value.header.kind.target)
    then [s.curr.value] else []
  }

  lemma NextSavesNothing(policy: DirPolicy, archive: seq<Header>, s: State)
    requires |s.since| == |s.stack|
    ensures NextFile(policy, archive, s).pushed == s.pushed && NextFile(policy, archive, s).deferred == s.deferred
  {
  }

  lemma ExtractSaves(policy: DirPolicy, s: State, made: bool)
    requires s.fileType == Normal ==> s.curr.Some? && s.log != []
    ensures Extracted(policy, s, made).pushed == s.pushed + multiset(DirSaved(policy, s, Extract(made)))
    ensures Extracted(policy, s, made).deferred == s.deferred + multiset(LinkSaved(s, Extract(made)))
  {
    if s.fileType == Normal && made {
      match s.curr.value.header.kind
      case File =>
      case Directory => assert multiset([s.curr.value]) == multiset{s.curr.value};
      case Symlink(_) => assert multiset([s.curr.value]) == multiset{s.curr.value};
    }
  }

  lemma StepSaves(policy: DirPolicy, archive: seq<Header>, s: State, a: Action)
    requires |s.since| == |s.stack| && (s.fileType == Normal ==> s.curr.Some? && s.log != [])
    ensures Step(policy, archive, s, a).pushed == s.pushed + multiset(DirSaved(policy, s, a))
    ensures Step(policy, archive, s, a).deferred == s.deferred + multiset(LinkSaved(s, a))
  {
    match a
    case Next => NextSavesNothing(policy, archive, s);
    case Extract(made) => ExtractSaves(policy, s, made);
  }

  lemma JoinCounts<T>(a: seq<T>, b: seq<T>)
    ensures multiset(a + b) == multiset(a) + multiset(b)
  {
  }

  /** One call saves just the entry that it extracts, if that is of the kind to be saved. */
  lemma CallSaves(policy: DirPolicy, archive: seq<Header>, calls: seq<Action>)
    requires calls != []
    ensures var n := |calls| - 1;
            var s := Run(policy, archive, calls[..n]);
            && ExtractedDirs(policy, archive, calls)
               == ExtractedDirs(policy, archive, calls[..n]) + DirSaved(policy, s, calls[n])
            && ExtractedLinks(policy, archive, calls) == ExtractedLinks(policy, archive, calls[..n]) + LinkSaved(s, calls[n])
  {
    var n := |calls| - 1;
    var s, es := Run(policy, archive, calls[..n]), Extractions(policy, archive, calls[..n]);
    if calls[n] == Extract(true) && s.fileType == Normal {
      ExtractionsSnoc(es, s.curr.value);
    } else {
      assert es + [] == es;
    }
  }

  /** What a run has pushed and deferred is what the calls extracted. */
  lemma {:induction false} SavedAreExtracted(policy: DirPolicy, archive: seq<Header>, calls: seq<Action>)
    ensures Run(policy, archive, calls).pushed == multiset(ExtractedDirs(policy, archive, calls))
    ensures Run(policy, archive, calls).deferred == multiset(ExtractedLinks(policy, archive, calls))
  {
    if calls != [] {
      var n := |calls| - 1;
      var s := Run(policy, archive, calls[..n]);
      SavedAreExtracted(policy, archive, calls[..n]);
      CallSaves(policy, archive, calls);
      StepSaves(policy, archive, s, calls[n]);
      JoinCounts(ExtractedDirs(policy, archive, calls[..n]), DirSaved(policy, s, calls[n]));
      JoinCounts(ExtractedLinks(policy, archive, calls[..n]), LinkSaved(s, calls[n]));
    }
  }

  // ----- The main results -----

  /** Each entry saved appears once among those returned. */
  ghost predicate OnceEach(s: seq<Entry>) {
    forall i, j :: 0 <= i < j < |s| ==> s[i] != s[j]
  }

  lemma PairCounts(s: seq<Entry>, i: nat, j: nat)
    requires i < j < |s|
    ensures s[i] in multiset(s) && (s[i] == s[j] ==> multiset(s)[s[i]] >= 2)
  {
    assert s == s[..j] + [s[j]] + s[j + 1..];
    assert s[i] in s[..j];
  }

  lemma UnitCountsAreDistinct(s: seq<Entry>)
    requires forall e :: e in multiset(s) ==> multiset(s)[e] == 1
    ensures OnceEach(s)
  {
    forall i, j | 0 <= i < j < |s| ensures s[i] != s[j] {
      PairCounts(s, i, j);
    }
  }

  /**
   When a run is over, the archive has been returned in full and in order; the directories extracted with success
   have come back, unless the policy is the plain one, and so have the links that are absolute or have a ".."
   component, each exactly once and nothing else; links came last, longest path first.
   */
  lemma CompleteRun(policy: DirPolicy, archive: seq<Header>, calls: seq<Action>)
    requires WellFormed(archive) && Once(calls) && Run(policy, archive, calls).fileType == Eof
    ensures var s := Run(policy, archive, calls);
            && Returned(s.log, Normal) == Enumerate(archive, |archive|)
            && multiset(Returned(s.log, FakeDir)) == multiset(ExtractedDirs(policy, archive, calls))
            && OnceEach(Returned(s.log, FakeDir))
            && multiset(Returned(s.log, DeferredSymlink)) == multiset(ExtractedLinks(policy, archive, calls))
            && OnceEach(Returned(s.log, DeferredSymlink))
            && LinksLast(s.log) && LongestFirst(Returned(s.log, DeferredSymlink))
  {
    var s := Run(policy, archive, calls);
    RunKeepsValid(policy, archive, calls);
    RunSavesOnce(policy, archive, calls);
    EverythingIsBack(policy, archive, s);
    SavedAreExtracted(policy, archive, calls);
    CountsOfOne(s.pushed, s.deferred);
    UnitCountsAreDistinct(Returned(s.log, FakeDir));
    UnitCountsAreDistinct(Returned(s.log, DeferredSymlink));
  }

  function FullPath(e: Entry): string {
    (if e.header.path.Some? then e.header.path.value else "") + if e.header.filename.Some? then e.header.filename.value else ""
  }

  /** No link comes back before another that lies under its path, so that none is created through another. */
  lemma NoLinkThroughAnother(policy: DirPolicy, archive: seq<Header>, calls: seq<Action>, i: nat, j: nat)
    requires WellFormed(archive)
    requires i < j < |Returned(Run(policy, archive, calls).log, DeferredSymlink)|
    ensures var links := Returned(Run(policy, archive, calls).log, DeferredSymlink);
            !(FullPath(links[i]) + "/" <= FullPath(links[j]))
  {
    RunKeepsValid(policy, archive, calls);
    var s := Run(policy, archive, calls);
    var links := Returned(s.log, DeferredSymlink);
    var all := links + s.links;
    assert LongestFirst(all) && all[i] == links[i] && all[j] == links[j];
    assert |FullPath(links[i])| >= |FullPath(links[j])|;
  }

  lemma EverythingIsBack(policy: DirPolicy, archive: seq<Header>, s: State)
    requires Valid(policy, archive, s) && s.fileType == Eof
    ensures Returned(s.log, Normal) == Enumerate(archive, |archive|)
    ensures multiset(Returned(s.log, FakeDir)) == s.pushed && multiset(Returned(s.log, DeferredSymlink)) == s.deferred
    ensures LinksLast(s.log) && LongestFirst(Returned(s.log, DeferredSymlink))
  {
    var links := Returned(s.log, DeferredSymlink);
    assert links + [] == links;
  }

  lemma CountsOfOne<T>(a: multiset<T>, b: multiset<T>)
    requires forall e :: e in a + b ==> (a + b)[e] == 1
    ensures forall e :: e in a ==> a[e] == 1
    ensures forall e :: e in b ==> b[e] == 1
  {
    forall e | e in a ensures a[e] == 1 { assert e in a + b; }
    forall e | e in b ensures b[e] == 1 { assert e in a + b; }
  }

  /**
   Under the end-of-directory policy, at every moment of every run: a directory comes back only after its
   own entry with nothing but its contents in between, and what follows lies outside; those still
   on the stack enclose one another and everything returned since.
   */
  lemma DirectoriesEnclose(archive: seq<Header>, calls: seq<Action>)
    requires WellFormed(archive)
    ensures var s := Run(EndOfDir, archive, calls);
            Bracketed(s.log) && Prompt(s.log) && Nested(s.log, s.stack, s.since)
  {
    RunKeepsValid(EndOfDir, archive, calls);
  }

  // ----- The end-of-file policy -----

  ghost predicate DirsLast(log: seq<Event>) {
    forall i, j :: 0 <= i < j < |log| && log[i].fileType == FakeDir ==> log[j].fileType != Normal
  }

  function Reversed(es: seq<Entry>): seq<Entry> {
    if es == [] then [] else [es[|es| - 1]] + Reversed(es[..|es| - 1])
  }

  lemma ReversedSnoc(es: seq<Entry>, e: Entry)
    ensures Reversed(es + [e]) == [e] + Reversed(es)
  {
    assert (es + [e])[..|es|] == es;
  }

  /** Directories begin to come back only when the archive is used up, the last one pushed first. */
  ghost predicate LastInFirstOut(archive: seq<Header>, s: State, dirs: seq<Entry>) {
    && DirsLast(s.log) && (Returned(s.log, FakeDir) != [] ==> s.asked > |archive|)
    && Returned(s.log, FakeDir) + s.stack == Reversed(dirs)
  }

  lemma {:induction false} NoDirYet(log: seq<Event>, i: nat)
    requires i < |log| && Returned(log, FakeDir) == []
    ensures log[i].fileType != FakeDir
    decreases |log|
  {
    if i < |log| - 1 { NoDirYet(log[..|log| - 1], i); }
  }

  lemma SnocKeepsDirsLast(log: seq<Event>, ev: Event)
    requires DirsLast(log) && (ev.fileType == Normal ==> Returned(log, FakeDir) == [])
    ensures DirsLast(log + [ev])
  {
    if ev.fileType == Normal {
      forall i | 0 <= i < |log| ensures log[i].fileType != FakeDir { NoDirYet(log, i); }
    }
  }

  lemma PopMoves(back: seq<Entry>, stack: seq<Entry>)
    requires stack != []
    ensures (back + [stack[0]]) + stack[1..] == back + stack
  {
  }

  lemma ChooseKeepsOrder(archive: seq<Header>, s: State, dirs: seq<Entry>)
    requires |s.since| == |s.stack| && s.asked >= 1 && LastInFirstOut(archive, s, dirs)
    ensures LastInFirstOut(archive, Choose(EndOfFile, archive, s), dirs)
  {
    var input := Input(archive, s.asked);
    if EndOfTopDir(EndOfFile, input, s.stack) {
      PopMoves(Returned(s.log, FakeDir), s.stack);
      LogKeepsOrder(archive, s, Event(FakeDir, s.stack[0]), s.stack[1..], dirs);
    } else if input.Some? {
      LogKeepsOrder(archive, s, Event(Normal, input.value), s.stack, dirs);
    } else if s.links != [] {
      LogKeepsOrder(archive, s, Event(DeferredSymlink, s.links[0]), s.stack, dirs);
    }
  }

  lemma LogKeepsOrder(archive: seq<Header>, s: State, ev: Event, stack: seq<Entry>, dirs: seq<Entry>)
    requires LastInFirstOut(archive, s, dirs)
    requires ev.fileType == Normal ==> s.asked <= |archive|
    requires if ev.fileType == FakeDir
             then s.asked > |archive| && (Returned(s.log, FakeDir) + [ev.entry]) + stack == Returned(s.log, FakeDir) + s.stack
             else stack == s.stack
    ensures LastInFirstOut(archive, s.(log := s.log + [ev], stack := stack), dirs)
  {
    ReturnedSnoc(s.log, ev, FakeDir);
    SnocKeepsDirsLast(s.log, ev);
  }

  lemma PushKeepsOrder(archive: seq<Header>, s: State, dirs: seq<Entry>)
    requires s.curr.Some? && s.log != [] && s.asked <= |archive| && LastInFirstOut(archive, s, dirs)
    ensures LastInFirstOut(archive, PushDir(s), dirs + [s.curr.value])
  {
    ReversedSnoc(dirs, s.curr.value);
    assert [] + s.stack == s.stack && [] + PushDir(s).stack == PushDir(s).stack;
  }

  lemma ExtractKeepsOrder(archive: seq<Header>, s: State, made: bool, dirs: seq<Entry>)
    requires s.fileType == Normal ==> s.curr.Some? && s.log != [] && s.asked <= |archive|
    requires LastInFirstOut(archive, s, dirs)
    ensures LastInFirstOut(archive, Extracted(EndOfFile, s, made), dirs + DirSaved(EndOfFile, s, Extract(made)))
  {
    if made && s.fileType == Normal && s.curr.value.header.kind.Directory? {
      PushKeepsOrder(archive, s, dirs);
    } else {
      assert dirs + [] == dirs;
    }
  }

  lemma {:induction false} RunKeepsOrder(archive: seq<Header>, calls: seq<Action>)
    requires WellFormed(archive)
    ensures LastInFirstOut(archive, Run(EndOfFile, archive, calls), ExtractedDirs(EndOfFile, archive, calls))
  {
    if calls != [] {
      var n := |calls| - 1;
      var s, dirs := Run(EndOfFile, archive, calls[..n]), ExtractedDirs(EndOfFile, archive, calls[..n]);
      RunKeepsOrder(archive, calls[..n]);
      CallSaves(EndOfFile, archive, calls);
      match calls[n]
      case Next =>
        assert dirs + [] == dirs;
        AskedBySome(EndOfFile, archive, calls[..n]);
        if s.fileType != Eof { ChooseKeepsOrder(archive, Advance(s), dirs); }
      case Extract(made) =>
        NormalIsInput(EndOfFile, archive, calls[..n]);
        ExtractKeepsOrder(archive, s, made, dirs);
    }
  }

  lemma AskedBySome(policy: DirPolicy, archive: seq<Header>, calls: seq<Action>)
    requires WellFormed(archive)
    ensures var s := Run(policy, archive, calls); s.fileType != Eof ==> Advance(s).asked >= 1
  {
    RunKeepsValid(policy, archive, calls);
  }

  /**
   Under the end-of-file policy no entry of the archive follows a directory that has come back, and in the end
   the directories extracted with success have come back in the reverse of that order.
   */
  lemma DirectoriesComeLast(archive: seq<Header>, calls: seq<Action>)
    requires WellFormed(archive)
    ensures var s := Run(EndOfFile, archive, calls);
            && DirsLast(s.log)
            && (s.fileType == Eof ==> Returned(s.log, FakeDir) == Reversed(ExtractedDirs(EndOfFile, archive, calls)))
  {
    RunKeepsOrder(archive, calls);
    RunKeepsValid(EndOfFile, archive, calls);
    var back := Returned(Run(EndOfFile, archive, calls).log, FakeDir);
    assert back + [] == back;
  }

  function Nexts(calls: seq<Action>): nat {
    if calls == [] then 0 else Nexts(calls[..|calls| - 1]) + if calls[|calls| - 1].Next? then 1 else 0
  }

  ghost predicate OnlyFiles(log: seq<Event>) {
    forall i :: 0 <= i < |log| ==> log[i].fileType.Normal? || log[i].fileType.FakeDir? || log[i].fileType.DeferredSymlink?
  }

  lemma {:induction false} LogSplits(log: seq<Event>)
    requires OnlyFiles(log)
    ensures |log| == |Returned(log, Normal)| + |Returned(log, FakeDir)| + |Returned(log, DeferredSymlink)|
  {
    if log != [] { LogSplits(log[..|log| - 1]); }
  }

  lemma NextLogsOne(policy: DirPolicy, archive: seq<Header>, s: State)
    requires |s.since| == |s.stack|
    ensures var r := NextFile(policy, archive, s);
            && (OnlyFiles(s.log) ==> OnlyFiles(r.log))
            && (r.fileType != Eof ==> s.fileType != Eof && |r.log| == |s.log| + 1)
  {
  }

  lemma ExtractedLogsNothing(policy: DirPolicy, s: State, made: bool)
    requires s.fileType == Normal ==> s.curr.Some? && s.log != []
    ensures var r := Extracted(policy, s, made); r.log == s.log && r.fileType == s.fileType
  {
  }

  /** Each call for the next file returns one, until the end. */
  lemma {:induction false} EachNextReturns(policy: DirPolicy, archive: seq<Header>, calls: seq<Action>)
    ensures var s := Run(policy, archive, calls);
            OnlyFiles(s.log) && (s.fileType != Eof ==> |s.log| == Nexts(calls))
  {
    if calls != [] {
      var n := |calls| - 1;
      var before := Run(policy, archive, calls[..n]);
      EachNextReturns(policy, archive, calls[..n]);
      match calls[n]
      case Next => NextLogsOne(policy, archive, before);
      case Extract(made) => ExtractedLogsNothing(policy, before, made);
    }
  }

  /** Asking once more than there are entries and saved headers ends the run. */
  lemma RunsEnd(policy: DirPolicy, archive: seq<Header>, calls: seq<Action>)
    requires WellFormed(archive)
    requires var s := Run(policy, archive, calls); Nexts(calls) > |archive| + |s.pushed| + |s.deferred|
    ensures Run(policy, archive, calls).fileType == Eof
  {
    var s := Run(policy, archive, calls);
    RunKeepsValid(policy, archive, calls);
    EachNextReturns(policy, archive, calls);
    LogSplits(s.log);
    LogIsBounded(policy, archive, s);
  }

  lemma LogIsBounded(policy: DirPolicy, archive: seq<Header>, s: State)
    requires Valid(policy, archive, s)
    ensures |Returned(s.log, Normal)| <= |archive|
    ensures |Returned(s.log, FakeDir)| <= |s.pushed| && |Returned(s.log, DeferredSymlink)| <= |s.deferred|
  {
    assert |multiset(Returned(s.log, FakeDir))| + |multiset(s.stack)| == |s.pushed|;
    assert |multiset(Returned(s.log, DeferredSymlink))| + |multiset(s.links)| == |s.deferred|;
  }
}
