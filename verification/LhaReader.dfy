/**
 The archive reader: hands out archive entries, directories whose contents are complete, and
 deferred symbolic links, and keeps the lists that decide their order.
 */
module LhaReader {
  import opened Options

  datatype Kind = File | Directory | Symlink(target: string)

  datatype Header = Header(path: Option<string>, filename: Option<string>, kind: Kind)

  /** Entries are distinguished by their place in the archive. */
  datatype Entry = Entry(index: nat, header: Header)

  datatype DirPolicy = Plain | EndOfDir | EndOfFile

  datatype FileType = Start | Normal | FakeDir | DeferredSymlink | Eof

  datatype Event = Event(fileType: FileType, entry: Entry)

  function PathLength(e: Entry): nat {
    (if e.header.path.Some? then |e.header.path.value| else 0)
    + (if e.header.filename.Some? then |e.header.filename.value| else 0)
  }

  /** The entry's path begins with that of directory d. */
  predicate Under(e: Entry, d: Entry) {
    e.header.path.Some? && d.header.path.Some? && d.header.path.value <= e.header.path.value
  }

  lemma UnderIsTransitive(e: Entry, d: Entry, c: Entry)
    requires Under(e, d) && Under(d, c)
    ensures Under(e, c)
  {
  }

  /** Longest path first, so that no link can lead through another. */
  ghost predicate LongestFirst(links: seq<Entry>) {
    forall i, j :: 0 <= i < j < |links| ==> PathLength(links[i]) >= PathLength(links[j])
  }

  /** Each directory on the stack lies under all those below it. */
  ghost predicate Chain(stack: seq<Entry>) {
    && (forall i :: 0 <= i < |stack| ==> stack[i].header.path.Some?)
    && forall i, j :: 0 <= i < j < |stack| ==> Under(stack[i], stack[j])
  }

  // ----- What the log of returned entries must look like -----

  function Returned(log: seq<Event>, t: FileType): seq<Entry> {
    if log == [] then []
    else Returned(log[..|log| - 1], t) + if log[|log| - 1].fileType == t then [log[|log| - 1].entry] else []
  }

  lemma ReturnedSnoc(log: seq<Event>, ev: Event, t: FileType)
    ensures Returned(log + [ev], t) == Returned(log, t) + if ev.fileType == t then [ev.entry] else []
  {
    assert (log + [ev])[..|log|] == log;
  }

  function Enumerate(archive: seq<Header>, n: nat): seq<Entry>
    requires n <= |archive|
  {
    seq(n, i requires 0 <= i < n => Entry(i, archive[i]))
  }

  /** Directory d was returned at position p, and all since then lies under it. */
  ghost predicate Opened(log: seq<Event>, p: nat, d: Entry) {
    && p < |log| && log[p] == Event(Normal, d)
    && forall i :: p <= i < |log| ==> Under(log[i].entry, d)
  }

  /** A directory comes back after its own entry, and only what lies under it comes in between. */
  ghost predicate Bracketed(log: seq<Event>) {
    forall j :: 0 <= j < |log| && log[j].fileType == FakeDir ==> Bracket(log, j)
  }

  ghost predicate Bracket(log: seq<Event>, j: nat)
    requires j < |log|
  {
    exists p :: Opened(log[..j], p, log[j].entry)
  }

  /** The run of directories returned last. */
  ghost predicate FakesFrom(log: seq<Event>, j: nat, end: nat)
    requires end <= |log|
  {
    forall i :: j <= i < end ==> log[i].fileType == FakeDir
  }

  /** A directory comes back no sooner than needed: what follows it from the archive does not lie under it. */
  ghost predicate Prompt(log: seq<Event>) {
    forall j, k :: 0 <= j < k < |log| && log[k].fileType == Normal && FakesFrom(log, j, k) ==>
      !Under(log[k].entry, log[j].entry)
  }

  ghost predicate Ordered(log: seq<Event>) {
    Bracketed(log) && Prompt(log)
  }

  /** The same of the header that is still to come. */
  ghost predicate PromptNext(log: seq<Event>, input: Option<Entry>) {
    input.Some? ==>
      forall j :: 0 <= j < |log| && FakesFrom(log, j, |log|) ==> !Under(input.value, log[j].entry)
  }

  /** Deferred links come after everything else. */
  ghost predicate LinksLast(log: seq<Event>) {
    forall i, j :: 0 <= i < j < |log| && log[i].fileType == DeferredSymlink ==> log[j].fileType == DeferredSymlink
  }

  // ----- The reader's state and its steps -----

  /**
   `asked` counts the headers requested from the basic reader. The run so far is recorded in the log of
   returned entries, in what was pushed and deferred, and in when each stacked directory was pushed.
   */
  datatype State = State(
    asked: nat, curr: Option<Entry>, fileType: FileType, stack: seq<Entry>, links: seq<Entry>,
    log: seq<Event>, pushed: multiset<Entry>, deferred: multiset<Entry>, since: seq<nat>)

  const INITIAL: State := State(0, None, Start, [], [], [], multiset{}, multiset{}, [])

  /** The basic reader's current header. */
  function Input(archive: seq<Header>, asked: nat): Option<Entry> {
    if 1 <= asked <= |archive| then Some(Entry(asked - 1, archive[asked - 1])) else None
  }

  /** Whether the directory on top of the stack is complete. */
  predicate EndOfTopDir(policy: DirPolicy, input: Option<Entry>, stack: seq<Entry>) {
    stack != [] &&
    (input.None? ||
     match policy
     case Plain => true
     case EndOfFile => false
     case EndOfDir => !Under(input.value, stack[0]))
  }

  /** The next header is requested once the last one has been handed out. */
  function Advance(s: State): State {
    if s.fileType == Start || s.fileType == Normal then s.(asked := s.asked + 1) else s
  }

  function Return(s: State, t: FileType, e: Entry): State {
    s.(curr := Some(e), fileType := t, log := s.log + [Event(t, e)])
  }

  function PopTop(s: State): State
    requires s.stack != [] && s.since != []
  {
    Return(s, FakeDir, s.stack[0]).(stack := s.stack[1..], since := s.since[1..])
  }

  function PopLink(s: State): State
    requires s.links != []
  {
    Return(s, DeferredSymlink, s.links[0]).(links := s.links[1..])
  }

  /** Directories first, then the input, then the deferred links. */
  function Choose(policy: DirPolicy, archive: seq<Header>, s: State): State
    requires |s.since| == |s.stack|
  {
    var input := Input(archive, s.asked);
    if EndOfTopDir(policy, input, s.stack) then PopTop(s)
    else if input.Some? then Return(s, Normal, input.value)
    else if s.links != [] then PopLink(s)
    else s.(curr := None, fileType := Eof)
  }

  function NextFile(policy: DirPolicy, archive: seq<Header>, s: State): State
    requires |s.since| == |s.stack|
  {
    if s.fileType == Eof then s else Choose(policy, archive, Advance(s))
  }

  /** A directory just created waits on the stack for its contents. */
  function PushDir(s: State): State
    requires s.curr.Some? && s.log != []
  {
    s.(stack := [s.curr.value] + s.stack, pushed := s.pushed + multiset{s.curr.value}, since := [|s.log| - 1] + s.since)
  }

  /** The first place in the list that is not longer. */
  function InsertAt(links: seq<Entry>, n: nat): (i: nat)
    ensures i <= |links| && (forall k :: 0 <= k < i ==> PathLength(links[k]) > n)
    ensures i < |links| ==> PathLength(links[i]) <= n
  {
    if links == [] || PathLength(links[0]) <= n then 0 else 1 + InsertAt(links[1..], n)
  }

  function DeferLink(s: State): State
    requires s.curr.Some?
  {
    var i := InsertAt(s.links, PathLength(s.curr.value));
    s.(links := s.links[..i] + [s.curr.value] + s.links[i..], deferred := s.deferred + multiset{s.curr.value})
  }

  // ----- The invariant -----

  /** The first n headers have been returned, once each and in order. */
  ghost predicate NormalsOk(archive: seq<Header>, log: seq<Event>, n: nat) {
    n <= |archive| && Returned(log, Normal) == Enumerate(archive, n)
  }

  /** Every directory pushed has been returned again, or is still on the stack. */
  ghost predicate DirsOk(log: seq<Event>, stack: seq<Entry>, pushed: multiset<Entry>) {
    multiset(Returned(log, FakeDir)) + multiset(stack) == pushed
  }

  /** Every deferred link has been returned after everything else, or is still waiting; longest path first. */
  ghost predicate LinksOk(log: seq<Event>, links: seq<Entry>, deferred: multiset<Entry>) {
    && multiset(Returned(log, DeferredSymlink)) + multiset(links) == deferred
    && LongestFirst(Returned(log, DeferredSymlink) + links)
    && LinksLast(log)
  }

  /** The stack is a chain, and everything since a directory's own entry lies under it. */
  ghost predicate Nested(log: seq<Event>, stack: seq<Entry>, since: seq<nat>) {
    && |since| == |stack|
    && Chain(stack)
    && forall k :: 0 <= k < |stack| ==> Opened(log, since[k], stack[k])
  }

  /** Under the end-of-directory policy the stack follows the directory structure. */
  ghost predicate StackOk(policy: DirPolicy, log: seq<Event>, stack: seq<Entry>, since: seq<nat>) {
    |since| == |stack| && (policy == EndOfDir ==> Nested(log, stack, since) && Ordered(log))
  }

  ghost predicate PromptOk(policy: DirPolicy, archive: seq<Header>, s: State) {
    policy == EndOfDir ==> PromptNext(s.log, Input(archive, s.asked))
  }

  ghost predicate UnderAll(policy: DirPolicy, e: Entry, stack: seq<Entry>) {
    policy == EndOfDir ==> forall k :: 0 <= k < |stack| ==> Under(e, stack[k])
  }

  /** Deferred links have not begun, or everything else is over. */
  ghost predicate PhaseOk(archive: seq<Header>, s: State) {
    if s.fileType == DeferredSymlink || s.fileType == Eof then s.asked == |archive| + 1 && s.stack == []
    else Returned(s.log, DeferredSymlink) == []
  }

  ghost predicate ListsOk(policy: DirPolicy, archive: seq<Header>, s: State) {
    && DirsOk(s.log, s.stack, s.pushed)
    && LinksOk(s.log, s.links, s.deferred)
    && StackOk(policy, s.log, s.stack, s.since)
    && PhaseOk(archive, s)
  }

  /** After advancing: all headers before the current one have been returned. */
  ghost predicate Ready(policy: DirPolicy, archive: seq<Header>, s: State) {
    && 1 <= s.asked <= |archive| + 1 && s.fileType != Eof
    && NormalsOk(archive, s.log, s.asked - 1)
    && PromptOk(policy, archive, s)
    && ListsOk(policy, archive, s)
  }

  /** How far the archive has been handed out, by the kind of entry last returned. */
  ghost predicate ProgressOk(policy: DirPolicy, archive: seq<Header>, s: State) {
    match s.fileType
    case Start => s.asked == 0 && s.log == []
    case Normal =>
      && 1 <= s.asked <= |archive| && s.curr == Input(archive, s.asked)
      && NormalsOk(archive, s.log, s.asked) && UnderAll(policy, s.curr.value, s.stack)
      && s.log != [] && s.log[|s.log| - 1] == Event(Normal, s.curr.value)
    case FakeDir =>
      && 1 <= s.asked <= |archive| + 1 && NormalsOk(archive, s.log, s.asked - 1)
      && PromptOk(policy, archive, s)
    case DeferredSymlink => NormalsOk(archive, s.log, |archive|)
    case Eof => NormalsOk(archive, s.log, |archive|) && s.links == [] && s.curr == None
  }

  ghost predicate Valid(policy: DirPolicy, archive: seq<Header>, s: State) {
    ListsOk(policy, archive, s) && ProgressOk(policy, archive, s)
  }

  lemma InitialIsValid(policy: DirPolicy, archive: seq<Header>)
    ensures Valid(policy, archive, INITIAL)
  {
  }

  lemma NotFakeIsPrompt(log: seq<Event>, input: Option<Entry>)
    ensures log == [] || log[|log| - 1].fileType != FakeDir ==> PromptNext(log, input)
  {
    if log != [] && log[|log| - 1].fileType != FakeDir {
      forall j | 0 <= j < |log| ensures !FakesFrom(log, j, |log|) {
        assert log[|log| - 1].fileType != FakeDir;
      }
    }
  }

  lemma SnocKeepsBrackets(log: seq<Event>, ev: Event)
    requires Bracketed(log) && (ev.fileType == FakeDir ==> exists p :: Opened(log, p, ev.entry))
    ensures Bracketed(log + [ev])
  {
    var after := log + [ev];
    forall j | 0 <= j < |after| && after[j].fileType == FakeDir ensures Bracket(after, j) {
      if j < |log| {
        assert Bracket(log, j);
        assert after[..j] == log[..j];
      } else {
        assert after[..j] == log;
      }
    }
  }

  lemma SnocKeepsPrompt(log: seq<Event>, ev: Event)
    requires Prompt(log) && (ev.fileType == Normal ==> PromptNext(log, Some(ev.entry)))
    ensures Prompt(log + [ev])
  {
    var after := log + [ev];
    forall j, k | 0 <= j < k < |after| && after[k].fileType == Normal && FakesFrom(after, j, k)
      ensures !Under(after[k].entry, after[j].entry)
    {
      assert FakesFrom(log, j, k) by {
        forall i | j <= i < k ensures log[i].fileType == FakeDir { assert after[i] == log[i]; }
      }
    }
  }

  lemma FakeKeepsPromptNext(log: seq<Event>, d: Entry, input: Option<Entry>)
    requires PromptNext(log, input) && (input.Some? ==> !Under(input.value, d))
    ensures PromptNext(log + [Event(FakeDir, d)], input)
  {
    var after := log + [Event(FakeDir, d)];
    forall j | 0 <= j < |log| && FakesFrom(after, j, |after|) ensures FakesFrom(log, j, |log|) {
      forall i | j <= i < |log| ensures log[i].fileType == FakeDir { assert after[i] == log[i]; }
    }
  }

  lemma AdvanceIsPrompt(policy: DirPolicy, archive: seq<Header>, s: State)
    requires ProgressOk(policy, archive, s) && PhaseOk(archive, s) && s.fileType != Eof
    ensures PromptOk(policy, archive, Advance(s))
  {
    NotFakeIsPrompt(s.log, Input(archive, Advance(s).asked));
  }

  lemma AdvanceCounts(policy: DirPolicy, archive: seq<Header>, s: State)
    requires ProgressOk(policy, archive, s) && PhaseOk(archive, s) && s.fileType != Eof
    ensures var r := Advance(s); 1 <= r.asked <= |archive| + 1 && NormalsOk(archive, s.log, r.asked - 1)
  {
  }

  lemma AdvanceIsReady(policy: DirPolicy, archive: seq<Header>, s: State)
    requires Valid(policy, archive, s) && s.fileType != Eof
    ensures Ready(policy, archive, Advance(s))
  {
    AdvanceIsPrompt(policy, archive, s);
    AdvanceCounts(policy, archive, s);
  }

  lemma {:induction false} NoneReturned(log: seq<Event>, i: nat)
    requires i < |log| && Returned(log, DeferredSymlink) == []
    ensures log[i].fileType != DeferredSymlink
    decreases |log|
  {
    if i < |log| - 1 { NoneReturned(log[..|log| - 1], i); }
  }

  lemma NoLinksYet(log: seq<Event>, ev: Event)
    requires Returned(log, DeferredSymlink) == []
    ensures LinksLast(log + [ev])
  {
    forall i | 0 <= i < |log| ensures log[i].fileType != DeferredSymlink {
      NoneReturned(log, i);
    }
  }

  /** Nothing but a deferred link disturbs the links while none has been returned. */
  lemma LogKeepsLinks(log: seq<Event>, ev: Event, links: seq<Entry>, deferred: multiset<Entry>)
    requires LinksOk(log, links, deferred) && Returned(log, DeferredSymlink) == []
    requires ev.fileType != DeferredSymlink
    ensures LinksOk(log + [ev], links, deferred) && Returned(log + [ev], DeferredSymlink) == []
  {
    ReturnedSnoc(log, ev, DeferredSymlink);
    NoLinksYet(log, ev);
  }

  lemma PopLinkKeepsLinks(log: seq<Event>, links: seq<Entry>, deferred: multiset<Entry>)
    requires LinksOk(log, links, deferred) && links != []
    ensures LinksOk(log + [Event(DeferredSymlink, links[0])], links[1..], deferred)
  {
    var ev := Event(DeferredSymlink, links[0]);
    var back := Returned(log, DeferredSymlink);
    ReturnedSnoc(log, ev, DeferredSymlink);
    assert links == [links[0]] + links[1..];
    assert (back + [links[0]]) + links[1..] == back + links;
    assert multiset(back + links) == multiset(back) + multiset(links);
  }

  lemma InsertKeepsOrder(links: seq<Entry>, e: Entry, i: nat)
    requires LongestFirst(links) && i == InsertAt(links, PathLength(e))
    ensures LongestFirst(links[..i] + [e] + links[i..])
  {
    var all := links[..i] + [e] + links[i..];
    forall a, b | 0 <= a < b < |all| ensures PathLength(all[a]) >= PathLength(all[b]) {
      assert a < i ==> all[a] == links[a];
      assert b > i ==> all[b] == links[b - 1];
      if a == i < b { assert PathLength(links[i]) >= PathLength(links[b - 1]); }
    }
  }

  lemma InsertAddsOne<T>(s: seq<T>, x: T, i: nat)
    requires i <= |s|
    ensures multiset(s[..i] + [x] + s[i..]) == multiset(s) + multiset{x}
  {
    assert s == s[..i] + s[i..];
  }

  lemma PopTopKeepsDirs(log: seq<Event>, stack: seq<Entry>, pushed: multiset<Entry>)
    requires DirsOk(log, stack, pushed) && stack != []
    ensures DirsOk(log + [Event(FakeDir, stack[0])], stack[1..], pushed)
  {
    ReturnedSnoc(log, Event(FakeDir, stack[0]), FakeDir);
    assert stack == [stack[0]] + stack[1..];
  }

  lemma LogKeepsDirs(log: seq<Event>, ev: Event, stack: seq<Entry>, pushed: multiset<Entry>)
    requires DirsOk(log, stack, pushed) && ev.fileType != FakeDir
    ensures DirsOk(log + [ev], stack, pushed)
  {
    ReturnedSnoc(log, ev, FakeDir);
  }

  /** The top directory lies under all the others, so returning it respects them. */
  lemma PopTopKeepsNesting(log: seq<Event>, stack: seq<Entry>, since: seq<nat>)
    requires Nested(log, stack, since) && stack != []
    ensures Nested(log + [Event(FakeDir, stack[0])], stack[1..], since[1..])
  {
    var after := log + [Event(FakeDir, stack[0])];
    forall k | 0 <= k < |stack| - 1 ensures Opened(after, since[1..][k], stack[1..][k]) {
      assert Opened(log, since[k + 1], stack[k + 1]);
      assert Under(stack[0], stack[k + 1]);
    }
  }

  /** An entry under the top directory lies under the whole stack. */
  lemma UnderTopUnderAll(e: Entry, stack: seq<Entry>)
    requires Chain(stack) && (stack != [] ==> Under(e, stack[0]))
    ensures forall k :: 0 <= k < |stack| ==> Under(e, stack[k])
  {
    forall k | 0 <= k < |stack| ensures Under(e, stack[k]) {
      if k > 0 { UnderIsTransitive(e, stack[0], stack[k]); }
    }
  }

  lemma ReturnKeepsNesting(log: seq<Event>, stack: seq<Entry>, since: seq<nat>, ev: Event)
    requires Nested(log, stack, since) && forall k :: 0 <= k < |stack| ==> Under(ev.entry, stack[k])
    ensures Nested(log + [ev], stack, since)
  {
    forall k | 0 <= k < |stack| ensures Opened(log + [ev], since[k], stack[k]) {
      assert Opened(log, since[k], stack[k]);
    }
  }

  lemma PopTopKeepsStack(policy: DirPolicy, s: State)
    requires StackOk(policy, s.log, s.stack, s.since) && s.stack != []
    ensures StackOk(policy, s.log + [Event(FakeDir, s.stack[0])], s.stack[1..], s.since[1..])
  {
    if policy == EndOfDir {
      var ev := Event(FakeDir, s.stack[0]);
      PopTopKeepsNesting(s.log, s.stack, s.since);
      assert Opened(s.log, s.since[0], ev.entry);
      SnocKeepsBrackets(s.log, ev);
      SnocKeepsPrompt(s.log, ev);
    }
  }

  lemma PopTopIsPrompt(policy: DirPolicy, archive: seq<Header>, s: State)
    requires PromptOk(policy, archive, s) && |s.since| == |s.stack| && EndOfTopDir(policy, Input(archive, s.asked), s.stack)
    ensures PromptOk(policy, archive, PopTop(s))
  {
    if policy == EndOfDir { FakeKeepsPromptNext(s.log, s.stack[0], Input(archive, s.asked)); }
  }

  lemma PopTopKeepsLists(policy: DirPolicy, archive: seq<Header>, s: State)
    requires ListsOk(policy, archive, s) && s.fileType != Eof && EndOfTopDir(policy, Input(archive, s.asked), s.stack)
    ensures ListsOk(policy, archive, PopTop(s))
  {
    PopTopKeepsDirs(s.log, s.stack, s.pushed);
    LogKeepsLinks(s.log, Event(FakeDir, s.stack[0]), s.links, s.deferred);
    PopTopKeepsStack(policy, s);
  }

  lemma PopTopKeeps(policy: DirPolicy, archive: seq<Header>, s: State)
    requires Ready(policy, archive, s) && EndOfTopDir(policy, Input(archive, s.asked), s.stack)
    ensures Valid(policy, archive, PopTop(s))
  {
    ReturnedSnoc(s.log, Event(FakeDir, s.stack[0]), Normal);
    PopTopKeepsLists(policy, archive, s);
    PopTopIsPrompt(policy, archive, s);
  }

  lemma ReturnInputKeepsStack(policy: DirPolicy, s: State, e: Entry)
    requires StackOk(policy, s.log, s.stack, s.since) && !EndOfTopDir(policy, Some(e), s.stack)
    requires policy == EndOfDir ==> PromptNext(s.log, Some(e))
    ensures StackOk(policy, s.log + [Event(Normal, e)], s.stack, s.since) && UnderAll(policy, e, s.stack)
  {
    if policy == EndOfDir {
      UnderTopUnderAll(e, s.stack);
      ReturnKeepsNesting(s.log, s.stack, s.since, Event(Normal, e));
      SnocKeepsBrackets(s.log, Event(Normal, e));
      SnocKeepsPrompt(s.log, Event(Normal, e));
    }
  }

  lemma ReturnInputKeepsNormals(archive: seq<Header>, log: seq<Event>, n: nat)
    requires NormalsOk(archive, log, n) && n < |archive|
    ensures NormalsOk(archive, log + [Event(Normal, Entry(n, archive[n]))], n + 1)
  {
    ReturnedSnoc(log, Event(Normal, Entry(n, archive[n])), Normal);
  }

  lemma ReturnInputKeeps(policy: DirPolicy, archive: seq<Header>, s: State)
    requires Ready(policy, archive, s) && Input(archive, s.asked).Some?
    requires !EndOfTopDir(policy, Input(archive, s.asked), s.stack)
    ensures Valid(policy, archive, Return(s, Normal, Input(archive, s.asked).value))
  {
    var e := Input(archive, s.asked).value;
    LogKeepsDirs(s.log, Event(Normal, e), s.stack, s.pushed);
    ReturnInputKeepsNormals(archive, s.log, s.asked - 1);
    LogKeepsLinks(s.log, Event(Normal, e), s.links, s.deferred);
    ReturnInputKeepsStack(policy, s, e);
  }

  lemma PopLinkKeeps(policy: DirPolicy, archive: seq<Header>, s: State)
    requires Ready(policy, archive, s) && s.asked == |archive| + 1 && s.stack == [] && s.links != []
    ensures Valid(policy, archive, PopLink(s))
  {
    var ev := Event(DeferredSymlink, s.links[0]);
    LogKeepsDirs(s.log, ev, s.stack, s.pushed);
    ReturnedSnoc(s.log, ev, Normal);
    PopLinkKeepsLinks(s.log, s.links, s.deferred);
    if policy == EndOfDir {
      SnocKeepsBrackets(s.log, ev);
      SnocKeepsPrompt(s.log, ev);
    }
  }

  lemma FinishKeeps(policy: DirPolicy, archive: seq<Header>, s: State)
    requires Ready(policy, archive, s) && Input(archive, s.asked).None? && s.stack == [] && s.links == []
    ensures Valid(policy, archive, s.(curr := None, fileType := Eof))
  {
  }

  lemma ChooseKeeps(policy: DirPolicy, archive: seq<Header>, s: State)
    requires Ready(policy, archive, s)
    ensures |s.since| == |s.stack| && Valid(policy, archive, Choose(policy, archive, s))
  {
    var input := Input(archive, s.asked);
    if EndOfTopDir(policy, input, s.stack) {
      PopTopKeeps(policy, archive, s);
    } else if input.Some? {
      ReturnInputKeeps(policy, archive, s);
    } else if s.links != [] {
      PopLinkKeeps(policy, archive, s);
    } else {
      FinishKeeps(policy, archive, s);
    }
  }

  /** Every step to the next file keeps the invariant. */
  lemma NextFileKeepsValid(policy: DirPolicy, archive: seq<Header>, s: State)
    requires Valid(policy, archive, s)
    ensures Valid(policy, archive, NextFile(policy, archive, s))
  {
    if s.fileType != Eof {
      AdvanceIsReady(policy, archive, s);
      ChooseKeeps(policy, archive, Advance(s));
    }
  }

  lemma PushDirKeepsValid(policy: DirPolicy, archive: seq<Header>, s: State)
    requires Valid(policy, archive, s) && s.fileType == Normal && s.curr.value.header.path.Some?
    ensures Valid(policy, archive, PushDir(s))
  {
  }

  lemma DeferKeepsLinks(log: seq<Event>, links: seq<Entry>, deferred: multiset<Entry>, e: Entry, i: nat)
    requires LinksOk(log, links, deferred) && Returned(log, DeferredSymlink) == []
    requires i == InsertAt(links, PathLength(e))
    ensures LinksOk(log, links[..i] + [e] + links[i..], deferred + multiset{e})
  {
    assert [] + links == links;
    InsertKeepsOrder(links, e, i);
    InsertAddsOne(links, e, i);
    var all := links[..i] + [e] + links[i..];
    assert [] + all == all;
  }

  lemma DeferLinkKeepsValid(policy: DirPolicy, archive: seq<Header>, s: State)
    requires Valid(policy, archive, s) && s.fileType == Normal
    ensures Valid(policy, archive, DeferLink(s))
  {
    var e := s.curr.value;
    DeferKeepsLinks(s.log, s.links, s.deferred, e, InsertAt(s.links, PathLength(e)));
  }
}
