/**
 The reader object: the current file and the two lists, updated by each call. Its methods follow the steps
 of the run model, so all that is proved of runs holds of the object.
 */
module LhaReaderObject {
  import opened Options
  import opened LhaReader
  import opened LhaReaderRuns

  class Reader {
    const archive: seq<Header>
    const dirPolicy: DirPolicy
    var asked: nat
    var currFile: Option<Entry>
    var currFileType: FileType
    var dirStack: seq<Entry>
    var deferredSymlinks: seq<Entry>
    /** The calls made so far. */
    ghost var calls: seq<Action>

    ghost function Model(): State
      reads this
    {
      Run(dirPolicy, archive, calls)
    }

    /** The fields hold state s. */
    ghost predicate Shows(s: State)
      reads this
    {
      && s.asked == asked && s.curr == currFile && s.fileType == currFileType
      && s.stack == dirStack && s.links == deferredSymlinks
    }

    ghost predicate Valid()
      reads this
    {
      && WellFormed(archive)
      && Shows(Model())
    }

    constructor (archive: seq<Header>, dirPolicy: DirPolicy)
      requires WellFormed(archive)
      ensures Valid() && calls == [] && this.archive == archive && this.dirPolicy == dirPolicy
    {
      this.archive, this.dirPolicy := archive, dirPolicy;
      asked, currFile, currFileType, dirStack, deferredSymlinks := 0, None, Start, [], [];
      calls := [];
    }

    /** The header the basic reader stands at. */
    function CurrInput(): Option<Entry>
      reads this
    {
      Input(archive, asked)
    }

    method EndOfTopDir() returns (end: bool)
      ensures end == LhaReader.EndOfTopDir(dirPolicy, CurrInput(), dirStack)
    {
      if dirStack == [] { return false; }
      var input := CurrInput();
      if input == None { return true; }
      match dirPolicy {
        case Plain => end := true;
        case EndOfFile => end := false;
        case EndOfDir => end := !Under(input.value, dirStack[0]);
      }
    }

    method NextFile() returns (file: Option<Entry>)
      requires Valid()
      modifies this
      ensures Valid() && calls == old(calls) + [Next] && file == currFile
      ensures file == None <==> currFileType == Eof
    {
      NoFileAtEnd(dirPolicy, archive, calls);
      RunSnoc(dirPolicy, archive, calls, Next);
      ghost var before := Model();
      calls := calls + [Next];
      if currFileType == Eof { return None; }
      if currFileType == Start || currFileType == Normal { asked := asked + 1; }
      Select(Advance(before));
      return currFile;
    }

    /** Pops a finished directory, or takes the input, or a deferred link. */
    method Select(ghost s: State)
      requires |s.since| == |s.stack| && Shows(s) && s.fileType != Eof
      modifies this`currFile, this`currFileType, this`dirStack, this`deferredSymlinks
      ensures Shows(Choose(dirPolicy, archive, s))
      ensures currFile == None <==> currFileType == Eof
    {
      var end := EndOfTopDir();
      if end {
        currFile := Some(dirStack[0]);
        dirStack := dirStack[1..];
        currFileType := FakeDir;
      } else {
        currFile := CurrInput();
        currFileType := Normal;
      }
      if currFile == None {
        if deferredSymlinks != [] {
          currFile := Some(deferredSymlinks[0]);
          currFileType := DeferredSymlink;
          deferredSymlinks := deferredSymlinks[1..];
        } else {
          currFileType := Eof;
        }
      }
    }

    /** Extracting the current file; `made` tells whether the directory or the placeholder could be created. */
    method Extract(made: bool)
      requires Valid()
      modifies this
      ensures Valid() && calls == old(calls) + [Action.Extract(made)]
      ensures asked == old(asked) && currFile == old(currFile) && currFileType == old(currFileType)
    {
      RunSnoc(dirPolicy, archive, calls, Action.Extract(made));
      calls := calls + [Action.Extract(made)];
      if currFileType == Normal {
        match currFile.value.header.kind {
          case File =>
          case Directory => ExtractDirectory(made);
          case Symlink(target) =>
            var dangerous := IsDangerousSymlink(target);
            if dangerous && made { ExtractPlaceholderSymlink(); }
        }
      }
    }

    method ExtractDirectory(made: bool)
      requires currFile.Some?
      modifies this`dirStack
      ensures dirStack == if made && dirPolicy != Plain then [currFile.value] + old(dirStack) else old(dirStack)
    {
      if made && dirPolicy != Plain {
        dirStack := [currFile.value] + dirStack;
      }
    }

    /** The rover passes the links with longer paths. */
    method ExtractPlaceholderSymlink()
      requires currFile.Some?
      modifies this`deferredSymlinks
      ensures var i := InsertAt(old(deferredSymlinks), PathLength(currFile.value));
              deferredSymlinks == old(deferredSymlinks)[..i] + [currFile.value] + old(deferredSymlinks)[i..]
    {
      var rover := 0;
      while rover < |deferredSymlinks| && PathLength(deferredSymlinks[rover]) > PathLength(currFile.value)
        invariant 0 <= rover <= |deferredSymlinks|
        invariant forall k :: 0 <= k < rover ==> PathLength(deferredSymlinks[k]) > PathLength(currFile.value)
      {
        rover := rover + 1;
      }
      assert rover == InsertAt(deferredSymlinks, PathLength(currFile.value));
      deferredSymlinks := deferredSymlinks[..rover] + [currFile.value] + deferredSymlinks[rover..];
    }
  }

  lemma NoFileAtEnd(policy: DirPolicy, archive: seq<Header>, calls: seq<Action>)
    requires WellFormed(archive)
    ensures var s := Run(policy, archive, calls); s.fileType == Eof ==> s.curr == None
  {
    RunKeepsValid(policy, archive, calls);
  }

  lemma RunSnoc(policy: DirPolicy, archive: seq<Header>, calls: seq<Action>, a: Action)
    ensures Run(policy, archive, calls + [a]) == Step(policy, archive, Run(policy, archive, calls), a)
  {
    assert (calls + [a])[..|calls|] == calls;
  }
}
