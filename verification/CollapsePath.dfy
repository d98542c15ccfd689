/**
 Removal of empty, "." and ".." components from a path: the in-place two-pointer loop against a
 fold of the '/'-terminated components over a stack.
 */
module CollapsePath {

  /** The position of the first '/', or the length if there is none. */
  function FirstSlash(s: string): (i: nat)
    ensures i <= |s| && (i < |s| ==> s[i] == '/') && forall k :: 0 <= k < i ==> s[k] != '/'
  {
    if s == [] || s[0] == '/' then 0 else 1 + FirstSlash(s[1..])
  }

  predicate NoSlash(s: string) {
    forall k :: 0 <= k < |s| ==> s[k] != '/'
  }

  /** A terminated component: dropped if empty or ".", taking back its predecessor if "..", kept otherwise. */
  function Push(stack: seq<string>, part: string): seq<string> {
    if part == "" || part == "." then stack
    else if part == ".." then (if stack == [] then [] else stack[..|stack| - 1])
    else stack + [part]
  }

  function Joined(stack: seq<string>): string {
    if stack == [] then "" else Joined(stack[..|stack| - 1]) + stack[|stack| - 1] + "/"
  }

  /** The '/'-terminated components of s. */
  function Parts(s: string): seq<string>
    decreases |s|
  {
    var i := FirstSlash(s);
    if i == |s| then [] else [s[..i]] + Parts(s[i + 1..])
  }

  /** What follows the last '/'. */
  function Tail(s: string): string
    decreases |s|
  {
    var i := FirstSlash(s);
    if i == |s| then s else Tail(s[i + 1..])
  }

  function Fold(stack: seq<string>, parts: seq<string>): seq<string>
    decreases |parts|
  {
    if parts == [] then stack else Fold(Push(stack, parts[0]), parts[1..])
  }

  function CollapseRelative(s: string): string {
    Joined(Fold([], Parts(s))) + Tail(s)
  }

  predicate Absolute(s: string) {
    s != "" && s[0] == '/'
  }

  function Collapse(s: string): string {
    if Absolute(s) then "/" + CollapseRelative(s[1..]) else CollapseRelative(s)
  }

  // ----- Splitting and joining -----

  lemma FirstSlashAfter(part: string, rest: string)
    requires NoSlash(part)
    ensures FirstSlash(part + "/" + rest) == |part|
  {
    assert (part + "/" + rest)[|part|] == '/';
  }

  lemma SplitAtSlash(part: string, rest: string)
    requires NoSlash(part)
    ensures Parts(part + "/" + rest) == [part] + Parts(rest) && Tail(part + "/" + rest) == Tail(rest)
  {
    var s := part + "/" + rest;
    FirstSlashAfter(part, rest);
    assert s[..|part|] == part && s[|part| + 1..] == rest;
  }

  lemma SplitTail(tail: string)
    requires NoSlash(tail)
    ensures Parts(tail) == [] && Tail(tail) == tail
  {
  }

  ghost predicate AllParts(parts: seq<string>) {
    forall i :: 0 <= i < |parts| ==> NoSlash(parts[i])
  }

  lemma {:induction false} SplitHasNoSlash(s: string)
    ensures AllParts(Parts(s)) && NoSlash(Tail(s))
    decreases |s|
  {
    var i := FirstSlash(s);
    if i < |s| { SplitHasNoSlash(s[i + 1..]); }
  }

  lemma {:induction false} JoinedFromFront(stack: seq<string>)
    requires stack != []
    ensures Joined(stack) == stack[0] + "/" + Joined(stack[1..])
  {
    if |stack| == 1 {
      assert stack[..0] == [] && stack[1..] == [];
    } else {
      var n := |stack| - 1;
      var first, mid, last := stack[0], Joined(stack[1..n]), stack[n];
      JoinedFromFront(stack[..n]);
      assert stack[..n][1..] == stack[1..n] == stack[1..][..n - 1];
      assert Joined(stack[1..]) == mid + last + "/";
      assert (first + "/" + mid) + last + "/" == first + "/" + (mid + last + "/");
    }
  }

  lemma Regroup(a: string, b: string, c: string)
    ensures (a + "/" + b) + c == a + "/" + (b + c)
  {
  }

  /** Splitting undoes joining. */
  lemma {:induction false} SplitOfJoined(parts: seq<string>, tail: string)
    requires AllParts(parts) && NoSlash(tail)
    ensures Parts(Joined(parts) + tail) == parts && Tail(Joined(parts) + tail) == tail
    decreases |parts|
  {
    if parts == [] {
      assert Joined(parts) + tail == tail;
      SplitTail(tail);
    } else {
      var more := Joined(parts[1..]);
      JoinedFromFront(parts);
      Regroup(parts[0], more, tail);
      SplitOfJoined(parts[1..], tail);
      SplitAtSlash(parts[0], more + tail);
    }
  }

  lemma JoinedCons(part: string, parts: seq<string>, tail: string)
    ensures Joined([part] + parts) + tail == part + "/" + (Joined(parts) + tail)
  {
    JoinedFromFront([part] + parts);
    assert ([part] + parts)[1..] == parts;
    Regroup(part, Joined(parts), tail);
  }

  lemma SplitOne(s: string) returns (part: string, rest: string)
    requires FirstSlash(s) < |s|
    ensures s == part + "/" + rest && Parts(s) == [part] + Parts(rest) && Tail(s) == Tail(rest)
  {
    var i := FirstSlash(s);
    part, rest := s[..i], s[i + 1..];
  }

  /** Joining undoes splitting. */
  lemma {:induction false} JoinedOfSplit(s: string)
    ensures Joined(Parts(s)) + Tail(s) == s
    decreases |s|
  {
    if FirstSlash(s) == |s| {
      assert "" + s == s;
    } else {
      var part, rest := SplitOne(s);
      JoinedOfSplit(rest);
      JoinedCons(part, Parts(rest), Tail(rest));
    }
  }

  // ----- What the result looks like -----

  predicate CleanPart(part: string) {
    part != "" && part != "." && part != ".." && NoSlash(part)
  }

  predicate Clean(stack: seq<string>) {
    forall i :: 0 <= i < |stack| ==> CleanPart(stack[i])
  }

  lemma {:induction false} FoldKeepsClean(stack: seq<string>, parts: seq<string>)
    requires Clean(stack) && AllParts(parts)
    ensures Clean(Fold(stack, parts))
    decreases |parts|
  {
    if parts != [] { FoldKeepsClean(Push(stack, parts[0]), parts[1..]); }
  }

  lemma PushShrinks(stack: seq<string>, part: string)
    ensures |Joined(Push(stack, part))| <= |Joined(stack)| + |part| + 1
  {
    assert (stack + [part])[..|stack|] == stack;
  }

  lemma {:induction false} FoldShrinks(stack: seq<string>, parts: seq<string>)
    ensures |Joined(Fold(stack, parts))| <= |Joined(stack)| + |Joined(parts)|
    decreases |parts|
  {
    if parts != [] {
      PushShrinks(stack, parts[0]);
      JoinedFromFront(parts);
      FoldShrinks(Push(stack, parts[0]), parts[1..]);
    }
  }

  /** Collapsing never lengthens a path. */
  lemma CollapseShrinks(s: string)
    ensures |Collapse(s)| <= |s|
  {
    var rel := if Absolute(s) then s[1..] else s;
    JoinedOfSplit(rel);
    FoldShrinks([], Parts(rel));
    assert Joined([]) == "";
  }

  /** Clean components are all kept. */
  lemma {:induction false} FoldOfClean(before: seq<string>, parts: seq<string>)
    requires Clean(parts)
    ensures Fold(before, parts) == before + parts
    decreases |parts|
  {
    if parts == [] {
      assert before + parts == before;
    } else {
      FoldOfClean(before + [parts[0]], parts[1..]);
      assert (before + [parts[0]]) + parts[1..] == before + parts;
    }
  }

  /** The result's own terminated components are exactly those kept, all clean; an unterminated tail is kept as it was. */
  lemma CollapseRelativeIsClean(s: string)
    ensures var r := CollapseRelative(s);
            Parts(r) == Fold([], Parts(s)) && Clean(Parts(r)) && Tail(r) == Tail(s) && Fold([], Parts(r)) == Parts(r)
  {
    var kept := Fold([], Parts(s));
    SplitHasNoSlash(s);
    FoldKeepsClean([], Parts(s));
    SplitOfJoined(kept, Tail(s));
    FoldOfClean([], kept);
    assert [] + kept == kept;
  }

  /** A relative path does not become absolute, because no component is empty. */
  lemma StaysRelative(s: string)
    requires !Absolute(s)
    ensures !Absolute(CollapseRelative(s))
  {
    var r := CollapseRelative(s);
    CollapseRelativeIsClean(s);
    SplitHasNoSlash(s);
    if Parts(r) != [] { JoinedFromFront(Parts(r)); }
  }

  function Relative(s: string): string {
    if Absolute(s) then s[1..] else s
  }

  lemma CollapseIsClean(s: string)
    ensures Absolute(Collapse(s)) == Absolute(s) && Relative(Collapse(s)) == CollapseRelative(Relative(s))
    ensures var r := Relative(Collapse(s));
            Parts(r) == Fold([], Parts(Relative(s))) && Clean(Parts(r)) && Tail(r) == Tail(Relative(s))
  {
    CollapseRelativeIsClean(Relative(s));
    if Absolute(s) {
      assert ("/" + CollapseRelative(s[1..]))[1..] == CollapseRelative(s[1..]);
    } else {
      StaysRelative(s);
    }
  }

  /** Collapsing twice is collapsing once. */
  lemma CollapseIsIdempotent(s: string)
    ensures Collapse(Collapse(s)) == Collapse(s)
  {
    CollapseIsClean(s);
    CollapseRelativeIsClean(Relative(s));
  }

  /** No component, the unterminated tail included, is "..". */
  ghost predicate ParentFree(s: string) {
    (forall i :: 0 <= i < |Parts(Relative(s))| ==> Parts(Relative(s))[i] != "..") && Tail(Relative(s)) != ".."
  }

  /** Collapsing removes every ".." exactly unless the path ends in an unterminated one. */
  lemma CollapseRemovesParents(s: string)
    ensures ParentFree(Collapse(s)) <==> Tail(Relative(s)) != ".."
  {
    CollapseIsClean(s);
    var parts := Parts(Relative(Collapse(s)));
    forall i | 0 <= i < |parts| ensures parts[i] != ".." {
      assert CleanPart(parts[i]);
    }
  }

  lemma {:induction false} TerminatedHasNoTail(s: string)
    requires s == "" || s[|s| - 1] == '/'
    ensures Tail(s) == ""
    decreases |s|
  {
    var i := FirstSlash(s);
    if i < |s| { TerminatedHasNoTail(s[i + 1..]); }
  }

  /** In particular a path that ends in '/' is left without any. */
  lemma TerminatedIsParentFree(s: string)
    requires s == "" || s[|s| - 1] == '/'
    ensures ParentFree(Collapse(s))
  {
    var r := Relative(s);
    assert r == "" || r[|r| - 1] == s[|s| - 1];
    TerminatedHasNoTail(r);
    CollapseRemovesParents(s);
  }

  lemma FoldOne(part: string)
    requires CleanPart(part)
    ensures Fold([], [part]) == [part] && Joined([part]) == part + "/"
  {
    assert [part][1..] == [] && [part][..0] == [] && Push([], part) == [part];
    assert Joined([part][..0]) == "" && "" + part == part;
  }

  lemma FoldTwo(stack: seq<string>, a: string, b: string)
    ensures Fold(stack, [a, b]) == Push(Push(stack, a), b)
  {
    var parts := [a, b];
    assert parts[1..] == [b] && [b][1..] == [];
    var next := Push(stack, a);
    assert Fold(stack, parts) == Fold(next, [b]);
  }

  /** As below, ".." comes as a variable, which keeps the literal out of the sequences reasoned about. */
  lemma PushBack(part: string, parent: string)
    requires CleanPart(part) && parent == ".."
    ensures Push(Push([], part), parent) == []
  {
    PushUndone([], part, parent);
  }

  lemma ParentAtEnd(name: string, parent: string)
    requires CleanPart(name) && parent == ".."
    ensures Collapse(name + "/" + parent) == name + "/" + parent
  {
    SplitAtSlash(name, parent);
    SplitTail(parent);
    assert [name] + [] == [name];
    FoldOne(name);
  }

  lemma ParentInside(name: string, parent: string)
    requires CleanPart(name) && parent == ".."
    ensures Collapse(name + "/" + (parent + "/" + "")) == ""
  {
    SplitAtSlash(name, parent + "/" + "");
    SplitAtSlash(parent, "");
    SplitTail("");
    assert [name] + ([parent] + []) == [name, parent];
    FoldTwo([], name, parent);
    PushBack(name, parent);
  }

  /** Only an unterminated ".." can survive, and after any name it does: it is not a component yet. */
  lemma UnterminatedParentSurvives(name: string)
    requires CleanPart(name)
    ensures Collapse(name + "/" + "..") == name + "/" + ".." && Collapse(name + "/" + (".." + "/" + "")) == ""
  {
    ParentAtEnd(name, "..");
    ParentInside(name, "..");
  }

  // ----- Components that cancel -----

  /** Whole components: nothing, or a string that ends in '/'. */
  predicate Whole(a: string) {
    a == "" || a[|a| - 1] == '/'
  }

  lemma FirstOfWhole(a: string) returns (part: string, rest: string)
    requires Whole(a) && a != ""
    ensures a == part + "/" + rest && NoSlash(part) && Whole(rest)
  {
    var i := FirstSlash(a);
    assert a[|a| - 1] == '/' && i < |a|;
    part, rest := a[..i], a[i + 1..];
    assert rest != "" ==> rest[|rest| - 1] == a[|a| - 1];
  }

  lemma {:induction false} SplitAfter(a: string, x: string)
    requires Whole(a)
    ensures Parts(a + x) == Parts(a) + Parts(x) && Tail(a + x) == Tail(x)
    decreases |a|
  {
    if a == "" {
      SplitTail("");
      assert a + x == x && [] + Parts(x) == Parts(x);
    } else {
      var part, rest := FirstOfWhole(a);
      SplitAfter(rest, x);
      Regroup(part, rest, x);
      SplitJoin(part, rest, x, Parts(rest), Parts(x));
    }
  }

  lemma SplitJoin(part: string, rest: string, x: string, ps: seq<string>, qs: seq<string>)
    requires NoSlash(part) && Parts(rest) == ps && Parts(rest + x) == ps + qs
    ensures Parts(part + "/" + rest) + qs == Parts(part + "/" + (rest + x))
    ensures Tail(part + "/" + (rest + x)) == Tail(rest + x)
  {
    SplitAtSlash(part, rest);
    SplitAtSlash(part, rest + x);
    ConsBefore(part, ps, qs);
  }

  lemma ConsBefore<T>(x: T, a: seq<T>, b: seq<T>)
    ensures [x] + (a + b) == ([x] + a) + b
  {
  }

  lemma {:induction false} FoldJoins(stack: seq<string>, a: seq<string>, b: seq<string>)
    ensures Fold(stack, a + b) == Fold(Fold(stack, a), b)
    decreases |a|
  {
    if a == [] {
      assert a + b == b;
    } else {
      FoldJoins(Push(stack, a[0]), a[1..], b);
      TailOfJoin(a, b);
    }
  }

  lemma FoldCons(stack: seq<string>, part: string, parts: seq<string>)
    ensures Fold(stack, [part] + parts) == Fold(Push(stack, part), parts)
  {
    assert ([part] + parts)[1..] == parts;
  }

  lemma PushUndone(stack: seq<string>, part: string, parent: string)
    requires CleanPart(part) && parent == ".."
    ensures Push(Push(stack, part), parent) == stack
  {
    FrontOfSnoc(stack, part);
  }

  lemma FrontOfSnoc<T>(s: seq<T>, x: T)
    ensures (s + [x])[..|s + [x]| - 1] == s && s + [x] != []
  {
  }

  lemma TailOfJoin<T>(a: seq<T>, b: seq<T>)
    requires a != []
    ensures (a + b)[1..] == a[1..] + b && (a + b)[0] == a[0]
  {
  }

  /** x has the effect of `rest` on any stack. */
  ghost predicate SameEffect(x: string, rest: string) {
    Tail(x) == Tail(rest) && forall stack :: Fold(stack, Parts(x)) == Fold(stack, Parts(rest))
  }

  lemma RelativeOmits(a: string, x: string, rest: string)
    requires Whole(a) && SameEffect(x, rest)
    ensures CollapseRelative(a + x) == CollapseRelative(a + rest)
  {
    SplitAfter(a, x);
    SplitAfter(a, rest);
    FoldJoins([], Parts(a), Parts(x));
    FoldJoins([], Parts(a), Parts(rest));
  }

  lemma OmitsAtStart(x: string, rest: string)
    requires SameEffect(x, rest) && !Absolute(x)
    ensures Collapse(x) == Collapse(rest) <==> !Absolute(rest)
  {
    if Absolute(rest) {
      CollapseIsClean(x);
      CollapseIsClean(rest);
    } else {
      RelativeOmits("", x, rest);
      assert "" + x == x && "" + rest == rest;
    }
  }

  lemma OmitsInside(a: string, x: string, rest: string)
    requires Whole(a) && a != "" && SameEffect(x, rest)
    ensures Collapse(a + x) == Collapse(a + rest)
  {
    if Absolute(a) {
      assert (a + x)[1..] == a[1..] + x && (a + rest)[1..] == a[1..] + rest;
      RelativeOmits(a[1..], x, rest);
    } else {
      RelativeOmits(a, x, rest);
    }
  }

  /** What has no effect on the stack can be left out. */
  lemma CollapseOmits(a: string, x: string, rest: string)
    requires Whole(a) && SameEffect(x, rest) && !Absolute(x)
    ensures Collapse(a + x) == Collapse(a + rest) <==> a != "" || !Absolute(rest)
  {
    if a == "" {
      assert a + x == x && a + rest == rest;
      OmitsAtStart(x, rest);
    } else {
      OmitsInside(a, x, rest);
    }
  }

  /**
   A name and the ".." behind it cancel wherever they stand, except that at the very start of a path they keep
   a '/' behind them from being the leading one.
   */
  lemma ParentCancelsName(a: string, name: string, parent: string, rest: string)
    requires Whole(a) && CleanPart(name) && parent == ".."
    ensures Collapse(a + (name + "/" + (parent + "/" + rest))) == Collapse(a + rest) <==> a != "" || !Absolute(rest)
  {
    var x := name + "/" + (parent + "/" + rest);
    SplitAtSlash(name, parent + "/" + rest);
    SplitAtSlash(parent, rest);
    forall stack ensures Fold(stack, Parts(x)) == Fold(stack, Parts(rest)) {
      FoldCons(stack, name, [parent] + Parts(rest));
      FoldCons(Push(stack, name), parent, Parts(rest));
      PushUndone(stack, name, parent);
    }
    CollapseOmits(a, x, rest);
  }

  /** A "." component can be left out, with the same exception. */
  lemma DotIsNothing(a: string, dot: string, rest: string)
    requires Whole(a) && dot == "."
    ensures Collapse(a + (dot + "/" + rest)) == Collapse(a + rest) <==> a != "" || !Absolute(rest)
  {
    var x := dot + "/" + rest;
    SplitAtSlash(dot, rest);
    forall stack ensures Fold(stack, Parts(x)) == Fold(stack, Parts(rest)) {
      FoldCons(stack, dot, Parts(rest));
    }
    CollapseOmits(a, x, rest);
  }

  // ----- The loop -----

  lemma PushSnoc(stack: seq<string>, part: string)
    ensures Joined(stack + [part]) == Joined(stack) + part + "/"
  {
    assert (stack + [part])[..|stack|] == stack;
  }

  /** The components kept so far and the one being copied. */
  datatype Progress = Progress(stack: seq<string>, part: string)

  function Next(p: Progress, c: char): Progress {
    if c == '/' then Progress(Push(p.stack, p.part), "") else p.(part := p.part + [c])
  }

  /** The state of the loop after the first k characters. */
  function After(path: string, k: nat): Progress
    requires k <= |path|
  {
    if k == 0 then Progress([], "") else Next(After(path, k - 1), path[k - 1])
  }

  lemma AfterStep(path: string, k: nat, p: Progress, c: char) returns (q: Progress)
    requires k < |path| && p == After(path, k) && c == path[k]
    ensures q == Next(p, c) == After(path, k + 1) && Clean(p.stack)
  {
    q := Next(p, c);
    AfterIsClean(path, k);
  }

  lemma {:induction false} AfterIsClean(path: string, k: nat)
    requires k <= |path|
    ensures Clean(After(path, k).stack) && NoSlash(After(path, k).part)
    decreases k
  {
    if k > 0 { AfterIsClean(path, k - 1); }
  }

  /** What p, followed by the rest of the path, amounts to. */
  function Meaning(p: Progress, rest: string): string {
    Joined(Fold(p.stack, Parts(p.part + rest))) + Tail(p.part + rest)
  }

  lemma NextKeepsMeaning(p: Progress, c: char, rest: string)
    requires NoSlash(p.part)
    ensures Meaning(Next(p, c), rest) == Meaning(p, [c] + rest)
  {
    if c == '/' {
      SplitAtSlash(p.part, rest);
      assert p.part + ([c] + rest) == p.part + "/" + rest && "" + rest == rest;
      FoldCons(p.stack, p.part, Parts(rest));
    } else {
      assert p.part + ([c] + rest) == p.part + [c] + rest;
    }
  }

  /** What is kept, what is being copied and what is still to be read amount to the whole path. */
  lemma {:induction false} AfterKeepsMeaning(path: string, k: nat)
    requires k <= |path|
    ensures Meaning(After(path, k), path[k..]) == CollapseRelative(path)
    decreases k
  {
    if k == 0 {
      assert "" + path[0..] == path;
    } else {
      AfterKeepsMeaning(path, k - 1);
      AfterIsClean(path, k - 1);
      assert path[k - 1..] == [path[k - 1]] + path[k..];
      NextKeepsMeaning(After(path, k - 1), path[k - 1], path[k..]);
    }
  }

  lemma AfterAllIsCollapsed(path: string, p: Progress)
    requires p == After(path, |path|)
    ensures Joined(p.stack) + p.part == CollapseRelative(path)
  {
    AfterIsClean(path, |path|);
    AfterKeepsMeaning(path, |path|);
    assert p.part + path[|path|..] == p.part;
    SplitTail(p.part);
  }

  /** Walks left from a '/' to just after the one before it, or to the start. */
  method StepBack(buf: array<char>, from: nat, at: nat) returns (w: nat)
    requires from < at <= buf.Length
    ensures from <= w < at && (w == from || buf[w - 1] == '/') && forall k :: w <= k < at - 1 ==> buf[k] != '/'
  {
    w := at - 1;
    while w > from
      invariant from <= w <= at - 1 && forall k :: w <= k < at - 1 ==> buf[k] != '/'
    {
      if buf[w - 1] == '/' {
        break;
      }
      w := w - 1;
    }
  }

  /** That is where the last component begins. */
  lemma StepBackFinds(out: string, stack: seq<string>, i: nat)
    requires stack != [] && Clean(stack) && out == Joined(stack) && i < |out|
    requires (i == 0 || out[i - 1] == '/') && forall k :: i <= k < |out| - 1 ==> out[k] != '/'
    ensures out[..i] == Joined(stack[..|stack| - 1])
  {
    var under, last := Joined(stack[..|stack| - 1]), stack[|stack| - 1];
    PartsOf(under, last, out);
    LastIsSlash(stack[..|stack| - 1]);
    assert forall k :: |under| <= k < |out| - 1 ==> out[k] == last[k - |under|];
    assert |under| > 0 ==> out[|under| - 1] == '/';
    assert i == |under|;
  }

  lemma PartsOf(under: string, last: string, out: string)
    requires out == under + last + "/"
    ensures out[..|under|] == under && |out| == |under| + |last| + 1
    ensures forall k :: 0 <= k < |under| ==> out[k] == under[k]
    ensures forall k :: 0 <= k < |last| ==> out[|under| + k] == last[k]
  {
  }

  lemma LastIsSlash(stack: seq<string>)
    ensures Joined(stack) != "" ==> Joined(stack)[|Joined(stack)| - 1] == '/'
  {
  }

  /** Takes back the component before a "..", unless there is none. */
  method DropLast(buf: array<char>, from: nat, currpath: nat, ghost stack: seq<string>) returns (w: nat)
    requires from <= currpath <= buf.Length && Clean(stack) && buf[from..currpath] == Joined(stack)
    ensures from <= w <= currpath && buf[from..w] == Joined(Push(stack, ".."))
  {
    if currpath == from {
      EmptyStack(stack);
      w := from;
    } else {
      w := StepBack(buf, from, currpath);
      ghost var out := buf[from..currpath];
      assert forall k :: 0 <= k < |out| ==> out[k] == buf[from + k];
      StepBackFinds(out, stack, w - from);
      assert buf[from..w] == out[..w - from];
    }
  }

  /** Decides about the component that has just been terminated and moves the write position accordingly. */
  method AtSeparator(buf: array<char>, from: nat, currpath: nat, w: nat, ghost stack: seq<string>, ghost part: string)
    returns (w': nat)
    requires from <= currpath < w <= buf.Length && Clean(stack)
    requires buf[from..currpath] == Joined(stack) && buf[currpath..w] == part + "/"
    ensures from <= w' <= w && buf[from..w'] == Joined(Push(stack, part))
  {
    var len := w - currpath - 1;
    ghost var b := buf[currpath..w];
    Classify(b, part);
    assert b[0] == buf[currpath] && (len == 2 ==> b[1] == buf[currpath + 1]);
    if len == 0 || (len == 1 && buf[currpath] == '.') {
      w' := currpath;
    } else if len == 2 && buf[currpath] == '.' && buf[currpath + 1] == '.' {
      w' := DropLast(buf, from, currpath, stack);
    } else {
      PushSnoc(stack, part);
      SliceUp(buf, from, currpath, w);
      assert Joined(stack) + (part + "/") == Joined(stack) + part + "/";
      w' := w;
    }
  }

  lemma SliceUp(buf: array<char>, a: nat, b: nat, c: nat)
    requires a <= b <= c <= buf.Length
    ensures buf[a..c] == buf[a..b] + buf[b..c]
  {
  }

  /** The kind of a component, from its characters. */
  lemma Classify(b: string, part: string)
    requires b == part + "/"
    ensures |part| == |b| - 1 && (part == "" <==> |b| == 1)
    ensures part == "." <==> |b| == 2 && b[0] == '.'
    ensures part == ".." <==> |b| == 3 && b[0] == '.' && b[1] == '.'
  {
    assert forall k :: 0 <= k < |part| ==> b[k] == part[k];
    assert |b| == 2 ==> part == [b[0]];
    assert |b| == 3 ==> part == [b[0], b[1]];
  }

  lemma EmptyStack(stack: seq<string>)
    requires Joined(stack) == ""
    ensures stack == []
  {
  }

  /** The buffer holds the state of the loop. */
  ghost predicate Written(buf: array<char>, from: nat, currpath: nat, w: nat, p: Progress)
    reads buf
  {
    from <= currpath <= w <= buf.Length && buf[from..currpath] == Joined(p.stack) && buf[currpath..w] == p.part
  }

  /** One round: copies a character and, at a separator, settles the component before it. */
  method CopyChar(buf: array<char>, from: nat, currpath: nat, w: nat, c: char, ghost p: Progress)
    returns (currpath': nat, w': nat)
    requires Written(buf, from, currpath, w, p) && Clean(p.stack) && w < buf.Length
    modifies buf
    ensures Written(buf, from, currpath', w', Next(p, c)) && w' <= w + 1
    ensures forall k :: 0 <= k < buf.Length && k != w ==> buf[k] == old(buf[k])
  {
    buf[w] := c;
    currpath', w' := currpath, w + 1;
    assert buf[from..currpath] == Joined(p.stack) && buf[currpath..w'] == p.part + [c];
    if c == '/' {
      w' := AtSeparator(buf, from, currpath, w', p.stack, p.part);
      currpath' := w';
    }
  }

  /** The loop over the relative part of a NUL-terminated path; writing never passes reading. */
  method CollapseFrom(buf: array<char>, from: nat, ghost n: nat) returns (w: nat)
    requires from <= n < buf.Length && buf[n] == '\0' && forall k :: 0 <= k < n ==> buf[k] != '\0'
    modifies buf
    ensures from <= w <= n && buf[from..w] == CollapseRelative(old(buf[from..n]))
    ensures forall k :: 0 <= k < from ==> buf[k] == old(buf[k])
  {
    ghost var path := buf[from..n];
    var currpath, r := from, from;
    w := from;
    ghost var p := Progress([], "");
    while buf[r] != '\0'
      invariant w <= r <= n && p == After(path, r - from) && Written(buf, from, currpath, w, p)
      invariant forall k :: (r <= k <= n || 0 <= k < from) ==> buf[k] == old(buf[k])
      decreases n - r
    {
      ghost var was := p;
      p := AfterStep(path, r - from, was, buf[r]);
      currpath, w := CopyChar(buf, from, currpath, w, buf[r], was);
      r := r + 1;
    }
    AfterAllIsCollapsed(path, p);
    WrittenJoins(buf, from, currpath, w, p);
  }

  lemma WrittenJoins(buf: array<char>, from: nat, currpath: nat, w: nat, p: Progress)
    requires Written(buf, from, currpath, w, p)
    ensures buf[from..w] == Joined(p.stack) + p.part
  {
    SliceUp(buf, from, currpath, w);
  }

  /** Collapses a NUL-terminated path in place. */
  method CollapseInPlace(buf: array<char>, ghost n: nat)
    requires n < buf.Length && buf[n] == '\0' && forall k :: 0 <= k < n ==> buf[k] != '\0'
    modifies buf
    ensures |Collapse(old(buf[..n]))| <= n
    ensures buf[..|Collapse(old(buf[..n]))|] == Collapse(old(buf[..n]))
    ensures buf[|Collapse(old(buf[..n]))|] == '\0'
  {
    ghost var s := buf[..n];
    var from := if buf[0] == '/' then 1 else 0;
    assert buf[from..n] == s[from..];
    var w := CollapseFrom(buf, from, n);
    CollapseFromParts(s, from, buf[..from], buf[from..w]);
    ghost var out := buf[..w];
    assert out == buf[..from] + buf[from..w];
    buf[w] := '\0';
    assert buf[..w] == out;
  }

  lemma CollapseFromParts(s: string, from: nat, root: string, rest: string)
    requires from <= |s| && from == (if Absolute(s) then 1 else 0) && root == s[..from]
    requires rest == CollapseRelative(s[from..])
    ensures Collapse(s) == root + rest
  {
    if from == 0 {
      assert s[0..] == s && root + rest == rest;
    } else {
      assert root == "/";
    }
  }
}
