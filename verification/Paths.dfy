/** The lexical path normaliser: what a normalised path looks like, and that it leads where the path led. */
module Paths {

  // ----- segments

  /** The length of the text before the first slash. */
  function Run(s: string): (n: nat)
    ensures n <= |s| && (n < |s| ==> s[n] == '/')
    ensures forall i :: 0 <= i < n ==> s[i] != '/'
  {
    if s == "" || s[0] == '/' then 0 else 1 + Run(s[1..])
  }

  /** What slashes separate, without the empty parts. */
  function Segments(s: string): seq<string>
    decreases |s|
  {
    if s == "" then []
    else if s[0] == '/' then Segments(s[1..])
    else [s[..Run(s)]] + Segments(s[Run(s)..])
  }

  predicate IsAbsolute(s: string) {
    s != "" && s[0] == '/'
  }

  predicate IsName(s: string) {
    s != "" && '/' !in s
  }

  predicate AllNames(segs: seq<string>) {
    forall i :: 0 <= i < |segs| ==> IsName(segs[i])
  }

  // ----- the normal form

  function Push(absolute: bool, stack: seq<string>, seg: string): seq<string> {
    if seg == "." then stack
    else if seg == ".." then
      if stack != [] && stack[|stack| - 1] != ".." then stack[..|stack| - 1]
      else if !absolute then stack + [seg]
      else stack
    else stack + [seg]
  }

  function Fold(absolute: bool, stack: seq<string>, segs: seq<string>): seq<string>
    decreases |segs|
  {
    if segs == [] then stack else Fold(absolute, Push(absolute, stack, segs[0]), segs[1..])
  }

  function Join(segs: seq<string>): string {
    if segs == [] then "" else if |segs| == 1 then segs[0] else segs[0] + "/" + Join(segs[1..])
  }

  function Render(absolute: bool, stack: seq<string>): string {
    if absolute then "/" + Join(stack) else if stack == [] then "." else Join(stack)
  }

  function Normal(path: string): string {
    Render(IsAbsolute(path), Fold(IsAbsolute(path), [], Segments(path)))
  }

  /** Only names, no "."; ".." only in a run at the start, and nowhere in an absolute path. */
  predicate Clean(absolute: bool, stack: seq<string>) {
    && AllNames(stack)
    && (forall i :: 0 <= i < |stack| ==> stack[i] != ".")
    && (forall i :: 0 <= i < |stack| && stack[i] == ".." ==> !absolute)
    && (forall i :: 0 < i < |stack| && stack[i] == ".." ==> stack[i - 1] == "..")
  }

  lemma {:induction false} SegmentsAreNames(s: string)
    ensures AllNames(Segments(s))
    decreases |s|
  {
    if s != "" {
      if s[0] == '/' {
        SegmentsAreNames(s[1..]);
      } else {
        SegmentsAreNames(s[Run(s)..]);
      }
    }
  }

  lemma PushClean(absolute: bool, stack: seq<string>, seg: string)
    requires Clean(absolute, stack) && IsName(seg)
    ensures Clean(absolute, Push(absolute, stack, seg))
  {
  }

  lemma {:induction false} FoldClean(absolute: bool, stack: seq<string>, segs: seq<string>)
    requires Clean(absolute, stack) && AllNames(segs)
    ensures Clean(absolute, Fold(absolute, stack, segs))
    decreases |segs|
  {
    hide Clean, Push;
    if segs != [] {
      PushClean(absolute, stack, segs[0]);
      FoldClean(absolute, Push(absolute, stack, segs[0]), segs[1..]);
    }
  }

  lemma RunOf(name: string, rest: string)
    requires IsName(name) && (rest == "" || rest[0] == '/')
    ensures Run(name + rest) == |name|
  {
    var s := name + rest;
    assert forall i :: 0 <= i < |name| ==> s[i] == name[i] != '/';
    assert rest != "" ==> s[|name|] == '/';
  }

  lemma {:induction false} SegmentsOfJoin(segs: seq<string>)
    requires AllNames(segs)
    ensures Segments(Join(segs)) == segs
  {
    hide Run;
    if |segs| == 1 {
      RunOf(segs[0], "");
      assert segs[0] + "" == segs[0];
      assert segs[0][..|segs[0]|] == segs[0];
      assert segs[0][0] != '/';
      assert Segments(segs[0]) == [segs[0]] + Segments("");
    } else if |segs| > 1 {
      var rest := "/" + Join(segs[1..]);
      var s := segs[0] + rest;
      assert Join(segs) == s;
      RunOf(segs[0], rest);
      assert s[0] == segs[0][0] != '/';
      assert s[..|segs[0]|] == segs[0] && s[|segs[0]|..] == rest;
      assert rest[1..] == Join(segs[1..]);
      SegmentsOfJoin(segs[1..]);
      assert segs == [segs[0]] + segs[1..];
    }
  }

  /** A clean stack is what its own segments fold to. */
  lemma {:induction false} CleanFolds(absolute: bool, stack: seq<string>, n: nat)
    requires Clean(absolute, stack) && n <= |stack|
    ensures Fold(absolute, stack[..n], stack[n..]) == stack
    decreases |stack| - n
  {
    if n < |stack| {
      assert Push(absolute, stack[..n], stack[n]) == stack[..n + 1];
      CleanFolds(absolute, stack, n + 1);
      assert stack[n..][0] == stack[n] && stack[n..][1..] == stack[n + 1..];
    } else {
      assert stack[..n] == stack && stack[n..] == [];
    }
  }

  /** The segments of a normalised path: the stack itself, or a lone "." for an empty relative one. */
  lemma RenderSegments(absolute: bool, stack: seq<string>)
    requires Clean(absolute, stack)
    ensures Segments(Render(absolute, stack)) == if !absolute && stack == [] then ["."] else stack
    ensures IsAbsolute(Render(absolute, stack)) <==> absolute
  {
    hide Clean;
    CleanNames(absolute, stack);
    if absolute {
      SegmentsOfJoin(stack);
      assert ("/" + Join(stack))[1..] == Join(stack);
    } else if stack == [] {
      SegmentsOfJoin(["."]);
    } else {
      SegmentsOfJoin(stack);
      assert IsName(stack[0]);
      assert Join(stack)[0] == stack[0][0];
    }
  }

  lemma CleanNames(absolute: bool, stack: seq<string>)
    requires Clean(absolute, stack)
    ensures AllNames(stack)
  {
  }

  /** Every normalised path is clean, and normalising it again changes nothing. */
  lemma Idempotent(path: string)
    ensures Clean(IsAbsolute(path), Fold(IsAbsolute(path), [], Segments(path)))
    ensures IsAbsolute(Normal(path)) == IsAbsolute(path)
    ensures Segments(Normal(path)) == ["."] || Clean(IsAbsolute(path), Segments(Normal(path)))
    ensures Normal(Normal(path)) == Normal(path)
  {
    hide Clean, Segments, Join;
    var absolute := IsAbsolute(path);
    SegmentsAreNames(path);
    EmptyClean(absolute);
    FoldClean(absolute, [], Segments(path));
    var stack := Fold(absolute, [], Segments(path));
    RenderSegments(absolute, stack);
    CleanFolds(absolute, stack, 0);
    assert stack[..0] == [] && stack[0..] == stack;
  }

  lemma EmptyClean(absolute: bool)
    ensures Clean(absolute, [])
  {
  }

  // ----- where a path leads

  /** One step of a walk from a directory, given by its names from the root; the root is its own parent. */
  function Go(dir: seq<string>, seg: string): seq<string> {
    if seg == "." then dir
    else if seg == ".." then if dir == [] then [] else dir[..|dir| - 1]
    else dir + [seg]
  }

  function Walk(dir: seq<string>, segs: seq<string>): seq<string> {
    if segs == [] then dir else Go(Walk(dir, segs[..|segs| - 1]), segs[|segs| - 1])
  }

  /** The directory or file that a path names, for a process in directory `dir`. */
  function Target(dir: seq<string>, path: string): seq<string> {
    Walk(if IsAbsolute(path) then [] else dir, Segments(path))
  }

  lemma WalkSnoc(dir: seq<string>, segs: seq<string>, seg: string)
    ensures Walk(dir, segs + [seg]) == Go(Walk(dir, segs), seg)
  {
    assert (segs + [seg])[..|segs|] == segs;
  }

  lemma PushWalks(absolute: bool, dir: seq<string>, stack: seq<string>, seg: string)
    requires Clean(absolute, stack) && (absolute ==> dir == [])
    ensures Walk(dir, Push(absolute, stack, seg)) == Go(Walk(dir, stack), seg)
  {
    if seg == ".." && stack != [] && stack[|stack| - 1] != ".." {
      var init, top := stack[..|stack| - 1], stack[|stack| - 1];
      assert Walk(dir, stack) == Walk(dir, init) + [top];
    } else if seg != "." && (seg != ".." || !absolute) {
      WalkSnoc(dir, stack, seg);
    } else if seg == ".." {
      assert stack == [];
    }
  }

  lemma {:induction false} FoldWalks(absolute: bool, dir: seq<string>, stack: seq<string>, segs: seq<string>)
    requires Clean(absolute, stack) && AllNames(segs) && (absolute ==> dir == [])
    ensures Walk(dir, Fold(absolute, stack, segs)) == Walk(Walk(dir, stack), segs)
    decreases |segs|
  {
    hide Clean, Push, Go;
    if segs != [] {
      var next := Push(absolute, stack, segs[0]);
      PushClean(absolute, stack, segs[0]);
      PushWalks(absolute, dir, stack, segs[0]);
      FoldWalks(absolute, dir, next, segs[1..]);
      WalkCons(Walk(dir, stack), segs);
    }
  }

  lemma {:induction false} WalkCons(dir: seq<string>, segs: seq<string>)
    requires segs != []
    ensures Walk(dir, segs) == Walk(Go(dir, segs[0]), segs[1..])
  {
    hide Go;
    if |segs| == 1 {
      assert segs[..0] == [] && segs[1..] == [];
      assert Walk(dir, segs) == Go(Walk(dir, []), segs[0]);
    } else {
      WalkCons(dir, segs[..|segs| - 1]);
      assert segs[..|segs| - 1][1..] == segs[1..][..|segs| - 2];
    }
  }

  /** From every directory, the normalised path leads where the path led. */
  lemma SameTarget(dir: seq<string>, path: string)
    ensures Target(dir, Normal(path)) == Target(dir, path)
  {
    hide Clean, Segments, Join, Go, Fold;
    var absolute := IsAbsolute(path);
    var from := if absolute then [] else dir;
    var stack := Fold(absolute, [], Segments(path));
    SegmentsAreNames(path);
    EmptyClean(absolute);
    FoldWalks(absolute, from, [], Segments(path));
    Idempotent(path);
    RenderSegments(absolute, stack);
    if !absolute && stack == [] {
      Stay(from);
    }
  }

  lemma Stay(dir: seq<string>)
    ensures Walk(dir, ["."]) == dir && Walk(dir, []) == dir
  {
    assert ["."][..0] == [];
  }

  // ----- the normal form is canonical

  /** How many steps up a clean relative path starts with. */
  function Ups(stack: seq<string>): (n: nat)
    ensures n <= |stack| && (forall i :: 0 <= i < n ==> stack[i] == "..") && (n < |stack| ==> stack[n] != "..")
  {
    if stack != [] && stack[0] == ".." then 1 + Ups(stack[1..]) else 0
  }

  predicate Downward(segs: seq<string>) {
    forall i :: 0 <= i < |segs| ==> segs[i] != "." && segs[i] != ".."
  }

  lemma {:induction false} CleanParts(stack: seq<string>, i: nat)
    requires Clean(false, stack) && Ups(stack) <= i <= |stack|
    ensures Downward(stack[Ups(stack)..i])
    decreases i
  {
    hide Ups;
    if i > Ups(stack) {
      CleanParts(stack, i - 1);
      assert stack[Ups(stack)..i] == stack[Ups(stack)..i - 1] + [stack[i - 1]];
      assert i - 1 > Ups(stack) ==> stack[i - 2] == stack[Ups(stack)..i - 1][i - 2 - Ups(stack)];
    }
  }

  lemma {:induction false} WalkUp(dir: seq<string>, segs: seq<string>)
    requires |segs| <= |dir| && forall i :: 0 <= i < |segs| ==> segs[i] == ".."
    ensures Walk(dir, segs) == dir[..|dir| - |segs|]
  {
    if segs != [] {
      WalkUp(dir, segs[..|segs| - 1]);
    }
  }

  lemma {:induction false} WalkDown(dir: seq<string>, segs: seq<string>)
    requires Downward(segs)
    ensures Walk(dir, segs) == dir + segs
  {
    if segs != [] {
      WalkDown(dir, segs[..|segs| - 1]);
      assert segs == segs[..|segs| - 1] + [segs[|segs| - 1]];
    }
  }

  lemma {:induction false} WalkBoth(dir: seq<string>, a: seq<string>, b: seq<string>)
    ensures Walk(dir, a + b) == Walk(Walk(dir, a), b)
  {
    hide Go;
    if b == [] {
      assert a + b == a;
    } else {
      WalkBoth(dir, a, b[..|b| - 1]);
      assert (a + b)[..|a + b| - 1] == a + b[..|b| - 1];
    }
  }

  /** A clean path walks up and then down. */
  lemma CleanWalk(dir: seq<string>, stack: seq<string>)
    requires Clean(false, stack) && Ups(stack) <= |dir|
    ensures Walk(dir, stack) == dir[..|dir| - Ups(stack)] + stack[Ups(stack)..]
  {
    hide Walk, Clean, Ups;
    var u := Ups(stack);
    assert stack == stack[..u] + stack[u..];
    WalkBoth(dir, stack[..u], stack[u..]);
    WalkUp(dir, stack[..u]);
    CleanParts(stack, |stack|);
    assert stack[u..|stack|] == stack[u..];
    WalkDown(dir[..|dir| - u], stack[u..]);
  }

  /** `n` nested directories of one name. */
  function Deep(name: string, n: nat): (dir: seq<string>)
    ensures |dir| == n && forall i :: 0 <= i < n ==> dir[i] == name
  {
    if n == 0 then [] else Deep(name, n - 1) + [name]
  }

  /** Where a run of one name ends shows, when what follows does not hold that name. */
  lemma RunsAgree(name: string, a: seq<string>, b: seq<string>, c: seq<string>, d: seq<string>)
    requires a + b == c + d && |a| >= |c|
    requires (forall i :: 0 <= i < |a| ==> a[i] == name) && name !in d
    ensures |a| == |c| && b == d
  {
    if |a| > |c| {
      LongerRun(name, a, b, c, d);
    } else {
      assert b == (a + b)[|a|..] && d == (c + d)[|c|..];
    }
  }

  lemma LongerRun(name: string, a: seq<string>, b: seq<string>, c: seq<string>, d: seq<string>)
    requires a + b == c + d && |a| > |c| && forall i :: 0 <= i < |a| ==> a[i] == name
    ensures name in d
  {
    assert |a + b| == |c + d|;
    assert d[0] == (c + d)[|c|] == a[|c|];
  }

  lemma CleanDetermined(s: seq<string>, t: seq<string>, name: string)
    requires Clean(false, s) && Clean(false, t) && name !in t
    requires Ups(s) <= Ups(t) && Walk(Deep(name, |s| + |t|), s) == Walk(Deep(name, |s| + |t|), t)
    ensures s == t
  {
    hide Walk, Clean, Ups, Deep;
    var dir, u, v := Deep(name, |s| + |t|), Ups(s), Ups(t);
    CleanWalk(dir, s);
    CleanWalk(dir, t);
    RunsAgree(name, dir[..|dir| - u], s[u..], dir[..|dir| - v], t[v..]);
    SameParts(s, t, u);
  }

  lemma SameParts(s: seq<string>, t: seq<string>, u: nat)
    requires u <= |s| && u <= |t| && s[u..] == t[u..] && forall i :: 0 <= i < u ==> s[i] == t[i]
    ensures s == t
  {
    assert s == s[..u] + s[u..] && t == t[..u] + t[u..];
  }

  /** A name longer than all of these. */
  function Fresh(segs: seq<string>): (name: string)
    ensures IsName(name) && forall i :: 0 <= i < |segs| ==> |segs[i]| < |name|
  {
    if segs == [] then "x"
    else
      var rest := Fresh(segs[1..]);
      assert forall i :: 0 < i < |segs| ==> segs[i] == segs[1..][i - 1];
      if |segs[0]| < |rest| then rest else rest + Xs(|segs[0]|)
  }

  function Xs(n: nat): (s: string)
    ensures |s| == n && '/' !in s
  {
    if n == 0 then "" else Xs(n - 1) + "x"
  }

  /** The path's walk is its stack's. */
  lemma TargetOfStack(dir: seq<string>, p: string)
    requires !IsAbsolute(p)
    ensures var stack := Fold(false, [], Segments(p)); Clean(false, stack) && Target(dir, p) == Walk(dir, stack)
  {
    hide Clean, Segments, Go, Fold, Normal;
    Idempotent(p);
    SegmentsAreNames(p);
    EmptyClean(false);
    FoldWalks(false, dir, [], Segments(p));
  }

  lemma TellsApart(p: string, q: string) returns (dir: seq<string>)
    requires !IsAbsolute(p) && !IsAbsolute(q) && Normal(p) != Normal(q)
    ensures AllNames(dir) && Target(dir, p) != Target(dir, q)
  {
    hide Clean, Segments, Go, Fold, Target, Walk, Ups;
    var s, t := Fold(false, [], Segments(p)), Fold(false, [], Segments(q));
    var name := Fresh(s + t);
    assert forall i :: 0 <= i < |s| ==> s[i] == (s + t)[i];
    assert forall i :: 0 <= i < |t| ==> t[i] == (s + t)[|s| + i];
    dir := Deep(name, |s| + |t|);
    TargetOfStack(dir, p);
    TargetOfStack(dir, q);
    if Target(dir, p) == Target(dir, q) {
      if Ups(s) <= Ups(t) {
        CleanDetermined(s, t, name);
      } else {
        CleanDetermined(t, s, name);
      }
    }
  }

  /** An absolute path leads to its stack, from everywhere. */
  lemma AbsoluteTarget(dir: seq<string>, p: string)
    requires IsAbsolute(p)
    ensures Target(dir, p) == Fold(true, [], Segments(p))
  {
    hide Segments, Go, Fold, Normal;
    Idempotent(p);
    SegmentsAreNames(p);
    EmptyClean(true);
    FoldWalks(true, [], [], Segments(p));
    WalkDown([], Fold(true, [], Segments(p)));
  }

  /** The normal form is canonical: two paths have the same one just if they lead to the same place from every directory. */
  lemma Canonical(p: string, q: string)
    requires IsAbsolute(p) == IsAbsolute(q)
    ensures Normal(p) == Normal(q) <==> forall dir: seq<string> :: AllNames(dir) ==> Target(dir, p) == Target(dir, q)
  {
    hide Normal, Target;
    if Normal(p) == Normal(q) {
      forall dir: seq<string>
        ensures Target(dir, p) == Target(dir, q)
      {
        SameTarget(dir, p);
        SameTarget(dir, q);
      }
    } else if IsAbsolute(p) {
      AbsoluteTarget([], p);
      AbsoluteTarget([], q);
      StackDecides(p, q);
      assert AllNames([]);
    } else {
      var dir := TellsApart(p, q);
    }
  }

  lemma StackDecides(p: string, q: string)
    requires IsAbsolute(p) && IsAbsolute(q) && Normal(p) != Normal(q)
    ensures Fold(true, [], Segments(p)) != Fold(true, [], Segments(q))
  {
  }

  // ----- the code

  lemma JoinSnoc(segs: seq<string>, seg: string)
    ensures Join(segs + [seg]) == if segs == [] then seg else Join(segs) + "/" + seg
  {
    if segs != [] {
      assert (segs + [seg])[1..] == segs[1..] + [seg];
      if |segs| > 1 {
        JoinSnoc(segs[1..], seg);
        assert segs[0] + "/" + (Join(segs[1..]) + "/" + seg) == segs[0] + "/" + Join(segs[1..]) + "/" + seg;
      } else {
        assert segs[1..] == [];
      }
    }
  }

  /** One round of the scan, from an offset that is not a slash. */
  lemma NextSegment(path: string, start: nat, end: nat)
    requires start < end <= |path| && (end < |path| ==> path[end] == '/')
    requires forall i :: start <= i < end ==> path[i] != '/'
    ensures Segments(path[start..]) == [path[start..end]] + Segments(path[end..])
  {
    var s := path[start..];
    RunOf(path[start..end], path[end..]);
    assert s == path[start..end] + path[end..];
    assert s[..end - start] == path[start..end] && s[end - start..] == path[end..];
  }

  lemma SkipSlash(path: string, i: nat)
    requires i < |path| && path[i] == '/'
    ensures Segments(path[i..]) == Segments(path[i + 1..])
  {
    assert path[i..][1..] == path[i + 1..];
  }

  lemma FoldNext(absolute: bool, stack: seq<string>, seg: string, rest: seq<string>)
    ensures Fold(absolute, stack, [seg] + rest) == Fold(absolute, Push(absolute, stack, seg), rest)
  {
    assert ([seg] + rest)[1..] == rest;
  }

  /** The scan: segments are pushed and popped as they are met. */
  method Scan(path: string) returns (segments: seq<string>)
    ensures segments == Fold(IsAbsolute(path), [], Segments(path))
  {
    hide Segments, Fold;
    var absolute := path != "" && path[0] == '/';
    segments := [];
    var cursor := 0;
    assert path[0..] == path;
    while cursor < |path|
      invariant cursor <= |path|
      invariant Fold(absolute, segments, Segments(path[cursor..])) == Fold(absolute, [], Segments(path))
    {
      while cursor < |path| && path[cursor] == '/'
        invariant cursor <= |path|
        invariant Fold(absolute, segments, Segments(path[cursor..])) == Fold(absolute, [], Segments(path))
      {
        SkipSlash(path, cursor);
        cursor := cursor + 1;
      }
      if cursor == |path| {
        break;
      }
      var start := cursor;
      while cursor < |path| && path[cursor] != '/'
        invariant start <= cursor <= |path| && forall i :: start <= i < cursor ==> path[i] != '/'
        invariant cursor == start ==> path[cursor] != '/'
      {
        cursor := cursor + 1;
      }
      NextSegment(path, start, cursor);
      var seg := path[start..cursor];
      FoldNext(absolute, segments, seg, Segments(path[cursor..]));
      if cursor < |path| {
        SkipSlash(path, cursor);
        cursor := cursor + 1;
      }
      if seg == "." {
        continue;
      }
      if seg == ".." {
        if |segments| > 0 && segments[|segments| - 1] != ".." {
          segments := segments[..|segments| - 1];
        } else if !absolute {
          segments := segments + [seg];
        }
        continue;
      }
      segments := segments + [seg];
    }
    Ended(absolute, segments, path[cursor..]);
  }

  lemma Ended(absolute: bool, stack: seq<string>, rest: string)
    ensures rest == "" ==> Fold(absolute, stack, Segments(rest)) == stack
  {
  }

  /** Text is appended to the buffer; the end of the text so far moves on. */
  method Append(buffer: array<char>, at: nat, text: string) returns (end: nat)
    requires at + |text| <= buffer.Length
    modifies buffer
    ensures end == at + |text| && buffer[..end] == old(buffer[..at]) + text
  {
    forall i | 0 <= i < |text| {
      buffer[at + i] := text[i];
    }
    end := at + |text|;
  }

  lemma JoinNone()
    ensures Join([]) == ""
  {
  }

  lemma JoinSome(segs: seq<string>)
    requires AllNames(segs) && segs != []
    ensures Join(segs) != ""
  {
    assert IsName(segs[0]);
  }

  method Measure(absolute: bool, segments: seq<string>) returns (length: nat)
    requires AllNames(segments)
    ensures length == |Render(absolute, segments)|
  {
    hide Join;
    length := if absolute then 1 else 0;
    JoinNone();
    for i := 0 to |segments|
      invariant length == (if absolute then 1 else 0) + |Join(segments[..i])|
    {
      JoinSnoc(segments[..i], segments[i]);
      assert segments[..i + 1] == segments[..i] + [segments[i]];
      length := length + |segments[i]| + if i > 0 then 1 else 0;
    }
    assert segments[..|segments|] == segments;
    if segments != [] {
      JoinSome(segments);
    }
    if length == 0 {
      length := 1;
    }
  }

  method WriteJoined(buffer: array<char>, at: nat, segments: seq<string>) returns (end: nat)
    requires at + |Join(segments)| <= buffer.Length
    modifies buffer
    ensures end == at + |Join(segments)| && buffer[..end] == old(buffer[..at]) + Join(segments)
  {
    hide Join;
    ghost var head := buffer[..at];
    end := at;
    JoinNone();
    for i := 0 to |segments|
      invariant end == at + |Join(segments[..i])| <= buffer.Length
      invariant buffer[..end] == head + Join(segments[..i])
    {
      JoinSnoc(segments[..i], segments[i]);
      assert segments[..i + 1] == segments[..i] + [segments[i]];
      JoinFits(segments, i + 1);
      if i > 0 {
        end := Append(buffer, end, "/");
      }
      end := Append(buffer, end, segments[i]);
    }
    assert segments[..|segments|] == segments;
  }

  /** The text is written into a buffer of exactly the measured length and its terminator. */
  method Normalize(path: string) returns (result: array<char>)
    ensures fresh(result) && result[..] == Normal(path) + [0 as char]
  {
    hide Join, Fold, Segments, Clean;
    var absolute := path != "" && path[0] == '/';
    var segments := Scan(path);
    Idempotent(path);
    CleanNames(absolute, segments);
    var length := Measure(absolute, segments);
    result := new char[length + 1](_ => 0 as char);
    var end: nat := 0;
    if absolute {
      end := Append(result, end, "/");
    }
    JoinNone();
    if !absolute && |segments| == 0 {
      end := Append(result, 0, ".");
    } else {
      end := WriteJoined(result, end, segments);
    }
    result[end] := 0 as char;
    assert result[..end] == Normal(path);
    assert result[..] == result[..end] + [0 as char];
  }

  lemma {:induction false} JoinFits(segs: seq<string>, n: nat)
    requires n <= |segs|
    ensures |Join(segs[..n])| <= |Join(segs)|
    decreases |segs| - n
  {
    hide Join;
    if n < |segs| {
      JoinSnoc(segs[..n], segs[n]);
      assert segs[..n + 1] == segs[..n] + [segs[n]];
      JoinNone();
      JoinFits(segs, n + 1);
    } else {
      assert segs[..n] == segs;
    }
  }
}
