/** Lexical path handling as Go's path/filepath package does it on Unix
    (Split, Clean, Join, Dir), path.Base, strings.HasPrefix, and the lexical
    resolution of a path string against a working directory that the
    filesystem model uses to find the node a string names. */
module Paths {

  const Sep: char := '/'

  /** strings.Split(s, "/"): the pieces between separators; never empty. */
  function Split(s: string): (parts: seq<string>)
    ensures |parts| >= 1
    ensures forall i :: 0 <= i < |parts| ==> Sep !in parts[i]
    decreases |s|
  {
    if s == [] then [""]
    else if s[0] == Sep then [""] + Split(s[1..])
    else
      var rest := Split(s[1..]);
      [[s[0]] + rest[0]] + rest[1..]
  }

  /** strings.Join(parts, "/"). */
  function Concat(parts: seq<string>): string
  {
    if |parts| == 0 then ""
    else if |parts| == 1 then parts[0]
    else parts[0] + [Sep] + Concat(parts[1..])
  }

  /** strings.HasPrefix(s, p). */
  predicate HasPrefix(s: string, p: string)
  {
    |p| <= |s| && s[..|p|] == p
  }

  /** A path element that names a directory entry: not empty, not "." or "..",
      and free of separators. */
  predicate IsName(seg: string)
  {
    seg != "" && seg != "." && seg != ".." && Sep !in seg
  }

  /** An absolute location in the filesystem: the names from the root down. */
  predicate IsKey(k: seq<string>)
  {
    forall i :: 0 <= i < |k| ==> IsName(k[i])
  }

  /** A path in lexical form: whether it starts at the root, and its elements. */
  datatype Path = Path(rooted: bool, segs: seq<string>)

  /** The form filepath.Clean produces: every element a name or "..", and
      ".." only in a leading run of a relative path. */
  predicate IsClean(p: Path)
  {
    && (forall i :: 0 <= i < |p.segs| ==> p.segs[i] == ".." || IsName(p.segs[i]))
    && (p.rooted ==> forall i :: 0 <= i < |p.segs| ==> p.segs[i] != "..")
    && (forall i, j :: 0 <= j < i < |p.segs| && p.segs[i] == ".." ==> p.segs[j] == "..")
  }

  predicate IsRooted(s: string)
  {
    |s| > 0 && s[0] == Sep
  }

  /** One element of filepath.Clean's scan: empty elements and "." vanish,
      ".." removes the preceding non-".." element, is dropped right after the
      root, and is kept at the front of a relative path. */
  function Push(rooted: bool, stack: seq<string>, seg: string): seq<string>
  {
    if seg == "" || seg == "." then stack
    else if seg == ".." then
      if |stack| > 0 && stack[|stack| - 1] != ".." then stack[..|stack| - 1]
      else if rooted then stack
      else stack + [".."]
    else stack + [seg]
  }

  /** Pushes the elements one by one, left to right. */
  function Reduce(rooted: bool, stack: seq<string>, parts: seq<string>): seq<string>
    decreases |parts|
  {
    if parts == [] then stack
    else Reduce(rooted, Push(rooted, stack, parts[0]), parts[1..])
  }

  /** The lexical structure of s, after cleaning. */
  function Parse(s: string): (p: Path)
    ensures p.rooted == IsRooted(s)
  {
    Path(IsRooted(s), Reduce(IsRooted(s), [], Split(s)))
  }

  /** The string form of a path; the empty relative path is ".". */
  function Render(p: Path): string
  {
    if p.rooted then [Sep] + Concat(p.segs)
    else if p.segs == [] then "."
    else Concat(p.segs)
  }

  /** filepath.Clean. */
  function Clean(s: string): string
  {
    Render(Parse(s))
  }

  /** filepath.Join(a, b): empty elements are ignored, the rest joined with a
      separator and cleaned; the join of two empty strings is empty. */
  function Join(a: string, b: string): string
  {
    if a == "" && b == "" then ""
    else if a == "" then Clean(b)
    else Clean(a + [Sep] + b)
  }

  /** The length of s up to and including its last separator (0 if none). */
  function AfterLastSep(s: string): (i: nat)
    ensures i <= |s|
    ensures i > 0 ==> s[i - 1] == Sep
    ensures forall j :: i <= j < |s| ==> s[j] != Sep
  {
    if s == [] then 0
    else if s[|s| - 1] == Sep then |s|
    else AfterLastSep(s[..|s| - 1])
  }

  /** filepath.Dir: everything up to the last separator, cleaned. */
  function Dir(s: string): string
  {
    Clean(s[..AfterLastSep(s)])
  }

  /** s without its trailing separators. */
  function TrimTrailingSeps(s: string): (r: string)
    ensures HasPrefix(s, r)
    ensures r == [] || r[|r| - 1] != Sep
    ensures forall j :: |r| <= j < |s| ==> s[j] == Sep
  {
    if s != [] && s[|s| - 1] == Sep then TrimTrailingSeps(s[..|s| - 1]) else s
  }

  /** path.Base: the last element, "." for the empty string and "/" for a
      string of separators only. */
  function Base(s: string): (r: string)
    ensures r != ""
    ensures r == [Sep] || Sep !in r
    ensures s == "" ==> r == "."
    ensures s != "" && Sep !in s ==> r == s
  {
    if s == "" then "."
    else
      var t := TrimTrailingSeps(s);
      var last := t[AfterLastSep(t)..];
      if last == "" then [Sep] else last
  }

  /** The last element of s, as strings.Split gives it: empty when s ends
      in a separator. */
  function LastElem(s: string): string
  {
    var parts := Split(s);
    parts[|parts| - 1]
  }

  /** The absolute location a path string names for a process whose working
      directory is cwd, resolved lexically (there are no symbolic links). */
  function Resolve(cwd: seq<string>, s: string): seq<string>
  {
    Reduce(true, if IsRooted(s) then [] else cwd, Split(s))
  }

  /** The absolute location of a lexical path. */
  function Locate(cwd: seq<string>, p: Path): seq<string>
  {
    Reduce(true, if p.rooted then [] else cwd, p.segs)
  }

  // ---------------------------------------------------------------------
  // Split and Concat

  lemma {:induction false} SplitNoSep(s: string)
    requires Sep !in s
    ensures Split(s) == [s]
    decreases |s|
  {
    if s != [] {
      SplitNoSep(s[1..]);
      assert [s[0]] + s[1..] == s;
    }
  }

  /** Splitting at a separator splits the two sides independently. */
  lemma {:induction false} SplitAppend(a: string, b: string)
    ensures Split(a + [Sep] + b) == Split(a) + Split(b)
    decreases |a|
  {
    var s := a + [Sep] + b;
    if a == [] {
      assert s[1..] == b;
    } else {
      assert s[0] == a[0];
      assert s[1..] == a[1..] + [Sep] + b;
      SplitAppend(a[1..], b);
    }
  }

  /** The last element of a split is what follows the last separator. */
  lemma LastElemAt(s: string)
    ensures LastElem(s) == s[AfterLastSep(s)..]
  {
    var a := AfterLastSep(s);
    if a == 0 {
      SplitNoSep(s);
    } else {
      assert s == s[..a - 1] + [Sep] + s[a..];
      SplitAppend(s[..a - 1], s[a..]);
      SplitNoSep(s[a..]);
    }
  }

  /** The last element of a clean path's rendering is its last element. */
  lemma LastElemRender(p: Path)
    requires IsClean(p) && p.segs != []
    ensures LastElem(Render(p)) == p.segs[|p.segs| - 1]
  {
    forall i | 0 <= i < |p.segs|
      ensures Sep !in p.segs[i]
    {
    }
    SplitConcat(p.segs);
    var c := Concat(p.segs);
    if p.rooted {
      assert Render(p) == [] + [Sep] + c;
      SplitAppend([], c);
      assert Split(Render(p)) == [""] + p.segs;
    } else {
      assert Render(p) == c;
    }
  }

  /** path.Base is the last element of the path once its trailing
      separators are dropped, and "/" exactly for a string of separators. */
  lemma BaseIsLastElement(s: string)
    ensures s != "" && TrimTrailingSeps(s) != "" ==> Base(s) == LastElem(TrimTrailingSeps(s))
    ensures Base(s) == [Sep] <==> s != "" && TrimTrailingSeps(s) == ""
  {
    var t := TrimTrailingSeps(s);
    LastElemAt(t);
    if t != "" {
      assert t[|t| - 1] != Sep;
      assert Base(s) == t[AfterLastSep(t)..];
      assert Base(s)[|Base(s)| - 1] == t[|t| - 1];
    }
  }

  /** Joining with separators and splitting again gives the elements back. */
  lemma {:induction false} SplitConcat(parts: seq<string>)
    requires |parts| >= 1
    requires forall i :: 0 <= i < |parts| ==> Sep !in parts[i]
    ensures Split(Concat(parts)) == parts
    decreases |parts|
  {
    if |parts| == 1 {
      SplitNoSep(parts[0]);
    } else {
      SplitConcat(parts[1..]);
      SplitNoSep(parts[0]);
      SplitAppend(parts[0], Concat(parts[1..]));
      assert parts == [parts[0]] + parts[1..];
    }
  }

  /** Splitting and joining again gives the string back. */
  lemma {:induction false} ConcatSplit(s: string)
    ensures Concat(Split(s)) == s
    decreases |s|
  {
    if s == [] {
    } else if s[0] == Sep {
      ConcatSplit(s[1..]);
      var r := Split(s[1..]);
      assert ([""] + r)[1..] == r;
      assert s == [Sep] + s[1..];
    } else {
      ConcatSplit(s[1..]);
      var r := Split(s[1..]);
      var parts := [[s[0]] + r[0]] + r[1..];
      if |r| == 1 {
        assert s == [s[0]] + s[1..];
      } else {
        assert parts[1..] == r[1..];
        assert Concat(r) == r[0] + [Sep] + Concat(r[1..]);
        assert s == [s[0]] + s[1..];
      }
    }
  }

  lemma ConcatSnoc(a: seq<string>, x: string)
    requires a != []
    ensures Concat(a + [x]) == Concat(a) + [Sep] + x
    decreases |a|
  {
    if |a| == 1 {
    } else {
      assert (a + [x])[1..] == a[1..] + [x];
      ConcatSnoc(a[1..], x);
    }
  }

  lemma ConcatNoLeadingSep(parts: seq<string>)
    requires parts != [] && parts[0] != "" && Sep !in parts[0]
    ensures Concat(parts) != [] && Concat(parts)[0] == parts[0][0]
  {
  }

  // ---------------------------------------------------------------------
  // Reduce

  lemma {:induction false} ReduceAppend(rooted: bool, stack: seq<string>, a: seq<string>, b: seq<string>)
    ensures Reduce(rooted, stack, a + b) == Reduce(rooted, Reduce(rooted, stack, a), b)
    decreases |a|
  {
    if a == [] {
      assert a + b == b;
    } else {
      assert (a + b)[0] == a[0] && (a + b)[1..] == a[1..] + b;
      ReduceAppend(rooted, Push(rooted, stack, a[0]), a[1..], b);
    }
  }

  lemma ReduceSnoc(rooted: bool, stack: seq<string>, a: seq<string>, x: string)
    ensures Reduce(rooted, stack, a + [x]) == Push(rooted, Reduce(rooted, stack, a), x)
  {
    ReduceAppend(rooted, stack, a, [x]);
  }

  /** Names are pushed as they are. */
  lemma {:induction false} ReduceNames(rooted: bool, stack: seq<string>, names: seq<string>)
    requires IsKey(names)
    ensures Reduce(rooted, stack, names) == stack + names
    decreases |names|
  {
    if names != [] {
      ReduceNames(rooted, stack + [names[0]], names[1..]);
      assert stack + [names[0]] + names[1..] == stack + names;
    }
  }

  /** Resolving from a location only ever yields locations. */
  lemma {:induction false} ReduceKey(stack: seq<string>, parts: seq<string>)
    requires IsKey(stack)
    requires forall i :: 0 <= i < |parts| ==> Sep !in parts[i]
    ensures IsKey(Reduce(true, stack, parts))
    decreases |parts|
  {
    if parts != [] {
      var next := Push(true, stack, parts[0]);
      assert forall i :: 0 <= i < |next| ==> next[i] == if i < |stack| then stack[i] else parts[0];
      ReduceKey(next, parts[1..]);
    }
  }

  lemma PushClean(rooted: bool, stack: seq<string>, seg: string)
    requires IsClean(Path(rooted, stack)) && Sep !in seg
    ensures IsClean(Path(rooted, Push(rooted, stack, seg)))
  {
    var r := Push(rooted, stack, seg);
    if seg == ".." && !(|stack| > 0 && stack[|stack| - 1] != "..") && !rooted {
      assert forall i :: 0 <= i < |stack| ==> stack[i] == "..";
    }
  }

  lemma {:induction false} ReduceClean(rooted: bool, stack: seq<string>, parts: seq<string>)
    requires IsClean(Path(rooted, stack))
    requires forall i :: 0 <= i < |parts| ==> Sep !in parts[i]
    ensures IsClean(Path(rooted, Reduce(rooted, stack, parts)))
    decreases |parts|
  {
    if parts != [] {
      PushClean(rooted, stack, parts[0]);
      ReduceClean(rooted, Push(rooted, stack, parts[0]), parts[1..]);
    }
  }

  /** What filepath.Clean returns is clean. */
  lemma ParseIsClean(s: string)
    ensures IsClean(Parse(s))
  {
    ReduceClean(IsRooted(s), [], Split(s));
  }

  /** A clean path is its own cleaning. */
  lemma {:induction false} ReduceCleanSegs(p: Path, i: nat)
    requires IsClean(p) && i <= |p.segs|
    ensures Reduce(p.rooted, p.segs[..i], p.segs[i..]) == p.segs
    decreases |p.segs| - i
  {
    if i < |p.segs| {
      var seg := p.segs[i];
      if seg == ".." {
        assert !p.rooted;
        assert i == 0 || p.segs[i - 1] == "..";
      }
      assert Push(p.rooted, p.segs[..i], seg) == p.segs[..i + 1];
      assert p.segs[i..][1..] == p.segs[i + 1..];
      ReduceCleanSegs(p, i + 1);
    } else {
      assert p.segs[..i] == p.segs;
    }
  }

  /** Parsing the rendering of a clean path gives that path back. */
  lemma ParseRender(p: Path)
    requires IsClean(p)
    ensures Parse(Render(p)) == p
  {
    var s := Render(p);
    ReduceCleanSegs(p, 0);
    assert p.segs[..0] == [] && p.segs[0..] == p.segs;
    if p.rooted {
      if p.segs == [] {
        assert s == [Sep];
        assert Split(s) == [""] + Split([]);
      } else {
        SplitConcat(p.segs);
        assert s[1..] == Concat(p.segs);
        assert Split(s) == [""] + p.segs;
      }
    } else if p.segs == [] {
      SplitNoSep(".");
    } else {
      SplitConcat(p.segs);
      ConcatNoLeadingSep(p.segs);
    }
  }

  /** filepath.Clean is idempotent. */
  lemma CleanIdempotent(s: string)
    ensures Clean(Clean(s)) == Clean(s)
  {
    ParseIsClean(s);
    ParseRender(Parse(s));
  }

  // ---------------------------------------------------------------------
  // Resolution against the working directory

  lemma PushLift(cwd: seq<string>, stack: seq<string>, seg: string)
    requires IsKey(cwd) && IsClean(Path(false, stack)) && Sep !in seg
    ensures Reduce(true, cwd, Push(false, stack, seg)) == Push(true, Reduce(true, cwd, stack), seg)
  {
    if seg == "" || seg == "." {
    } else if seg == ".." && |stack| > 0 && stack[|stack| - 1] != ".." {
      var front := stack[..|stack| - 1];
      var last := stack[|stack| - 1];
      assert stack == front + [last];
      ReduceSnoc(true, cwd, front, last);
      ReduceKey(cwd, front);
      assert IsName(last);
    } else {
      ReduceSnoc(true, cwd, stack, seg);
    }
  }

  /** Resolving a cleaned relative path is resolving the original. */
  lemma {:induction false} ReduceLift(cwd: seq<string>, stack: seq<string>, parts: seq<string>)
    requires IsKey(cwd) && IsClean(Path(false, stack))
    requires forall i :: 0 <= i < |parts| ==> Sep !in parts[i]
    ensures Reduce(true, cwd, Reduce(false, stack, parts)) == Reduce(true, Reduce(true, cwd, stack), parts)
    decreases |parts|
  {
    if parts != [] {
      PushClean(false, stack, parts[0]);
      PushLift(cwd, stack, parts[0]);
      ReduceLift(cwd, Push(false, stack, parts[0]), parts[1..]);
    }
  }

  /** A string names the location its cleaned lexical form names. */
  lemma ResolveParse(cwd: seq<string>, s: string)
    requires IsKey(cwd)
    ensures Resolve(cwd, s) == Locate(cwd, Parse(s))
  {
    var parts := Split(s);
    if IsRooted(s) {
      ReduceKey([], parts);
      ReduceNames(true, [], Reduce(true, [], parts));
    } else {
      ReduceLift(cwd, [], parts);
    }
  }

  /** A clean path's rendering names the location of the path. */
  lemma ResolveRender(cwd: seq<string>, p: Path)
    requires IsKey(cwd) && IsClean(p)
    ensures Resolve(cwd, Render(p)) == Locate(cwd, p)
  {
    ResolveParse(cwd, Render(p));
    ParseRender(p);
  }

  /** Cleaning a path string does not change the location it names. */
  lemma ResolveClean(cwd: seq<string>, s: string)
    requires IsKey(cwd)
    ensures Resolve(cwd, Clean(s)) == Resolve(cwd, s)
  {
    ParseIsClean(s);
    ResolveRender(cwd, Parse(s));
    ResolveParse(cwd, s);
  }

  /** Every path string names a location. */
  lemma ResolveIsKey(cwd: seq<string>, s: string)
    requires IsKey(cwd)
    ensures IsKey(Resolve(cwd, s))
  {
    ReduceKey(if IsRooted(s) then [] else cwd, Split(s));
  }

  /** Appending a separator and a name to a path string names that child. */
  lemma ResolveChild(cwd: seq<string>, s: string, n: string)
    requires s != "" && IsName(n)
    ensures Resolve(cwd, s + [Sep] + n) == Resolve(cwd, s) + [n]
  {
    var t := s + [Sep] + n;
    assert t[0] == s[0];
    SplitAppend(s, n);
    SplitNoSep(n);
    ReduceSnoc(true, if IsRooted(s) then [] else cwd, Split(s), n);
  }
}
