/** The zip-slip check of Unzip: an archive entry is extracted only when
    filepath.Join(dest, name) begins with filepath.Clean(dest) + "/".
    This module says exactly which names the check admits, and that every
    admitted name lands strictly inside dest once dest has been freshly
    created. */
module ZipSlip {
  import opened Paths

  /** The zip-slip guard of Unzip, on strings. */
  predicate Admits(dest: string, name: string)
  {
    HasPrefix(Join(dest, name), Clean(dest) + [Sep])
  }

  /** x lies strictly below q, lexically, and q is not the bare root or ".". */
  predicate StrictlyExtends(x: Path, q: Path)
  {
    && x.rooted == q.rooted
    && q.segs != []
    && |q.segs| < |x.segs|
    && x.segs[..|q.segs|] == q.segs
  }

  /** The elements dest + "/" + name cleans to: the name's elements pushed
      onto the cleaned destination. */
  function JoinedSegs(dest: string, name: string): seq<string>
  {
    Reduce(IsRooted(dest), Parse(dest).segs, Split(name))
  }

  // ---------------------------------------------------------------------
  // The string test, read on lexical paths

  predicate Elems(ps: seq<string>)
  {
    forall i :: 0 <= i < |ps| ==> ps[i] != "" && Sep !in ps[i]
  }

  lemma CleanElems(p: Path)
    requires IsClean(p)
    ensures Elems(p.segs)
  {
  }

  /** Two separator-free words followed by a separator agree as prefixes only
      when the words are equal. */
  lemma FirstWord(x: string, q: string, a: string, b: string)
    requires x != "" && Sep !in x && q != "" && Sep !in q
    ensures HasPrefix(x + [Sep] + a, q + [Sep] + b) <==> x == q && HasPrefix(a, b)
  {
    var s, p := x + [Sep] + a, q + [Sep] + b;
    if HasPrefix(s, p) {
      var m := if |x| < |q| then |x| else |q|;
      assert s[m] == s[..|p|][m] == p[m];
      assert |x| == |q|;
      assert x == s[..|x|] == p[..|q|] == q;
      assert s[|x| + 1..] == a && p[|q| + 1..] == b;
      assert a[..|b|] == s[|x| + 1..][..|b|] == s[..|p|][|x| + 1..] == b;
    }
    if x == q && HasPrefix(a, b) {
      assert s[..|p|] == x + [Sep] + a[..|b|];
    }
  }

  /** A separator-free word never begins with a word and a separator. */
  lemma WordHasNoSepPrefix(x: string, q: string, b: string)
    requires Sep !in x
    ensures !HasPrefix(x, q + [Sep] + b)
  {
    var p := q + [Sep] + b;
    if |p| <= |x| {
      assert x[|q|] == x[..|p|][|q|];
    }
  }

  lemma {:induction false} ConcatPrefix(xs: seq<string>, qs: seq<string>)
    requires Elems(xs) && Elems(qs) && qs != []
    ensures HasPrefix(Concat(xs), Concat(qs) + [Sep]) <==> |qs| < |xs| && xs[..|qs|] == qs
    decreases |qs|
  {
    var q := qs[0];
    if xs == [] {
    } else if |xs| == 1 {
      var rest := if |qs| == 1 then [] else Concat(qs[1..]) + [Sep];
      assert Concat(qs) + [Sep] == q + [Sep] + rest;
      WordHasNoSepPrefix(xs[0], q, rest);
    } else {
      var x := xs[0];
      assert Concat(xs) == x + [Sep] + Concat(xs[1..]);
      if |qs| == 1 {
        assert Concat(qs) + [Sep] == q + [Sep] + [];
        FirstWord(x, q, Concat(xs[1..]), []);
        assert xs[..1] == [x];
      } else {
        assert Concat(qs) + [Sep] == q + [Sep] + (Concat(qs[1..]) + [Sep]);
        FirstWord(x, q, Concat(xs[1..]), Concat(qs[1..]) + [Sep]);
        ConcatPrefix(xs[1..], qs[1..]);
        if |qs| <= |xs| {
          assert xs[..|qs|] == [x] + xs[1..][..|qs| - 1];
        }
        assert qs == [q] + qs[1..];
      }
    }
  }

  /** The first character of the rendering of a clean path that is not the
      root or ".". */
  lemma RenderHead(p: Path)
    requires IsClean(p) && p.segs != []
    ensures |Render(p)| >= 1
    ensures p.rooted ==> |Render(p)| >= 2 && Render(p)[0] == Sep && Render(p)[1] == p.segs[0][0] != Sep
    ensures !p.rooted ==> Render(p)[0] == p.segs[0][0] != Sep
  {
    ConcatNoLeadingSep(p.segs);
  }

  /** On clean paths, the string test of Unzip reads: x lies strictly below q. */
  lemma RenderPrefix(x: Path, q: Path)
    requires IsClean(x) && IsClean(q)
    ensures HasPrefix(Render(x), Render(q) + [Sep]) <==> StrictlyExtends(x, q)
  {
    if q.segs == [] {
      if x.segs != [] {
        RenderPrefixBare(x, q);
      }
    } else if x.segs == [] {
      RenderHead(q);
    } else {
      RenderPrefixSegs(x, q);
    }
  }

  /** Nothing but the root itself lies below "/" or "." as a string "//" or
      "./" prefix of a clean rendering. */
  lemma RenderPrefixBare(x: Path, q: Path)
    requires IsClean(x) && IsClean(q) && q.segs == [] && x.segs != []
    ensures HasPrefix(Render(x), Render(q) + [Sep]) <==> StrictlyExtends(x, q)
  {
    var sx, sq := Render(x), Render(q) + [Sep];
    CleanElems(x);
    RenderHead(x);
    var w := x.segs[0];
    if q.rooted {
      assert sq == [Sep, Sep];
    } else {
      assert sq == ['.', Sep];
      if !x.rooted {
        // "." followed by a separator would make w the element "."
        if |x.segs| > 1 {
          assert sx == w + [Sep] + Concat(x.segs[1..]);
        } else {
          assert sx == w;
        }
        if |w| > 1 {
          assert sx[1] == w[1];
        } else {
          assert w == [w[0]];
        }
      }
    }
  }

  lemma RenderPrefixSegs(x: Path, q: Path)
    requires IsClean(x) && IsClean(q) && q.segs != [] && x.segs != []
    ensures HasPrefix(Render(x), Render(q) + [Sep]) <==> StrictlyExtends(x, q)
  {
    CleanElems(x);
    CleanElems(q);
    RenderHead(x);
    RenderHead(q);
    ConcatPrefix(x.segs, q.segs);
    if x.rooted && q.rooted {
      var sx, sq := Render(x), Render(q) + [Sep];
      assert sx == [Sep] + Concat(x.segs);
      assert sq == [Sep] + (Concat(q.segs) + [Sep]);
      if HasPrefix(sx, sq) {
        assert Concat(x.segs)[..|sq| - 1] == sx[..|sq|][1..] == sq[1..];
      }
      if StrictlyExtends(x, q) {
        assert sx[..|sq|] == [Sep] + Concat(x.segs)[..|sq| - 1];
      }
    }
  }

  /** The pieces of the guard: Join and Clean of a non-empty destination. */
  lemma JoinParse(dest: string, name: string)
    requires dest != ""
    ensures Join(dest, name) == Render(Path(IsRooted(dest), JoinedSegs(dest, name)))
    ensures IsClean(Path(IsRooted(dest), JoinedSegs(dest, name)))
  {
    var s := dest + [Sep] + name;
    SplitAppend(dest, name);
    ReduceAppend(IsRooted(dest), [], Split(dest), Split(name));
    assert IsRooted(s) == IsRooted(dest);
    ParseIsClean(s);
  }

  /** The guard admits a name exactly when the cleaned join has the cleaned
      destination's elements as a strict prefix; an empty destination, "." and
      "/" admit nothing. */
  lemma AdmitsExactly(dest: string, name: string)
    ensures Admits(dest, name) <==>
      dest != "" && StrictlyExtends(Path(IsRooted(dest), JoinedSegs(dest, name)), Parse(dest))
  {
    ParseIsClean(dest);
    if dest == "" {
      var q := Parse(dest);
      assert q == Path(false, []);
      assert Clean(dest) == ".";
      if name == "" {
        assert Join(dest, name) == "";
      } else {
        ParseIsClean(name);
        RenderPrefix(Parse(name), q);
      }
    } else {
      JoinParse(dest, name);
      RenderPrefix(Path(IsRooted(dest), JoinedSegs(dest, name)), Parse(dest));
    }
  }

  // ---------------------------------------------------------------------
  // Names the guard refuses and names it lets through

  lemma {:induction false} ReduceSkips(rooted: bool, stack: seq<string>, parts: seq<string>)
    requires forall i :: 0 <= i < |parts| ==> parts[i] == "" || parts[i] == "."
    ensures Reduce(rooted, stack, parts) == stack
    decreases |parts|
  {
    if parts != [] {
      ReduceSkips(rooted, stack, parts[1..]);
    }
  }

  /** A name made only of separators and "." elements ("", ".", "./", "/")
      is refused: it would name dest itself. */
  lemma NoOpNameRefused(dest: string, name: string)
    requires forall i :: 0 <= i < |Split(name)| ==> Split(name)[i] == "" || Split(name)[i] == "."
    ensures !Admits(dest, name)
  {
    AdmitsExactly(dest, name);
    ReduceSkips(IsRooted(dest), Parse(dest).segs, Split(name));
  }

  lemma EmptyAndDotRefused(dest: string)
    ensures !Admits(dest, "") && !Admits(dest, ".")
  {
    SplitNoSep(".");
    NoOpNameRefused(dest, "");
    NoOpNameRefused(dest, ".");
  }

  /** Names without ".." elements and with at least one real element are
      always admitted, whatever leading separators they carry, unless the
      destination cleans to "." or "/". */
  lemma PlainNameAdmitted(dest: string, name: string)
    requires dest != "" && Parse(dest).segs != []
    requires forall i :: 0 <= i < |Split(name)| ==> Split(name)[i] != ".."
    requires exists i :: 0 <= i < |Split(name)| && IsName(Split(name)[i])
    ensures Admits(dest, name)
    ensures JoinedSegs(dest, name) == Parse(dest).segs + Names(Split(name))
  {
    var parts := Split(name);
    ReduceDropsSkips(IsRooted(dest), Parse(dest).segs, parts);
    var i :| 0 <= i < |parts| && IsName(parts[i]);
    NamesNonEmpty(parts, i);
    AdmitsExactly(dest, name);
    var d := Parse(dest).segs;
    assert (d + Names(parts))[..|d|] == d;
  }

  /** The real elements of a split name: its empty and "." elements dropped. */
  function Names(parts: seq<string>): (r: seq<string>)
    ensures |r| <= |parts|
  {
    if parts == [] then []
    else if parts[0] == "" || parts[0] == "." then Names(parts[1..])
    else [parts[0]] + Names(parts[1..])
  }

  lemma {:induction false} NamesNonEmpty(parts: seq<string>, i: nat)
    requires i < |parts| && IsName(parts[i])
    ensures Names(parts) != []
    decreases i
  {
    if i > 0 && (parts[0] == "" || parts[0] == ".") {
      NamesNonEmpty(parts[1..], i - 1);
    }
  }

  lemma {:induction false} ReduceDropsSkips(rooted: bool, stack: seq<string>, parts: seq<string>)
    requires forall i :: 0 <= i < |parts| ==> parts[i] != ".."
    ensures Reduce(rooted, stack, parts) == stack + Names(parts)
    decreases |parts|
  {
    if parts != [] {
      var p, tail := parts[0], parts[1..];
      assert p != "..";
      forall i | 0 <= i < |tail|
        ensures tail[i] != ".."
      {
        assert tail[i] == parts[i + 1];
      }
      assert Reduce(rooted, stack, parts) == Reduce(rooted, Push(rooted, stack, p), tail);
      if p == "" || p == "." {
        assert Names(parts) == Names(tail);
        ReduceDropsSkips(rooted, stack, tail);
      } else {
        assert Names(parts) == [p] + Names(tail);
        ReduceDropsSkips(rooted, stack + [p], tail);
        assert stack + [p] + Names(tail) == stack + ([p] + Names(tail));
      }
    }
  }

  // ---------------------------------------------------------------------
  // Where admitted names land

  /** A destination that is neither the working directory nor one of its
      ancestors has a real name among its cleaned elements. */
  lemma {:induction false} UpsStayAboveCwd(cwd: seq<string>, ups: seq<string>)
    requires IsKey(cwd)
    requires forall i :: 0 <= i < |ups| ==> ups[i] == ".."
    ensures |Reduce(true, cwd, ups)| <= |cwd| && Reduce(true, cwd, ups) == cwd[..|Reduce(true, cwd, ups)|]
    decreases |ups|
  {
    if ups != [] {
      var next := Push(true, cwd, "..");
      assert next == if cwd == [] then [] else cwd[..|cwd| - 1];
      assert IsKey(next);
      UpsStayAboveCwd(next, ups[1..]);
      var r := Reduce(true, next, ups[1..]);
      assert r == next[..|r|];
    }
  }

  /** Everything an admitted name adds beyond the cleaned destination is a
      real name, once dest is not the working directory or one of its
      ancestors: the cleaned destination then holds a real name, and ".."
      can only come before it. */
  lemma AdmittedTailNames(cwd: seq<string>, dest: string, name: string)
    requires IsKey(cwd)
    requires Admits(dest, name)
    requires var d := Resolve(cwd, dest); !(|d| <= |cwd| && cwd[..|d|] == d)
    ensures var q, x := Parse(dest), Path(IsRooted(dest), JoinedSegs(dest, name));
      StrictlyExtends(x, q) && IsClean(x) && IsKey(x.segs[|q.segs|..])
  {
    AdmitsExactly(dest, name);
    JoinParse(dest, name);
    ParseIsClean(dest);
    ResolveParse(cwd, dest);
    var q := Parse(dest);
    var x := Path(IsRooted(dest), JoinedSegs(dest, name));
    if forall i :: 0 <= i < |q.segs| ==> q.segs[i] == ".." {
      UpsStayAboveCwd(cwd, q.segs);
      assert false;
    }
    var k :| 0 <= k < |q.segs| && q.segs[k] != "..";
    assert x.segs[k] != "..";
    var rest := x.segs[|q.segs|..];
    forall i | 0 <= i < |rest|
      ensures IsName(rest[i])
    {
      assert rest[i] == x.segs[|q.segs| + i];
    }
  }

  /** The main security fact. When the location dest names is neither the
      working directory nor one of its ancestors (which is the case once
      Unzip's os.Mkdir(dest) has succeeded), every name the guard admits
      resolves to a location strictly inside dest. */
  lemma AdmittedLandsInside(cwd: seq<string>, dest: string, name: string)
    requires IsKey(cwd)
    requires Admits(dest, name)
    requires var d := Resolve(cwd, dest); !(|d| <= |cwd| && cwd[..|d|] == d)
    ensures var d, j := Resolve(cwd, dest), Resolve(cwd, Join(dest, name));
      |d| < |j| && j[..|d|] == d && IsKey(j[|d|..])
  {
    AdmittedTailNames(cwd, dest, name);
    var q := Parse(dest);
    var x := Path(IsRooted(dest), JoinedSegs(dest, name));
    JoinParse(dest, name);
    ResolveRender(cwd, x);
    ResolveParse(cwd, dest);
    LocateExtends(cwd, q, x);
  }

  /** A path that strictly extends q by real names locates to q's location
      followed by those names. */
  lemma LocateExtends(cwd: seq<string>, q: Path, x: Path)
    requires StrictlyExtends(x, q) && IsKey(x.segs[|q.segs|..])
    ensures var d, j := Locate(cwd, q), Locate(cwd, x);
      |d| < |j| && j[..|d|] == d && IsKey(j[|d|..])
  {
    var rest := x.segs[|q.segs|..];
    assert x.segs == q.segs + rest;
    var base := if q.rooted then [] else cwd;
    ReduceAppend(true, base, q.segs, rest);
    var d := Locate(cwd, q);
    ReduceNames(true, d, rest);
    assert Locate(cwd, x) == d + rest;
    assert (d + rest)[..|d|] == d && (d + rest)[|d|..] == rest;
  }

  // ---------------------------------------------------------------------
  // filepath.Dir of an admitted path

  lemma AfterLastSepAt(s: string, i: nat)
    requires 0 < i <= |s| && s[i - 1] == Sep
    requires forall j :: i <= j < |s| ==> s[j] != Sep
    ensures AfterLastSep(s) == i
  {
  }

  /** The part of a clean path's rendering that filepath.Dir keeps: the root
      separator, and the elements before the last one followed by a separator. */
  function DirCut(rooted: bool, front: seq<string>): string
  {
    (if rooted then [Sep] else []) + (if front == [] then [] else Concat(front) + [Sep])
  }

  lemma DirCutOfRender(p: Path)
    requires IsClean(p) && p.segs != []
    ensures var s := Render(p);
      s[..AfterLastSep(s)] == DirCut(p.rooted, p.segs[..|p.segs| - 1])
  {
    var n := |p.segs|;
    if n == 1 {
      var s := Render(p);
      assert s == (if p.rooted then [Sep] else []) + p.segs[0];
      if p.rooted {
        AfterLastSepAt(s, 1);
      }
    } else {
      DirCutOfRenderLong(p);
    }
  }

  lemma DirCutOfRenderLong(p: Path)
    requires IsClean(p) && |p.segs| >= 2
    ensures var s := Render(p);
      s[..AfterLastSep(s)] == DirCut(p.rooted, p.segs[..|p.segs| - 1])
  {
    var n := |p.segs|;
    var front, last := p.segs[..n - 1], p.segs[n - 1];
    assert p.segs == front + [last];
    var s := Render(p);
    var pre := if p.rooted then [Sep] else [];
    ConcatSnoc(front, last);
    var cut := |pre| + |Concat(front)| + 1;
    assert s == pre + Concat(front) + [Sep] + last;
    AfterLastSepAt(s, cut);
    assert s[..cut] == pre + (Concat(front) + [Sep]);
  }

  lemma ParseDirCut(rooted: bool, front: seq<string>)
    requires IsClean(Path(rooted, front))
    ensures Parse(DirCut(rooted, front)) == Path(rooted, front)
  {
    var t := DirCut(rooted, front);
    if front == [] {
      if rooted {
        assert t == [] + [Sep] + [];
        SplitAppend([], []);
        assert Split(t) == ["", ""];
        assert Reduce(true, [], [""]) == [];
      } else {
        assert t == [];
      }
    } else {
      var pf := Path(rooted, front);
      CleanElems(pf);
      SplitConcat(front);
      SplitAppend(Concat(front), []);
      ReduceCleanSegs(pf, 0);
      assert front[..0] == [] && front[0..] == front;
      if rooted {
        assert t == [] + [Sep] + (Concat(front) + [Sep] + []);
        SplitAppend([], Concat(front) + [Sep] + []);
        assert Split(t) == [""] + front + [""];
        ReduceAppend(true, [], [""] + front, [""]);
        ReduceAppend(true, [], [""], front);
      } else {
        assert t == Concat(front) + [Sep] + [];
        RenderHead(pf);
        ReduceAppend(false, [], front, [""]);
      }
    }
  }

  /** filepath.Dir of a clean path ending in a name is its parent. */
  lemma DirOfClean(p: Path)
    requires IsClean(p) && p.segs != [] && IsName(p.segs[|p.segs| - 1])
    ensures Parse(Dir(Render(p))) == Path(p.rooted, p.segs[..|p.segs| - 1])
  {
    var front := p.segs[..|p.segs| - 1];
    DirCutOfRender(p);
    ParseDirCut(p.rooted, front);
    ParseRender(Path(p.rooted, front));
  }

  /** For an admitted name, the location of filepath.Dir of the joined path is
      the parent of the location of the joined path. */
  lemma AdmittedDir(cwd: seq<string>, dest: string, name: string)
    requires IsKey(cwd)
    requires Admits(dest, name)
    requires var d := Resolve(cwd, dest); !(|d| <= |cwd| && cwd[..|d|] == d)
    ensures var j := Resolve(cwd, Join(dest, name));
      j != [] && Resolve(cwd, Dir(Join(dest, name))) == j[..|j| - 1]
  {
    AdmittedTailNames(cwd, dest, name);
    JoinParse(dest, name);
    var q := Parse(dest);
    var x := Path(IsRooted(dest), JoinedSegs(dest, name));
    var n := |x.segs|;
    assert x.segs[n - 1] == x.segs[|q.segs|..][n - 1 - |q.segs|];
    ResolveRender(cwd, x);
    LocateSnoc(cwd, x);
    ResolveDir(cwd, x);
  }

  /** A clean path ending in a name names its parent's location plus that name. */
  lemma LocateSnoc(cwd: seq<string>, p: Path)
    requires IsClean(p) && p.segs != [] && IsName(p.segs[|p.segs| - 1])
    ensures var n := |p.segs|;
      Locate(cwd, p) == Locate(cwd, Path(p.rooted, p.segs[..n - 1])) + [p.segs[n - 1]]
  {
    var n := |p.segs|;
    assert p.segs == p.segs[..n - 1] + [p.segs[n - 1]];
    ReduceSnoc(true, if p.rooted then [] else cwd, p.segs[..n - 1], p.segs[n - 1]);
  }

  /** filepath.Dir of a clean path ending in a name names the parent's location. */
  lemma ResolveDir(cwd: seq<string>, p: Path)
    requires IsKey(cwd)
    requires IsClean(p) && p.segs != [] && IsName(p.segs[|p.segs| - 1])
    ensures Resolve(cwd, Dir(Render(p))) == Locate(cwd, Path(p.rooted, p.segs[..|p.segs| - 1]))
  {
    DirOfClean(p);
    ResolveParse(cwd, Dir(Render(p)));
  }

  // ---------------------------------------------------------------------
  // Examples

  /** The check alone does not confine the entry: with dest ".." (a directory
      that always exists, so Unzip's os.Mkdir refuses it first) the name
      "../x" passes the check and would land two levels above the working
      directory. */
  lemma GuardNeedsFreshDest()
    ensures Admits("..", "../x")
    ensures Resolve(["home", "u"], Join("..", "../x")) == ["x"]
    ensures Resolve(["home", "u"], "..") == ["home"]
  {
    EscapeThroughParent("..", "x", "../x", ["home", "u"]);
  }

  /** GuardNeedsFreshDest, with its strings as variables so that each step
      is unfolded only as far as it is written out. */
  lemma EscapeThroughParent(up: string, x: string, name: string, cwd: seq<string>)
    requires up == ".." && x == "x" && name == up + [Sep] + x && cwd == ["home", "u"]
    ensures Admits(up, name)
    ensures Resolve(cwd, Join(up, name)) == [x]
    ensures Resolve(cwd, up) == ["home"]
  {
    EscapeSegs(up, x, name);
    var joined := JoinedSegs(up, name);
    AdmitsExactly(up, name);
    JoinParse(up, name);
    ResolveRender(cwd, Path(false, joined));
    EscapeLocate(up, x, cwd);
  }

  lemma EscapeSegs(up: string, x: string, name: string)
    requires up == ".." && x == "x" && name == up + [Sep] + x
    ensures Parse(up) == Path(false, [up])
    ensures JoinedSegs(up, name) == [up, up, x]
  {
    SplitNoSep(up);
    SplitNoSep(x);
    SplitAppend(up, x);
    assert Split(name) == [up, x];
    assert Reduce(false, [], [up]) == Reduce(false, [up], []);
    assert Push(false, [up], up) == [up, up];
    assert [up, x][1..] == [x];
    assert Push(false, [up, up], x) == [up, up, x];
    assert Reduce(false, [up, up], [x]) == Reduce(false, [up, up, x], [x][1..]);
  }

  lemma EscapeLocate(up: string, x: string, cwd: seq<string>)
    requires up == ".." && x == "x" && cwd == ["home", "u"]
    ensures Locate(cwd, Path(false, [up, up, x])) == [x]
    ensures Resolve(cwd, up) == ["home"]
  {
    SplitNoSep(up);
    assert !IsRooted(up);
    assert Reduce(true, cwd, [up, up, x]) == Reduce(true, ["home"], [up, x]);
    assert Push(true, cwd, up) == ["home"];
    assert Push(true, ["home"], up) == [];
    assert Push(true, [], x) == [x];
    assert [up, up, x][1..] == [up, x];
    assert [up, x][1..] == [x];
    assert Reduce(true, [], [x]) == Reduce(true, [x], [x][1..]);
    assert Reduce(true, cwd, [up]) == Reduce(true, ["home"], [up][1..]);
  }
}
