/** What disk.go's Unzip, ZipDir and ZipFile do to the tree, as functions:
    extracting the entries of an archive under a destination behind the
    zip-slip check, and packing the files a directory walk visits. */
module Archive {
  import opened Paths
  import opened ZipSlip
  import opened FileSystem

  // ---------------------------------------------------------------------
  // Unzip

  /** zip.OpenReader: the entries of the archive stored at s. A directory
      opens but cannot be read; a file of plain bytes is not a zip file. */
  function OpenArchive(env: Env, tree: Tree, s: string): (r: Result<seq<Entry>>)
    ensures r.Ok? <==>
      Open(env, tree, s).Ok? && Open(env, tree, s).value.File? && Open(env, tree, s).value.content.Archive?
    ensures r.Ok? ==> Open(env, tree, s).value == File(Archive(r.value))
    ensures r.Err? && Open(env, tree, s).Ok? ==>
      r.error == (if Open(env, tree, s).value.Directory? then PathError("read", s, EISDIR) else NotAnArchive(s))
  {
    match Open(env, tree, s)
    case Err(e) => Err(e)
    case Ok(n) =>
      match n
      case Directory => Err(PathError("read", s, EISDIR))
      case File(b) => if b.Archive? then Ok(b.entries) else Err(NotAnArchive(s))
  }

  /** The extractAndWriteFile closure: the joined path must pass the
      zip-slip check; a directory entry then runs os.MkdirAll on it, a file
      entry runs os.MkdirAll on its parent and writes the file. Both
      os.MkdirAll errors are dropped. */
  function ExtractEntry(env: Env, tree: Tree, dest: string, e: Entry): (o: Outcome)
    ensures o.err == Some(IllegalFilePath(Join(dest, e.name))) <==> !Admits(dest, e.name)
    ensures !Admits(dest, e.name) ==> o.tree == tree
    ensures Admits(dest, e.name) && e.isDir ==> o.err.None?
    ensures o.err.None? && !e.isDir ==>
      var j := Resolve(env.cwd, Join(dest, e.name)); j in o.tree && o.tree[j] == File(e.data)
  {
    var path := Join(dest, e.name);
    if !Admits(dest, e.name) then Outcome(tree, Some(IllegalFilePath(path)))
    else if e.isDir then Outcome(MkdirAll(env, tree, path).tree, None)
    else Create(env, MkdirAll(env, tree, Dir(path)).tree, path, e.data)
  }

  /** One entry changes nothing but the location its joined path names and
      the directories on the way to it. */
  lemma ExtractEntryOnTheWay(env: Env, tree: Tree, dest: string, e: Entry)
    requires WellFormed(env, tree)
    ensures var o, j := ExtractEntry(env, tree, dest, e), Resolve(env.cwd, Join(dest, e.name));
      && (forall x :: x in tree && x != j ==> x in o.tree && o.tree[x] == tree[x])
      && (forall x :: x in o.tree && x !in tree ==> Inside(x, j))
  {
    if Admits(dest, e.name) {
      var x := Path(IsRooted(dest), JoinedSegs(dest, e.name));
      AdmitsExactly(dest, e.name);
      JoinParse(dest, e.name);
      ResolveRender(env.cwd, x);
      if e.isDir {
        MkdirAllOnTheWay(env, tree, x);
      } else {
        ParentOnTheWay(env, tree, x);
      }
    }
  }

  /** os.MkdirAll of filepath.Dir of a clean path adds directories only on
      the way to the location the path names. */
  lemma ParentOnTheWay(env: Env, tree: Tree, x: Path)
    requires WellFormed(env, tree) && IsClean(x) && x.segs != []
    ensures var t1, j := MkdirAll(env, tree, Dir(Render(x))).tree, Locate(env.cwd, x);
      forall y :: y in t1 && y !in tree ==> Inside(y, j)
  {
    var n := |x.segs|;
    var pf := Path(x.rooted, x.segs[..n - 1]);
    var kf, j := Locate(env.cwd, pf), Locate(env.cwd, x);
    DirRender(x);
    MkdirAllOnTheWay(env, tree, pf);
    if IsName(x.segs[n - 1]) {
      LocateSnoc(env.cwd, x);
      forall y | Inside(y, kf)
        ensures Inside(y, j)
      {
        assert j[..|y|] == kf[..|y|];
      }
    } else if n > 1 {
      assert pf.segs[n - 2] == x.segs[n - 2] == "..";
    }
  }

  /** A directory entry whose joined path is shorter than PATH_MAX, with no
      file and no denied missing location on the way to it, is left a
      directory. */
  lemma ExtractDirMakes(env: Env, tree: Tree, dest: string, e: Entry)
    requires WellFormed(env, tree) && Admits(dest, e.name) && e.isDir
    requires |Join(dest, e.name)| < PathMax
    requires var j := Resolve(env.cwd, Join(dest, e.name));
      forall i :: 0 <= i <= |j| ==>
        (j[..i] in tree ==> tree[j[..i]] == Directory) && (j[..i] !in tree ==> j[..i] !in env.denied)
    ensures var o, j := ExtractEntry(env, tree, dest, e), Resolve(env.cwd, Join(dest, e.name));
      o.err.None? && j in o.tree && o.tree[j] == Directory
  {
    var x := Path(IsRooted(dest), JoinedSegs(dest, e.name));
    AdmitsExactly(dest, e.name);
    JoinParse(dest, e.name);
    ResolveRender(env.cwd, x);
    MkdirAllMakes(env, tree, x);
  }

  /** A file entry admitted under a fresh destination, whose joined path is
      shorter than PATH_MAX, with no file and no denied missing location on
      the way to it and nothing or a permitted file at it, is written. */
  lemma ExtractFileWrites(env: Env, tree: Tree, dest: string, e: Entry)
    requires WellFormed(env, tree) && FreshDest(env, tree, dest)
    requires Admits(dest, e.name) && !e.isDir && |Join(dest, e.name)| < PathMax
    requires var j := Resolve(env.cwd, Join(dest, e.name));
      && (forall i :: 0 <= i < |j| ==>
            (j[..i] in tree ==> tree[j[..i]] == Directory) && (j[..i] !in tree ==> j[..i] !in env.denied))
      && j !in env.denied && (j in tree ==> tree[j].File?)
    ensures var o, j := ExtractEntry(env, tree, dest, e), Resolve(env.cwd, Join(dest, e.name));
      o.err.None? && j in o.tree && o.tree[j] == File(e.data)
  {
    AdmittedPathClean(env.cwd, dest, e.name);
    ParentReady(env, tree, Path(IsRooted(dest), JoinedSegs(dest, e.name)));
  }

  /** The joined path of a name admitted under a fresh destination is the
      rendering of a clean path that ends in a name. */
  lemma AdmittedPathClean(cwd: seq<string>, dest: string, name: string)
    requires IsKey(cwd) && Admits(dest, name)
    requires var d := Resolve(cwd, dest); !(|d| <= |cwd| && cwd[..|d|] == d)
    ensures var x := Path(IsRooted(dest), JoinedSegs(dest, name));
      && Join(dest, name) == Render(x) && IsClean(x) && x.segs != [] && IsName(x.segs[|x.segs| - 1])
      && Resolve(cwd, Join(dest, name)) == Locate(cwd, x) && LastElem(Join(dest, name)) == x.segs[|x.segs| - 1]
  {
    var q := Parse(dest);
    var x := Path(IsRooted(dest), JoinedSegs(dest, name));
    AdmittedTailNames(cwd, dest, name);
    JoinParse(dest, name);
    ResolveRender(cwd, x);
    var n := |x.segs|;
    assert x.segs[n - 1] == x.segs[|q.segs|..][n - 1 - |q.segs|];
    LastElemRender(x);
  }

  /** os.MkdirAll of filepath.Dir of a clean path ending in a name, with no
      file and no denied missing location above the location it names,
      leaves the parent a directory and the location itself as it was. */
  lemma ParentReady(env: Env, tree: Tree, x: Path)
    requires WellFormed(env, tree) && IsClean(x) && x.segs != [] && IsName(x.segs[|x.segs| - 1])
    requires |Render(x)| < PathMax
    requires var j := Locate(env.cwd, x);
      forall i :: 0 <= i < |j| ==>
        (j[..i] in tree ==> tree[j[..i]] == Directory) && (j[..i] !in tree ==> j[..i] !in env.denied)
    ensures var t, j := MkdirAll(env, tree, Dir(Render(x))).tree, Locate(env.cwd, x);
      var kf := Locate(env.cwd, Path(x.rooted, x.segs[..|x.segs| - 1]));
      && j == kf + [x.segs[|x.segs| - 1]] && kf in t && t[kf] == Directory
      && (j in t <==> j in tree) && (j in tree ==> t[j] == tree[j])
  {
    var n := |x.segs|;
    var j := Locate(env.cwd, x);
    var pf := Path(x.rooted, x.segs[..n - 1]);
    var kf := Locate(env.cwd, pf);
    LocateSnoc(env.cwd, x);
    DirRender(x);
    if n > 1 {
      ParentCutLong(x);
    }
    forall i | 0 <= i <= |kf|
      ensures (kf[..i] in tree ==> tree[kf[..i]] == Directory) && (kf[..i] !in tree ==> kf[..i] !in env.denied)
    {
      assert kf[..i] == j[..i];
    }
    MadeUpTo(env, tree, pf);
  }

  /** os.MkdirAll of a clean path it can make leaves its location a
      directory and adds nothing longer. */
  lemma MadeUpTo(env: Env, tree: Tree, p: Path)
    requires WellFormed(env, tree) && IsClean(p) && |Render(p)| < PathMax
    requires var k := Locate(env.cwd, p);
      forall i :: 0 <= i <= |k| ==>
        (k[..i] in tree ==> tree[k[..i]] == Directory) && (k[..i] !in tree ==> k[..i] !in env.denied)
    ensures var t, k := MkdirAll(env, tree, Render(p)).tree, Locate(env.cwd, p);
      && k in t && t[k] == Directory
      && (forall y :: y in t && y !in tree ==> |y| <= |k|)
  {
    MkdirAllMakes(env, tree, p);
    MkdirAllOnTheWay(env, tree, p);
  }

  /** The loop over r.File: entries in archive order, stopping at the first
      error and keeping whatever was written before it. */
  function ExtractAll(env: Env, tree: Tree, dest: string, es: seq<Entry>): Outcome
    decreases |es|
  {
    if es == [] then Outcome(tree, None)
    else
      var o := ExtractEntry(env, tree, dest, es[0]);
      if o.err.Some? then o else ExtractAll(env, o.tree, dest, es[1..])
  }

  /** Unzip(zipFilePath, destinationPath). */
  function UnzipOutcome(env: Env, tree: Tree, zipPath: string, dest: string): (o: Outcome)
    ensures OpenArchive(env, tree, zipPath).Err? ==>
      o == Outcome(tree, Some(OpenArchive(env, tree, zipPath).error))
    ensures OpenArchive(env, tree, zipPath).Ok? && Mkdir(env, tree, dest).err.Some? ==>
      o == Outcome(tree, Mkdir(env, tree, dest).err)
  {
    match OpenArchive(env, tree, zipPath)
    case Err(e) => Outcome(tree, Some(e))
    case Ok(es) =>
      var m := Mkdir(env, tree, dest);
      if m.err.Some? then m else ExtractAll(env, m.tree, dest, es)
  }

  /** Extracting a + b is extracting a and, unless it failed, b from where
      a left the tree: entries run in order, the first error ends the run,
      and nothing already written is undone. */
  lemma {:induction false} ExtractAllAppend(env: Env, tree: Tree, dest: string, a: seq<Entry>, b: seq<Entry>)
    ensures var oa := ExtractAll(env, tree, dest, a);
      ExtractAll(env, tree, dest, a + b) == if oa.err.Some? then oa else ExtractAll(env, oa.tree, dest, b)
    decreases |a|
  {
    if a == [] {
      assert a + b == b;
    } else {
      assert (a + b)[0] == a[0] && (a + b)[1..] == a[1..] + b;
      var o := ExtractEntry(env, tree, dest, a[0]);
      if o.err.None? {
        ExtractAllAppend(env, o.tree, dest, a[1..], b);
      }
    }
  }

  /** When the entries before i all went through and entry i fails, the run
      ends with entry i's error on the tree the earlier entries left. */
  lemma FirstFailureEndsRun(env: Env, tree: Tree, dest: string, es: seq<Entry>, i: nat)
    requires i < |es|
    requires ExtractAll(env, tree, dest, es[..i]).err.None?
    requires ExtractEntry(env, ExtractAll(env, tree, dest, es[..i]).tree, dest, es[i]).err.Some?
    ensures ExtractAll(env, tree, dest, es) ==
      ExtractEntry(env, ExtractAll(env, tree, dest, es[..i]).tree, dest, es[i])
  {
    var a, rest := es[..i], es[i..];
    var oa := ExtractAll(env, tree, dest, a);
    FailingHeadEndsRun(env, oa.tree, dest, rest, es[i]);
    ExtractAllAppend(env, tree, dest, a, rest);
    assert a + rest == es;
  }

  lemma FailingHeadEndsRun(env: Env, t: Tree, dest: string, rest: seq<Entry>, e: Entry)
    requires rest != [] && rest[0] == e && ExtractEntry(env, t, dest, e).err.Some?
    ensures ExtractAll(env, t, dest, rest) == ExtractEntry(env, t, dest, e)
  {
  }

  // ---------------------------------------------------------------------
  // Confinement

  /** os.MkdirAll has no parent string for the rendering of a clean path
      of one element. */
  lemma ParentCutSingle(p: Path)
    requires IsClean(p) && |p.segs| == 1
    ensures ParentCut(Render(p)) == 0
  {
    var s := Render(p);
    RenderTrimmed(p);
    DirCutOfRender(p);
    assert |s[..AfterLastSep(s)]| == AfterLastSep(s);
  }

  /** A clean path's rendering ends in its last element, so for two or more
      elements os.MkdirAll's parent string is the rendering of the path
      without the last one. */
  lemma ParentCutLong(p: Path)
    requires IsClean(p) && |p.segs| > 1
    ensures var s := Render(p);
      0 < ParentCut(s) < |s| && s[..ParentCut(s)] == Render(Path(p.rooted, p.segs[..|p.segs| - 1]))
  {
    var s, n := Render(p), |p.segs|;
    var pf := Path(p.rooted, p.segs[..n - 1]);
    RenderTrimmed(p);
    DirCutOfRender(p);
    DirCutIsRenderSep(pf);
    var a := AfterLastSep(s);
    var r := Render(pf);
    assert s[..a] == r + [Sep];
    assert a == |r| + 1;
    assert ParentCut(s) == |r|;
    assert s[..|r|] == s[..a][..|r|] == r;
  }

  /** The cut filepath.Dir keeps of a path with elements is the rendering
      of its front followed by a separator. */
  lemma DirCutIsRenderSep(pf: Path)
    requires IsClean(pf) && pf.segs != []
    ensures DirCut(pf.rooted, pf.segs) == Render(pf) + [Sep] && Render(pf) != []
  {
    ConcatFront(pf.segs);
  }

  lemma ConcatFront(parts: seq<string>)
    requires parts != [] && parts[0] != ""
    ensures |Concat(parts)| >= |parts[0]| > 0
  {
  }

  /** The rendering of a clean path with elements has no trailing separator. */
  lemma RenderTrimmed(p: Path)
    requires IsClean(p) && p.segs != []
    ensures TrimTrailingSeps(Render(p)) == Render(p)
  {
    var s, last := Render(p), p.segs[|p.segs| - 1];
    LastElemRender(p);
    LastElemAt(s);
    assert s[|s| - 1] == last[|last| - 1];
  }

  /** filepath.Dir of a clean path's rendering is the rendering of the path
      without its last element. */
  lemma DirRender(p: Path)
    requires IsClean(p) && p.segs != []
    ensures Dir(Render(p)) == Render(Path(p.rooted, p.segs[..|p.segs| - 1]))
  {
    DirCutOfRender(p);
    ParseDirCut(p.rooted, p.segs[..|p.segs| - 1]);
  }

  /** A clean path ending in ".." is all ".." and names the working
      directory or one of its ancestors, which exist. */
  lemma UpsExist(env: Env, tree: Tree, p: Path)
    requires WellFormed(env, tree) && IsClean(p) && p.segs != [] && p.segs[|p.segs| - 1] == ".."
    ensures Locate(env.cwd, p) in tree && tree[Locate(env.cwd, p)] == Directory
  {
    UpsStayAboveCwd(env.cwd, p.segs);
    var k := Locate(env.cwd, p);
    if |k| == |env.cwd| {
      assert k == env.cwd;
    }
  }

  /** os.MkdirAll of a clean path adds directories only on the way to the
      location the path names, and none when the path ends in "..". */
  lemma {:induction false} MkdirAllOnTheWay(env: Env, tree: Tree, p: Path)
    requires WellFormed(env, tree) && IsClean(p)
    ensures var o, k := MkdirAll(env, tree, Render(p)), Locate(env.cwd, p);
      forall x :: x in o.tree && x !in tree ==> Inside(x, k) && p.segs != [] && IsName(p.segs[|p.segs| - 1])
    decreases |p.segs|, 1
  {
    var s, k := Render(p), Locate(env.cwd, p);
    ResolveRender(env.cwd, p);
    if Stat(env, tree, "mkdir", s).Err? && p.segs != [] {
      var n := |p.segs|;
      LastElemRender(p);
      if n > 1 {
        MkdirAllUpOnTheWay(env, tree, p);
      } else {
        ParentCutSingle(p);
      }
      MkdirAllLast(env, tree, s);
    }
  }

  /** The part of os.MkdirAll's work on a clean path of two or more
      elements done by its recursive call stays on the way too. */
  lemma {:induction false} MkdirAllUpOnTheWay(env: Env, tree: Tree, p: Path)
    requires WellFormed(env, tree) && IsClean(p) && |p.segs| > 1
    ensures var s, k := Render(p), Locate(env.cwd, p);
      var up := MkdirAll(env, tree, s[..ParentCut(s)]);
      && 0 < ParentCut(s) < |s|
      && forall x :: x in up.tree && x !in tree ==> Inside(x, k) && IsName(p.segs[|p.segs| - 1])
    decreases |p.segs|, 0
  {
    var n, k := |p.segs|, Locate(env.cwd, p);
    var pf := Path(p.rooted, p.segs[..n - 1]);
    var kf := Locate(env.cwd, pf);
    ParentCutLong(p);
    MkdirAllOnTheWay(env, tree, pf);
    var up := MkdirAll(env, tree, Render(pf));
    forall x | x in up.tree && x !in tree
      ensures Inside(x, k) && IsName(p.segs[n - 1])
    {
      assert pf.segs[n - 2] == p.segs[n - 2];
      LocateSnoc(env.cwd, p);
      assert k[..|x|] == kf[..|x|];
    }
  }

  /** os.MkdirAll of a clean path shorter than PATH_MAX leaves its location
      a directory when nothing on the way to it is a file and no missing
      location on the way is denied. */
  lemma {:induction false} MkdirAllMakes(env: Env, tree: Tree, p: Path)
    requires WellFormed(env, tree) && IsClean(p) && |Render(p)| < PathMax
    requires var k := Locate(env.cwd, p);
      forall i :: 0 <= i <= |k| ==>
        (k[..i] in tree ==> tree[k[..i]] == Directory) && (k[..i] !in tree ==> k[..i] !in env.denied)
    ensures var o, k := MkdirAll(env, tree, Render(p)), Locate(env.cwd, p);
      o.err.None? && k in o.tree && o.tree[k] == Directory
    decreases |p.segs|, 1
  {
    var k := Locate(env.cwd, p);
    ResolveRender(env.cwd, p);
    assert k[..|k|] == k;
    var n := |p.segs|;
    if p.segs == [] {
      assert k == env.cwd || k == [];
    } else if p.segs[n - 1] == ".." {
      UpsExist(env, tree, p);
    } else if k !in tree {
      MkdirAllMakesNew(env, tree, p);
    }
  }

  /** The case of MkdirAllMakes where the location is missing: the path
      ends in a name, the recursive call makes the parent, and os.Mkdir
      adds the location. */
  lemma {:induction false} MkdirAllMakesNew(env: Env, tree: Tree, p: Path)
    requires WellFormed(env, tree) && IsClean(p) && |Render(p)| < PathMax
    requires p.segs != [] && IsName(p.segs[|p.segs| - 1]) && Locate(env.cwd, p) !in tree
    requires var k := Locate(env.cwd, p);
      forall i :: 0 <= i <= |k| ==>
        (k[..i] in tree ==> tree[k[..i]] == Directory) && (k[..i] !in tree ==> k[..i] !in env.denied)
    ensures var o, k := MkdirAll(env, tree, Render(p)), Locate(env.cwd, p);
      o.err.None? && k in o.tree && o.tree[k] == Directory
    decreases |p.segs|, 0
  {
    var k := Locate(env.cwd, p);
    var n := |p.segs|;
    var pf := Path(p.rooted, p.segs[..n - 1]);
    var kf := Locate(env.cwd, pf);
    LocateSnoc(env.cwd, p);
    assert k[..|k| - 1] == kf;
    assert k[..|k|] == k;
    if n > 1 {
      ParentCutLong(p);
      forall i | 0 <= i <= |kf|
        ensures (kf[..i] in tree ==> tree[kf[..i]] == Directory) && (kf[..i] !in tree ==> kf[..i] !in env.denied)
      {
        assert kf[..i] == k[..i];
      }
      MkdirAllMakes(env, tree, pf);
      MkdirAllOnTheWay(env, tree, pf);
      var up := MkdirAll(env, tree, Render(pf));
      assert k !in up.tree;
      MkdirAfterParent(env, up.tree, p);
    } else {
      ParentCutSingle(p);
      assert kf == env.cwd || kf == [];
      MkdirAfterParent(env, tree, p);
    }
    ResolveRender(env.cwd, p);
  }

  /** os.Mkdir of a clean path ending in a name succeeds once the parent
      is a directory, when the location is new and permitted. */
  lemma MkdirAfterParent(env: Env, t: Tree, p: Path)
    requires IsKey(env.cwd) && IsClean(p) && p.segs != [] && IsName(p.segs[|p.segs| - 1]) && |Render(p)| < PathMax
    requires var k := Locate(env.cwd, p);
      var kf := Locate(env.cwd, Path(p.rooted, p.segs[..|p.segs| - 1]));
      kf in t && t[kf] == Directory && k !in t && k !in env.denied
    ensures Mkdir(env, t, Render(p)) == Outcome(t[Locate(env.cwd, p) := Directory], None)
  {
    var k := Locate(env.cwd, p);
    LocateSnoc(env.cwd, p);
    assert k[..|k| - 1] == Locate(env.cwd, Path(p.rooted, p.segs[..|p.segs| - 1]));
    ResolveRender(env.cwd, p);
    LastElemRender(p);
    DirCutIsRenderSep(p);
  }

  /** The destination the confinement lemmas assume: an existing directory
      that is neither the working directory nor one of its ancestors. */
  predicate FreshDest(env: Env, tree: Tree, dest: string)
  {
    var d := Resolve(env.cwd, dest);
    d in tree && tree[d] == Directory && !(|d| <= |env.cwd| && env.cwd[..|d|] == d)
  }

  /** One entry, extracted under such a destination, changes nothing
      outside it. */
  lemma ExtractEntryConfined(env: Env, tree: Tree, dest: string, e: Entry)
    requires WellFormed(env, tree) && FreshDest(env, tree, dest)
    ensures var o := ExtractEntry(env, tree, dest, e);
      WellFormed(env, o.tree) && FramedUnder(tree, o.tree, Resolve(env.cwd, dest))
  {
    if Admits(dest, e.name) {
      if e.isDir {
        ExtractDirConfined(env, tree, dest, e);
      } else {
        ExtractFileConfined(env, tree, dest, e);
      }
    }
  }

  lemma ExtractDirConfined(env: Env, tree: Tree, dest: string, e: Entry)
    requires WellFormed(env, tree) && FreshDest(env, tree, dest)
    requires Admits(dest, e.name) && e.isDir
    ensures var o := ExtractEntry(env, tree, dest, e);
      WellFormed(env, o.tree) && FramedUnder(tree, o.tree, Resolve(env.cwd, dest))
  {
    var x := Path(IsRooted(dest), JoinedSegs(dest, e.name));
    AdmitsExactly(dest, e.name);
    JoinParse(dest, e.name);
    AdmittedLandsInside(env.cwd, dest, e.name);
    ResolveRender(env.cwd, x);
    MkdirAllBelow(env, tree, x, Resolve(env.cwd, dest));
  }

  lemma ExtractFileConfined(env: Env, tree: Tree, dest: string, e: Entry)
    requires WellFormed(env, tree) && FreshDest(env, tree, dest)
    requires Admits(dest, e.name) && !e.isDir
    ensures var o := ExtractEntry(env, tree, dest, e);
      WellFormed(env, o.tree) && FramedUnder(tree, o.tree, Resolve(env.cwd, dest))
  {
    var d := Resolve(env.cwd, dest);
    var path := Join(dest, e.name);
    var p := Dir(path);
    var t1 := MkdirAll(env, tree, p).tree;
    ParentMadeBelow(env, tree, dest, e.name);
    CreateBelow(env, t1, path, e.data, d);
    assert ExtractEntry(env, tree, dest, e) == Create(env, t1, path, e.data);
    FramedUnderTrans(tree, t1, Create(env, t1, path, e.data).tree, d);
  }

  /** Making the parent of an admitted path only adds directories below
      the destination. */
  lemma ParentMadeBelow(env: Env, tree: Tree, dest: string, name: string)
    requires WellFormed(env, tree) && FreshDest(env, tree, dest) && Admits(dest, name)
    ensures var d, j := Resolve(env.cwd, dest), Resolve(env.cwd, Join(dest, name));
      var t1 := MkdirAll(env, tree, Dir(Join(dest, name))).tree;
      WellFormed(env, t1) && FramedUnder(tree, t1, d) && Under(d, j)
  {
    var d := Resolve(env.cwd, dest);
    var x := Path(IsRooted(dest), JoinedSegs(dest, name));
    var j := Resolve(env.cwd, Join(dest, name));
    AdmitsExactly(dest, name);
    JoinParse(dest, name);
    AdmittedLandsInside(env.cwd, dest, name);
    AdmittedDir(env.cwd, dest, name);
    var pf := Path(x.rooted, x.segs[..|x.segs| - 1]);
    DirRender(x);
    ResolveRender(env.cwd, pf);
    var pk := j[..|j| - 1];
    assert pk[..|d|] == j[..|d|];
    MkdirAllBelow(env, tree, pf, d);
  }

  /** os.MkdirAll of a clean path inside an existing directory d only adds
      directories below d. */
  lemma MkdirAllBelow(env: Env, tree: Tree, p: Path, d: Key)
    requires WellFormed(env, tree) && IsClean(p) && d in tree && Inside(d, Locate(env.cwd, p))
    ensures WellFormed(env, MkdirAll(env, tree, Render(p)).tree)
    ensures FramedUnder(tree, MkdirAll(env, tree, Render(p)).tree, d)
  {
    var k := Locate(env.cwd, p);
    var t := MkdirAll(env, tree, Render(p)).tree;
    MkdirAllWellFormed(env, tree, Render(p));
    MkdirAllOnTheWay(env, tree, p);
    forall x | x in t && x !in tree
      ensures Under(d, x)
    {
      InsideSameWay(x, d, k);
      PrefixesExist(env, tree, d);
    }
  }

  /** Two locations on the way to k: one is inside the other. */
  lemma InsideSameWay(x: Key, d: Key, k: Key)
    requires Inside(x, k) && Inside(d, k)
    ensures Inside(x, d) || Under(d, x)
  {
    if |x| <= |d| {
      assert d[..|x|] == k[..|x|];
    } else {
      assert x[..|d|] == k[..|d|];
    }
  }

  lemma PrefixesExist(env: Env, tree: Tree, d: Key)
    requires WellFormed(env, tree) && d in tree
    ensures forall y :: Inside(y, d) ==> y in tree
  {
    forall y | Inside(y, d)
      ensures y in tree
    {
      if |y| < |d| {
        assert y == d[..|y|] && d[..|y|] in tree;
      } else {
        assert y == d[..|d|] == d;
      }
    }
  }

  /** Writing a file strictly below d changes nothing outside d. */
  lemma CreateBelow(env: Env, tree: Tree, s: string, data: Blob, d: Key)
    requires WellFormed(env, tree) && Under(d, Resolve(env.cwd, s))
    ensures WellFormed(env, Create(env, tree, s, data).tree)
    ensures FramedUnder(tree, Create(env, tree, s, data).tree, d)
  {
    CreateWellFormed(env, tree, s, data);
  }

  lemma FramedUnderTrans(t0: Tree, t1: Tree, t2: Tree, d: Key)
    requires FramedUnder(t0, t1, d) && FramedUnder(t1, t2, d)
    ensures FramedUnder(t0, t2, d)
  {
  }

  lemma {:induction false} ExtractAllConfined(env: Env, tree: Tree, dest: string, es: seq<Entry>)
    requires WellFormed(env, tree) && FreshDest(env, tree, dest)
    ensures var o := ExtractAll(env, tree, dest, es);
      WellFormed(env, o.tree) && FramedUnder(tree, o.tree, Resolve(env.cwd, dest))
    decreases |es|
  {
    if es != [] {
      ExtractEntryConfined(env, tree, dest, es[0]);
      var o := ExtractEntry(env, tree, dest, es[0]);
      if o.err.None? {
        ExtractAllConfined(env, o.tree, dest, es[1..]);
      }
    }
  }

  /** The zip-slip guarantee of Unzip: it either leaves the tree as it was,
      or the destination did not exist before, is now a directory, and
      nothing outside it changed. */
  lemma UnzipConfined(env: Env, tree: Tree, zipPath: string, dest: string)
    requires WellFormed(env, tree)
    ensures var o, d := UnzipOutcome(env, tree, zipPath, dest), Resolve(env.cwd, dest);
      && WellFormed(env, o.tree)
      && FramedInside(tree, o.tree, d)
      && (o.tree != tree ==> d !in tree && d in o.tree && o.tree[d] == Directory)
  {
    var d := Resolve(env.cwd, dest);
    if OpenArchive(env, tree, zipPath).Ok? && Mkdir(env, tree, dest).err.None? {
      var es := OpenArchive(env, tree, zipPath).value;
      var t1 := Mkdir(env, tree, dest).tree;
      assert t1 == tree[d := Directory] && d !in tree;
      MkdirWellFormed(env, tree, dest);
      AbsentIsNotAboveCwd(env, tree, d);
      assert FreshDest(env, t1, dest);
      ExtractAllConfined(env, t1, dest, es);
      var t2 := ExtractAll(env, t1, dest, es).tree;
      assert UnzipOutcome(env, tree, zipPath, dest).tree == t2;
      FreshDirThenBelow(tree, t1, t2, d);
    }
  }

  /** Adding a fresh directory d and then changing only what lies below it
      changes nothing outside d, and leaves d a directory. */
  lemma FreshDirThenBelow(t0: Tree, t1: Tree, t2: Tree, d: Key)
    requires d !in t0 && t1 == t0[d := Directory] && FramedUnder(t1, t2, d)
    ensures FramedInside(t0, t2, d) && d in t2 && t2[d] == Directory && t2 != t0
  {
    assert !Under(d, d);
  }

  // ---------------------------------------------------------------------
  // ZipDir and ZipFile

  /** One call filepath.Walk makes to the walker: the path it built, what
      Lstat reported the node to be, and the error it hands over (a failed
      Lstat or directory read). */
  datatype Visit = Visit(path: string, isDir: bool, err: Option<Error>)

  /** What one walker call adds to the archive, and the error it returns. */
  datatype Step = Step(entry: Option<Entry>, err: Option<Error>)

  /** The entries written so far, and the error that ended the walk. */
  datatype Packing = Packing(entries: seq<Entry>, err: Option<Error>)

  /** The archive name of a walked path: path[len(dirPath):], which panics
      when the path is shorter than dirPath. */
  function EntryName(dirPath: string, path: string): (r: Result<string>)
    ensures r.Ok? <==> |dirPath| <= |path|
    ensures r.Ok? ==> path == path[..|dirPath|] + r.value
  {
    if |path| < |dirPath| then Err(Panic(path)) else Ok(path[|dirPath|..])
  }

  /** The walker closure of ZipDir. Directories are skipped; a file is
      opened, named by EntryName and copied. The entry header is written
      before the copy, so a node that turns out to be a directory leaves an
      empty entry behind. */
  function Walker(env: Env, tree: Tree, dirPath: string, v: Visit): (r: Step)
    ensures r.entry.Some? ==> !r.entry.value.isDir
    ensures v.isDir || v.err.Some? ==> r.entry.None?
    ensures v.isDir && v.err.None? ==> r == Step(None, None)
    ensures v.err.Some? ==> r == Step(None, v.err)
    ensures !v.isDir && v.err.None? ==>
      var f := Open(env, tree, v.path);
      && (f.Err? ==> r == Step(None, Some(f.error)))
      && (f.Ok? && |v.path| < |dirPath| ==> r == Step(None, Some(Panic(v.path))))
      && (f.Ok? && |dirPath| <= |v.path| ==>
            && r.entry == Some(Entry(v.path[|dirPath|..], false, if f.value.File? then f.value.content else Bytes([])))
            && (r.err.None? <==> f.value.File?)
            && (f.value.Directory? ==> r.err == Some(PathError("read", v.path, EISDIR))))
  {
    if v.err.Some? then Step(None, v.err)
    else if v.isDir then Step(None, None)
    else
      match Open(env, tree, v.path)
      case Err(e) => Step(None, Some(e))
      case Ok(n) =>
        match EntryName(dirPath, v.path)
        case Err(e) => Step(None, Some(e))
        case Ok(name) =>
          if n.Directory? then Step(Some(Entry(name, false, Bytes([]))), Some(PathError("read", v.path, EISDIR)))
          else Step(Some(Entry(name, false, n.content)), None)
  }

  /** filepath.Walk with the walker: visits in order, stopping at the first
      error the walker returns. */
  function Pack(env: Env, tree: Tree, dirPath: string, visits: seq<Visit>): (p: Packing)
    ensures forall i :: 0 <= i < |p.entries| ==> !p.entries[i].isDir
    decreases |visits|
  {
    if visits == [] then Packing([], None)
    else
      var st := Walker(env, tree, dirPath, visits[0]);
      var head := if st.entry.Some? then [st.entry.value] else [];
      if st.err.Some? then Packing(head, st.err)
      else
        var rest := Pack(env, tree, dirPath, visits[1..]);
        Packing(head + rest.entries, rest.err)
  }

  /** ZipDir(dirPath, zipFilePath): the archive is created empty, the walk
      runs, and the deferred Close calls write the entries made so far,
      whether or not the walk failed. */
  function ZipDirOutcome(env: Env, tree: Tree, dirPath: string, zipPath: string, visits: seq<Visit>): (o: Outcome)
    ensures Create(env, tree, zipPath, Bytes([])).err.Some? ==> o == Create(env, tree, zipPath, Bytes([]))
    ensures Create(env, tree, zipPath, Bytes([])).err.None? ==>
      var t1 := tree[Resolve(env.cwd, zipPath) := File(Bytes([]))];
      var p := Pack(env, t1, dirPath, visits);
      o == Outcome(tree[Resolve(env.cwd, zipPath) := File(Archive(p.entries))], p.err)
  {
    var c := Create(env, tree, zipPath, Bytes([]));
    if c.err.Some? then c
    else
      var p := Pack(env, c.tree, dirPath, visits);
      Outcome(c.tree[Resolve(env.cwd, zipPath) := File(Archive(p.entries))], p.err)
  }

  /** ZipFile(filePath, zipFilePath): one entry named path.Base(filePath). */
  function ZipFileOutcome(env: Env, tree: Tree, filePath: string, zipPath: string): (o: Outcome)
    ensures Create(env, tree, zipPath, Bytes([])).err.Some? ==> o == Create(env, tree, zipPath, Bytes([]))
    ensures Create(env, tree, zipPath, Bytes([])).err.None? ==>
      var z := Resolve(env.cwd, zipPath);
      var f := Open(env, tree[z := File(Bytes([]))], filePath);
      var stored := if f.Ok? then [Entry(Base(filePath), false, if f.value.File? then f.value.content else Bytes([]))] else [];
      && o.tree == tree[z := File(Archive(stored))]
      && (o.err.None? <==> f.Ok? && f.value.File?)
      && (f.Err? ==> o.err == Some(f.error))
      && (f.Ok? && f.value.Directory? ==> o.err == Some(PathError("read", filePath, EISDIR)))
  {
    var c := Create(env, tree, zipPath, Bytes([]));
    if c.err.Some? then c
    else
      var z := Resolve(env.cwd, zipPath);
      match Open(env, c.tree, filePath)
      case Err(e) => Outcome(tree[z := File(Archive([]))], Some(e))
      case Ok(n) =>
        if n.Directory? then
          Outcome(tree[z := File(Archive([Entry(Base(filePath), false, Bytes([]))]))], Some(PathError("read", filePath, EISDIR)))
        else
          Outcome(tree[z := File(Archive([Entry(Base(filePath), false, n.content)]))], None)
  }

  /** The visits that reach the file branch of the walker. */
  function Files(visits: seq<Visit>): (fs: seq<Visit>)
    ensures |fs| <= |visits|
    ensures forall i :: 0 <= i < |fs| ==> !fs[i].isDir && fs[i] in visits
  {
    if visits == [] then []
    else if visits[0].isDir then Files(visits[1..])
    else [visits[0]] + Files(visits[1..])
  }

  /** Packing a + b is packing a and, unless that failed, b after it. */
  lemma {:induction false} PackAppend(env: Env, tree: Tree, dirPath: string, a: seq<Visit>, b: seq<Visit>)
    ensures var pa, pb := Pack(env, tree, dirPath, a), Pack(env, tree, dirPath, b);
      Pack(env, tree, dirPath, a + b) == if pa.err.Some? then pa else Packing(pa.entries + pb.entries, pb.err)
    decreases |a|
  {
    if a == [] {
      assert a + b == b;
    } else {
      PackCons(env, tree, dirPath, a[0], a[1..]);
      assert a == [a[0]] + a[1..];
      PackCons(env, tree, dirPath, a[0], a[1..] + b);
      assert a + b == [a[0]] + (a[1..] + b);
      PackAppend(env, tree, dirPath, a[1..], b);
      LeadThen(Walker(env, tree, dirPath, a[0]), Pack(env, tree, dirPath, a[1..]), Pack(env, tree, dirPath, b));
    }
  }

  /** The packing a walker step puts in front of the rest of the walk. */
  function Lead(st: Step, rest: Packing): Packing
  {
    var head := if st.entry.Some? then [st.entry.value] else [];
    if st.err.Some? then Packing(head, st.err) else Packing(head + rest.entries, rest.err)
  }

  /** The packing that continues with a second walk unless the first failed. */
  function Then(pa: Packing, pb: Packing): Packing
  {
    if pa.err.Some? then pa else Packing(pa.entries + pb.entries, pb.err)
  }

  /** Leading with a step commutes with continuing into a second walk. */
  lemma LeadThen(st: Step, pa: Packing, pb: Packing)
    ensures Lead(st, Then(pa, pb)) == Then(Lead(st, pa), pb)
  {
    if st.err.None? && pa.err.None? {
      var head := if st.entry.Some? then [st.entry.value] else [];
      assert (head + pa.entries) + pb.entries == head + (pa.entries + pb.entries);
    }
  }

  /** One step of the walk: the walker's step on the first visit, then the
      rest of the walk unless that step failed. */
  lemma PackCons(env: Env, tree: Tree, dirPath: string, v: Visit, rest: seq<Visit>)
    ensures Pack(env, tree, dirPath, [v] + rest) == Lead(Walker(env, tree, dirPath, v), Pack(env, tree, dirPath, rest))
  {
    assert ([v] + rest)[0] == v && ([v] + rest)[1..] == rest;
  }

  /** A walk that ends without error yields exactly one entry per visited
      file, in visit order, named by the raw slice of its path and holding
      the file's contents; directories yield none. */
  lemma {:induction false} PackedFiles(env: Env, tree: Tree, dirPath: string, visits: seq<Visit>)
    requires Pack(env, tree, dirPath, visits).err.None?
    ensures var es, fs := Pack(env, tree, dirPath, visits).entries, Files(visits);
      && |es| == |fs|
      && forall i :: 0 <= i < |fs| ==>
           && |dirPath| <= |fs[i].path|
           && var k := Resolve(env.cwd, fs[i].path);
              k in tree && tree[k].File?
              && es[i] == Entry(fs[i].path[|dirPath|..], false, tree[k].content)
    decreases |visits|
  {
    if visits != [] {
      var v, rest := visits[0], visits[1..];
      PackedFiles(env, tree, dirPath, rest);
      var es, fs := Pack(env, tree, dirPath, rest).entries, Files(rest);
      if v.isDir {
        assert Files(visits) == fs && Pack(env, tree, dirPath, visits).entries == es;
      } else {
        var k := Resolve(env.cwd, v.path);
        var e := Entry(v.path[|dirPath|..], false, tree[k].content);
        assert Walker(env, tree, dirPath, v) == Step(Some(e), None);
        assert Files(visits) == [v] + fs;
        assert Pack(env, tree, dirPath, visits).entries == [e] + es;
      }
    }
  }

  // ---------------------------------------------------------------------
  // How ZipDir's names come back out of Unzip

  lemma ConcatAppend(a: seq<string>, b: seq<string>)
    requires a != [] && b != []
    ensures Concat(a + b) == Concat(a) + [Sep] + Concat(b)
    decreases |a|
  {
    if |a| == 1 {
      assert (a + b)[1..] == b;
    } else {
      assert (a + b)[1..] == a[1..] + b;
      ConcatAppend(a[1..], b);
    }
  }

  /** Walking a clean directory path that has at least one element, the
      walk builds filepath.Join(dirPath, rel), which is dirPath, a separator
      and rel: the raw slice is rel with a leading separator. */
  lemma WalkedName(dirPath: string, names: seq<string>)
    requires dirPath == Clean(dirPath) && Parse(dirPath).segs != []
    requires names != [] && IsKey(names)
    ensures Join(dirPath, Concat(names)) == dirPath + [Sep] + Concat(names)
    ensures |dirPath| <= |Join(dirPath, Concat(names))|
    ensures Join(dirPath, Concat(names))[|dirPath|..] == [Sep] + Concat(names)
  {
    var q := Parse(dirPath);
    ParseExtend(dirPath, names);
    RenderExtend(q, names);
    var path := dirPath + [Sep] + Concat(names);
    assert path[|dirPath|..] == [Sep] + Concat(names);
  }

  /** Appending names to a path string appends them to its parse. */
  lemma ParseExtend(s: string, names: seq<string>)
    requires s != "" && names != [] && IsKey(names)
    ensures Parse(s + [Sep] + Concat(names)) == Path(IsRooted(s), Parse(s).segs + names)
  {
    var r := IsRooted(s);
    var t := s + [Sep] + Concat(names);
    assert t[0] == s[0];
    SplitAppend(s, Concat(names));
    SplitConcat(names);
    assert Split(t) == Split(s) + names;
    ReduceAppend(r, [], Split(s), names);
    ReduceNames(r, Parse(s).segs, names);
  }

  lemma RenderExtend(q: Path, names: seq<string>)
    requires q.segs != [] && names != []
    ensures Render(Path(q.rooted, q.segs + names)) == Render(q) + [Sep] + Concat(names)
  {
    ConcatAppend(q.segs, names);
  }

  /** A name that starts with a separator is joined as if the separator were
      not there: it lands below dest, element by element. */
  lemma LeadingSepJoins(cwd: seq<string>, dest: string, names: seq<string>, name: string)
    requires IsKey(cwd) && dest != "" && Parse(dest).segs != []
    requires names != [] && IsKey(names) && name == [Sep] + Concat(names)
    ensures Admits(dest, name)
    ensures Resolve(cwd, Join(dest, name)) == Resolve(cwd, dest) + names
  {
    var q := Parse(dest);
    SplitConcat(names);
    assert name[0] == Sep && name[1..] == Concat(names);
    assert Split(name) == [""] + names;
    ReduceNames(q.rooted, q.segs, names);
    assert JoinedSegs(dest, name) == q.segs + names;
    AdmitsExactly(dest, name);
    JoinParse(dest, name);
    ResolveRender(cwd, Path(q.rooted, q.segs + names));
    ResolveParse(cwd, dest);
    ReduceAppend(true, if q.rooted then [] else cwd, q.segs, names);
    ReduceNames(true, Locate(cwd, q), names);
  }

  /** The name round trip of ZipDir and Unzip: a file the walk reaches at
      rel below a clean dirPath is stored under a name that Unzip admits and
      writes at rel below dest. */
  lemma PackedNameExtractsTo(cwd: seq<string>, dirPath: string, names: seq<string>, dest: string)
    requires IsKey(cwd)
    requires dirPath == Clean(dirPath) && Parse(dirPath).segs != []
    requires names != [] && IsKey(names)
    requires dest != "" && Parse(dest).segs != []
    ensures var path := Join(dirPath, Concat(names));
      && |dirPath| <= |path|
      && Admits(dest, path[|dirPath|..])
      && Resolve(cwd, Join(dest, path[|dirPath|..])) == Resolve(cwd, dest) + names
  {
    WalkedName(dirPath, names);
    LeadingSepJoins(cwd, dest, names, Join(dirPath, Concat(names))[|dirPath|..]);
  }

  /** A plain name joined under a destination with elements is admitted
      and names the child of that name. */
  lemma PlainNameJoins(cwd: seq<string>, dest: string, name: string)
    requires IsKey(cwd) && dest != "" && Parse(dest).segs != [] && IsName(name)
    ensures Admits(dest, name)
    ensures Resolve(cwd, Join(dest, name)) == Resolve(cwd, dest) + [name]
  {
    var q := Parse(dest);
    SplitNoSep(name);
    ReduceNames(q.rooted, q.segs, [name]);
    assert JoinedSegs(dest, name) == q.segs + [name];
    AdmitsExactly(dest, name);
    JoinParse(dest, name);
    ResolveRender(cwd, Path(q.rooted, q.segs + [name]));
    ResolveParse(cwd, dest);
    ReduceAppend(true, if q.rooted then [] else cwd, q.segs, [name]);
    ReduceNames(true, Locate(cwd, q), [name]);
  }

  /** A path that can name a file ends in a name, which path.Base returns. */
  lemma BaseOfFilePath(s: string)
    requires s != "" && !NamesDir(s)
    ensures Base(s) == LastElem(s) && IsName(Base(s))
  {
    LastElemAt(s);
    assert s[|s| - 1] == LastElem(s)[|LastElem(s)| - 1];
    assert TrimTrailingSeps(s) == s;
    BaseIsLastElement(s);
  }

  /** A destination os.Mkdir can make is not empty and does not clean to
      "." or "/", which always exist. */
  lemma MadeDestHasElements(env: Env, tree: Tree, dest: string)
    requires WellFormed(env, tree) && Mkdir(env, tree, dest).err.None?
    ensures dest != "" && Parse(dest).segs != []
  {
    ResolveParse(env.cwd, dest);
    assert Parse(dest).segs == [] ==> Resolve(env.cwd, dest) in tree;
  }

  /** The round trip of ZipFile and Unzip: when ZipFile succeeds and Unzip
      of its archive makes the destination, the file comes back under its
      path.Base name inside the destination, holding the bytes ZipFile
      read, provided that location is permitted and its joined path shorter
      than PATH_MAX. */
  lemma ZipFileUnzipRoundTrip(env: Env, tree: Tree, filePath: string, zipPath: string, dest: string)
    requires WellFormed(env, tree)
    requires ZipFileOutcome(env, tree, filePath, zipPath).err.None?
    requires Mkdir(env, ZipFileOutcome(env, tree, filePath, zipPath).tree, dest).err.None?
    requires |Join(dest, Base(filePath))| < PathMax && Resolve(env.cwd, dest) + [Base(filePath)] !in env.denied
    ensures var z := Resolve(env.cwd, zipPath);
      var read := Open(env, tree[z := File(Bytes([]))], filePath);
      var o := UnzipOutcome(env, ZipFileOutcome(env, tree, filePath, zipPath).tree, zipPath, dest);
      var k := Resolve(env.cwd, dest) + [Base(filePath)];
      && read.Ok? && read.value.File?
      && o.err.None? && k in o.tree && o.tree[k] == read.value
  {
    var z := Resolve(env.cwd, zipPath);
    var read := Open(env, tree[z := File(Bytes([]))], filePath);
    ZipFileStored(env, tree, filePath, zipPath);
    BaseOfFilePath(filePath);
    UnzipOneFile(env, ZipFileOutcome(env, tree, filePath, zipPath).tree, zipPath, dest,
      Entry(Base(filePath), false, read.value.content));
  }

  /** What a successful ZipFile leaves: a well-formed tree whose archive
      holds the one entry made from the file it read. */
  lemma ZipFileStored(env: Env, tree: Tree, filePath: string, zipPath: string)
    requires WellFormed(env, tree)
    requires ZipFileOutcome(env, tree, filePath, zipPath).err.None?
    ensures var z := Resolve(env.cwd, zipPath);
      var read := Open(env, tree[z := File(Bytes([]))], filePath);
      var t1 := ZipFileOutcome(env, tree, filePath, zipPath).tree;
      && read.Ok? && read.value.File? && filePath != "" && !NamesDir(filePath)
      && WellFormed(env, t1)
      && OpenArchive(env, t1, zipPath) == Ok([Entry(Base(filePath), false, read.value.content)])
  {
    var z := Resolve(env.cwd, zipPath);
    var c := Create(env, tree, zipPath, Bytes([]));
    var read := Open(env, c.tree, filePath);
    CreateWellFormed(env, tree, zipPath, Bytes([]));
    var e := Entry(Base(filePath), false, read.value.content);
    OverwriteWellFormed(env, c.tree, z, Archive([e]));
  }

  /** Unzip of an archive holding one file entry with a plain name, into a
      destination os.Mkdir can make, writes the file inside it. */
  lemma UnzipOneFile(env: Env, t1: Tree, zipPath: string, dest: string, e: Entry)
    requires WellFormed(env, t1) && OpenArchive(env, t1, zipPath) == Ok([e])
    requires !e.isDir && IsName(e.name) && Mkdir(env, t1, dest).err.None?
    requires |Join(dest, e.name)| < PathMax && Resolve(env.cwd, dest) + [e.name] !in env.denied
    ensures var o, k := UnzipOutcome(env, t1, zipPath, dest), Resolve(env.cwd, dest) + [e.name];
      o.err.None? && k in o.tree && o.tree[k] == File(e.data)
  {
    var t2 := Mkdir(env, t1, dest).tree;
    MadeDestReady(env, t1, dest, e.name);
    ExtractFileWrites(env, t2, dest, e);
    var o := ExtractEntry(env, t2, dest, e);
    assert [e][1..] == [];
    assert ExtractAll(env, t2, dest, [e]) == ExtractAll(env, o.tree, dest, []);
  }

  /** A destination os.Mkdir has just made is fresh, and a plain name
      joined under it is admitted and names a new child whose ancestors
      are all directories. */
  lemma MadeDestReady(env: Env, t1: Tree, dest: string, name: string)
    requires WellFormed(env, t1) && Mkdir(env, t1, dest).err.None? && IsName(name)
    ensures var t2, d := Mkdir(env, t1, dest).tree, Resolve(env.cwd, dest);
      && WellFormed(env, t2) && FreshDest(env, t2, dest) && Admits(dest, name)
      && Resolve(env.cwd, Join(dest, name)) == d + [name] && d + [name] !in t2
      && forall i :: 0 <= i < |d| + 1 ==> (d + [name])[..i] in t2 && t2[(d + [name])[..i]] == Directory
  {
    var d := Resolve(env.cwd, dest);
    var t2 := t1[d := Directory];
    MkdirWellFormed(env, t1, dest);
    MadeDestHasElements(env, t1, dest);
    AbsentIsNotAboveCwd(env, t1, d);
    PlainNameJoins(env.cwd, dest, name);
    var j := d + [name];
    AbsentHasNoDescendants(env, t1, d, j);
    forall i | 0 <= i < |j|
      ensures j[..i] in t2 && t2[j[..i]] == Directory
    {
      assert j[..i] == d[..i];
      if i < |d| {
        assert d[..i] in t1;
      }
    }
  }

  /** The raw slice is only right for a clean dirPath: the walk of "./src"
      builds "src/a.txt", and the slice drops one character too many,
      storing the file as ".txt". */
  lemma UncleanDirPathMangles()
    ensures Join("./src", "a.txt") == "src/a.txt"
    ensures EntryName("./src", "src/a.txt") == Ok(".txt")
  {
    assert "./src" == "." + [Sep] + "src";
    assert "src/a.txt" == "src" + [Sep] + "a.txt";
    MangledName(".", "src", "a.txt");
  }

  /** For dirPath `.` the walk builds `a.txt` (filepath.Join drops the
      `.`), and the slice cuts its first character. */
  lemma DotDirPathMangles()
    ensures Join(".", "a.txt") == "a.txt"
    ensures EntryName(".", "a.txt") == Ok(".txt")
  {
    DotJoin(".", "a.txt");
  }

  lemma DotJoin(dot: string, file: string)
    requires dot == "." && file == "a.txt"
    ensures Join(dot, file) == file
  {
    var s := dot + [Sep] + file;
    SplitNoSep(dot);
    SplitNoSep(file);
    SplitAppend(dot, file);
    assert Split(s) == [dot, file];
    assert s[0] == '.';
    assert Push(false, [], dot) == [];
    assert Push(false, [], file) == [file];
    assert [dot, file][1..] == [file];
    assert Reduce(false, [], [dot, file]) == Reduce(false, [], [file]);
    assert Reduce(false, [], [file]) == Reduce(false, [file], [file][1..]);
    assert Parse(s) == Path(false, [file]);
  }

  lemma MangledName(dot: string, src: string, file: string)
    requires dot == "." && src == "src" && file == "a.txt"
    ensures Join(dot + [Sep] + src, file) == src + [Sep] + file
  {
    var s := dot + [Sep] + src + [Sep] + file;
    SplitNoSep(dot);
    SplitNoSep(src);
    SplitNoSep(file);
    SplitAppend(dot + [Sep] + src, file);
    SplitAppend(dot, src);
    assert Split(s) == [dot, src, file];
    assert s[0] == '.';
    assert Push(false, [], dot) == [];
    assert Push(false, [], src) == [src];
    assert Push(false, [src], file) == [src, file];
    assert [dot, src, file][1..] == [src, file];
    assert [src, file][1..] == [file];
    assert Reduce(false, [], [dot, src, file]) == Reduce(false, [], [src, file]);
    assert Reduce(false, [], [src, file]) == Reduce(false, [src], [file]);
    assert Reduce(false, [src], [file]) == Reduce(false, [src, file], [file][1..]);
    assert Parse(s) == Path(false, [src, file]);
    assert Concat([src, file]) == src + [Sep] + Concat([src, file][1..]);
  }
}
