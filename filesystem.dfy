/** The part of the operating system that disk.go calls through the os
    package: a tree of directories and files addressed by absolute keys,
    os.Open, os.Mkdir, os.MkdirAll and os.OpenFile with
    create-and-truncate, with the errors they report. */
module FileSystem {
  import opened Paths

  /** Linux PATH_MAX, counting the terminating NUL: a path string of this
      length or more is refused with ENAMETOOLONG. */
  const PathMax: nat := 4096

  newtype byte = x: int | 0 <= x < 256

  /** What a file holds: plain bytes, or a well-formed zip archive, kept as
      the list of its entries (the DEFLATE format is not modelled). */
  datatype Blob = Bytes(bytes: seq<byte>) | Archive(entries: seq<Entry>)

  /** One member of a zip archive: its name as stored, whether its header
      marks it as a directory, and its uncompressed contents. */
  datatype Entry = Entry(name: string, isDir: bool, data: Blob)

  datatype Node = File(content: Blob) | Directory

  /** An absolute location: the names from the root down. */
  type Key = seq<string>

  type Tree = map<Key, Node>

  datatype Errno = ENOENT | EEXIST | ENOTDIR | EISDIR | EACCES | ENAMETOOLONG

  /** The errors the operations report. A run-time panic of the source
      (a slice out of range) is reported as Panic: it ends the operation at
      that point, after the deferred Close calls have run. */
  datatype Error =
    | PathError(op: string, path: string, errno: Errno)
    | NotAnArchive(path: string)
    | IllegalFilePath(path: string)
    | CopyIntoItself
    | SourceNotDirectory(name: string)
    | Panic(path: string)

  datatype Option<T> = None | Some(value: T)

  datatype Result<T> = Ok(value: T) | Err(error: Error)

  /** The tree after an operation, and the error it returned. */
  datatype Outcome = Outcome(tree: Tree, err: Option<Error>)

  /** The process: its working directory, and the locations it may not open
      or create (standing for every permission and I/O failure). */
  datatype Env = Env(cwd: Key, denied: set<Key>)

  /** os.IsNotExist. */
  predicate IsNotExist(e: Error)
  {
    e.PathError? && e.errno == ENOENT
  }

  /** k is a or lies below it. */
  predicate Inside(a: Key, k: Key)
  {
    |a| <= |k| && k[..|a|] == a
  }

  /** k lies strictly below a. */
  predicate Under(a: Key, k: Key)
  {
    |a| < |k| && k[..|a|] == a
  }

  /** A tree as the kernel keeps it: the root is a directory, every location
      is made of names and every ancestor of it is a directory, and the
      working directory exists. */
  predicate WellFormed(env: Env, tree: Tree)
  {
    && [] in tree && tree[[]] == Directory
    && (forall k :: k in tree ==> IsKey(k))
    && (forall k, i :: k in tree && 0 <= i < |k| ==> k[..i] in tree && tree[k[..i]] == Directory)
    && env.cwd in tree && tree[env.cwd] == Directory
  }

  /** Nothing outside the subtree at a changed. */
  ghost predicate FramedInside(t0: Tree, t1: Tree, a: Key)
  {
    forall k :: !Inside(a, k) ==> (k in t0 <==> k in t1) && (k in t0 ==> t0[k] == t1[k])
  }

  /** Nothing outside the part strictly below a changed. */
  ghost predicate FramedUnder(t0: Tree, t1: Tree, a: Key)
  {
    forall k :: !Under(a, k) ==> (k in t0 <==> k in t1) && (k in t0 ==> t0[k] == t1[k])
  }

  lemma FramedInsideTrans(t0: Tree, t1: Tree, t2: Tree, a: Key)
    requires FramedInside(t0, t1, a) && FramedInside(t1, t2, a)
    ensures FramedInside(t0, t2, a)
  {
  }

  /** A change confined to the subtree at b is confined to any subtree
      that contains b. */
  lemma FramedInsideWiden(t0: Tree, t1: Tree, a: Key, b: Key)
    requires Inside(a, b) && FramedInside(t0, t1, b)
    ensures FramedInside(t0, t1, a)
  {
    forall k | !Inside(a, k)
      ensures !Inside(b, k)
    {
      if |b| <= |k| {
        assert k[..|a|] == k[..|b|][..|a|];
      }
    }
  }

  lemma FramedInsideStore(t: Tree, a: Key, n: Node)
    ensures FramedInside(t, t[a := n], a)
  {
  }

  // ---------------------------------------------------------------------
  // Finding the node a path names

  /** The key a path string names: the empty string names nothing, and an
      over-long one is refused before it is looked at. */
  function Lookup(env: Env, op: string, s: string): (r: Result<Key>)
    ensures r.Ok? <==> s != "" && |s| < PathMax
    ensures r.Err? ==> r.error.PathError? && r.error.path == s
  {
    if s == "" then Err(PathError(op, s, ENOENT))
    else if |s| >= PathMax then Err(PathError(op, s, ENAMETOOLONG))
    else Ok(Resolve(env.cwd, s))
  }

  /** Why a location that is not in the tree cannot be reached: ENOTDIR when
      its nearest existing ancestor is a file, ENOENT otherwise. */
  function Missing(tree: Tree, k: Key): (e: Errno)
    requires k !in tree
    ensures e == ENOENT || e == ENOTDIR
    decreases |k|
  {
    if k == [] then ENOENT
    else if k[..|k| - 1] in tree then
      if tree[k[..|k| - 1]] == Directory then ENOENT else ENOTDIR
    else Missing(tree, k[..|k| - 1])
  }

  /** Under a well-formed tree, a missing location is reported as ENOTDIR
      exactly when a file stands on the way to it. */
  lemma {:induction false} MissingIsNotDir(env: Env, tree: Tree, k: Key)
    requires WellFormed(env, tree) && k !in tree
    ensures Missing(tree, k) == ENOTDIR <==> exists i :: 0 <= i < |k| && k[..i] in tree && tree[k[..i]].File?
    decreases |k|
  {
    if k != [] {
      var p := k[..|k| - 1];
      if p in tree {
        if tree[p] == Directory {
          forall i | 0 <= i < |k| && k[..i] in tree
            ensures tree[k[..i]] == Directory
          {
            if i < |p| {
              assert k[..i] == p[..i];
            }
          }
        } else {
          assert k[..|k| - 1] == p;
        }
      } else {
        MissingIsNotDir(env, tree, p);
        forall i | 0 <= i < |p|
          ensures k[..i] == p[..i]
        {
        }
      }
    }
  }

  /** A path whose last element is empty (a trailing separator), "." or
      "..": the kernel resolves it only to a directory. */
  predicate NamesDir(s: string)
  {
    var last := LastElem(s);
    last == "" || last == "." || last == ".."
  }

  /** A path whose last element is "." or "..": it names an existing
      directory or nothing, never an entry to make. */
  predicate DotLast(s: string)
  {
    LastElem(s) == "." || LastElem(s) == ".."
  }

  /** os.Stat: the node a path names, whatever the permissions on it. A
      file cannot be named by a path that names only a directory. */
  function Stat(env: Env, tree: Tree, op: string, s: string): (r: Result<Node>)
    ensures r.Ok? <==>
      && Lookup(env, op, s).Ok?
      && var k := Resolve(env.cwd, s);
         k in tree && (NamesDir(s) ==> tree[k] == Directory)
    ensures r.Ok? ==> r.value == tree[Resolve(env.cwd, s)]
    ensures r.Err? ==> r.error.PathError? && r.error.path == s
  {
    match Lookup(env, op, s)
    case Err(e) => Err(e)
    case Ok(k) =>
      if k !in tree then Err(PathError(op, s, Missing(tree, k)))
      else if NamesDir(s) && tree[k].File? then Err(PathError(op, s, ENOTDIR))
      else Ok(tree[k])
  }

  /** os.Open followed by Stat: the node a readable path names. A directory
      opens too; reading it is what fails. */
  function Open(env: Env, tree: Tree, s: string): (r: Result<Node>)
    ensures r.Ok? <==>
      && Lookup(env, "open", s).Ok?
      && var k := Resolve(env.cwd, s);
         k in tree && k !in env.denied && (NamesDir(s) ==> tree[k] == Directory)
    ensures r.Ok? ==> r.value == tree[Resolve(env.cwd, s)]
    ensures r.Err? ==> r.error.PathError? && r.error.path == s
  {
    match Stat(env, tree, "open", s)
    case Err(e) => Err(e)
    case Ok(n) => if Resolve(env.cwd, s) in env.denied then Err(PathError("open", s, EACCES)) else Ok(n)
  }

  // ---------------------------------------------------------------------
  // Changing the tree

  /** The error for making a node at k, a location not in the tree, or None
      when its parent is a directory the process may add k to. */
  function CreateError(env: Env, tree: Tree, op: string, s: string, k: Key): Option<Error>
    requires k !in tree
  {
    if k == [] then Some(PathError(op, s, EEXIST))
    else if k[..|k| - 1] !in tree then Some(PathError(op, s, Missing(tree, k[..|k| - 1])))
    else if tree[k[..|k| - 1]] != Directory then Some(PathError(op, s, ENOTDIR))
    else if k in env.denied then Some(PathError(op, s, EACCES))
    else None
  }

  /** os.Mkdir: makes one directory whose parent exists. A trailing
      separator is allowed; a path ending in "." or ".." has no entry to
      make. */
  function Mkdir(env: Env, tree: Tree, s: string): (o: Outcome)
    ensures o.err.None? <==>
      && Lookup(env, "mkdir", s).Ok? && !DotLast(s)
      && var k := Resolve(env.cwd, s);
         k !in tree && k != [] && k[..|k| - 1] in tree && tree[k[..|k| - 1]] == Directory && k !in env.denied
    ensures o.err.None? ==> o.tree == tree[Resolve(env.cwd, s) := Directory]
    ensures o.err.Some? ==> o.tree == tree
  {
    match Lookup(env, "mkdir", s)
    case Err(e) => Outcome(tree, Some(e))
    case Ok(k) =>
      if k in tree then
        Outcome(tree, Some(PathError("mkdir", s, if DotLast(s) && tree[k].File? then ENOTDIR else EEXIST)))
      else if DotLast(s) then Outcome(tree, Some(PathError("mkdir", s, Missing(tree, k))))
      else
        var e := CreateError(env, tree, "mkdir", s, k);
        if e.Some? then Outcome(tree, e) else Outcome(tree[k := Directory], None)
  }

  /** The length of the parent string os.MkdirAll recurses on: s without
      its trailing separators, cut before its last separator; 0 when there
      is no parent string. */
  function ParentCut(s: string): (i: nat)
    ensures i == 0 || i < |s|
  {
    var t := TrimTrailingSeps(s);
    var a := AfterLastSep(t);
    if a > 0 then a - 1 else 0
  }

  /** os.MkdirAll(s): nothing to do when s names a directory, ENOTDIR when
      it names something else; otherwise the parent string is made first and
      then s with os.Mkdir, whose failure is forgiven when s names a
      directory by then. A path of PATH_MAX characters or more cannot be
      looked at, so its shorter ancestors are still made before it fails. */
  function MkdirAll(env: Env, tree: Tree, s: string): (o: Outcome)
    ensures forall x :: x in tree ==> x in o.tree && o.tree[x] == tree[x]
    ensures forall x :: x in o.tree && x !in tree ==> o.tree[x] == Directory
    ensures o.err.None? ==> Resolve(env.cwd, s) in o.tree && o.tree[Resolve(env.cwd, s)] == Directory
    decreases |s|
  {
    match Stat(env, tree, "mkdir", s)
    case Ok(n) =>
      if n == Directory then Outcome(tree, None) else Outcome(tree, Some(PathError("mkdir", s, ENOTDIR)))
    case Err(_) =>
      var i := ParentCut(s);
      var up := if i > 0 then MkdirAll(env, tree, s[..i]) else Outcome(tree, None);
      if up.err.Some? then up
      else
        var m := Mkdir(env, up.tree, s);
        if m.err.Some? && Stat(env, up.tree, "mkdir", s) == Ok(Directory) then Outcome(up.tree, None) else m
  }

  /** Why writing a file fails at a path that names only a directory: after
      a trailing separator the parent is walked and EISDIR reported; after
      "." or ".." the location itself is walked, and a directory there gives
      EISDIR. */
  function DirOnlyCreateErrno(tree: Tree, s: string, k: Key): Errno
  {
    if LastElem(s) == "" then
      if k in tree || k == [] then EISDIR
      else if k[..|k| - 1] !in tree then Missing(tree, k[..|k| - 1])
      else if tree[k[..|k| - 1]].File? then ENOTDIR
      else EISDIR
    else if k !in tree then Missing(tree, k)
    else if tree[k].File? then ENOTDIR
    else EISDIR
  }

  /** os.OpenFile(s, O_WRONLY|O_CREATE|O_TRUNC) followed by writing data:
      an existing file is overwritten, a missing one is made in an existing
      directory, and a directory, or a path that names only one, is
      refused. */
  function Create(env: Env, tree: Tree, s: string, data: Blob): (o: Outcome)
    ensures o.err.None? <==>
      && Lookup(env, "open", s).Ok? && !NamesDir(s)
      && var k := Resolve(env.cwd, s);
         k !in env.denied
         && if k in tree then tree[k].File?
            else k != [] && k[..|k| - 1] in tree && tree[k[..|k| - 1]] == Directory
    ensures o.err.None? ==> o.tree == tree[Resolve(env.cwd, s) := File(data)]
    ensures o.err.Some? ==> o.tree == tree
  {
    match Lookup(env, "open", s)
    case Err(e) => Outcome(tree, Some(e))
    case Ok(k) =>
      if NamesDir(s) then Outcome(tree, Some(PathError("open", s, DirOnlyCreateErrno(tree, s, k))))
      else if k in tree then
        if tree[k] == Directory then Outcome(tree, Some(PathError("open", s, EISDIR)))
        else if k in env.denied then Outcome(tree, Some(PathError("open", s, EACCES)))
        else Outcome(tree[k := File(data)], None)
      else
        var e := CreateError(env, tree, "open", s, k);
        if e.Some? then Outcome(tree, e) else Outcome(tree[k := File(data)], None)
  }

  // ---------------------------------------------------------------------
  // Well-formedness

  /** A location that does not exist in a well-formed tree is neither the
      working directory nor one of its ancestors. */
  lemma AbsentIsNotAboveCwd(env: Env, tree: Tree, k: Key)
    requires WellFormed(env, tree) && k !in tree
    ensures !(|k| <= |env.cwd| && env.cwd[..|k|] == k)
  {
    if |k| == |env.cwd| {
      assert env.cwd[..|k|] == env.cwd;
    }
  }

  /** Nothing lies below a location that does not exist. */
  lemma AbsentHasNoDescendants(env: Env, tree: Tree, a: Key, k: Key)
    requires WellFormed(env, tree) && a !in tree && Under(a, k)
    ensures k !in tree
  {
  }

  /** Adding a node whose parent is a directory keeps the tree well formed. */
  lemma AddWellFormed(env: Env, tree: Tree, k: Key, n: Node)
    requires WellFormed(env, tree) && IsKey(k) && k !in tree && k != []
    requires k[..|k| - 1] in tree && tree[k[..|k| - 1]] == Directory
    ensures WellFormed(env, tree[k := n])
  {
    var t' := tree[k := n];
    var p := k[..|k| - 1];
    forall x, i | x in t' && 0 <= i < |x|
      ensures x[..i] in t' && t'[x[..i]] == Directory
    {
      if x == k && i < |p| {
        assert k[..i] == p[..i];
      }
    }
  }

  /** Overwriting a file keeps the tree well formed. */
  lemma OverwriteWellFormed(env: Env, tree: Tree, k: Key, b: Blob)
    requires WellFormed(env, tree) && k in tree && tree[k].File?
    ensures WellFormed(env, tree[k := File(b)])
  {
  }

  lemma MkdirWellFormed(env: Env, tree: Tree, s: string)
    requires WellFormed(env, tree)
    ensures WellFormed(env, Mkdir(env, tree, s).tree)
  {
    var o := Mkdir(env, tree, s);
    if o.err.None? {
      ResolveIsKey(env.cwd, s);
      AddWellFormed(env, tree, Resolve(env.cwd, s), Directory);
    }
  }

  lemma {:induction false} MkdirAllWellFormed(env: Env, tree: Tree, s: string)
    requires WellFormed(env, tree)
    ensures WellFormed(env, MkdirAll(env, tree, s).tree)
    decreases |s|
  {
    if Stat(env, tree, "mkdir", s).Err? {
      var i := ParentCut(s);
      if i > 0 {
        MkdirAllWellFormed(env, tree, s[..i]);
      }
      var up := if i > 0 then MkdirAll(env, tree, s[..i]) else Outcome(tree, None);
      if up.err.None? {
        MkdirWellFormed(env, up.tree, s);
      }
    }
  }

  /** Past its recursive call on the parent string, os.MkdirAll adds at
      most the location s names, and only when s does not end in "." or
      "..". */
  lemma MkdirAllLast(env: Env, tree: Tree, s: string)
    requires Stat(env, tree, "mkdir", s).Err?
    ensures var i := ParentCut(s);
      var up := if i > 0 then MkdirAll(env, tree, s[..i]) else Outcome(tree, None);
      forall x :: x in MkdirAll(env, tree, s).tree && x !in up.tree ==> x == Resolve(env.cwd, s) && !DotLast(s)
  {
    var i := ParentCut(s);
    var up := if i > 0 then MkdirAll(env, tree, s[..i]) else Outcome(tree, None);
    if up.err.None? {
      var m := Mkdir(env, up.tree, s);
      assert m.err.None? ==> !DotLast(s) && m.tree == up.tree[Resolve(env.cwd, s) := Directory];
      assert MkdirAll(env, tree, s).tree == up.tree || MkdirAll(env, tree, s) == m;
    }
  }

  lemma CreateWellFormed(env: Env, tree: Tree, s: string, data: Blob)
    requires WellFormed(env, tree)
    ensures WellFormed(env, Create(env, tree, s, data).tree)
  {
    var o := Create(env, tree, s, data);
    if o.err.None? {
      ResolveIsKey(env.cwd, s);
      var k := Resolve(env.cwd, s);
      if k in tree {
        OverwriteWellFormed(env, tree, k, data);
      } else {
        AddWellFormed(env, tree, k, File(data));
      }
    }
  }
}
