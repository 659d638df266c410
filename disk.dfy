/** disk.go's exported operations, run against one filesystem: the tree is
    the state they change, and each operation is proved against the
    functions of the Archive and FileSystem modules. */
module Disk {
  import opened Paths
  import opened FileSystem
  import opened Archive

  /** The three results of IsDirFile: is it a directory, is it a file, and
      the error. */
  datatype Probe = Probe(isDir: bool, isFile: bool, err: Option<Error>)

  /** The names of the children of k. */
  function Children(t: Tree, k: Key): set<string>
  {
    set x | x in t && |x| == |k| + 1 && x[..|k|] == k :: x[|k|]
  }

  /** Below dst, t holds exactly what t0 holds below src, within the
      children of src named in names. */
  ghost predicate CopiedUnder(t0: Tree, t: Tree, src: Key, dst: Key, names: set<string>)
  {
    forall k :: Under(dst, k) ==>
      && (k in t <==> k[|dst|] in names && src + k[|dst|..] in t0)
      && (k in t ==> t[k] == t0[src + k[|dst|..]])
  }

  /** Below dst, t holds exactly what t0 holds below src. */
  ghost predicate Mirrors(t0: Tree, t: Tree, src: Key, dst: Key)
  {
    forall k :: Under(dst, k) ==>
      && (k in t <==> src + k[|dst|..] in t0)
      && (k in t ==> t[k] == t0[src + k[|dst|..]])
  }

  lemma ChildIn(t: Tree, k: Key, n: string)
    requires n in Children(t, k)
    ensures k + [n] in t
  {
    var x :| x in t && |x| == |k| + 1 && x[..|k|] == k && x[|k|] == n;
    assert x == k + [n];
  }

  /** The strings CopyDir builds for a child name the children of the
      source's location. */
  lemma ChildPaths(env: Env, t: Tree, fromPath: string, toPath: string, n: string)
    requires WellFormed(env, t) && fromPath != "" && toPath != "" && |fromPath| <= |toPath|
    requires Resolve(env.cwd, fromPath) + [n] in t
    ensures IsName(n)
    ensures Resolve(env.cwd, fromPath + "/" + n) == Resolve(env.cwd, fromPath) + [n]
    ensures Resolve(env.cwd, toPath + "/" + n) == Resolve(env.cwd, toPath) + [n]
    ensures |fromPath + "/" + n| <= |toPath + "/" + n|
  {
    var k := Resolve(env.cwd, fromPath) + [n];
    assert IsKey(k) && k[|k| - 1] == n;
    assert "/" == [Sep];
    ResolveChild(env.cwd, fromPath, n);
    ResolveChild(env.cwd, toPath, n);
  }

  /** Two locations neither of which lies inside the other. */
  predicate Apart(a: Key, b: Key)
  {
    !Inside(a, b) && !Inside(b, a)
  }

  lemma ApartBelow(a: Key, b: Key, x: Key)
    requires Apart(a, b) && Inside(a, x)
    ensures !Inside(b, x)
  {
  }

  /** A novel location and an existing one are apart, unless the existing
      one lies below the novel one, which a well-formed tree rules out. */
  lemma FreshIsApart(env: Env, t: Tree, novel: Key, k: Key)
    requires WellFormed(env, t) && novel !in t && k in t && !Inside(k, novel)
    ensures Apart(k, novel)
  {
  }

  /** Nothing lies strictly below d. */
  ghost predicate Bare(t: Tree, d: Key)
  {
    forall k :: Under(d, k) ==> k !in t
  }

  /** A directory just made has nothing below it. */
  lemma MadeBare(env: Env, t0: Tree, d: Key)
    requires WellFormed(env, t0) && d !in t0
    ensures Bare(t0[d := Directory], d)
  {
    forall k | Under(d, k)
      ensures k !in t0
    {
      AbsentHasNoDescendants(env, t0, d, k);
    }
  }

  /** Copying child n of src to child n of dst extends the copy by n. */
  lemma CopiedStep(listed: Tree, before: Tree, after: Tree, src: Key, dst: Key, done: set<string>, n: string)
    requires Apart(src, dst) && n !in done && src + [n] in listed
    requires CopiedUnder(listed, before, src, dst, done)
    requires FramedInside(listed, before, dst)
    requires FramedInside(before, after, dst + [n])
    requires dst + [n] in after && after[dst + [n]] == listed[src + [n]]
    requires Mirrors(before, after, src + [n], dst + [n])
    ensures CopiedUnder(listed, after, src, dst, done + {n})
  {
    forall k | Under(dst, k)
      ensures && (k in after <==> k[|dst|] in done + {n} && src + k[|dst|..] in listed)
              && (k in after ==> after[k] == listed[src + k[|dst|..]])
    {
      if k[|dst|] == n {
        CopiedHere(listed, before, after, src, dst, n, k);
      } else {
        CopiedElsewhere(listed, before, after, src, dst, done, n, k);
      }
    }
  }

  /** Below the other children of dst, the step changes nothing. */
  lemma CopiedElsewhere(listed: Tree, before: Tree, after: Tree, src: Key, dst: Key, done: set<string>, n: string, k: Key)
    requires Under(dst, k) && k[|dst|] != n
    requires CopiedUnder(listed, before, src, dst, done)
    requires FramedInside(before, after, dst + [n])
    ensures && (k in after <==> k[|dst|] in done + {n} && src + k[|dst|..] in listed)
            && (k in after ==> after[k] == listed[src + k[|dst|..]])
  {
    assert !Inside(dst + [n], k);
  }

  /** At and below child n of dst, the step has put the copy of child n of src. */
  lemma CopiedHere(listed: Tree, before: Tree, after: Tree, src: Key, dst: Key, n: string, k: Key)
    requires Apart(src, dst) && src + [n] in listed
    requires Under(dst, k) && k[|dst|] == n
    requires FramedInside(listed, before, dst)
    requires dst + [n] in after && after[dst + [n]] == listed[src + [n]]
    requires Mirrors(before, after, src + [n], dst + [n])
    ensures && (k in after <==> src + k[|dst|..] in listed)
            && (k in after ==> after[k] == listed[src + k[|dst|..]])
  {
    var x := src + k[|dst|..];
    assert k[..|dst| + 1] == dst + [n];
    if |k| == |dst| + 1 {
      assert k == dst + [n] && x == src + [n];
    } else {
      assert Under(dst + [n], k);
      assert (src + [n]) + k[|dst| + 1..] == x;
      assert Inside(src, x);
      ApartBelow(src, dst, x);
    }
  }

  /** A file has nothing below it, so writing its copy at a location with
      nothing below it mirrors it. */
  lemma FileMirrors(env: Env, before: Tree, src: Key, dst: Key)
    requires WellFormed(env, before) && src in before && before[src].File?
    requires forall k :: Under(dst, k) ==> k !in before
    ensures Mirrors(before, before[dst := before[src]], src, dst)
  {
    forall k | Under(dst, k)
      ensures src + k[|dst|..] !in before
    {
      var x := src + k[|dst|..];
      assert x[..|src|] == src;
    }
  }

  /** Copying a directory child: the recursive copy mirrors it. */
  lemma CopiedDirStep(listed: Tree, before: Tree, after: Tree, src: Key, dst: Key, done: set<string>, n: string)
    requires Apart(src, dst) && n !in done && src + [n] in listed && listed[src + [n]] == Directory
    requires CopiedUnder(listed, before, src, dst, done)
    requires FramedInside(listed, before, dst)
    requires FramedInside(before, after, dst + [n])
    requires dst + [n] in after && after[dst + [n]] == Directory
    requires !Inside(src + [n], dst + [n]) ==> Mirrors(before, after, src + [n], dst + [n])
    ensures CopiedUnder(listed, after, src, dst, done + {n})
  {
    if |src| <= |dst| {
      assert (dst + [n])[..|src|] == dst[..|src|];
      assert (src + [n])[..|src|] == src;
    }
    CopiedStep(listed, before, after, src, dst, done, n);
  }

  /** Copying a file child: its single node is written at the new place. */
  lemma CopiedFileStep(env: Env, listed: Tree, before: Tree, src: Key, dst: Key, done: set<string>, n: string)
    requires WellFormed(env, before)
    requires Apart(src, dst) && n !in done && src + [n] in listed && listed[src + [n]].File?
    requires CopiedUnder(listed, before, src, dst, done)
    requires FramedInside(listed, before, dst)
    ensures src + [n] in before
    ensures CopiedUnder(listed, before[dst + [n] := before[src + [n]]], src, dst, done + {n})
  {
    ApartBelow(src, dst, src + [n]);
    forall k | Under(dst + [n], k)
      ensures k !in before
    {
      assert Under(dst, k) && k[|dst|] == n;
    }
    FileMirrors(env, before, src + [n], dst + [n]);
    FramedInsideStore(before, dst + [n], before[src + [n]]);
    CopiedStep(listed, before, before[dst + [n] := before[src + [n]]], src, dst, done, n);
  }

  /** Once every child is copied, the destination mirrors the source. */
  lemma CopiedAll(env: Env, listed: Tree, t: Tree, src: Key, dst: Key, done: set<string>)
    requires WellFormed(env, listed) && src in listed && Children(listed, src) <= done
    requires CopiedUnder(listed, t, src, dst, done)
    ensures Mirrors(listed, t, src, dst)
  {
    forall k | Under(dst, k)
      ensures && (k in t <==> src + k[|dst|..] in listed)
              && (k in t ==> t[k] == listed[src + k[|dst|..]])
    {
      var x := src + k[|dst|..];
      assert x[..|src|] == src;
      if x in listed {
        var y := x[..|src| + 1];
        if |src| + 1 < |x| {
          assert y in listed;
        } else {
          assert y == x;
        }
        assert y[..|src|] == src;
        assert y[|src|] == k[|dst|];
      }
    }
  }

  /** The directory made for the copy is not part of what it mirrors. */
  lemma MirrorsPastMkdir(t0: Tree, t: Tree, src: Key, dst: Key)
    requires !Inside(src, dst) && Mirrors(t0[dst := Directory], t, src, dst)
    ensures Mirrors(t0, t, src, dst)
  {
    forall k | Under(dst, k)
      ensures src + k[|dst|..] != dst
    {
      assert (src + k[|dst|..])[..|src|] == src;
    }
  }

  class Volume {
    const env: Env
    var tree: Tree

    ghost predicate Valid()
      reads this
    {
      WellFormed(env, tree)
    }

    constructor (env: Env, tree: Tree)
      requires WellFormed(env, tree)
      ensures this.env == env && this.tree == tree && Valid()
    {
      this.env := env;
      this.tree := tree;
    }

    /** IsDirFile(filePath): exactly one of the four documented answers; a
        path that does not exist is reported as (false, false, nil), and any
        other failure to open it, ENOTDIR included, as an error. */
    function IsDirFile(filePath: string): (r: Probe)
      reads this
      ensures r in {Probe(false, false, None), Probe(true, false, None), Probe(false, true, None)} || (r.err.Some? && !r.isDir && !r.isFile)
      ensures var k := Resolve(env.cwd, filePath);
        && (r.isDir <==> filePath != "" && |filePath| < PathMax && k in tree && k !in env.denied && tree[k] == Directory)
        && (r.isFile <==>
              filePath != "" && |filePath| < PathMax && k in tree && k !in env.denied && tree[k].File? && !NamesDir(filePath))
        && (r == Probe(false, false, None) <==> Open(env, tree, filePath).Err? && IsNotExist(Open(env, tree, filePath).error))
    {
      match Open(env, tree, filePath)
      case Err(e) => if IsNotExist(e) then Probe(false, false, None) else Probe(false, false, Some(e))
      case Ok(n) => var d := n.Directory?; Probe(d, !d, None)
    }

    /** IsDirFile answers (false, false, nil) for the empty path and for a
        location that does not exist with no file on the way to it; a path
        through a file is an error (ENOTDIR), not a missing entity. */
    lemma IsDirFileMissing(filePath: string)
      requires Valid()
      ensures var k := Resolve(env.cwd, filePath);
        IsDirFile(filePath) == Probe(false, false, None) <==>
          || filePath == ""
          || (&& |filePath| < PathMax && k !in tree
              && !exists i :: 0 <= i < |k| && k[..i] in tree && tree[k[..i]].File?)
    {
      var k := Resolve(env.cwd, filePath);
      if filePath != "" && |filePath| < PathMax && k !in tree {
        MissingIsNotDir(env, tree, k);
      }
    }

    /** CopyFile(inPath, outPath): os.Open, os.Create, io.Copy. os.Create
        empties outPath before anything is read, so a file copied onto
        itself ends up empty. */
    method CopyFile(inPath: string, outPath: string) returns (err: Option<Error>)
      requires Valid()
      modifies this
      ensures Valid()
      ensures var i, o := Resolve(env.cwd, inPath), Resolve(env.cwd, outPath);
        && (err.None? <==>
              Open(env, old(tree), inPath).Ok? && Open(env, old(tree), inPath).value.File?
              && Create(env, old(tree), outPath, Bytes([])).err.None?)
        && (err.None? ==> tree == old(tree)[o := if i == o then File(Bytes([])) else old(tree)[i]])
        && (err.Some? ==>
              || tree == old(tree)
              || (Open(env, old(tree), inPath) == Ok(Directory) && tree == old(tree)[o := File(Bytes([]))]))
    {
      var f := Open(env, tree, inPath);
      if f.Err? {
        return Some(f.error);
      }
      var c := Create(env, tree, outPath, Bytes([]));
      CreateWellFormed(env, tree, outPath, Bytes([]));
      tree := c.tree;
      if c.err.Some? {
        return c.err;
      }
      if f.value.Directory? {
        return Some(PathError("read", inPath, EISDIR));
      }
      var i, o := Resolve(env.cwd, inPath), Resolve(env.cwd, outPath);
      OverwriteWellFormed(env, tree, o, tree[i].content);
      tree := tree[o := tree[i]];
      return None;
    }

    /** CopyDir(fromPath, toPath). The raw prefix test at the start panics
        when toPath is shorter than fromPath, which the precondition rules
        out. Everything it writes lies at or below toPath; when it succeeds
        and toPath is not below fromPath, toPath is a fresh directory that
        mirrors fromPath. */
    method CopyDir(fromPath: string, toPath: string) returns (err: Option<Error>)
      requires Valid() && |fromPath| <= |toPath|
      modifies this
      ensures Valid()
      ensures FramedInside(old(tree), tree, Resolve(env.cwd, toPath))
      ensures toPath[..|fromPath|] == fromPath ==> err == Some(CopyIntoItself) && tree == old(tree)
      ensures toPath[..|fromPath|] != fromPath && Open(env, old(tree), fromPath).Err? ==>
        err == Some(Open(env, old(tree), fromPath).error) && tree == old(tree)
      ensures toPath[..|fromPath|] != fromPath && Open(env, old(tree), fromPath).Ok? && Open(env, old(tree), fromPath).value.File? ==>
        err == Some(SourceNotDirectory(Base(fromPath))) && tree == old(tree)
      ensures toPath[..|fromPath|] != fromPath && Open(env, old(tree), fromPath).Ok? && Mkdir(env, old(tree), toPath).err.Some? ==>
        err.Some? && tree == old(tree)
      ensures err.None? ==>
        var fk, tk := Resolve(env.cwd, fromPath), Resolve(env.cwd, toPath);
        && Open(env, old(tree), fromPath).Ok? && old(tree)[fk] == Directory
        && Mkdir(env, old(tree), toPath).err.None?
        && tk in tree && tree[tk] == Directory
        && (!Inside(fk, tk) ==> Mirrors(old(tree), tree, fk, tk))
      decreases if |toPath| < PathMax then PathMax - |toPath| else 0, 1
    {
      if toPath[..|fromPath|] == fromPath {
        return Some(CopyIntoItself);
      }
      var f := Open(env, tree, fromPath);
      if f.Err? {
        return Some(f.error);
      }
      if f.value.File? {
        return Some(SourceNotDirectory(Base(fromPath)));
      }
      var m := Mkdir(env, tree, toPath);
      if m.err.Some? {
        return m.err;
      }
      ghost var t0 := tree;
      MkdirWellFormed(env, tree, toPath);
      tree := m.tree;
      ghost var fk, tk := Resolve(env.cwd, fromPath), Resolve(env.cwd, toPath);
      FramedInsideStore(t0, tk, Directory);
      MadeBare(env, t0, tk);
      if !Inside(fk, tk) {
        FreshIsApart(env, t0, tk, fk);
      }
      err := CopyChildren(fromPath, toPath);
      FramedInsideTrans(t0, t0[tk := Directory], tree, tk);
      if err.None? && !Inside(fk, tk) {
        MirrorsPastMkdir(t0, tree, fk, tk);
      }
    }

    /** The loop of CopyDir over the children of the source directory, each
        copied by CopyDir or CopyFile to the same name under the target; the
        first failure ends it. */
    method CopyChildren(fromPath: string, toPath: string) returns (err: Option<Error>)
      requires Valid() && fromPath != "" && |fromPath| <= |toPath| < PathMax
      requires var fk, tk := Resolve(env.cwd, fromPath), Resolve(env.cwd, toPath);
        && fk in tree && tree[fk] == Directory
        && tk in tree && tree[tk] == Directory
        && (!Inside(fk, tk) ==> Apart(fk, tk) && Bare(tree, tk))
      modifies this
      ensures Valid()
      ensures var fk, tk := Resolve(env.cwd, fromPath), Resolve(env.cwd, toPath);
        && FramedInside(old(tree), tree, tk)
        && tk in tree && tree[tk] == Directory
        && (err.None? && !Inside(fk, tk) ==> Mirrors(old(tree), tree, fk, tk))
      decreases PathMax - |toPath|, 0
    {
      var fk := Resolve(env.cwd, fromPath);
      ghost var tk := Resolve(env.cwd, toPath);
      var listed := tree;
      var names := Children(listed, fk);
      var rest := names;
      ghost var copied: set<string> := {};
      while rest != {}
        invariant Valid() && rest <= names && names <= copied + rest && rest !! copied
        invariant FramedInside(listed, tree, tk)
        invariant tk in tree && tree[tk] == Directory
        invariant !Inside(fk, tk) ==> CopiedUnder(listed, tree, fk, tk, copied)
        decreases |rest|
      {
        var n :| n in rest;
        rest := rest - {n};
        ChildIn(listed, fk, n);
        var from, to := fromPath + "/" + n, toPath + "/" + n;
        ChildPaths(env, listed, fromPath, toPath, n);
        ghost var before := tree;
        if listed[fk + [n]].Directory? {
          err := CopyDir(from, to);
        } else {
          err := CopyFile(from, to);
          if tree != before {
            FramedInsideStore(before, tk + [n], tree[tk + [n]]);
          }
        }
        FramedInsideWiden(before, tree, tk, tk + [n]);
        FramedInsideTrans(listed, before, tree, tk);
        if err.Some? {
          return;
        }
        if !Inside(fk, tk) {
          if listed[fk + [n]].Directory? {
            CopiedDirStep(listed, before, tree, fk, tk, copied, n);
          } else {
            CopiedFileStep(env, listed, before, fk, tk, copied, n);
          }
        }
        copied := copied + {n};
      }
      if !Inside(fk, tk) {
        CopiedAll(env, listed, tree, fk, tk, copied);
      }
      err := None;
    }

    /** Unzip(zipFilePath, destinationPath): open the archive, make the
        destination, then extract the entries. */
    method Unzip(zipPath: string, dest: string) returns (err: Option<Error>)
      requires Valid()
      modifies this
      ensures Valid()
      ensures Outcome(tree, err) == UnzipOutcome(env, old(tree), zipPath, dest)
      ensures FramedInside(old(tree), tree, Resolve(env.cwd, dest))
      ensures tree != old(tree) ==>
        var d := Resolve(env.cwd, dest); d !in old(tree) && d in tree && tree[d] == Directory
    {
      UnzipConfined(env, tree, zipPath, dest);
      var r := OpenArchive(env, tree, zipPath);
      if r.Err? {
        return Some(r.error);
      }
      var m := Mkdir(env, tree, dest);
      if m.err.Some? {
        return m.err;
      }
      tree := m.tree;
      err := ExtractEntries(dest, r.value);
    }

    /** The loop of Unzip over r.File: entries in archive order, the first
        error ends the run and what was written before it stays. */
    method ExtractEntries(dest: string, es: seq<Entry>) returns (err: Option<Error>)
      modifies this
      ensures Outcome(tree, err) == ExtractAll(env, old(tree), dest, es)
    {
      var i := 0;
      while i < |es|
        invariant 0 <= i <= |es|
        invariant ExtractAll(env, tree, dest, es[i..]) == ExtractAll(env, old(tree), dest, es)
      {
        assert es[i..][0] == es[i] && es[i..][1..] == es[i + 1..];
        var o := ExtractEntry(env, tree, dest, es[i]);
        tree := o.tree;
        if o.err.Some? {
          return o.err;
        }
        i := i + 1;
      }
      err := None;
    }

    /** ZipDir(dirPath, zipFilePath) over the visits filepath.Walk makes:
        the archive file is created empty, the walker's entries are
        buffered in the zip writer, and the deferred Close writes them out
        whether or not the walk failed. */
    method ZipDir(dirPath: string, zipPath: string, visits: seq<Visit>) returns (err: Option<Error>)
      requires Valid()
      modifies this
      ensures Valid()
      ensures Outcome(tree, err) == ZipDirOutcome(env, old(tree), dirPath, zipPath, visits)
    {
      var c := Create(env, tree, zipPath, Bytes([]));
      if c.err.Some? {
        return c.err;
      }
      CreateWellFormed(env, tree, zipPath, Bytes([]));
      tree := c.tree;
      var z := Resolve(env.cwd, zipPath);
      var entries;
      entries, err := PackVisits(dirPath, visits);
      OverwriteWellFormed(env, tree, z, Archive(entries));
      tree := tree[z := File(Archive(entries))];
    }

    /** filepath.Walk with ZipDir's walker: visits in order, each file's
        entry appended to the writer, the first error ending the walk. */
    method PackVisits(dirPath: string, visits: seq<Visit>) returns (entries: seq<Entry>, err: Option<Error>)
      ensures Packing(entries, err) == Pack(env, tree, dirPath, visits)
    {
      entries := [];
      var i := 0;
      while i < |visits|
        invariant 0 <= i <= |visits|
        invariant var p := Pack(env, tree, dirPath, visits[i..]);
          Pack(env, tree, dirPath, visits) == Packing(entries + p.entries, p.err)
      {
        assert visits[i..][0] == visits[i] && visits[i..][1..] == visits[i + 1..];
        var st := Walker(env, tree, dirPath, visits[i]);
        var head := if st.entry.Some? then [st.entry.value] else [];
        entries := entries + head;
        if st.err.Some? {
          return entries, st.err;
        }
        i := i + 1;
      }
      assert visits[i..] == [] && entries + [] == entries;
      err := None;
    }

    /** ZipFile(filePath, zipFilePath): the archive file is created, the
        source opened, and one entry named path.Base(filePath) written. */
    method ZipFile(filePath: string, zipPath: string) returns (err: Option<Error>)
      requires Valid()
      modifies this
      ensures Valid()
      ensures Outcome(tree, err) == ZipFileOutcome(env, old(tree), filePath, zipPath)
    {
      var c := Create(env, tree, zipPath, Bytes([]));
      if c.err.Some? {
        return c.err;
      }
      CreateWellFormed(env, tree, zipPath, Bytes([]));
      tree := c.tree;
      var z := Resolve(env.cwd, zipPath);
      var entries: seq<Entry> := [];
      var f := Open(env, tree, filePath);
      if f.Err? {
        err := Some(f.error);
      } else {
        entries := [Entry(Base(filePath), false, Bytes([]))];
        if f.value.Directory? {
          err := Some(PathError("read", filePath, EISDIR));
        } else {
          entries := [Entry(Base(filePath), false, f.value.content)];
          err := None;
        }
      }
      OverwriteWellFormed(env, tree, z, Archive(entries));
      tree := tree[z := File(Archive(entries))];
    }
  }
}
