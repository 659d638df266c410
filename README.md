# disk.go, modelled in Dafny

This project models `go/src/disk.go` of the `util` package: the file
helpers `IsDirFile`, `CopyFile`, `CopyDir`, `ZipFile`, `ZipDir` and
`Unzip`, together with the zip-slip guard that `Unzip` applies to every
archive entry. The model proves what these operations do to a filesystem.

The model has five modules.

- **Paths** (`paths.dfy`) models the lexical path functions the code
  relies on: `filepath.Clean`, `filepath.Join`, `filepath.Dir`,
  `path.Base` and `strings.HasPrefix`. They are pure functions over
  strings. A parsed, cleaned form (`Path`) sits alongside them.
  `Resolve` maps a path string to the absolute location it names, given a
  working directory. Resolution is lexical: there are no symbolic links.
- **ZipSlip** (`slip.dfy`) studies the guard at lines 277-281 of
  `go/src/disk.go` on its own. It states exactly which entry names the
  guard admits. It proves that an admitted name lands strictly inside the
  destination only when that destination is neither the working directory
  nor one of its ancestors. `Unzip` guarantees this, because it creates
  the destination with `os.Mkdir` before extracting anything. A concrete
  counterexample (destination `..`, entry `../x`) shows that the string
  test alone does not confine the entry.
- **FileSystem** (`filesystem.dfy`) models the filesystem:
  - The tree is a map from absolute locations to files and directories.
  - `os.Stat`, `os.Open` (with `Stat`), `os.Mkdir`, `os.MkdirAll` and
    `os.OpenFile(O_CREATE|O_TRUNC)` are modelled with the error each
    reports: `ENOENT`, `ENOTDIR`, `EEXIST`, `EISDIR`, `EACCES` and
    `ENAMETOOLONG`.
  - A path whose last element is empty (a trailing separator), `.` or
    `..` names only a directory, as in the Linux kernel. Opening a file
    through such a path fails with `ENOTDIR`. Creating a file there fails
    with `EISDIR` or `ENOTDIR`. `os.Mkdir` of a path ending in `.` or `..`
    has nothing to make.
  - `os.MkdirAll` follows the Go library's recursion. It first asks
    `os.Stat`. When that fails, it makes the parent string (the path cut
    before its last separator), then calls `os.Mkdir`, and it forgives a
    failed `os.Mkdir` when the path names a directory by then. A path of
    `PATH_MAX` characters or more therefore still has its shorter
    ancestors made before the call fails.
  - Each of these operations is proved to keep the tree well formed: every
    ancestor of a node is a directory.
- **Archive** (`archive.dfy`) gives the specification of the three zip
  operations as functions on the tree:
  - `UnzipOutcome` covers `Unzip`. The entry loop is `ExtractAll` and the
    `extractAndWriteFile` closure is `ExtractEntry`.
  - `ZipDirOutcome` covers `ZipDir`. The walk is `Pack` and the walker
    closure is `Walker`.
  - `ZipFileOutcome` covers `ZipFile`.
  - The lemmas prove several properties:
    - entries run in order, the first error ends the run, and nothing
      already written is undone;
    - `Unzip` either changes nothing or changes only what lies inside the
      directory it has just created;
    - `ZipDir` stores exactly one entry per visited file, in visit order;
    - one entry changes only the location it names and the directories
      on the way to it, and is written when nothing on the way is a file
      or a denied missing location;
    - a name `ZipDir` stores for a clean directory path other than `.` and
      `/` is extracted by `Unzip` back to the same relative place;
    - the file `ZipFile` reads comes back out of `Unzip` under its base
      name, with the same bytes.
- **Disk** (`disk.dfy`) holds the class `Volume`. Its field `tree` is the
  filesystem the operations change. Its methods are the exported
  functions of disk.go, with the same loops. Each method is proved against
  the functions of Archive and FileSystem. The `CopyDir` contract says
  that, on success, the new directory mirrors the source.

Several behaviours of the source are modelled as written:

- `Unzip` ignores the errors of both `os.MkdirAll` calls (lines 283 and
  285). A directory entry therefore always succeeds once admitted. A file
  entry whose parent could not be made fails only later, at
  `os.OpenFile`.
- `ZipDir` names each entry by the raw slice `path[len(dirPath):]`
  (line 229):
  - For a clean directory path other than `.` and `/`, that name is the
    relative path with a leading `/`. `Unzip` still extracts it to the
    right place, because `filepath.Join` cleans the leading separator
    away.
  - For an unclean directory path such as `./src`, the walk builds
    `src/a.txt` and the slice stores `.txt` (`UncleanDirPathMangles`).
  - For the directory path `.`, the walk builds `a.txt` and the slice
    stores `.txt` too (`DotDirPathMangles`).
  - A walked path shorter than `dirPath` makes the slice panic. The model
    reports that panic as an error.
- `ZipDir` and `ZipFile` write their entry header before copying the file.
  Opening a directory succeeds and only reading it fails. So a directory
  given to `ZipFile`, or walked as a file, leaves an empty entry behind.
  The deferred `Close` still writes the archive holding the entries made
  so far, even when the operation fails.
- The guard in `CopyDir` (line 41) compares the raw prefix
  `toPath[:len(fromPath)]`. When `toPath` is shorter than `fromPath`, the
  slice panics. `CopyDir` therefore requires `|fromPath| <= |toPath|`.
  The guard is lexical, so `CopyDir("./a", "a/b")` passes it and copies
  `a` into itself. That recursion ends only when the growing paths reach
  `PATH_MAX` (4096). Then `os.Open(fromPath)` fails with `ENAMETOOLONG`,
  or `os.Mkdir(toPath)` does when only `toPath` has reached the bound.
  The model keeps that bound, and it is what makes `CopyDir` terminate.
- `CopyFile` truncates `outPath` with `os.Create` before it reads
  `inPath`. A file copied onto itself therefore ends up empty, and a
  directory source leaves an empty file at `outPath`.
- `CopyDir` calls `copyDir`, `copyFile` and `ioutil.ReadDir`, and the
  file uses `zip`, `path` and `filepath`, none of which it defines or
  imports. The model reads them as the exported `CopyDir` and `CopyFile`
  and as the standard packages of those names.

## Model

| member | source | states |
|---|---|---|
| Paths.Base | go/src/disk.go:184 | `path.Base` is never empty: it is `/` or a single element with no separator, `.` for the empty string, and the string itself when that has no separator |
| Paths.BaseIsLastElement | go/src/disk.go:184 | `path.Base` is the last element of the path once its trailing separators are dropped, and it is `/` exactly when the path is a non-empty run of separators |
| Paths.ParseIsClean | go/src/disk.go:279 | what `filepath.Clean` returns is in clean form |
| Paths.CleanIdempotent | go/src/disk.go:279 | cleaning a cleaned path changes nothing |
| Paths.ParseRender | go/src/disk.go:277-279 | parsing the rendering of a clean path gives the path back |
| Paths.ResolveClean | go/src/disk.go:279 | a path and its cleaned form name the same location |
| Paths.ResolveIsKey | go/src/disk.go:277 | every path string names a location made only of names |
| Paths.ResolveChild | go/src/disk.go:70 | `s + "/" + n` for a name `n` names the child `n` of what `s` names |
| Paths.SplitConcat | go/src/disk.go:277 | splitting at separators undoes joining separator-free elements |
| Paths.ConcatSplit | go/src/disk.go:277 | joining the pieces of a split with separators gives the string back |
| ZipSlip.JoinParse | go/src/disk.go:277-279 | `filepath.Join(dest, name)` is the rendering of the name's elements pushed onto the cleaned destination, and that path is clean |
| ZipSlip.AdmitsExactly | go/src/disk.go:277-281 | the guard admits a name if and only if the destination is non-empty, cleans to at least one element (not `.` or `/`), and the cleaned joined path lies strictly below it |
| ZipSlip.NoOpNameRefused | go/src/disk.go:277-281 | a name made only of separators and `.` elements is refused |
| ZipSlip.EmptyAndDotRefused | go/src/disk.go:277-281 | the names `""` and `.` are refused |
| ZipSlip.PlainNameAdmitted | go/src/disk.go:277-281 | a name with no `..` element and at least one real element is admitted under a destination that does not clean to `.` or `/`, and joins to the destination's elements followed by its own |
| ZipSlip.AdmittedLandsInside | go/src/disk.go:277-281 | under a destination that is neither the working directory nor one of its ancestors, an admitted name resolves to a location strictly inside the destination |
| ZipSlip.AdmittedDir | go/src/disk.go:285 | for such a name, `filepath.Dir` of the joined path names the parent of the joined location |
| ZipSlip.DirOfClean | go/src/disk.go:285 | `filepath.Dir` of a clean path ending in a name cleans to its parent |
| ZipSlip.GuardNeedsFreshDest | go/src/disk.go:262-281 | the string guard admits `../x` under `..`, yet from `/home/u` it lands at `/x`, outside `/home`: confinement rests on `os.Mkdir` having created the destination |
| FileSystem.Lookup | go/src/disk.go:29 | the empty path and a path of `PATH_MAX` characters or more are refused before the tree is consulted |
| FileSystem.Missing | go/src/disk.go:146-147 | a location not in the tree is unreachable with `ENOENT` or `ENOTDIR` |
| FileSystem.MissingIsNotDir | go/src/disk.go:146-151 | in a well-formed tree a missing location gives `ENOTDIR` if and only if a file stands on the way to it |
| FileSystem.Stat | go/src/disk.go:283-285 | `os.Stat`, as `os.MkdirAll` asks it, succeeds if and only if the path is accepted and names an existing node that is a directory whenever the path ends in a separator, `.` or `..`; it returns that node; failures are path errors for that path |
| FileSystem.Open | go/src/disk.go:45-53 | `os.Open` then `Stat` succeeds if and only if the path names an existing, permitted node that is a directory whenever the path ends in a separator, `.` or `..`, and returns that node; failures are path errors for that path |
| FileSystem.Mkdir | go/src/disk.go:58 | `os.Mkdir` succeeds if and only if the path is accepted, does not end in `.` or `..`, and names a new, permitted location whose parent is an existing directory; it adds exactly that directory, and a failure changes nothing |
| FileSystem.MkdirAll | go/src/disk.go:283-285 | `os.MkdirAll` keeps every existing node, adds only directories, and on success leaves the location the path names a directory |
| FileSystem.MkdirAllLast | go/src/disk.go:283-285 | past its recursive call on the parent string, `os.MkdirAll` adds at most the location the path names, and nothing when the path ends in `.` or `..` |
| FileSystem.Create | go/src/disk.go:286 | `os.OpenFile` with create-and-truncate, then a write, succeeds if and only if the path is accepted, does not end in a separator, `.` or `..`, and names a permitted location that is an existing file or new in an existing directory; it stores exactly the data, and a failure changes nothing |
| FileSystem.MkdirWellFormed | go/src/disk.go:58 | `os.Mkdir` keeps the tree well formed |
| FileSystem.MkdirAllWellFormed | go/src/disk.go:283 | `os.MkdirAll` keeps the tree well formed |
| FileSystem.CreateWellFormed | go/src/disk.go:286 | creating a file keeps the tree well formed |
| Archive.OpenArchive | go/src/disk.go:253-256 | `zip.OpenReader` succeeds if and only if the path names a stored archive, and returns its entries; a directory fails with `EISDIR` and plain bytes are not a zip file |
| Archive.ExtractEntry | go/src/disk.go:267-301 | an entry fails with "illegal file path" if and only if the guard refuses it, and then changes nothing; an admitted directory entry always succeeds, because MkdirAll errors are ignored; a file entry that succeeds leaves its data at the joined location |
| Archive.ExtractEntryOnTheWay | go/src/disk.go:282-299 | one entry keeps every node other than the location its joined path names, and every node it adds lies on the way to that location |
| Archive.MkdirAllOnTheWay | go/src/disk.go:283 | `os.MkdirAll` of a clean path adds only locations on the way to the one it names, and nothing when the path ends in `..` |
| Archive.MkdirAllMakes | go/src/disk.go:283 | `os.MkdirAll` of a clean path shorter than `PATH_MAX`, with no file and no denied missing location on the way to it or at it, succeeds and leaves that location a directory |
| Archive.ExtractDirMakes | go/src/disk.go:282-283 | an admitted directory entry with such a joined path leaves that location a directory |
| Archive.ExtractFileWrites | go/src/disk.go:284-299 | an admitted file entry under a fresh destination, with no file and no denied missing location above its joined location and nothing or a permitted file at it, is written there with its data |
| Archive.DirRender | go/src/disk.go:285 | `filepath.Dir` of a clean path's rendering is the rendering of the path without its last element |
| Archive.UnzipOutcome | go/src/disk.go:251-265 | a failed `zip.OpenReader` or `os.Mkdir` ends `Unzip` with that error and an unchanged tree |
| Archive.ExtractAllAppend | go/src/disk.go:302-308 | extracting `a + b` extracts `a`, then `b` from the tree `a` left unless `a` failed: order, stop at the first error, no rollback |
| Archive.FirstFailureEndsRun | go/src/disk.go:302-308 | the first failing entry's error ends the run, on the tree the earlier entries left |
| Archive.ExtractEntryConfined | go/src/disk.go:277-299 | under a fresh destination one entry keeps the tree well formed and changes nothing outside the destination |
| Archive.ExtractAllConfined | go/src/disk.go:302-308 | under a fresh destination the whole loop changes nothing outside it |
| Archive.UnzipConfined | go/src/disk.go:251-309 | `Unzip` either leaves the tree unchanged, or the destination was absent, is now a directory and nothing outside it changed; the tree stays well formed |
| Archive.Walker | go/src/disk.go:211-240 | the walker passes on a reported error and skips directories; for a file it passes on the `os.Open` error, reports the slice's panic for a path shorter than `dirPath`, and otherwise adds exactly one entry named `path[len(dirPath):]` holding the file's bytes, failing with `EISDIR` (after an empty entry) exactly when the node is a directory |
| Archive.Pack | go/src/disk.go:241-244 | the walk stores no directory entries |
| Archive.PackAppend | go/src/disk.go:241-244 | walking `a + b` walks `a`, then `b` unless `a` failed, keeping the entries of both: order and abort on the first error |
| Archive.PackedFiles | go/src/disk.go:211-244 | a walk without error stores exactly one entry per visited file, in visit order, named by the raw slice and holding that file's contents |
| Archive.ZipDirOutcome | go/src/disk.go:200-246 | a failed create returns its error; otherwise the archive holds the entries the walk made before it stopped, and nothing else changes |
| Archive.ZipFileOutcome | go/src/disk.go:169-192 | a failed create returns its error and changes nothing; otherwise only the archive changes: it holds no entry when `os.Open(filePath)` fails (with that error), and otherwise one entry named `path.Base(filePath)` holding the file's bytes, or empty with `EISDIR` for a directory; it succeeds if and only if `filePath` opens as a file |
| Archive.WalkedName | go/src/disk.go:229 | for a clean `dirPath` other than `.` and `/`, a walked path is `dirPath`, a separator and the relative path, so the slice is the relative path with a leading separator |
| Archive.PackedNameExtractsTo | go/src/disk.go:229 | a name `ZipDir` stores for a clean `dirPath` other than `.` and `/` is admitted by `Unzip` and extracted to the same relative location under the destination |
| Archive.UncleanDirPathMangles | go/src/disk.go:224-229 | for `dirPath` `./src` the walked path `src/a.txt` is stored as `.txt` |
| Archive.DotDirPathMangles | go/src/disk.go:224-229 | for `dirPath` `.` the walked path `a.txt` is stored as `.txt` |
| Archive.BaseOfFilePath | go/src/disk.go:178-184 | a path that can name a file ends in a name, and `path.Base` returns that name |
| Archive.PlainNameJoins | go/src/disk.go:277-281 | a plain name under a destination with elements is admitted and names the child of that name |
| Archive.ZipFileUnzipRoundTrip | go/src/disk.go:169-192 | when `ZipFile` succeeds and `Unzip` of its archive makes the destination, `Unzip` succeeds and the file is back under its `path.Base` name inside the destination, holding exactly the bytes `ZipFile` read |
| Disk.Volume.IsDirFile | go/src/disk.go:134-161 | the answer is one of the four documented shapes; it says directory if and only if a permitted directory exists there, file if and only if a permitted file does and the path does not end in a separator, `.` or `..`, and `(false, false, nil)` if and only if opening fails with "does not exist" |
| Disk.Volume.IsDirFileMissing | go/src/disk.go:139-149 | `(false, false, nil)` comes back if and only if the path is empty or names a missing location with no file on the way; a path through a file is an error |
| Disk.Volume.CopyFile | go/src/disk.go:27-37 | succeeds if and only if the source opens as a file and the target can be created; the target then holds the source's contents, or nothing when source and target are the same location, since `os.Create` truncates first; a failure changes nothing, except that a directory source leaves an empty target behind |
| Disk.Volume.CopyDir | go/src/disk.go:39-83 | the prefix guard, a failed open, a file source and a failed `os.Mkdir` each return an error with the tree unchanged; on success the target is a new directory mirroring the source; only what lies inside the target ever changes |
| Disk.Volume.CopyChildren | go/src/disk.go:63-81 | the loop over the source's children changes only what lies inside the target, and on success leaves below the target exactly what was below the source |
| Disk.CopiedAll | go/src/disk.go:68-82 | once every child of the source has been copied, the target mirrors the source |
| Disk.CopiedDirStep | go/src/disk.go:69-74 | a child directory copied recursively extends the copied part of the target by that child |
| Disk.CopiedFileStep | go/src/disk.go:75-80 | a child file copied extends the copied part of the target by that child |
| Disk.Volume.Unzip | go/src/disk.go:251-309 | `Unzip` computes `UnzipOutcome`, changes nothing outside the destination, and changes something only after creating it |
| Disk.Volume.ExtractEntries | go/src/disk.go:302-308 | the loop computes `ExtractAll` on the entries |
| Disk.Volume.ZipDir | go/src/disk.go:200-246 | `ZipDir` computes `ZipDirOutcome` and keeps the tree well formed |
| Disk.Volume.PackVisits | go/src/disk.go:211-244 | the walk loop computes `Pack` on the visits and changes nothing |
| Disk.Volume.ZipFile | go/src/disk.go:169-192 | `ZipFile` computes `ZipFileOutcome` and keeps the tree well formed |

## Left out

- `go/src/network.go` is not part of this model; it holds the HTTP helpers.
- `FileHash`, `FileContentType` and `ChildrenOfDir` are left out. They read or list files without changing anything, and rest on hashing and content sniffing.
- The zip and DEFLATE formats are left out. An archive is stored as the list of its entries, and any file of plain bytes is "not a zip file".
- File modes and permission bits are left out (`0755`, `f.Mode()`). Every permission or I/O failure is one set of denied locations in the environment, which `os.Open`, `os.Mkdir`, `os.MkdirAll` and `os.OpenFile` refuse with `EACCES`.
- Failures in the middle of a copy or a write, once the target is open, are left out. `io.Copy` either fails on a directory source or copies everything.
- `f.Open()` of an archive entry is left out: it never fails. Entry checksums are not modelled.
- Failures of the deferred `Close` calls are left out, and so is the panic they raise in `Unzip`. The same goes for file descriptors.
- OS error causes beyond the errnos listed above are left out.
- `filepath.Walk` is an input: the sequence of visits it makes, each with the path it built, whether the node is a directory, and the error it hands to the walker. Its lexical order and its reads of the tree are not modelled.
- `ioutil.ReadDir` order is not modelled: `CopyDir` copies the children in an arbitrary order. A `ReadDir` failure after a successful `os.Open` is not modelled either.
- Symbolic links are left out. Paths resolve lexically against a fixed working directory.
- Path length is counted in characters, not bytes.
- Archive.PackedNameExtractsTo: the round trip of `ZipDir` and `Unzip` is proved for names only. File modes are not modelled, and `Unzip` runs `os.MkdirAll` with `f.Mode()`. An entry made by `zip.Writer.Create` has mode 0666, so the parent directories made at `go/src/disk.go:285` lack the search bit, and a nested round trip then fails with `EACCES` for an unprivileged user.
- Archive.ZipFileUnzipRoundTrip: covers the one-entry archive of `ZipFile`, whose entry name has no directory part.
- A `..` element after a file or after a missing element is resolved lexically, whereas the kernel reports `ENOTDIR` or `ENOENT` for it.
- Disk.Volume.CopyDir: the mirror property is stated only when the source location does not contain the target location. When it does (`CopyDir("./a", "a/b")` passes the raw-prefix guard), the contract states only that nothing outside the target changes and that the target is a new directory.
- Disk.Volume.CopyChildren: the mirror property is stated only when the source and the target are apart and the target starts empty. `CopyDir` establishes both.
