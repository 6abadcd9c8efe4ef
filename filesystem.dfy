/** The part of the file system the organizer touches, as a value: regular
    files with their size and modification time, and directories. Each
    system call is a function from a state to a result; failures the state
    does not explain (permissions, I/O errors) arrive as an optional error
    supplied by the caller. */
module FileSystem {
  import opened Wrappers
  import opened Paths
  import opened Clock

  /** What `os.stat` reports that the organizer reads. */
  datatype Entry = Entry(size: nat, mtime: DateTime)

  /** The `OSError` subclasses the organizer tells apart, with `str(e)`. */
  datatype OsError =
    | PermissionDenied(text: string)
    | NotFound(text: string)
    | OtherError(text: string)

  datatype Fs = Fs(files: map<string, Entry>, dirs: set<string>)

  predicate Exists(fs: Fs, p: string)
  {
    p in fs.files || p in fs.dirs
  }

  function NoSuchFile(p: string): OsError
  {
    NotFound("[Errno 2] No such file or directory: '" + p + "'")
  }

  /** `os.stat(p)` on a regular file. */
  function Stat(fs: Fs, fault: Option<OsError>, p: string): (r: Result<Entry, OsError>)
    ensures r.Ok? <==> fault.None? && p in fs.files
    ensures r.Ok? ==> r.value == fs.files[p]
    ensures fault.None? && p !in fs.files ==> r.Err? && r.error.NotFound?
  {
    if fault.Some? then Err(fault.value)
    else if p !in fs.files then Err(NoSuchFile(p))
    else Ok(fs.files[p])
  }

  /** `d` and every directory above it, up to the first component. */
  function Lineage(d: string): (r: set<string>)
    ensures d != "" ==> d in r
    ensures "" !in r
    decreases |d|
  {
    if d == "" then {} else {d} + Lineage(Parent(d))
  }

  /** `os.makedirs(d, exist_ok=True)`: creates `d` and its missing parents;
      a regular file in the way is an error, an existing directory is not. */
  function MakeDirs(fs: Fs, fault: Option<OsError>, d: string): (r: Result<Fs, OsError>)
    ensures r.Ok? <==> fault.None? && !(exists a :: a in Lineage(d) && a in fs.files)
    ensures r.Ok? ==> r.value.files == fs.files
    ensures r.Ok? ==> r.value.dirs == fs.dirs + Lineage(d) && (d != "" ==> d in r.value.dirs)
  {
    if fault.Some? then Err(fault.value)
    else if exists a :: a in Lineage(d) && a in fs.files then
      Err(OtherError("[Errno 17] File exists: '" + d + "'"))
    else Ok(Fs(fs.files, fs.dirs + Lineage(d)))
  }

  /** Where `shutil.move(src, dst)` puts the file: into `dst` when `dst` is
      a directory, otherwise at `dst` itself. */
  function MoveTarget(fs: Fs, src: string, dst: string): string
  {
    if dst in fs.dirs then Join(dst, Basename(src)) else dst
  }

  /** `shutil.move(src, dst)` for a regular file: refuses to move into a
      directory that already holds the name; otherwise renames, replacing
      any file already at the target. */
  function Move(fs: Fs, fault: Option<OsError>, src: string, dst: string): (r: Result<Fs, OsError>)
    ensures r.Ok? <==> fault.None? && src in fs.files && !(dst in fs.dirs && Exists(fs, MoveTarget(fs, src, dst)))
    ensures r.Ok? ==> r.value.dirs == fs.dirs
    ensures r.Ok? ==>
      MoveTarget(fs, src, dst) in r.value.files && r.value.files[MoveTarget(fs, src, dst)] == fs.files[src]
    ensures r.Ok? ==> forall p :: p != src && p != MoveTarget(fs, src, dst) ==>
      (p in r.value.files <==> p in fs.files) && (p in fs.files ==> r.value.files[p] == fs.files[p])
    ensures r.Ok? && src != MoveTarget(fs, src, dst) ==> src !in r.value.files
  {
    var moved := MoveTarget(fs, src, dst);
    if dst in fs.dirs && Exists(fs, moved) then
      Err(OtherError("Destination path '" + moved + "' already exists"))
    else if fault.Some? then Err(fault.value)
    else if src !in fs.files then Err(NoSuchFile(src))
    else Ok(Fs((fs.files - {src})[moved := fs.files[src]], fs.dirs))
  }

  /** The entries directly inside `d`. */
  function Children(fs: Fs, d: string): (r: set<string>)
    ensures forall p :: p in r <==> (p in fs.files || p in fs.dirs) && Parent(p) == d
  {
    set p | p in fs.files.Keys + fs.dirs && Parent(p) == d
  }

  /** `os.listdir(d)`, as paths rather than names. */
  function ListDir(fs: Fs, fault: Option<OsError>, d: string): (r: Result<set<string>, OsError>)
    ensures r.Ok? <==> fault.None? && d in fs.dirs
    ensures r.Ok? ==> r.value == Children(fs, d)
  {
    if fault.Some? then Err(fault.value)
    else if d !in fs.dirs then Err(NoSuchFile(d))
    else Ok(Children(fs, d))
  }

  /** `os.rmdir(d)`: removes an existing, empty directory. */
  function RemoveDir(fs: Fs, fault: Option<OsError>, d: string): (r: Result<Fs, OsError>)
    ensures r.Ok? <==> fault.None? && d in fs.dirs && Children(fs, d) == {}
    ensures r.Ok? ==> r.value == Fs(fs.files, fs.dirs - {d})
  {
    if fault.Some? then Err(fault.value)
    else if d !in fs.dirs then Err(NoSuchFile(d))
    else if Children(fs, d) != {} then Err(OtherError("[Errno 39] Directory not empty: '" + d + "'"))
    else Ok(Fs(fs.files, fs.dirs - {d}))
  }
}
