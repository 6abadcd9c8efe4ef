/** `classify_files_by_year_and_type`: walks the source tree, moves every
    visible file into `target/<year>/<type>/`, records one `FileStats` per
    file, and writes `error.txt` when some file failed. */
module Engine {
  import opened Wrappers
  import opened Paths
  import opened Clock
  import opened Records
  import opened Stats
  import opened Classify
  import opened FileSystem
  import opened ErrorLog

  /** One directory of `os.walk`: its path and the regular files in it. */
  datatype WalkStep = WalkStep(root: string, names: seq<string>)

  /** Failures the platform reports for the calls made on the `k`-th
      visible file, beyond those the file-system state implies. */
  datatype Faults = Faults(
    stat: nat -> Option<OsError>,
    makedirs: nat -> Option<OsError>,
    move: nat -> Option<OsError>)

  /** `file.startswith(".")`. */
  predicate Hidden(name: string)
    ensures Hidden(name) <==> |name| >= 1 && name[..1] == "."
  {
    |name| > 0 && name[0] == '.'
  }

  /** The (directory, name) pairs of one directory the loop processes. */
  function VisibleIn(root: string, names: seq<string>): (r: seq<(string, string)>)
    ensures |r| <= |names|
    ensures forall v :: v in r ==> v.0 == root && v.1 in names && !Hidden(v.1)
  {
    if |names| == 0 then []
    else
      var last := names[|names| - 1];
      VisibleIn(root, names[..|names| - 1]) + (if Hidden(last) then [] else [(root, last)])
  }

  /** Every visible name of the directory is processed. */
  lemma {:induction false} VisibleInComplete(root: string, names: seq<string>, n: string)
    requires n in names && !Hidden(n)
    ensures (root, n) in VisibleIn(root, names)
  {
    var front := names[..|names| - 1];
    if n != names[|names| - 1] {
      assert n in front;
      VisibleInComplete(root, front, n);
    }
  }

  /** The files the loop processes, in walk order. */
  function Visits(walk: seq<WalkStep>): (r: seq<(string, string)>)
    ensures forall v :: v in r ==> !Hidden(v.1)
  {
    if |walk| == 0 then []
    else
      var last := walk[|walk| - 1];
      Visits(walk[..|walk| - 1]) + VisibleIn(last.root, last.names)
  }

  /** Only visible files of the walk's directories are processed. */
  lemma {:induction false} VisitsSound(walk: seq<WalkStep>, v: (string, string))
    requires v in Visits(walk)
    ensures !Hidden(v.1)
    ensures exists i :: 0 <= i < |walk| && walk[i].root == v.0 && v.1 in walk[i].names
  {
    var front, last := walk[..|walk| - 1], walk[|walk| - 1];
    if v in Visits(front) {
      VisitsSound(front, v);
      var i :| 0 <= i < |front| && front[i].root == v.0 && v.1 in front[i].names;
      assert walk[i] == front[i];
    } else {
      assert v in VisibleIn(last.root, last.names);
      assert walk[|walk| - 1] == last;
    }
  }

  /** Every visible file of every directory of the walk is processed. */
  lemma {:induction false} VisitsComplete(walk: seq<WalkStep>, i: int, n: string)
    requires 0 <= i < |walk| && n in walk[i].names && !Hidden(n)
    ensures (walk[i].root, n) in Visits(walk)
  {
    var front := walk[..|walk| - 1];
    if i < |walk| - 1 {
      assert front[i] == walk[i];
      VisitsComplete(front, i, n);
    } else {
      VisibleInComplete(walk[i].root, walk[i].names, n);
    }
  }

  /** The message a failure record carries: `f"權限不足: {e}"`,
      `f"檔案不存在: {e}"`, or `str(e)` for any other error. */
  function FailureMessage(e: OsError): (m: string)
    ensures e.PermissionDenied? ==> |m| > |e.text|
    ensures e.NotFound? ==> |m| > |e.text|
    ensures e.OtherError? ==> m == e.text
  {
    match e
    case PermissionDenied(t) => "權限不足: " + t
    case NotFound(t) => "檔案不存在: " + t
    case OtherError(t) => t
  }

  /** A permission failure and a missing file never leave the same
      message: the two prefixes differ in their first character. */
  lemma KnownKindsDistinct(t1: string, t2: string)
    ensures FailureMessage(PermissionDenied(t1)) != FailureMessage(NotFound(t2))
  {
    assert FailureMessage(PermissionDenied(t1))[0] == '權';
    assert FailureMessage(NotFound(t2))[0] == '檔';
  }

  /** An error other than the two known kinds may carry an empty text, and
      then its record's message is empty. */
  lemma EmptyOtherMessage()
    ensures FailureMessage(OtherError("")) == ""
  {
  }

  /** The record appended when any step for the file raised. */
  function FailureRecord(path: string, name: string, now: DateTime, e: OsError): (r: FileStats)
  {
    FileStats(path, name, 0, now, 0, "unknown", false, FailureMessage(e))
  }

  /** The record appended once the file has been moved. */
  function SuccessRecord(path: string, name: string, entry: Entry): (r: FileStats)
  {
    FileStats(path, name, entry.size, entry.mtime, entry.mtime.year, ExtensionTag(name), true, "")
  }

  /** A failure record counts once, as a failure, and enters neither the
      total size nor the year and type histograms. */
  lemma FailureRecordAggregates(path: string, name: string, now: DateTime, e: OsError)
    ensures var r := FailureRecord(path, name, now, e);
      && FailedCount([r]) == 1 && SuccessCount([r]) == 0 && TotalSizeBytes([r]) == 0
      && FailedFiles([r]) == [r] && SuccessYears([r]) == [] && SuccessTypes([r]) == []
  {
  }

  /** A success record counts once, as a success, adds the file's size to the
      total and enters the histograms under its year and its type folder. */
  lemma SuccessRecordAggregates(path: string, name: string, entry: Entry)
    ensures var r := SuccessRecord(path, name, entry);
      && SuccessCount([r]) == 1 && FailedCount([r]) == 0 && TotalSizeBytes([r]) == entry.size
      && SuccessYears([r]) == [entry.mtime.year] && SuccessTypes([r]) == [ExtensionTag(name)]
  {
  }

  /** `target_file_path`: the name itself inside the bucket, or the stamped
      name when that path already exists. The stamped path is not checked. */
  function Destination(fs: Fs, bucket: string, name: string, stamp: string): (r: string)
    ensures r == Join(bucket, name) || r == Join(bucket, CollisionName(name, stamp))
    ensures r != Join(bucket, name) ==> Exists(fs, Join(bucket, name))
  {
    var plain := Join(bucket, name);
    if Exists(fs, plain) then Join(bucket, CollisionName(name, stamp)) else plain
  }

  datatype Outcome = Outcome(record: FileStats, fs: Fs)

  /** The body of the loop for the `k`-th visible file `name` in `root`:
      stat, create the bucket, pick the destination, move, and produce the
      record; any error yields a failure record instead. */
  function ProcessFile(fs: Fs, faults: Faults, k: nat, target: string, root: string, name: string, now: DateTime): (o: Outcome)
    ensures o.record.originalPath == Join(root, name) && o.record.filename == name
  {
    var path := Join(root, name);
    match Stat(fs, faults.stat(k), path)
    case Err(e) => Outcome(FailureRecord(path, name, now, e), fs)
    case Ok(entry) =>
      var bucket := BucketDir(target, entry.mtime.year, ExtensionTag(name));
      match MakeDirs(fs, faults.makedirs(k), bucket)
      case Err(e) => Outcome(FailureRecord(path, name, now, e), fs)
      case Ok(fs1) =>
        match Move(fs1, faults.move(k), path, Destination(fs1, bucket, name, FileStamp(now)))
        case Err(e) => Outcome(FailureRecord(path, name, now, e), fs1)
        case Ok(fs2) => Outcome(SuccessRecord(path, name, entry), fs2)
  }

  /** A failure record is uniform, and the file stays where it was: no
      regular file is created, moved or removed. Its message is that of the
      first call to raise: `stat`, then `makedirs`, then `shutil.move`. */
  lemma FailureUniform(fs: Fs, faults: Faults, k: nat, target: string, root: string, name: string, now: DateTime)
    ensures var o := ProcessFile(fs, faults, k, target, root, name, now);
      !o.record.success ==>
        && o.record.sizeBytes == 0 && o.record.year == 0 && o.record.fileType == "unknown"
        && o.record.modifiedTime == now
        && o.fs.files == fs.files && fs.dirs <= o.fs.dirs
    ensures var o := ProcessFile(fs, faults, k, target, root, name, now);
      var st := Stat(fs, faults.stat(k), Join(root, name));
      st.Err? ==> !o.record.success && o.record.errorMessage == FailureMessage(st.error)
    ensures var o := ProcessFile(fs, faults, k, target, root, name, now);
      var st := Stat(fs, faults.stat(k), Join(root, name));
      st.Ok? ==>
        var bucket := BucketDir(target, st.value.mtime.year, ExtensionTag(name));
        var made := MakeDirs(fs, faults.makedirs(k), bucket);
        made.Err? ==> !o.record.success && o.record.errorMessage == FailureMessage(made.error)
    ensures var o := ProcessFile(fs, faults, k, target, root, name, now);
      var st := Stat(fs, faults.stat(k), Join(root, name));
      st.Ok? ==>
        var bucket := BucketDir(target, st.value.mtime.year, ExtensionTag(name));
        var made := MakeDirs(fs, faults.makedirs(k), bucket);
        made.Ok? ==>
          var moved := Move(made.value, faults.move(k), Join(root, name),
            Destination(made.value, bucket, name, FileStamp(now)));
          moved.Err? ==> !o.record.success && o.record.errorMessage == FailureMessage(moved.error)
  {
    var path := Join(root, name);
    var st := Stat(fs, faults.stat(k), path);
    if st.Ok? {
      var bucket := BucketDir(target, st.value.mtime.year, ExtensionTag(name));
      var made := MakeDirs(fs, faults.makedirs(k), bucket);
      if made.Ok? {
        var moved := Move(made.value, faults.move(k), path,
          Destination(made.value, bucket, name, FileStamp(now)));
        if moved.Err? {
          assert ProcessFile(fs, faults, k, target, root, name, now)
            == Outcome(FailureRecord(path, name, now, moved.error), made.value);
        }
      }
    }
  }

  /** A `stat` that raises `PermissionError` gives `權限不足: ` before the
      error's text, and a file that is gone gives `檔案不存在: ` before it. */
  lemma StatFailureMessages(fs: Fs, faults: Faults, k: nat, target: string, root: string, name: string, now: DateTime)
    ensures var o := ProcessFile(fs, faults, k, target, root, name, now);
      faults.stat(k).Some? && faults.stat(k).value.PermissionDenied? ==>
        o.record.errorMessage == "權限不足: " + faults.stat(k).value.text
    ensures var o := ProcessFile(fs, faults, k, target, root, name, now);
      var path := Join(root, name);
      faults.stat(k).None? && path !in fs.files ==>
        o.record.errorMessage == "檔案不存在: " + NoSuchFile(path).text
  {
    FailureUniform(fs, faults, k, target, root, name, now);
  }

  /** The directories `MakeDirs` adds are the bucket and its ancestors, none
      longer than the bucket. */
  lemma {:induction false} LongerNotInLineage(d: string, a: string)
    requires |a| > |d|
    ensures a !in Lineage(d)
    decreases |d|
  {
    if d != "" {
      LongerNotInLineage(Parent(d), a);
    }
  }

  /** Creating the bucket does not change which destination is chosen. */
  lemma DestinationAfterMakeDirs(fs: Fs, fs1: Fs, bucket: string, name: string, stamp: string)
    requires IsName(name)
    requires fs1.files == fs.files && fs1.dirs == fs.dirs + Lineage(bucket)
    ensures Destination(fs1, bucket, name, stamp) == Destination(fs, bucket, name, stamp)
  {
    var plain := Join(bucket, name);
    assert |plain| > |bucket|;
    LongerNotInLineage(bucket, plain);
  }

  /** A success record is produced exactly when the stat, the directory
      creation and the move all went through, and it describes the file as
      it was found. */
  lemma SuccessAfterMove(fs: Fs, faults: Faults, k: nat, target: string, root: string, name: string, now: DateTime)
    requires IsName(name)
    ensures var o := ProcessFile(fs, faults, k, target, root, name, now);
      var path := Join(root, name);
      o.record.success <==>
        && faults.stat(k).None? && path in fs.files
        && var bucket := BucketDir(target, fs.files[path].mtime.year, ExtensionTag(name));
        && MakeDirs(fs, faults.makedirs(k), bucket).Ok?
        && Move(MakeDirs(fs, faults.makedirs(k), bucket).value, faults.move(k), path,
             Destination(fs, bucket, name, FileStamp(now))).Ok?
    ensures var o := ProcessFile(fs, faults, k, target, root, name, now);
      var path := Join(root, name);
      o.record.success ==>
        && path in fs.files
        && o.record.sizeBytes == fs.files[path].size
        && o.record.modifiedTime == fs.files[path].mtime
        && o.record.year == fs.files[path].mtime.year
        && o.record.fileType == ExtensionTag(name)
        && o.record.errorMessage == ""
  {
    var path := Join(root, name);
    if faults.stat(k).None? && path in fs.files {
      var bucket := BucketDir(target, fs.files[path].mtime.year, ExtensionTag(name));
      var made := MakeDirs(fs, faults.makedirs(k), bucket);
      if made.Ok? {
        DestinationAfterMakeDirs(fs, made.value, bucket, name, FileStamp(now));
      }
    }
  }

  /** On success with a regular destination, the file's entry now sits at
      the destination, its old path is gone, and every other file is as it
      was (a file already at the destination is replaced). */
  lemma SuccessMovesFile(fs: Fs, faults: Faults, k: nat, target: string, root: string, name: string, now: DateTime)
    requires IsName(name)
    requires var path := Join(root, name);
      path in fs.files ==>
        Destination(fs, BucketDir(target, fs.files[path].mtime.year, ExtensionTag(name)), name, FileStamp(now)) !in fs.dirs
    ensures var o := ProcessFile(fs, faults, k, target, root, name, now);
      var path := Join(root, name);
      o.record.success ==>
        && path in fs.files
        && var dest := Destination(fs, BucketDir(target, fs.files[path].mtime.year, ExtensionTag(name)), name, FileStamp(now));
        && o.fs.files == (fs.files - {path})[dest := fs.files[path]]
  {
    var path := Join(root, name);
    if path in fs.files && faults.stat(k).None? {
      var bucket := BucketDir(target, fs.files[path].mtime.year, ExtensionTag(name));
      var made := MakeDirs(fs, faults.makedirs(k), bucket);
      if made.Ok? {
        var dest := Destination(fs, bucket, name, FileStamp(now));
        DestinationAfterMakeDirs(fs, made.value, bucket, name, FileStamp(now));
        assert |dest| > |bucket|;
        LongerNotInLineage(bucket, dest);
      }
    }
  }

  /** With no collision the file keeps its name inside the bucket. */
  lemma FreshDestination(fs: Fs, faults: Faults, k: nat, target: string, root: string, name: string, now: DateTime)
    requires IsName(name)
    requires var path := Join(root, name);
      path in fs.files ==>
        !Exists(fs, Join(BucketDir(target, fs.files[path].mtime.year, ExtensionTag(name)), name))
    ensures var o := ProcessFile(fs, faults, k, target, root, name, now);
      var path := Join(root, name);
      o.record.success ==>
        && var plain := Join(BucketDir(target, fs.files[path].mtime.year, ExtensionTag(name)), name);
        && plain in o.fs.files && o.fs.files[plain] == fs.files[path]
  {
    SuccessMovesFile(fs, faults, k, target, root, name, now);
  }

  /** A file already at `<bucket>/<name>` survives the collision, and the
      new file goes to the stamped name. The stamped path itself is not
      checked: a file already there is replaced. */
  lemma CollisionDestination(fs: Fs, faults: Faults, k: nat, target: string, root: string, name: string, now: DateTime)
    requires IsName(name) && !Hidden(name)
    requires var path := Join(root, name);
      path in fs.files ==>
        var bucket := BucketDir(target, fs.files[path].mtime.year, ExtensionTag(name));
        && Join(bucket, name) in fs.files && Join(bucket, name) != path
        && Join(bucket, CollisionName(name, FileStamp(now))) !in fs.dirs
    ensures var o := ProcessFile(fs, faults, k, target, root, name, now);
      var path := Join(root, name);
      o.record.success ==>
        && path in fs.files
        && var bucket := BucketDir(target, fs.files[path].mtime.year, ExtensionTag(name));
        && var plain := Join(bucket, name);
        && var stamped := Join(bucket, CollisionName(name, FileStamp(now)));
        && plain in o.fs.files && o.fs.files[plain] == fs.files[plain]
        && stamped in o.fs.files && o.fs.files[stamped] == fs.files[path]
  {
    var path := Join(root, name);
    SuccessMovesFile(fs, faults, k, target, root, name, now);
    if path in fs.files {
      var bucket := BucketDir(target, fs.files[path].mtime.year, ExtensionTag(name));
      FileStampIsPlain(now);
      CollisionKeepsExtension(name, FileStamp(now));
      JoinDistinct(bucket, name, CollisionName(name, FileStamp(now)));
    }
  }

  /** The records and the file system after processing `visits` in order;
      the `k`-th visible file uses the `k`-th clock reading and faults. */
  function Run(fs: Fs, faults: Faults, target: string, visits: seq<(string, string)>, now: nat -> DateTime): (r: (seq<FileStats>, Fs))
    ensures |r.0| == |visits|
  {
    if |visits| == 0 then ([], fs)
    else
      var k := |visits| - 1;
      var before := Run(fs, faults, target, visits[..k], now);
      var o := ProcessFile(before.1, faults, k, target, visits[k].0, visits[k].1, now(k));
      (before.0 + [o.record], o.fs)
  }

  /** Processing one more file appends its record to the run. */
  lemma RunAppend(fs: Fs, faults: Faults, target: string, visits: seq<(string, string)>, v: (string, string), now: nat -> DateTime)
    ensures var before := Run(fs, faults, target, visits, now);
      var o := ProcessFile(before.1, faults, |visits|, target, v.0, v.1, now(|visits|));
      Run(fs, faults, target, visits + [v], now) == (before.0 + [o.record], o.fs)
  {
    assert (visits + [v])[..|visits|] == visits;
  }

  /** What every record of a run satisfies: a success carries the folder
      its extension names, the file's year and no message; a failure has
      size 0, year 0, type "unknown" and the clock reading of its file. */
  predicate RecordShape(r: FileStats, now: DateTime)
  {
    if r.success then
      r.fileType == ExtensionTag(r.filename) && 1 <= r.year <= 9999 && r.errorMessage == ""
    else
      r.sizeBytes == 0 && r.year == 0 && r.fileType == "unknown" && r.modifiedTime == now
  }

  lemma StepShape(fs: Fs, faults: Faults, k: nat, target: string, root: string, name: string, now: DateTime)
    ensures RecordShape(ProcessFile(fs, faults, k, target, root, name, now).record, now)
  {
    var o := ProcessFile(fs, faults, k, target, root, name, now);
    var path := Join(root, name);
    var st := Stat(fs, faults.stat(k), path);
    if st.Ok? {
      var bucket := BucketDir(target, st.value.mtime.year, ExtensionTag(name));
      var made := MakeDirs(fs, faults.makedirs(k), bucket);
      if made.Ok? {
        var moved := Move(made.value, faults.move(k), path, Destination(made.value, bucket, name, FileStamp(now)));
        if moved.Ok? {
          assert o.record == SuccessRecord(path, name, st.value);
        }
      }
    }
  }

  /** The `i`-th record of a run is the one the `i`-th file's processing
      produced, on the file system the earlier files left behind. */
  lemma {:induction false} RunRecordAt(fs: Fs, faults: Faults, target: string, visits: seq<(string, string)>, now: nat -> DateTime, i: nat)
    requires i < |visits|
    ensures Run(fs, faults, target, visits, now).0[i] ==
      ProcessFile(Run(fs, faults, target, visits[..i], now).1, faults, i, target, visits[i].0, visits[i].1, now(i)).record
  {
    var k := |visits| - 1;
    var front := visits[..k];
    var before := Run(fs, faults, target, front, now);
    var o := ProcessFile(before.1, faults, k, target, visits[k].0, visits[k].1, now(k));
    var records := Run(fs, faults, target, visits, now).0;
    assert records == before.0 + [o.record];
    if i < k {
      assert front[..i] == visits[..i];
      assert front[i] == visits[i];
      RunRecordAt(fs, faults, target, front, now, i);
      assert records[i] == before.0[i];
    } else {
      assert visits[..i] == front;
      assert records[i] == o.record;
    }
  }

  /** The `i`-th record of a run describes the `i`-th visible file. */
  lemma RunPaths(fs: Fs, faults: Faults, target: string, visits: seq<(string, string)>, now: nat -> DateTime)
    ensures var records := Run(fs, faults, target, visits, now).0;
      forall i :: 0 <= i < |records| ==>
        records[i].originalPath == Join(visits[i].0, visits[i].1) && records[i].filename == visits[i].1
  {
    var records := Run(fs, faults, target, visits, now).0;
    forall i | 0 <= i < |records|
      ensures records[i].originalPath == Join(visits[i].0, visits[i].1) && records[i].filename == visits[i].1
    {
      RunRecordAt(fs, faults, target, visits, now, i);
    }
  }

  /** Every record of a run has the shape of a success or of a failure. */
  lemma RunShapes(fs: Fs, faults: Faults, target: string, visits: seq<(string, string)>, now: nat -> DateTime)
    ensures var records := Run(fs, faults, target, visits, now).0;
      forall i :: 0 <= i < |records| ==> RecordShape(records[i], now(i))
  {
    var records := Run(fs, faults, target, visits, now).0;
    forall i | 0 <= i < |records|
      ensures RecordShape(records[i], now(i))
    {
      RunRecordAt(fs, faults, target, visits, now, i);
      StepShape(Run(fs, faults, target, visits[..i], now).1, faults, i, target, visits[i].0, visits[i].1, now(i));
    }
  }

  /** One file's processing creates no entry out of nothing and removes no
      directory. */
  lemma StepKeepsEntries(fs: Fs, faults: Faults, k: nat, target: string, root: string, name: string, now: DateTime)
    ensures var o := ProcessFile(fs, faults, k, target, root, name, now);
      && (forall p :: p in o.fs.files ==> o.fs.files[p] in fs.files.Values)
      && fs.dirs <= o.fs.dirs
  {
    var o := ProcessFile(fs, faults, k, target, root, name, now);
    var path := Join(root, name);
    var st := Stat(fs, faults.stat(k), path);
    assert forall p :: p in fs.files ==> fs.files[p] in fs.files.Values;
    if st.Ok? {
      var bucket := BucketDir(target, st.value.mtime.year, ExtensionTag(name));
      var made := MakeDirs(fs, faults.makedirs(k), bucket);
      if made.Ok? {
        var dest := Destination(made.value, bucket, name, FileStamp(now));
        var moved := Move(made.value, faults.move(k), path, dest);
        if moved.Ok? {
          var t := MoveTarget(made.value, path, dest);
          forall p | p in moved.value.files
            ensures moved.value.files[p] in fs.files.Values
          {
            if p != t {
              assert p in fs.files;
            }
          }
        }
      }
    }
  }

  /** No run creates a regular file out of nothing: every entry present
      afterwards was present before, possibly under a new path; and no
      directory disappears. */
  lemma {:induction false} RunKeepsEntries(fs: Fs, faults: Faults, target: string, visits: seq<(string, string)>, now: nat -> DateTime)
    ensures var after := Run(fs, faults, target, visits, now).1;
      && (forall p :: p in after.files ==> after.files[p] in fs.files.Values)
      && fs.dirs <= after.dirs
  {
    if |visits| > 0 {
      var k := |visits| - 1;
      RunKeepsEntries(fs, faults, target, visits[..k], now);
      var before := Run(fs, faults, target, visits[..k], now).1;
      var after := Run(fs, faults, target, visits, now).1;
      StepKeepsEntries(before, faults, k, target, visits[k].0, visits[k].1, now(k));
      forall p | p in after.files
        ensures after.files[p] in fs.files.Values
      {
        var q :| q in before.files && before.files[q] == after.files[p];
      }
    }
  }

  /** Counting over a run: one record per visible file, each a success or
      a failure. */
  lemma RunCounts(fs: Fs, faults: Faults, target: string, walk: seq<WalkStep>, now: nat -> DateTime)
    ensures var records := Run(fs, faults, target, Visits(walk), now).0;
      && TotalCount(records) == |Visits(walk)|
      && SuccessCount(records) + FailedCount(records) == |Visits(walk)|
  {
    CountsPartition(Run(fs, faults, target, Visits(walk), now).0);
  }

  /** Regrouping the visits of the inner loop; stated on its own so that the
      loop's proof does not search for it. */
  lemma AppendAssociates<T>(a: seq<T>, b: seq<T>, c: seq<T>)
    ensures a + b + c == a + (b + c)
  {
  }

  lemma VisibleInAppend(root: string, names: seq<string>, j: int)
    requires 0 <= j < |names|
    ensures VisibleIn(root, names[..j + 1]) ==
      VisibleIn(root, names[..j]) + (if Hidden(names[j]) then [] else [(root, names[j])])
  {
    assert names[..j + 1][..j] == names[..j];
  }

  lemma VisitsAppend(walk: seq<WalkStep>, i: int)
    requires 0 <= i < |walk|
    ensures Visits(walk[..i + 1]) == Visits(walk[..i]) + VisibleIn(walk[i].root, walk[i].names)
  {
    assert walk[..i + 1][..i] == walk[..i];
  }

  /** The whole run: the nested loops over the walk, then `error.txt`. The
      log text is returned when some file failed, `None` otherwise. */
  method ClassifyFiles(fs0: Fs, faults: Faults, walk: seq<WalkStep>, source: string, target: string,
                       now: nat -> DateTime, logTime: DateTime)
    returns (result: ClassifyResult, fs: Fs, errorLog: Option<string>)
    ensures fresh(result)
    ensures result.sourceFolder == source && result.targetFolder == target
    ensures (result.files, fs) == Run(fs0, faults, target, Visits(walk), now)
    ensures errorLog.Some? <==> FailedCount(result.files) > 0
    ensures errorLog.Some? ==> errorLog.value == Unlines(ErrorLogLines(logTime, FailedFiles(result.files)))
  {
    result := new ClassifyResult(source, target);
    fs := fs0;
    ghost var visits: seq<(string, string)> := [];
    var i := 0;
    while i < |walk|
      invariant 0 <= i <= |walk|
      invariant visits == Visits(walk[..i])
      invariant (result.files, fs) == Run(fs0, faults, target, visits, now)
    {
      var step := walk[i];
      VisitsAppend(walk, i);
      assert step.names[..0] == [];
      var j := 0;
      while j < |step.names|
        invariant 0 <= j <= |step.names|
        invariant visits == Visits(walk[..i]) + VisibleIn(step.root, step.names[..j])
        invariant (result.files, fs) == Run(fs0, faults, target, visits, now)
      {
        var name := step.names[j];
        ghost var seen := VisibleIn(step.root, step.names[..j]);
        VisibleInAppend(step.root, step.names, j);
        if Hidden(name) {
          assert VisibleIn(step.root, step.names[..j + 1]) == seen;
          j := j + 1;
          continue;
        }
        assert VisibleIn(step.root, step.names[..j + 1]) == seen + [(step.root, name)];
        var k := |result.files|;
        RunAppend(fs0, faults, target, visits, (step.root, name), now);
        var o := ProcessFile(fs, faults, k, target, step.root, name, now(k));
        result.Append(o.record);
        fs := o.fs;
        AppendAssociates(Visits(walk[..i]), seen, [(step.root, name)]);
        visits := visits + [(step.root, name)];
        j := j + 1;
      }
      assert step.names[..j] == step.names;
      i := i + 1;
    }
    assert walk[..i] == walk;
    CountsMatchFilters(result.files);
    var errors := FailedFiles(result.files);
    if |errors| > 0 {
      var text := WriteErrorLog(logTime, errors);
      errorLog := Some(text);
    } else {
      errorLog := None;
    }
  }
}
