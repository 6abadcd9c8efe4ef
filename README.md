# File organizer: a verified model

This project models the core of a small file organizer. The organizer walks
a source folder and moves every visible file into
`<target>/<year>/<type>/`. The year is the year of the file's modification
time. The type is a folder name derived from the file's extension.

- When a file of the same name already sits in the bucket, the moved file
  gets a timestamp inserted before its extension.
- Every file gets a `FileStats` record. Any error produces a failure
  record instead of a success record.
- When some file failed, `error.txt` lists the failures.
- Afterwards, empty folders left in the source tree can be swept away
  bottom-up.
- The run's statistics are derived from the list of records: counts,
  total size, year and type histograms, and the five largest files.
- A "roast" generator picks a teasing remark for a file from fixed tables.
  It picks by file-name keyword, age tier, size tier and type.

The modules:

- `Wrappers`: `Option` and `Result`.
- `Text`: ASCII lower-casing, substring search, `c * n`, `str(n)` and
  zero padding.
- `Paths`: POSIX `os.path.join`, `basename` and `splitext`, and `Parent`,
  the text before a path's last '/'.
- `Clock`: `datetime` readings and the two `strftime` formats.
- `FileSystem`: the file system as a value. `Fs` holds the regular files
  (size and mtime) and the directories. `stat`, `makedirs`, `shutil.move`,
  `listdir` and `rmdir` are functions from a state to a `Result`. A failure
  the state does not explain (a permission error, an I/O error) is an
  optional error the caller supplies.
- `Records`: `FileStats`, and `ClassifyResult` as a class whose record list
  grows by `Append`.
- `Sorting` and `Counting`: a stable sort by key, standing for Python's
  `sorted`, and the insertion-ordered dictionaries the histogram loops
  build.
- `Stats`: the aggregates of `ClassifyResult`.
- `Classify`: `EXTENSION_MAPPING`, the extension-to-folder rule, the
  bucket path and the collision name.
- `ErrorLog`: the text of `error.txt`.
- `Engine`: `classify_files_by_year_and_type`. `ProcessFile` is one
  iteration of the loop, `Run` is the whole loop as a function, and the
  method `ClassifyFiles` is the nested loop itself, proved equal to `Run`.
- `Sweeper`: `clean_empty_folders`. The method `CleanEmptyFolders` is
  proved equal to the function `Sweep`.
- `Roast`: `RoastGenerator.generate_roast` and its tables.

The outside world becomes parameters:

- `os.walk` becomes its output: a sequence of (directory, file names) for
  the organizer, and a sequence of directories, bottom-up, for the sweeper.
- Faults the platform may raise are functions from the file's visit number
  to an optional error.
- `datetime.now()` becomes `now(k)`, one reading per visible file, plus one
  reading for the log header.
- `random.choice` becomes a `pick` index.

Some behaviour of the code differs from what one might expect. The model
follows the code in each case:

- A successfully moved file whose extension is `.unknown` gets the type
  `unknown`, the same type every failure record carries
  (`Classify.UnknownExtension`).
- A name ending in a lone dot, such as `report.`, has extension `.` and an
  empty folder name. The file goes directly into its year folder
  (`Classify.TrailingDot`).
- The message of an error other than a permission error or a missing file
  is `str(e)`, which may be empty (`Engine.EmptyOtherMessage`).
- Only the plain destination is checked for an existing file. The stamped
  name is used without checking it, so a second collision within the same
  second replaces the file the first collision created
  (`Engine.CollisionDestination`).

## Model

| member | source | states |
|---|---|---|
| Text.Digits | src/day_11_file_organizer/main.py:152 | `str(year)` is a non-empty string of decimal digits without a leading zero |
| Text.ParseDigitsOfDigits | src/day_11_file_organizer/main.py:152 | `str(n)` reads back as `n`, so different years never share a year folder name |
| Text.ContainsTransitive | src/day_11_file_organizer/roast.py:177 | `in` on strings is transitive: a substring of a substring of the name is in the name |
| Paths.JoinName | src/day_11_file_organizer/main.py:121 | joining a plain name onto a directory path adds one component: its parent is the directory and its basename is the name |
| Paths.JoinInjective | src/day_11_file_organizer/main.py:159 | two names joined onto the same directory give one path only if they are the same name |
| Paths.JoinDistinct | src/day_11_file_organizer/main.py:165 | a different name in the same directory is a different path |
| Paths.SplitExt | src/day_11_file_organizer/main.py:130 | `os.path.splitext`: stem plus extension is the path; the extension is empty or a dot followed by no dot and no separator |
| Paths.SplitExtNoDot | src/day_11_file_organizer/main.py:130 | a name without a dot has an empty extension |
| Paths.SplitExtOf | src/day_11_file_organizer/main.py:130 | the extension of `stem.w` is `.w` when `w` has no dot and the stem is not all dots |
| Paths.SplitExtLower | src/day_11_file_organizer/main.py:130 | lower-casing a name lower-cases its stem and extension and moves no boundary |
| Clock.FileStamp | src/day_11_file_organizer/main.py:163 | `%Y%m%d_%H%M%S` holds only digits and `_`, and for a valid time is 15 characters with `_` at index 8 |
| Clock.LogStamp | src/day_11_file_organizer/main.py:220 | `%Y-%m-%d %H:%M:%S` holds only digits, `-`, ` ` and `:`, and for a valid time has them at their fixed places |
| Classify.MappingNames | src/day_11_file_organizer/main.py:25-44 | every folder name in `EXTENSION_MAPPING` is a plain, non-empty name |
| Classify.LowerExtension | src/day_11_file_organizer/main.py:130 | the lower-cased extension is empty or a dot followed by no dot and no separator |
| Classify.ExtensionTag | src/day_11_file_organizer/main.py:130-138 | the folder name never holds a separator; it is empty exactly when the extension is a lone dot |
| Classify.TagOfMapped | src/day_11_file_organizer/main.py:133-134 | an extension of the table, in any letter case, gives the table's folder |
| Classify.TagOfUnmapped | src/day_11_file_organizer/main.py:135-136 | any other extension gives itself, lower-cased, without its dot |
| Classify.TagOfPlain | src/day_11_file_organizer/main.py:137-138 | a name without a dot goes to `other` |
| Classify.TagIgnoresCase | src/day_11_file_organizer/main.py:130 | the folder does not depend on the letter case of the name |
| Classify.TagOfKnown | src/day_11_file_organizer/main.py:133-134 | a lower-case table extension after any stem gives the table's folder |
| Classify.SynonymEntries | src/day_11_file_organizer/main.py:26-35 | the table sends `.doc`/`.docx`, `.xls`/`.xlsx`, `.ppt`/`.pptx` and `.jpg`/`.jpeg` to the same folder |
| Classify.Synonyms | src/day_11_file_organizer/main.py:25-44 | two table extensions with the same folder file any stem into that folder |
| Classify.UpperCaseJpeg | src/day_11_file_organizer/main.py:130-134 | `IMG_0001.JPEG` goes to `jpg` |
| Classify.UnknownExtension | src/day_11_file_organizer/main.py:135-136 | `notes.unknown` goes to the folder `unknown` |
| Classify.TrailingDot | src/day_11_file_organizer/main.py:135-136 | `report.` has an empty folder name |
| Classify.BucketDir | src/day_11_file_organizer/main.py:152-153 | below a target directory, the bucket is a directory named after the type, inside a directory named after the year, inside the target |
| Classify.BucketLayout | src/day_11_file_organizer/main.py:152-159 | the destination is `target/<year>/<type>/<name>`: the bucket is two components below the target and the file keeps its name in it |
| Classify.BucketInjective | src/day_11_file_organizer/main.py:152-153 | different (year, type) pairs never share a bucket |
| Classify.CollisionName | src/day_11_file_organizer/main.py:162-164 | the stamped name is the stem, `_`, the stamp, then the original extension: one character longer than the name and the stamp together |
| Classify.CollisionKeepsExtension | src/day_11_file_organizer/main.py:162-165 | the stamped name keeps the extension and so the folder; it differs from the original name and is still a plain name |
| Classify.FileStampIsPlain | src/day_11_file_organizer/main.py:163-164 | the timestamp holds no dot and no separator, so it cannot change the extension or the directory |
| FileSystem.Stat | src/day_11_file_organizer/main.py:125 | succeeds exactly for an existing regular file and no fault, returning its entry; a missing file is `FileNotFoundError` |
| FileSystem.MakeDirs | src/day_11_file_organizer/main.py:156 | with `exist_ok=True`, succeeds exactly when no fault fires and no regular file sits on the bucket's path, even when the directories exist; it adds exactly the bucket and its parents and changes no file |
| FileSystem.Move | src/day_11_file_organizer/main.py:168 | succeeds exactly when the source exists, there is no fault and it does not land on an existing entry inside a directory; the entry then sits at the target, the source is gone, every other file is unchanged |
| FileSystem.ListDir | src/day_11_file_organizer/main.py:87 | succeeds exactly for an existing directory with no fault, and lists its direct entries |
| FileSystem.RemoveDir | src/day_11_file_organizer/main.py:88 | succeeds exactly for an existing, empty directory with no fault, and removes it alone |
| Records.AgeYears | src/day_11_file_organizer/models.py:38-41 | the age is non-negative exactly when the record's year is not after the current year; a failure record, dated year 0, is as old as the current year's number |
| Records.ClassifyResult.constructor | src/day_11_file_organizer/models.py:44-50 | a new result has no records and keeps the two folders |
| Records.ClassifyResult.Append | src/day_11_file_organizer/main.py:171 | appending adds the record at the end and changes nothing else |
| Sorting.SortBy | src/day_11_file_organizer/models.py:94 | `sorted` returns a permutation of its input |
| Sorting.SortByAscending | src/day_11_file_organizer/models.py:79 | `sorted` orders by ascending key |
| Sorting.SortByStable | src/day_11_file_organizer/models.py:94 | `sorted` is stable: for every key value, the elements with that key keep their input order |
| Sorting.SortByOrdered | src/day_11_file_organizer/models.py:88 | an input ordered by rank comes out ordered by key, then rank |
| Sorting.SortByTotal | src/day_11_file_organizer/models.py:79 | sorting does not change a sum over the list |
| Counting.BumpExisting | src/day_11_file_organizer/models.py:78 | `dist[k] = dist.get(k, 0) + 1` on a present key adds one to its count and keeps every entry in place |
| Counting.BumpNew | src/day_11_file_organizer/models.py:78 | on an absent key it appends the key with count 1 |
| Counting.TallyCounts | src/day_11_file_organizer/models.py:75-78 | the counted dictionary has distinct keys, exactly the values counted, each with its number of occurrences |
| Counting.TallyFirstOccurrenceOrder | src/day_11_file_organizer/models.py:84-87 | the dictionary's keys are in order of first occurrence |
| Counting.TallyTotal | src/day_11_file_organizer/models.py:75-78 | the counts add up to the number of values counted |
| Stats.Successes | src/day_11_file_organizer/models.py:93 | holds exactly the successful records |
| Stats.FailedFiles | src/day_11_file_organizer/models.py:96-99 | holds exactly the failed records |
| Stats.TotalCount | src/day_11_file_organizer/models.py:52-55 | `total_count` equals `success_count + failed_count` |
| Stats.SuccessCount | src/day_11_file_organizer/models.py:57-60 | `success_count` is the number of successful records |
| Stats.FailedCount | src/day_11_file_organizer/models.py:62-65 | `failed_count` is the number of failed records |
| Stats.TotalSizeBytes | src/day_11_file_organizer/models.py:67-70 | no successful record is larger than `total_size_bytes`, and with no success it is 0 |
| Stats.CountsPartition | src/day_11_file_organizer/models.py:52-65 | every record is a success or a failure: the two counts add up to the number of records |
| Stats.CountsMatchFilters | src/day_11_file_organizer/models.py:57-99 | the counts are the lengths of the filtered lists |
| Stats.SuccessesAppend | src/day_11_file_organizer/models.py:93-94 | the list of successful records keeps record order: the successes of a concatenation are those of each part in turn |
| Stats.FailedFilesAppend | src/day_11_file_organizer/models.py:96-99 | `failed_files` keeps record order: the failures of a concatenation are those of each part in turn |
| Stats.TotalSizeOverSuccesses | src/day_11_file_organizer/models.py:67-70 | `total_size_bytes` is the sum of sizes over the successful records only |
| Stats.YearHistogram | src/day_11_file_organizer/models.py:72-79 | the year histogram lists each successful year once, ascending, with its count; the counts add up to `success_count` |
| Stats.YearDistribution | src/day_11_file_organizer/models.py:72-79 | the counting loop then the sort produce a histogram with those properties |
| Stats.TypeHistogram | src/day_11_file_organizer/models.py:81-88 | the type histogram lists each successful type once with its count, most frequent first, ties in first-occurrence order; the counts add up to `success_count` |
| Stats.TypeDistribution | src/day_11_file_organizer/models.py:81-88 | the counting loop then the sort produce a histogram with those properties |
| Stats.TopLargeFiles | src/day_11_file_organizer/models.py:90-94 | at most five records, fewer only when fewer succeeded, each a successful record of the run |
| Stats.TopLargeFilesDescending | src/day_11_file_organizer/models.py:94 | the top list is largest first |
| Stats.TopLargeFilesLargest | src/day_11_file_organizer/models.py:90-94 | the top list is drawn from the successes, and no success left out is larger than the last one listed |
| Stats.TopLargeFilesStable | src/day_11_file_organizer/models.py:94 | records of equal size keep their relative order |
| ErrorLog.ErrorLogLines | src/day_11_file_organizer/main.py:220-225 | the log has three lines of preamble and three lines per failure |
| ErrorLog.ErrorLogLayout | src/day_11_file_organizer/main.py:220-225 | line by line: the stamped header, fifty `=`, a blank line, then path, message and thirty `-` per failure |
| ErrorLog.ErrorLogReadsBack | src/day_11_file_organizer/main.py:219-225 | when no path or message holds a newline, splitting the file at newlines gives back its lines |
| ErrorLog.LogPreamble | src/day_11_file_organizer/main.py:220-221 | the first two writes produce the header, the rule and the blank line |
| ErrorLog.LogEntry | src/day_11_file_organizer/main.py:222-225 | each failure adds its three lines at the end |
| ErrorLog.WriteErrorLog | src/day_11_file_organizer/main.py:215-225 | the writes produce exactly the laid-out log for the failures, in record order |
| Engine.Hidden | src/day_11_file_organizer/main.py:118 | a name is skipped exactly when it starts with a dot |
| Engine.VisibleIn | src/day_11_file_organizer/main.py:116-119 | the files processed in one directory are visible names of that directory |
| Engine.VisibleInComplete | src/day_11_file_organizer/main.py:116-119 | every visible name of the directory is processed |
| Engine.Visits | src/day_11_file_organizer/main.py:115-119 | the files visited over the whole walk, none of them hidden |
| Engine.VisitsSound | src/day_11_file_organizer/main.py:115-119 | only visible files of the walk's directories are processed |
| Engine.VisitsComplete | src/day_11_file_organizer/main.py:115-119 | every visible file of every walked directory is processed |
| Engine.FailureMessage | src/day_11_file_organizer/main.py:173-211 | a permission error or a missing file prefixes the error text; any other error is its text alone |
| Engine.KnownKindsDistinct | src/day_11_file_organizer/main.py:182-196 | a permission failure and a missing-file failure never carry the same message |
| Engine.EmptyOtherMessage | src/day_11_file_organizer/main.py:201-210 | an other error with an empty text leaves an empty message |
| Engine.ProcessFile | src/day_11_file_organizer/main.py:121-213 | every record carries the joined path and the file's name |
| Engine.FailureRecordAggregates | src/day_11_file_organizer/main.py:174-211 | a failure record counts as one failure and no success, adds nothing to the total size and enters neither histogram |
| Engine.SuccessRecordAggregates | src/day_11_file_organizer/main.py:141-149 | a success record counts as one success, adds the file's size to the total and enters the histograms under its year and folder |
| Engine.FailureUniform | src/day_11_file_organizer/main.py:173-211 | a failure record has size 0, year 0, type `unknown` and the clock reading, and no regular file changes; when `stat`, `makedirs` or `shutil.move` raises (the first of them to do so), the record fails and carries that error's message |
| Engine.StatFailureMessages | src/day_11_file_organizer/main.py:172-197 | a `stat` permission error gives `權限不足: ` before the error text, and a missing file gives `檔案不存在: ` before the `No such file or directory` text |
| Engine.DestinationAfterMakeDirs | src/day_11_file_organizer/main.py:156-160 | creating the bucket does not change which destination is chosen |
| Engine.SuccessAfterMove | src/day_11_file_organizer/main.py:123-171 | a success record exactly when stat, makedirs and move all succeed; it carries the file's size, mtime, year, folder and no message |
| Engine.SuccessMovesFile | src/day_11_file_organizer/main.py:159-168 | on success the file's entry sits at the destination, its old path is gone and every other file is as it was |
| Engine.Destination | src/day_11_file_organizer/main.py:158-165 | the destination is the name in the bucket or the stamped name in the bucket, and the stamped name only when the plain path is taken |
| Engine.FreshDestination | src/day_11_file_organizer/main.py:159 | with no collision the file keeps its name in the bucket |
| Engine.CollisionDestination | src/day_11_file_organizer/main.py:160-168 | on a collision the file already in the bucket survives, and the moved file is at the stamped name |
| Engine.Run | src/day_11_file_organizer/main.py:115-213 | one record per visible file |
| Engine.RunPaths | src/day_11_file_organizer/main.py:115-121 | the `i`-th record carries the path and name of the `i`-th visible file in walk order |
| Engine.StepShape | src/day_11_file_organizer/main.py:141-211 | each record is a success with its extension's folder, a valid year and no message, or a uniform failure |
| Engine.RunShapes | src/day_11_file_organizer/main.py:115-213 | every record of a run has one of those two shapes |
| Engine.StepKeepsEntries | src/day_11_file_organizer/main.py:156-168 | one file's processing creates no file out of nothing and removes no directory |
| Engine.RunKeepsEntries | src/day_11_file_organizer/main.py:115-213 | the same over a whole run |
| Engine.RunCounts | src/day_11_file_organizer/main.py:115-213 | a run's record count is its number of visible files, each a success or a failure |
| Engine.ClassifyFiles | src/day_11_file_organizer/main.py:98-227 | the nested loops produce the records and file system of `Run`; `error.txt` is written exactly when some record failed, with the laid-out text |
| Sweeper.SweepStep | src/day_11_file_organizer/main.py:84-93 | a turn removes the directory exactly when it exists, holds nothing and no call fails; otherwise nothing changes |
| Sweeper.Sweep | src/day_11_file_organizer/main.py:78-93 | at most one directory is removed per directory of the walk |
| Sweeper.SweepFrame | src/day_11_file_organizer/main.py:80-95 | the sweep never touches a regular file, only removes directories, and counts each removal once |
| Sweeper.SweepRemovesWalked | src/day_11_file_organizer/main.py:80-83 | only walked directories are removed, never the top folder |
| Sweeper.SweepRemovesEmpty | src/day_11_file_organizer/main.py:85-88 | every removed directory holds nothing at the end |
| Sweeper.SweepBlocked | src/day_11_file_organizer/main.py:91-93 | when every `rmdir` fails the tree is unchanged and the count is 0 |
| Sweeper.BottomUpTurn | src/day_11_file_organizer/main.py:84-88 | in a bottom-up walk, once the earlier emptied directories are gone, a directory's turn removes it exactly when no regular file lies below it |
| Sweeper.BottomUpPrefix | src/day_11_file_organizer/main.py:78-93 | after any number of turns of a bottom-up walk, exactly the walked directories with no regular file below them are gone, and each is counted |
| Sweeper.SweepBottomUp | src/day_11_file_organizer/main.py:64-95 | with no failing call, a bottom-up walk removes every directory below the top folder that has no regular file below it, and no other; the count is their number |
| Sweeper.CleanEmptyFolders | src/day_11_file_organizer/main.py:66-95 | the loop computes the count and tree of `Sweep` |
| Sweeper.NestedEmptyRemoved | src/day_11_file_organizer/main.py:79-90 | an instance: bottom-up, the chain of empty folders `s/a/b` below `s` is removed entirely |
| Sweeper.TopDownLeavesParent | src/day_11_file_organizer/main.py:79-80 | top-down, the same chain would lose only its deepest folder |
| Roast.KeywordPart | src/day_11_file_organizer/roast.py:175-178 | a name holding no keyword of the table gets no keyword remark |
| Roast.KeywordPartMembers | src/day_11_file_organizer/roast.py:175-178 | a remark is a keyword candidate exactly when it belongs to a keyword occurring in the lower-cased name |
| Roast.KeywordHit | src/day_11_file_organizer/roast.py:176-178 | all remarks of a matching keyword are candidates |
| Roast.TierIndex | src/day_11_file_organizer/roast.py:180-192 | the chosen tier is the first one reached, and every earlier tier is not reached |
| Roast.TierPart | src/day_11_file_organizer/roast.py:180-192 | the tier remarks come from the tier table, and a value below every threshold gets none |
| Roast.TablesDescending | src/day_11_file_organizer/roast.py:79-118 | the age and size thresholds are listed in decreasing order, as `sorted(..., reverse=True)` visits them |
| Roast.TierIsLargest | src/day_11_file_organizer/roast.py:180-192 | the first tier reached has the largest threshold the value reaches; with none reached, the value is below every threshold |
| Roast.AgeTier | src/day_11_file_organizer/roast.py:180-185 | ages 10+, 7-9, 5-6 and 3-4 get the tiers 10, 7, 5 and 3; younger files get none |
| Roast.SizeTier | src/day_11_file_organizer/roast.py:187-192 | sizes of 500, 100, 50 and 20 MB and up get their tier; smaller files get none |
| Roast.FinalVersionAlsoFinal | src/day_11_file_organizer/roast.py:21-29 | a name holding `最終版` collects the remarks of both `最終` and `最終版` |
| Roast.TypePart | src/day_11_file_organizer/roast.py:194-196 | the type remarks are remarks of the type table; they are added exactly when the lower-cased type is a key of the table, and then they are that key's remarks |
| Roast.Candidates | src/day_11_file_organizer/roast.py:172-196 | every candidate is a remark of one of the tables |
| Roast.CollectKeywords | src/day_11_file_organizer/roast.py:175-178 | the keyword loop collects the remarks of every matching keyword, in table order |
| Roast.CollectTier | src/day_11_file_organizer/roast.py:180-192 | a tier loop with `break` collects the first tier reached |
| Roast.RoastCandidates | src/day_11_file_organizer/roast.py:172-196 | the candidate list is keywords, then age tier, then size tier, then type remarks |
| Roast.GenerateRoast | src/day_11_file_organizer/roast.py:161-203 | the remark is a candidate when there are any, a default otherwise, and always a remark of the tables |

## Left out

- `reporter.py`, the command line, the prompts and the folder dialog are not part of this model. Console output is left out too.
- Real input and output are left out. `os.walk` is an input sequence, and `error.txt` is returned as text rather than written into the file system.
- `Engine.ClassifyFiles` always returns. In the code, writing `error.txt` is not guarded: when it fails, for example because the target folder is not writable, the error propagates out of `classify_files_by_year_and_type`, the `ClassifyResult` is lost and no report is printed. The model has no such failure.
- `Paths.Parent` is not `os.path.dirname`. For `/a` it gives the empty path rather than `/`, and for `a//b` it gives `a/` rather than `a`. So `FileSystem.Lineage` of an absolute path never holds `/`. No regular file can sit at `/`, so `MakeDirs` succeeds and fails in the same cases either way. Paths with repeated separators are not modelled. The one trailing separator the organizer can produce, the bucket `t/2021/` of a name such as `report.` whose folder name is empty, is kept as written, so `Lineage` then holds `t/2021/` as a directory next to `t/2021`.
- The model does not check that the walk matches the file system, nor how `os.walk` orders directories. `Sweeper.SweepBottomUp` takes the bottom-up order and the completeness of the walk as hypotheses.
- `datetime.fromtimestamp` is taken as already done: an entry holds its modification time as a date, and the errors that conversion could raise are not modelled.
- The model reads `datetime.now()` once per visible file. The code reads it separately for the stamp and for a failure record.
- `Text.Lower` lower-cases ASCII letters only. `str.lower()` also maps other Unicode letters.
- `FileSystem.MakeDirs`: when a regular file blocks the path, the error text is simplified. A failing call creates nothing in the model, while `os.makedirs` keeps the ancestors it created before the failure.
- `FileSystem.Move`: the copy fallback of `shutil.move` is left out. It runs whenever `os.rename` raises, on any error and not only across devices: `copy2` writes the file at the destination and `os.unlink` then removes the source. A raising `Move` changes nothing in the model. A missing parent directory of the target is not checked, because the organizer always creates the bucket first.
- `Engine.FailureUniform`: "no regular file changes" holds only for the model's `Move`. In the code, a rename that fails and is followed by a copy whose `os.unlink` of the source then fails leaves a copy in the bucket next to a failure record.
- `size_mb` and `size_display` are floating point and are not modelled. The size tiers compare bytes against `threshold * 1048576`. That equals the float comparison for every size below 2^53 bytes.
- `Records.AgeYears`: `age_years` reads the current year from the clock; here it is a parameter.
- `Roast.GenerateRoast`: `random.choice` is the caller's `pick` index. The contract says which list the remark comes from, not which remark.
- The model keeps the age and size tables in decreasing threshold order and walks them in that order. `Roast.TablesDescending` proves this order is the one `sorted(..., reverse=True)` gives.
- `Engine.SuccessMovesFile` and `Engine.CollisionDestination` assume the chosen destination is not a directory. When it is, `FileSystem.Move` puts the file inside it, and those two lemmas say nothing about that case.
- `Engine.CollisionDestination` does not promise that an earlier file at the stamped name survives. The code replaces it, and the model does the same.
