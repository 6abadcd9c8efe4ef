/** The per-file record and the run's result list. */
module Records {
  import opened Clock

  /** One processed file. A failure record carries year 0, size 0 and type
      "unknown"; `modifiedTime` is the file's mtime on success and the clock
      reading on failure. */
  datatype FileStats = FileStats(
    originalPath: string,
    filename: string,
    sizeBytes: nat,
    modifiedTime: DateTime,
    year: int,
    fileType: string,
    success: bool,
    errorMessage: string)

  /** `FileStats.age_years`, with the current year passed in. */
  function AgeYears(f: FileStats, currentYear: int): (r: int)
    ensures r >= 0 <==> f.year <= currentYear
    ensures f.year == 0 ==> r == currentYear
  {
    currentYear - f.year
  }

  /** The result of one run: the records in walk order, appended one by one. */
  class ClassifyResult {
    var files: seq<FileStats>
    const sourceFolder: string
    const targetFolder: string

    constructor (sourceFolder: string, targetFolder: string)
      ensures files == []
      ensures this.sourceFolder == sourceFolder && this.targetFolder == targetFolder
    {
      files := [];
      this.sourceFolder := sourceFolder;
      this.targetFolder := targetFolder;
    }

    /** `result.files.append(stats)`. */
    method Append(f: FileStats)
      modifies this
      ensures files == old(files) + [f]
    {
      files := files + [f];
    }
  }
}
