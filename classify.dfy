/** Where a file goes: the extension table, the extension-to-folder rule,
    the `target/<year>/<type>` bucket and the name used when the bucket
    already holds a file of the same name. */
module Classify {
  import opened Text
  import opened Paths
  import opened Clock

  /** `EXTENSION_MAPPING`: lower-case extensions (with their dot) that share
      a folder name. */
  const ExtensionMapping: map<string, string> := map[
    ".doc" := "doc", ".docx" := "doc",
    ".xls" := "xls", ".xlsx" := "xls",
    ".ppt" := "ppt", ".pptx" := "ppt",
    ".pdf" := "pdf", ".txt" := "txt",
    ".jpg" := "jpg", ".jpeg" := "jpg",
    ".png" := "png", ".gif" := "gif",
    ".mp3" := "mp3", ".mp4" := "mp4", ".mov" := "mov",
    ".zip" := "zip", ".rar" := "rar", ".7z" := "7z"]

  /** Every folder name in the table is a plain, non-empty name. */
  lemma MappingNames()
    ensures forall e :: e in ExtensionMapping ==> IsName(ExtensionMapping[e])
  {
  }

  /** The folder name for a lower-cased extension: the table's entry, else
      the extension without its dot, else "other" when there is none. */
  function TagOfExtension(ext: string): (tag: string)
  {
    if ext in ExtensionMapping then ExtensionMapping[ext]
    else if ext != "" then ext[1..]
    else "other"
  }

  /** The lower-cased extension of a file name, as `os.path.splitext(file)[1].lower()`. */
  function LowerExtension(name: string): (ext: string)
    ensures ext == "" || (ext[0] == '.' && '.' !in ext[1..] && '/' !in ext)
  {
    var e := SplitExt(name).1;
    forall i | 0 <= i < |e|
      ensures Lower(e)[i] == '.' <==> e[i] == '.'
      ensures Lower(e)[i] == '/' <==> e[i] == '/'
    {
      LowerKeepsPunctuation(e, i);
    }
    Lower(e)
  }

  /** The folder a file of this name is filed under, below its year. It
      never holds a separator, so it is one path component (or empty, for a
      name ending in a lone dot). */
  function ExtensionTag(name: string): (tag: string)
    ensures '/' !in tag
    ensures tag == "" <==> LowerExtension(name) == "."
  {
    MappingNames();
    TagOfExtension(LowerExtension(name))
  }

  lemma LowerExtensionOf(stem: string, w: string)
    requires '/' !in stem && '/' !in w && '.' !in w
    requires exists i | 0 <= i < |stem| :: stem[i] != '.'
    ensures LowerExtension(stem + "." + w) == "." + Lower(w)
  {
    SplitExtOf(stem, w);
    LowerAppend(".", w);
    assert Lower(".") == ".";
  }

  /** A known extension, in any letter case, gives the table's folder. */
  lemma TagOfMapped(stem: string, w: string)
    requires '/' !in stem && '/' !in w && '.' !in w
    requires exists i | 0 <= i < |stem| :: stem[i] != '.'
    requires "." + Lower(w) in ExtensionMapping
    ensures ExtensionTag(stem + "." + w) == ExtensionMapping["." + Lower(w)]
  {
    LowerExtensionOf(stem, w);
  }

  /** An extension not in the table gives itself, lower-cased, without the dot. */
  lemma TagOfUnmapped(stem: string, w: string)
    requires '/' !in stem && '/' !in w && '.' !in w
    requires exists i | 0 <= i < |stem| :: stem[i] != '.'
    requires "." + Lower(w) !in ExtensionMapping
    ensures ExtensionTag(stem + "." + w) == Lower(w)
  {
    LowerExtensionOf(stem, w);
    assert ("." + Lower(w))[1..] == Lower(w);
  }

  /** A name without a dot has no extension and goes to "other". */
  lemma TagOfPlain(name: string)
    requires '.' !in name
    ensures ExtensionTag(name) == "other"
  {
    SplitExtNoDot(name);
  }

  /** The rule does not depend on letter case. */
  lemma TagIgnoresCase(name: string)
    ensures ExtensionTag(Lower(name)) == ExtensionTag(name)
  {
    SplitExtLower(name);
    LowerIdempotent(SplitExt(name).1);
  }

  /** A lower-case extension `ext` of the table, after any stem. */
  lemma TagOfKnown(stem: string, ext: string)
    requires '/' !in stem
    requires exists i | 0 <= i < |stem| :: stem[i] != '.'
    requires |ext| >= 1 && ext[0] == '.'
    requires forall i :: 1 <= i < |ext| ==> ext[i] != '.' && ext[i] != '/' && !('A' <= ext[i] <= 'Z')
    requires ext in ExtensionMapping
    ensures ExtensionTag(stem + ext) == ExtensionMapping[ext]
  {
    var w := ext[1..];
    assert ext == "." + w;
    assert Lower(w) == w by {
      forall i | 0 <= i < |w|
        ensures Lower(w)[i] == w[i]
      {
        assert w[i] == ext[i + 1];
      }
    }
    assert stem + ext == stem + "." + w;
    TagOfMapped(stem, w);
  }

  /** The table's entries for the extensions that share a folder. */
  lemma SynonymEntries()
    ensures ExtensionMapping[".doc"] == "doc" && ExtensionMapping[".docx"] == "doc"
    ensures ExtensionMapping[".xls"] == "xls" && ExtensionMapping[".xlsx"] == "xls"
    ensures ExtensionMapping[".ppt"] == "ppt" && ExtensionMapping[".pptx"] == "ppt"
    ensures ExtensionMapping[".jpg"] == "jpg" && ExtensionMapping[".jpeg"] == "jpg"
  {
  }

  /** Every key of the table is a dot followed by lower-case characters
      with no further dot and no separator. */
  lemma MappingKeys()
    ensures forall ext :: ext in ExtensionMapping ==>
      && |ext| >= 1 && ext[0] == '.'
      && forall i :: 1 <= i < |ext| ==> ext[i] != '.' && ext[i] != '/' && !('A' <= ext[i] <= 'Z')
  {
  }

  /** Extensions the table treats as synonyms land in the same folder:
      `.jpg`/`.jpeg`, `.doc`/`.docx`, `.xls`/`.xlsx`, `.ppt`/`.pptx`. */
  lemma Synonyms(stem: string, a: string, b: string)
    requires '/' !in stem
    requires exists i | 0 <= i < |stem| :: stem[i] != '.'
    requires a in ExtensionMapping && b in ExtensionMapping
    requires ExtensionMapping[a] == ExtensionMapping[b]
    ensures ExtensionTag(stem + a) == ExtensionTag(stem + b) == ExtensionMapping[a]
  {
    MappingKeys();
    TagOfKnown(stem, a);
    TagOfKnown(stem, b);
  }

  /** An upper-case known extension is filed like the lower-case one. */
  lemma UpperCaseJpeg()
    ensures ExtensionTag("IMG_0001.JPEG") == "jpg"
  {
    assert "IMG_0001.JPEG" == "IMG_0001" + "." + "JPEG";
    assert Lower("JPEG") == "jpeg";
    assert "." + Lower("JPEG") == ".jpeg";
    assert "IMG_0001"[0] != '.';
    TagOfMapped("IMG_0001", "JPEG");
  }

  /** An unmapped extension named "unknown" gets the same folder name a
      failure record carries. */
  lemma UnknownExtension()
    ensures ExtensionTag("notes.unknown") == "unknown"
  {
    assert "notes.unknown" == "notes" + "." + "unknown";
    assert Lower("unknown") == "unknown";
    assert "notes"[0] != '.';
    TagOfUnmapped("notes", "unknown");
  }

  /** A name ending in a lone dot has extension "." and an empty folder
      name, so the file is filed directly in its year folder. */
  lemma TrailingDot()
    ensures ExtensionTag("report.") == ""
  {
    assert "report." == "report" + "." + "";
    assert "report"[0] != '.';
    TagOfUnmapped("report", "");
  }

  /** `str(year)` is a plain name. */
  lemma DigitsName(year: Year)
    ensures IsName(Digits(year))
  {
    var digits := Digits(year);
    forall i | 0 <= i < |digits|
      ensures digits[i] != '/'
    {
      assert IsDigit(digits[i]);
    }
  }

  /** `os.path.join(os.path.join(target_folder, str(file_year)), folder_name)`:
      below a target directory, the bucket is the type folder inside the
      year folder. */
  function BucketDir(target: string, year: Year, tag: string): (r: string)
    ensures IsDirPath(target) && IsName(tag) ==>
      && IsDirPath(r)
      && Basename(r) == tag && Parent(r) == Join(target, Digits(year))
      && Basename(Parent(r)) == Digits(year) && Parent(Parent(r)) == target
  {
    var yearDir := Join(target, Digits(year));
    if IsDirPath(target) && IsName(tag) then
      DigitsName(year);
      JoinName(target, Digits(year));
      JoinName(yearDir, tag);
      Join(yearDir, tag)
    else
      Join(yearDir, tag)
  }

  /** The bucket is two components below the target: year, then type;
      the file keeps its name inside it. */
  lemma BucketLayout(target: string, year: Year, tag: string, name: string)
    requires IsDirPath(target) && IsName(tag) && IsName(name)
    ensures Join(BucketDir(target, year, tag), name) == target + "/" + Digits(year) + "/" + tag + "/" + name
    ensures Parent(Join(BucketDir(target, year, tag), name)) == BucketDir(target, year, tag)
    ensures Basename(Join(BucketDir(target, year, tag), name)) == name
    ensures Parent(Parent(BucketDir(target, year, tag))) == target
  {
    var digits := Digits(year);
    DigitsName(year);
    JoinName(target, digits);
    JoinName(Join(target, digits), tag);
    JoinName(BucketDir(target, year, tag), name);
  }

  /** Different (year, type) pairs never share a bucket. */
  lemma BucketInjective(target: string, y1: Year, t1: string, y2: Year, t2: string)
    requires IsDirPath(target) && IsName(t1) && IsName(t2)
    requires BucketDir(target, y1, t1) == BucketDir(target, y2, t2)
    ensures y1 == y2 && t1 == t2
  {
    var d1, d2 := Digits(y1), Digits(y2);
    DigitsName(y1);
    DigitsName(y2);
    JoinName(target, d1);
    JoinName(target, d2);
    JoinName(Join(target, d1), t1);
    JoinName(Join(target, d2), t2);
    assert Join(target, d1) == Join(target, d2);
    JoinInjective(target, d1, d2);
    DigitsInjective(y1, y2);
  }

  /** `f"{name}_{timestamp}{ext}"`: the stamp goes between stem and extension. */
  function CollisionName(name: string, stamp: string): (r: string)
    ensures |r| == |name| + |stamp| + 1
    ensures r[..|SplitExt(name).0|] == SplitExt(name).0 && r[|SplitExt(name).0|] == '_'
    ensures r[|r| - |SplitExt(name).1|..] == SplitExt(name).1
  {
    var parts := SplitExt(name);
    parts.0 + "_" + stamp + parts.1
  }

  /** A visible file with an extension: its last dot starts the extension. */
  lemma VisibleNameExtension(name: string)
    requires IsName(name) && name[0] != '.' && '.' in name
    ensures SplitExt(name).1 != ""
    ensures SplitExt(name).0 + "." + SplitExt(name).1[1..] == name
  {
    LastIndexIs(name, '/', -1);
    var dot := LastIndex(name, '.');
    var k :| 0 <= k < |name| && name[k] == '.';
    assert dot >= k;
    assert name[0] != '.';
    assert HasNonDot(name, 0, dot);
  }

  /** Renaming on a collision keeps the extension, hence the folder, and
      gives a different, still plain, name. */
  lemma CollisionKeepsExtension(name: string, stamp: string)
    requires IsName(name) && name[0] != '.'
    requires '.' !in stamp && '/' !in stamp
    ensures SplitExt(CollisionName(name, stamp)) == (SplitExt(name).0 + "_" + stamp, SplitExt(name).1)
    ensures ExtensionTag(CollisionName(name, stamp)) == ExtensionTag(name)
    ensures CollisionName(name, stamp) != name
    ensures IsName(CollisionName(name, stamp))
  {
    if '.' in name {
      CollisionSplitDotted(name, stamp);
    } else {
      CollisionSplitPlain(name, stamp);
    }
  }

  /** `CollisionKeepsExtension` for a name with an extension. */
  lemma CollisionSplitDotted(name: string, stamp: string)
    requires IsName(name) && name[0] != '.' && '.' in name
    requires '.' !in stamp && '/' !in stamp
    ensures SplitExt(CollisionName(name, stamp)) == (SplitExt(name).0 + "_" + stamp, SplitExt(name).1)
    ensures IsName(CollisionName(name, stamp))
  {
    var stem, ext := SplitExt(name).0, SplitExt(name).1;
    var r := CollisionName(name, stamp);
    VisibleNameExtension(name);
    var w := ext[1..];
    assert ext == "." + w;
    var newStem := stem + "_" + stamp;
    assert newStem[|stem|] == '_';
    assert r == newStem + "." + w;
    assert '/' !in stem by {
      forall i | 0 <= i < |stem|
        ensures stem[i] != '/'
      {
        assert stem[i] == name[i];
      }
    }
    SplitExtOf(newStem, w);
  }

  /** `CollisionKeepsExtension` for a name without a dot. */
  lemma CollisionSplitPlain(name: string, stamp: string)
    requires IsName(name) && '.' !in name
    requires '.' !in stamp && '/' !in stamp
    ensures SplitExt(CollisionName(name, stamp)) == (SplitExt(name).0 + "_" + stamp, SplitExt(name).1)
    ensures IsName(CollisionName(name, stamp))
  {
    var r := CollisionName(name, stamp);
    SplitExtNoDot(name);
    assert r == name + "_" + stamp;
    SplitExtNoDot(r);
  }

  /** The stamp `strftime` writes is safe to put into a name. */
  lemma FileStampIsPlain(t: DateTime)
    ensures '.' !in FileStamp(t) && '/' !in FileStamp(t)
  {
    var s := FileStamp(t);
    forall i | 0 <= i < |s|
      ensures s[i] != '.' && s[i] != '/'
    {
      assert IsDigit(s[i]) || s[i] == '_';
    }
  }
}
