/** The text of `error.txt`: a stamped header, a rule of `=`, a blank line,
    then three lines per failed record. */
module ErrorLog {
  import opened Text
  import opened Clock
  import opened Records
  import opened Counting

  /** Lines joined with a newline after each, as successive `write` calls
      of `line + "\n"` produce them. */
  function Unlines(lines: seq<string>): (text: string)
    ensures |text| >= |lines|
  {
    if |lines| == 0 then "" else lines[0] + "\n" + Unlines(lines[1..])
  }

  lemma {:induction false} UnlinesAppend(a: seq<string>, b: seq<string>)
    ensures Unlines(a + b) == Unlines(a) + Unlines(b)
  {
    if |a| == 0 {
      assert a + b == b;
    } else {
      var rest := Unlines(a[1..] + b);
      assert (a + b)[0] == a[0] && (a + b)[1..] == a[1..] + b;
      assert Unlines(a + b) == a[0] + "\n" + rest;
      UnlinesAppend(a[1..], b);
      assert rest == Unlines(a[1..]) + Unlines(b);
      assert Unlines(a) == a[0] + "\n" + Unlines(a[1..]);
    }
  }

  /** Cuts a text after each newline; the inverse of `Unlines` for lines
      without a newline of their own. */
  function SplitLines(text: string): (lines: seq<string>)
    decreases |text|
  {
    if |text| == 0 then []
    else
      var k := FirstIndex(text, '\n');
      if k == |text| then [text] else [text[..k]] + SplitLines(text[k + 1..])
  }

  /** The first newline of a line followed by a newline is the one that
      ends the line. */
  lemma LineEndIndex(line: string, rest: string)
    requires '\n' !in line
    ensures FirstIndex(line + "\n" + rest, '\n') == |line|
  {
    var text := line + "\n" + rest;
    assert text[|line|] == '\n';
    assert forall i :: 0 <= i < |line| ==> text[i] == line[i];
  }

  /** Reading back the written lines gives the lines that were written. */
  lemma {:induction false} SplitUnlines(lines: seq<string>)
    requires forall i :: 0 <= i < |lines| ==> '\n' !in lines[i]
    ensures SplitLines(Unlines(lines)) == lines
  {
    if |lines| > 0 {
      var first, rest := lines[0], Unlines(lines[1..]);
      var text := first + "\n" + rest;
      assert Unlines(lines) == text;
      LineEndIndex(first, rest);
      assert text[..|first|] == first;
      assert text[|first| + 1..] == rest;
      SplitUnlines(lines[1..]);
      assert lines == [first] + lines[1..];
    }
  }

  /** `f"錯誤記錄 - {datetime.now().strftime('%Y-%m-%d %H:%M:%S')}"`. */
  function Header(time: DateTime): string
  {
    "錯誤記錄 - " + LogStamp(time)
  }

  /** The three lines written for one failed record. */
  function EntryLines(err: FileStats): seq<string>
  {
    ["檔案: " + err.originalPath, "錯誤: " + err.errorMessage, Repeat('-', 30)]
  }

  function AllEntryLines(errors: seq<FileStats>): (lines: seq<string>)
    ensures |lines| == 3 * |errors|
  {
    if |errors| == 0 then []
    else AllEntryLines(errors[..|errors| - 1]) + EntryLines(errors[|errors| - 1])
  }

  /** The lines of `error.txt` for the given failures, in order. */
  function ErrorLogLines(time: DateTime, errors: seq<FileStats>): (lines: seq<string>)
    ensures |lines| == 3 + 3 * |errors|
  {
    [Header(time), Repeat('=', 50), ""] + AllEntryLines(errors)
  }

  lemma {:induction false} AllEntryLinesAt(errors: seq<FileStats>, i: int)
    requires 0 <= i < |errors|
    ensures AllEntryLines(errors)[3 * i] == "檔案: " + errors[i].originalPath
    ensures AllEntryLines(errors)[3 * i + 1] == "錯誤: " + errors[i].errorMessage
    ensures AllEntryLines(errors)[3 * i + 2] == Repeat('-', 30)
  {
    var front := errors[..|errors| - 1];
    if i < |errors| - 1 {
      AllEntryLinesAt(front, i);
    }
  }

  /** The file's layout line by line: header, a rule of fifty `=`, a blank
      line, then path, message and a rule of thirty `-` for each failure. */
  lemma ErrorLogLayout(time: DateTime, errors: seq<FileStats>)
    ensures var lines := ErrorLogLines(time, errors);
      && lines[0] == "錯誤記錄 - " + LogStamp(time)
      && lines[1] == Repeat('=', 50)
      && lines[2] == ""
      && (forall i :: 0 <= i < |errors| ==>
            && lines[3 + 3 * i] == "檔案: " + errors[i].originalPath
            && lines[4 + 3 * i] == "錯誤: " + errors[i].errorMessage
            && lines[5 + 3 * i] == Repeat('-', 30))
  {
    var lines := ErrorLogLines(time, errors);
    var entries := AllEntryLines(errors);
    assert forall k :: 0 <= k < |entries| ==> lines[3 + k] == entries[k];
    forall i | 0 <= i < |errors|
      ensures lines[3 + 3 * i] == "檔案: " + errors[i].originalPath
      ensures lines[4 + 3 * i] == "錯誤: " + errors[i].errorMessage
      ensures lines[5 + 3 * i] == Repeat('-', 30)
    {
      AllEntryLinesAt(errors, i);
    }
  }

  lemma HeaderHasNoNewline(time: DateTime)
    ensures '\n' !in Header(time)
  {
    var stamp := LogStamp(time);
    assert forall i :: 0 <= i < |stamp| ==> stamp[i] != '\n';
  }

  lemma {:induction false} EntryLinesHaveNoNewline(errors: seq<FileStats>)
    requires forall e :: e in errors ==> '\n' !in e.originalPath && '\n' !in e.errorMessage
    ensures forall l :: l in AllEntryLines(errors) ==> '\n' !in l
  {
    if |errors| > 0 {
      var front, last := errors[..|errors| - 1], errors[|errors| - 1];
      assert forall e :: e in front ==> e in errors;
      EntryLinesHaveNoNewline(front);
      assert last in errors;
      assert '\n' !in Repeat('-', 30);
    }
  }

  /** When no path or message holds a newline, the file reads back as its
      lines, so each failure's path and message can be recovered from it. */
  lemma ErrorLogReadsBack(time: DateTime, errors: seq<FileStats>)
    requires forall e :: e in errors ==> '\n' !in e.originalPath && '\n' !in e.errorMessage
    ensures SplitLines(Unlines(ErrorLogLines(time, errors))) == ErrorLogLines(time, errors)
  {
    var lines := ErrorLogLines(time, errors);
    var entries := AllEntryLines(errors);
    HeaderHasNoNewline(time);
    EntryLinesHaveNoNewline(errors);
    assert '\n' !in Repeat('=', 50);
    forall k | 0 <= k < |lines|
      ensures '\n' !in lines[k]
    {
      if k >= 3 {
        assert lines[k] == entries[k - 3];
      }
    }
    SplitUnlines(lines);
  }

  lemma UnlinesThree(x: string, y: string, z: string)
    ensures Unlines([x, y, z]) == (x + "\n") + (y + "\n") + (z + "\n")
  {
    assert [x, y, z][1..] == [y, z];
    assert [y, z][1..] == [z];
    assert [z][1..] == [];
    assert Unlines([z]) == z + "\n" + "";
    assert Unlines([y, z]) == y + "\n" + Unlines([z]);
    assert Unlines([x, y, z]) == x + "\n" + Unlines([y, z]);
  }

  /** The header and the rule, as the first two `write` calls put them. */
  lemma LogPreamble(time: DateTime)
    ensures Unlines(ErrorLogLines(time, [])) == Header(time) + "\n" + (Repeat('=', 50) + "\n\n")
  {
    UnlinesThree(Header(time), Repeat('=', 50), "");
    assert ErrorLogLines(time, []) == [Header(time), Repeat('=', 50), ""];
  }

  /** One more failure adds its three lines, as three `write` calls. */
  lemma LogEntry(time: DateTime, errors: seq<FileStats>, i: int)
    requires 0 <= i < |errors|
    ensures Unlines(ErrorLogLines(time, errors[..i + 1])) ==
      Unlines(ErrorLogLines(time, errors[..i]))
        + ("檔案: " + errors[i].originalPath + "\n")
        + ("錯誤: " + errors[i].errorMessage + "\n")
        + (Repeat('-', 30) + "\n")
  {
    var err := errors[i];
    var before := ErrorLogLines(time, errors[..i]);
    assert errors[..i + 1][..i] == errors[..i];
    assert ErrorLogLines(time, errors[..i + 1]) == before + EntryLines(err);
    UnlinesAppend(before, EntryLines(err));
    UnlinesThree("檔案: " + err.originalPath, "錯誤: " + err.errorMessage, Repeat('-', 30));
  }

  /** Writes the log as the organizer does, one `write` call at a time. */
  method WriteErrorLog(time: DateTime, errors: seq<FileStats>) returns (text: string)
    ensures text == Unlines(ErrorLogLines(time, errors))
  {
    text := Header(time) + "\n";
    text := text + (Repeat('=', 50) + "\n\n");
    LogPreamble(time);
    assert errors[..0] == [];
    var i := 0;
    while i < |errors|
      invariant 0 <= i <= |errors|
      invariant text == Unlines(ErrorLogLines(time, errors[..i]))
    {
      var err := errors[i];
      LogEntry(time, errors, i);
      text := text + ("檔案: " + err.originalPath + "\n");
      text := text + ("錯誤: " + err.errorMessage + "\n");
      text := text + (Repeat('-', 30) + "\n");
      i := i + 1;
    }
    assert errors[..i] == errors;
  }
}
