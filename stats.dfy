/** The derived, read-only aggregates of a `ClassifyResult`, each computed
    from its list of records. */
module Stats {
  import opened Records
  import opened Sorting
  import opened Counting

  function Last<T>(s: seq<T>): T
    requires |s| > 0
  {
    s[|s| - 1]
  }

  function Front<T>(s: seq<T>): seq<T>
    requires |s| > 0
  {
    s[..|s| - 1]
  }

  /** `total_count`: the number of records. */
  function TotalCount(files: seq<FileStats>): (r: nat)
    ensures r == SuccessCount(files) + FailedCount(files)
  {
    CountsPartition(files);
    |files|
  }

  /** `success_count`. */
  function SuccessCount(files: seq<FileStats>): (r: nat)
    ensures r == |Successes(files)|
  {
    if |files| == 0 then 0
    else SuccessCount(Front(files)) + (if Last(files).success then 1 else 0)
  }

  /** `failed_count`. */
  function FailedCount(files: seq<FileStats>): (r: nat)
    ensures r == |FailedFiles(files)|
  {
    if |files| == 0 then 0
    else FailedCount(Front(files)) + (if Last(files).success then 0 else 1)
  }

  /** The successful records in order (`[f for f in files if f.success]`). */
  function Successes(files: seq<FileStats>): (r: seq<FileStats>)
    ensures forall f :: f in r <==> f in files && f.success
  {
    if |files| == 0 then []
    else
      assert files == Front(files) + [Last(files)];
      Successes(Front(files)) + (if Last(files).success then [Last(files)] else [])
  }

  /** `failed_files`: the failed records in order. */
  function FailedFiles(files: seq<FileStats>): (r: seq<FileStats>)
    ensures forall f :: f in r <==> f in files && !f.success
  {
    if |files| == 0 then []
    else
      assert files == Front(files) + [Last(files)];
      FailedFiles(Front(files)) + (if Last(files).success then [] else [Last(files)])
  }

  function Size(f: FileStats): int
  {
    f.sizeBytes
  }

  /** `total_size_bytes`: no successful record is larger than the total,
      and with no success the total is 0. */
  function TotalSizeBytes(files: seq<FileStats>): (r: nat)
    ensures forall f :: f in files && f.success ==> f.sizeBytes <= r
    ensures SuccessCount(files) == 0 ==> r == 0
  {
    if |files| == 0 then 0
    else
      assert files == Front(files) + [Last(files)];
      TotalSizeBytes(Front(files)) + (if Last(files).success then Last(files).sizeBytes else 0)
  }

  /** The year of every successful record, in order. */
  function SuccessYears(files: seq<FileStats>): (r: seq<int>)
  {
    if |files| == 0 then []
    else SuccessYears(Front(files)) + (if Last(files).success then [Last(files).year] else [])
  }

  /** The type of every successful record, in order. */
  function SuccessTypes(files: seq<FileStats>): (r: seq<string>)
  {
    if |files| == 0 then []
    else SuccessTypes(Front(files)) + (if Last(files).success then [Last(files).fileType] else [])
  }

  /** Every record is either a success or a failure: the two counts add up
      to the number of records. */
  lemma {:induction false} CountsPartition(files: seq<FileStats>)
    ensures |files| == SuccessCount(files) + FailedCount(files)
  {
    if |files| > 0 {
      CountsPartition(Front(files));
    }
  }

  /** The filters and the counts agree. */
  lemma {:induction false} CountsMatchFilters(files: seq<FileStats>)
    ensures |Successes(files)| == SuccessCount(files)
    ensures |FailedFiles(files)| == FailedCount(files)
    ensures |SuccessYears(files)| == SuccessCount(files)
    ensures |SuccessTypes(files)| == SuccessCount(files)
  {
    if |files| > 0 {
      CountsMatchFilters(Front(files));
    }
  }

  /** The successful records keep their order of the records: the successes of
      a concatenation are the successes of each part, in turn. */
  lemma {:induction false} SuccessesAppend(a: seq<FileStats>, b: seq<FileStats>)
    ensures Successes(a + b) == Successes(a) + Successes(b)
  {
    if |b| > 0 {
      SuccessesAppend(a, Front(b));
      assert Front(a + b) == a + Front(b);
      assert Last(a + b) == Last(b);
    } else {
      assert a + b == a;
    }
  }

  /** `failed_files` keeps the order of the records: the failures of a
      concatenation are the failures of each part, in turn. */
  lemma {:induction false} FailedFilesAppend(a: seq<FileStats>, b: seq<FileStats>)
    ensures FailedFiles(a + b) == FailedFiles(a) + FailedFiles(b)
  {
    if |b| > 0 {
      FailedFilesAppend(a, Front(b));
      assert Front(a + b) == a + Front(b);
      assert Last(a + b) == Last(b);
    } else {
      assert a + b == a;
    }
  }

  /** `total_size_bytes` is the sum of the sizes of the successful records:
      failures never contribute. */
  lemma {:induction false} TotalSizeOverSuccesses(files: seq<FileStats>)
    ensures TotalSizeBytes(files) == Total(Successes(files), Size)
  {
    if |files| > 0 {
      TotalSizeOverSuccesses(Front(files));
      var l := Last(files);
      TotalAppend(Successes(Front(files)), if l.success then [l] else [], Size);
    }
  }

  function YearKey(e: (int, nat)): int
  {
    e.0
  }

  /** Descending count, as `key=lambda x: -x[1]`. */
  function CountKey(e: (string, nat)): int
  {
    -(e.1 as int)
  }

  /** Descending size, as `key=lambda x: -x.size_bytes`. */
  function SizeKey(f: FileStats): int
  {
    -(f.sizeBytes as int)
  }

  lemma SuccessYearsStep(files: seq<FileStats>, i: nat)
    requires i < |files|
    ensures SuccessYears(files[..i + 1]) == SuccessYears(files[..i]) + (if files[i].success then [files[i].year] else [])
    ensures SuccessTypes(files[..i + 1]) == SuccessTypes(files[..i]) + (if files[i].success then [files[i].fileType] else [])
  {
    assert Front(files[..i + 1]) == files[..i];
  }

  lemma TallyStep<K>(ks: seq<K>, x: K)
    ensures Tally(ks + [x]) == Bump(Tally(ks), x)
  {
    assert (ks + [x])[..|ks|] == ks;
  }

  /** A sorted tally has the tally's entries, so the same keys and counts. */
  lemma SortedTallyEntries<K>(t: seq<(K, nat)>, d: seq<(K, nat)>, ks: seq<K>)
    requires multiset(d) == multiset(t)
    requires forall i :: 0 <= i < |t| ==> t[i].1 == Occurrences(ks, t[i].0) && t[i].1 > 0
    requires forall k :: k in ks <==> HasKey(t, k)
    ensures forall i :: 0 <= i < |d| ==> d[i].1 == Occurrences(ks, d[i].0) && d[i].1 > 0
    ensures forall k :: k in ks <==> HasKey(d, k)
  {
    forall i | 0 <= i < |d|
      ensures d[i].1 == Occurrences(ks, d[i].0) && d[i].1 > 0
    {
      SameMembers(d, t, d[i]);
      var j :| 0 <= j < |t| && t[j] == d[i];
    }
    forall k
      ensures k in ks <==> HasKey(d, k)
    {
      if HasKey(d, k) {
        var i :| 0 <= i < |d| && d[i].0 == k;
        SameMembers(d, t, d[i]);
        var j :| 0 <= j < |t| && t[j] == d[i];
      }
      if HasKey(t, k) {
        var j :| 0 <= j < |t| && t[j].0 == k;
        SameMembers(d, t, t[j]);
        var i :| 0 <= i < |d| && d[i] == t[j];
      }
    }
  }

  /** The sorted year tally lists each year of a successful record once, in
      ascending order, with its number of records. */
  lemma YearHistogram(files: seq<FileStats>)
    ensures var dist := SortBy(Tally(SuccessYears(files)), YearKey);
      && (forall i, j :: 0 <= i < j < |dist| ==> dist[i].0 < dist[j].0)
      && (forall i :: 0 <= i < |dist| ==>
           dist[i].1 == Occurrences(SuccessYears(files), dist[i].0) && dist[i].1 > 0)
      && (forall y :: y in SuccessYears(files) <==> HasKey(dist, y))
      && Total(dist, Count) == SuccessCount(files)
  {
    var years := SuccessYears(files);
    var counts := Tally(years);
    var dist := SortBy(counts, YearKey);
    TallyCounts(years);
    TallyFirstOccurrenceOrder(years);
    var rank := (e: (int, nat)) => FirstIndex(years, e.0);
    SortByOrdered(counts, YearKey, rank);
    forall i, j | 0 <= i < j < |dist|
      ensures dist[i].0 < dist[j].0
    {
      assert Precedes(dist[i], dist[j], YearKey, rank);
    }
    SortedTallyEntries(counts, dist, years);
    TallyTotal(years);
    SortByTotal(counts, YearKey, Count);
    CountsMatchFilters(files);
  }

  /** `year_distribution`: counts the successful records per year, then
      orders the years ascending. */
  method YearDistribution(files: seq<FileStats>) returns (dist: seq<(int, nat)>)
    ensures forall i, j :: 0 <= i < j < |dist| ==> dist[i].0 < dist[j].0
    ensures forall i :: 0 <= i < |dist| ==>
      dist[i].1 == Occurrences(SuccessYears(files), dist[i].0) && dist[i].1 > 0
    ensures forall y :: y in SuccessYears(files) <==> HasKey(dist, y)
    ensures Total(dist, Count) == SuccessCount(files)
  {
    var counts: seq<(int, nat)> := [];
    var i := 0;
    while i < |files|
      invariant 0 <= i <= |files|
      invariant counts == Tally(SuccessYears(files[..i]))
    {
      SuccessYearsStep(files, i);
      if files[i].success {
        TallyStep(SuccessYears(files[..i]), files[i].year);
        counts := Bump(counts, files[i].year);
        assert counts == Tally(SuccessYears(files[..i]) + [files[i].year]);
      } else {
        assert SuccessYears(files[..i + 1]) == SuccessYears(files[..i]);
      }
      i := i + 1;
    }
    assert files[..i] == files;
    dist := SortBy(counts, YearKey);
    YearHistogram(files);
  }

  /** The sorted type tally lists each type of a successful record once,
      with its number of records, most frequent first and ties in order of
      first occurrence. */
  lemma TypeHistogram(files: seq<FileStats>)
    ensures var dist := SortBy(Tally(SuccessTypes(files)), CountKey);
      && DistinctKeys(dist)
      && (forall i :: 0 <= i < |dist| ==>
           dist[i].1 == Occurrences(SuccessTypes(files), dist[i].0) && dist[i].1 > 0)
      && (forall t :: t in SuccessTypes(files) <==> HasKey(dist, t))
      && (forall i, j :: 0 <= i < j < |dist| ==>
           dist[i].1 > dist[j].1 ||
           (dist[i].1 == dist[j].1 &&
            FirstIndex(SuccessTypes(files), dist[i].0) < FirstIndex(SuccessTypes(files), dist[j].0)))
      && Total(dist, Count) == SuccessCount(files)
  {
    var types := SuccessTypes(files);
    var counts := Tally(types);
    var dist := SortBy(counts, CountKey);
    TallyCounts(types);
    TallyFirstOccurrenceOrder(types);
    var rank := (e: (string, nat)) => FirstIndex(types, e.0);
    SortByOrdered(counts, CountKey, rank);
    forall i, j | 0 <= i < j < |dist|
      ensures dist[i].1 > dist[j].1 || (dist[i].1 == dist[j].1 && rank(dist[i]) < rank(dist[j]))
    {
      assert Precedes(dist[i], dist[j], CountKey, rank);
    }
    SortedTallyEntries(counts, dist, types);
    TallyTotal(types);
    SortByTotal(counts, CountKey, Count);
    CountsMatchFilters(files);
  }

  /** `type_distribution`: counts the successful records per type, then
      orders the types by descending count; equal counts keep the order in
      which the types first occurred. */
  method TypeDistribution(files: seq<FileStats>) returns (dist: seq<(string, nat)>)
    ensures DistinctKeys(dist)
    ensures forall i :: 0 <= i < |dist| ==>
      dist[i].1 == Occurrences(SuccessTypes(files), dist[i].0) && dist[i].1 > 0
    ensures forall t :: t in SuccessTypes(files) <==> HasKey(dist, t)
    ensures forall i, j :: 0 <= i < j < |dist| ==>
      dist[i].1 > dist[j].1 ||
      (dist[i].1 == dist[j].1 &&
       FirstIndex(SuccessTypes(files), dist[i].0) < FirstIndex(SuccessTypes(files), dist[j].0))
    ensures Total(dist, Count) == SuccessCount(files)
  {
    var counts: seq<(string, nat)> := [];
    var i := 0;
    while i < |files|
      invariant 0 <= i <= |files|
      invariant counts == Tally(SuccessTypes(files[..i]))
    {
      SuccessYearsStep(files, i);
      if files[i].success {
        TallyStep(SuccessTypes(files[..i]), files[i].fileType);
        counts := Bump(counts, files[i].fileType);
        assert counts == Tally(SuccessTypes(files[..i]) + [files[i].fileType]);
      } else {
        assert SuccessTypes(files[..i + 1]) == SuccessTypes(files[..i]);
      }
      i := i + 1;
    }
    assert files[..i] == files;
    dist := SortBy(counts, CountKey);
    TypeHistogram(files);
  }

  lemma SortedPrefixOrder(sorted: seq<FileStats>, n: nat)
    requires Ascending(sorted, SizeKey)
    requires n <= |sorted|
    ensures forall i, j :: 0 <= i < j < n ==> sorted[i].sizeBytes >= sorted[j].sizeBytes
  {
    forall i, j | 0 <= i < j < n
      ensures sorted[i].sizeBytes >= sorted[j].sizeBytes
    {
      assert SizeKey(sorted[i]) <= SizeKey(sorted[j]);
    }
  }

  /** The first `n` records of a list sorted largest first are the largest:
      every record left out is no larger than the last one kept. */
  lemma {:induction false} SortedPrefixDominates(s: seq<FileStats>, sorted: seq<FileStats>, n: nat)
    requires multiset(sorted) == multiset(s)
    requires Ascending(sorted, SizeKey)
    requires 0 < n <= |sorted|
    ensures multiset(sorted[..n]) <= multiset(s)
    ensures forall f :: f in multiset(s) - multiset(sorted[..n]) ==>
      f.sizeBytes <= sorted[n - 1].sizeBytes
  {
    var kept, rest := sorted[..n], sorted[n..];
    assert sorted == kept + rest;
    assert multiset(s) == multiset(kept) + multiset(rest);
    forall f | f in multiset(s) - multiset(kept)
      ensures f.sizeBytes <= sorted[n - 1].sizeBytes
    {
      assert f in multiset(rest);
      var k :| 0 <= k < |rest| && rest[k] == f;
      assert sorted[n + k] == f;
      assert SizeKey(sorted[n - 1]) <= SizeKey(sorted[n + k]);
    }
  }

  /** `top_large_files`: the five largest successful records, largest first,
      equal sizes in record order (the properties are the lemmas below). */
  function TopLargeFiles(files: seq<FileStats>): (top: seq<FileStats>)
    ensures |top| == if SuccessCount(files) < 5 then SuccessCount(files) else 5
    ensures forall f :: f in top ==> f in files && f.success
  {
    var successful := Successes(files);
    CountsMatchFilters(files);
    var sorted := SortBy(successful, SizeKey);
    var n := if |sorted| < 5 then |sorted| else 5;
    PrefixMembers(sorted, successful, n);
    sorted[..n]
  }

  /** The top records are listed largest first. */
  lemma TopLargeFilesDescending(files: seq<FileStats>)
    ensures var top := TopLargeFiles(files);
      forall i, j :: 0 <= i < j < |top| ==> top[i].sizeBytes >= top[j].sizeBytes
  {
    var successful := Successes(files);
    var sorted := SortBy(successful, SizeKey);
    SortByAscending(successful, SizeKey);
    SortedPrefixOrder(sorted, |TopLargeFiles(files)|);
  }

  /** The top records are the head of the successes sorted largest first,
      and there are none only when nothing succeeded. */
  lemma TopIsSortedPrefix(files: seq<FileStats>)
    ensures var top := TopLargeFiles(files);
      && |top| <= |SortBy(Successes(files), SizeKey)|
      && top == SortBy(Successes(files), SizeKey)[..|top|]
      && (|top| == 0 ==> |Successes(files)| == 0)
  {
    CountsMatchFilters(files);
  }

  /** A head of a largest-first ordering of `s` is drawn from `s`, and
      nothing of `s` left out of it is larger than its last record. */
  lemma SortedHeadLargest(s: seq<FileStats>, sorted: seq<FileStats>, top: seq<FileStats>)
    requires multiset(sorted) == multiset(s)
    requires Ascending(sorted, SizeKey)
    requires |top| <= |sorted| && top == sorted[..|top|]
    requires |top| == 0 ==> |s| == 0
    ensures multiset(top) <= multiset(s)
    ensures forall f :: f in multiset(s) - multiset(top) ==>
      0 < |top| && f.sizeBytes <= top[|top| - 1].sizeBytes
  {
    if |top| > 0 {
      SortedPrefixDominates(s, sorted, |top|);
    } else {
      assert multiset(s) == multiset{};
    }
  }

  /** The top records are drawn from the successes, and no success left out
      is larger than the smallest one listed. */
  lemma TopLargeFilesLargest(files: seq<FileStats>)
    ensures var top := TopLargeFiles(files);
      && multiset(top) <= multiset(Successes(files))
      && (forall f :: f in multiset(Successes(files)) - multiset(top) ==>
            0 < |top| && f.sizeBytes <= top[|top| - 1].sizeBytes)
  {
    var successful := Successes(files);
    TopIsSortedPrefix(files);
    SortByAscending(successful, SizeKey);
    SortedHeadLargest(successful, SortBy(successful, SizeKey), TopLargeFiles(files));
  }

  /** Records of equal size keep their relative order from the input. */
  lemma TopLargeFilesStable(files: seq<FileStats>)
    ensures var top := TopLargeFiles(files);
      forall c :: Keep(top, SizeKey, c) <= Keep(Successes(files), SizeKey, c)
  {
    var successful := Successes(files);
    var sorted := SortBy(successful, SizeKey);
    var n := |TopLargeFiles(files)|;
    forall c
      ensures Keep(sorted[..n], SizeKey, c) <= Keep(successful, SizeKey, c)
    {
      KeepOfPrefix(sorted, n, SizeKey, c);
      SortByStable(successful, SizeKey, c);
    }
  }
}
