/**
 * `find_latest_csv_file` of src/preprocessed.py, the older resolver: only
 * `sales_<date>_<time>.csv` names take part, and the scan compares the
 * date segment alone, so the time of day never decides between two files.
 */
module Preprocessed {
  import opened PyStr
  import opened Seqs
  import opened Naming
  import opened LatestFile
  import Helper

  /** `"_".join(parts[1:]).replace(".csv", "")`: the timestamp the filter measures. */
  function TimestampOf(name: string): string {
    StripCsv(Join('_', Split(name, '_')[1..]))
  }

  /** The test each `.csv` entry must pass: exactly 3 segments, `sales` first, a 13-character timestamp holding `_`. */
  predicate MatchesPattern(name: string) {
    var parts := Split(name, '_');
    |parts| == 3 && parts[0] == SalesTag &&
    var ts := TimestampOf(name);
    |ts| == TimestampLength && '_' in ts
  }

  /** A listing entry that takes part in the selection. */
  predicate Eligible(name: string) {
    IsCsv(name) && MatchesPattern(name)
  }

  /** `name.split("_")[1].replace(".csv", "")`: the date segment the scan compares. */
  function DateKey(name: string): string
    requires |Split(name, '_')| >= 2
  {
    StripCsv(Split(name, '_')[1])
  }

  /** What the function returns, or which `exit(1)` it reaches, for a listing. */
  function Resolve(listing: seq<string>): Resolution {
    ResolveBy(listing, MatchesPattern, DateKey)
  }

  /**
   * The function itself: the comprehension keeping `.csv` entries, the
   * loop collecting `ts_files`, the loop keeping the greatest date.
   */
  method FindLatestCsvFile(listing: seq<string>) returns (r: Resolution)
    ensures r == Resolve(listing)
  {
    var csvFiles := Filter(listing, IsCsv);
    if csvFiles == [] {
      return NoRawCsvFiles;
    }
    var tsFiles := CollectMatching(csvFiles);
    if tsFiles == [] {
      return NoMatchingPattern;
    }
    var latestFile := ScanLatest(tsFiles);
    r := if latestFile.Some? then Found(latestFile.value) else NotFound;
  }

  /** The loop appending every `.csv` name that matches the pattern to `ts_files`. */
  method CollectMatching(csvFiles: seq<string>) returns (tsFiles: seq<string>)
    ensures tsFiles == Filter(csvFiles, MatchesPattern)
  {
    tsFiles := [];
    for i := 0 to |csvFiles|
      invariant tsFiles == Filter(csvFiles[..i], MatchesPattern)
    {
      var f := csvFiles[i];
      var parts := Split(f, '_');
      if |parts| == 3 && parts[0] == SalesTag {
        var ts := StripCsv(Join('_', parts[1..]));
        if |ts| == TimestampLength && '_' in ts {
          tsFiles := tsFiles + [f];
        }
      }
      FilterStep(csvFiles, MatchesPattern, i);
    }
    assert csvFiles[..|csvFiles|] == csvFiles;
  }

  /**
   * The loop that replaces `latest_file` whenever a date segment is
   * strictly greater than `latest_ts`, which starts as `""`.  Indexing
   * segment 1 needs every name to have at least two segments.
   */
  method ScanLatest(tsFiles: seq<string>) returns (latestFile: Option<string>)
    requires forall i :: 0 <= i < |tsFiles| ==> |Split(tsFiles[i], '_')| >= 2
    ensures latestFile == Latest(tsFiles, DateKey)
  {
    ghost var keys := KeysOf(tsFiles, DateKey);
    var latestTs := "";
    latestFile := None;
    for j := 0 to |tsFiles|
      invariant LatestIndex(keys[..j]).None? ==> latestFile == None && latestTs == ""
      invariant LatestIndex(keys[..j]).Some? ==>
                  var k := LatestIndex(keys[..j]).value;
                  k < j && latestFile == Some(tsFiles[k]) && latestTs == keys[k]
    {
      var f := tsFiles[j];
      var ts := DateKey(f);
      LatestIndexStep(keys, j);
      if LexLess(latestTs, ts) {
        latestTs := ts;
        latestFile := Some(f);
      }
    }
    assert keys[..|tsFiles|] == keys;
  }

  /**
   * The `"_" in ts` test never rejects a 3-segment name: the joined
   * timestamp holds exactly one `_`, and removing `.csv` keeps it.
   */
  lemma {:induction false} UnderscoreTestRedundant(name: string)
    ensures |Split(name, '_')| == 3 ==> Count('_', TimestampOf(name)) == 1
    ensures MatchesPattern(name) <==>
            var parts := Split(name, '_');
            |parts| == 3 && parts[0] == SalesTag && |TimestampOf(name)| == TimestampLength
  {
    var parts := Split(name, '_');
    if |parts| == 3 {
      var a, b := parts[1], parts[2];
      assert parts[1..] == [a, b] && [a, b][1..] == [b];
      assert Join('_', parts[1..]) == a + "_" + b;
      CountConcat('_', a + "_", b);
      CountConcat('_', a, "_");
      StripCsvKeeps('_', a + "_" + b);
    }
  }

  /**
   * A listing without `.csv` entries ends at the first `exit(1)`; one with
   * `.csv` entries none of which matches the pattern ends at the second.
   */
  lemma ResolveErrors(listing: seq<string>)
    ensures Resolve(listing) == NoRawCsvFiles
            <==> forall j :: 0 <= j < |listing| ==> !IsCsv(listing[j])
    ensures Resolve(listing) == NoMatchingPattern
            <==> (exists j :: 0 <= j < |listing| && IsCsv(listing[j]))
                 && forall j :: 0 <= j < |listing| && IsCsv(listing[j]) ==> !MatchesPattern(listing[j])
  {
    ResolveByErrors(listing, MatchesPattern, DateKey);
  }

  /**
   * A found file is the first eligible entry whose date segment is the
   * greatest; `None` comes back exactly when eligible entries exist and
   * all their date segments are empty.
   */
  lemma ResolveIsLatestByDate(listing: seq<string>)
    ensures Resolve(listing).Found? ==>
              exists k :: IsFirstLatest(listing, Eligible, DateKey, k)
                          && listing[k] == Resolve(listing).file
    ensures Resolve(listing) == NotFound <==>
              (exists j :: 0 <= j < |listing| && Eligible(listing[j]))
              && forall j :: 0 <= j < |listing| && Eligible(listing[j]) ==> DateKey(listing[j]) == ""
  {
    ResolveByFound(listing, MatchesPattern, DateKey, Eligible);
    ResolveByNotFound(listing, MatchesPattern, DateKey, Eligible);
  }

  /** Entries that are not `.csv` files never influence the result. */
  lemma NonCsvEntriesIgnored(a: seq<string>, x: string, b: seq<string>)
    requires !IsCsv(x)
    ensures Resolve(a + [x] + b) == Resolve(a + b)
  {
    ResolveByIgnoresNonCsv(a, x, b, MatchesPattern, DateKey);
  }

  /** `a_b_c.csv`, with segments free of `_` and `.`, splits into its segments, measures `b_c` and compares `b`. */
  lemma NameOfThree(a: string, b: string, c: string)
    requires '_' !in a && '_' !in b && '_' !in c
    requires '.' !in b && '.' !in c
    ensures Split(a + "_" + b + "_" + c + CsvSuffix, '_') == [a, b, c + CsvSuffix]
    ensures TimestampOf(a + "_" + b + "_" + c + CsvSuffix) == b + "_" + c
    ensures DateKey(a + "_" + b + "_" + c + CsvSuffix) == b
  {
    var t := c + CsvSuffix;
    assert a + "_" + b + "_" + c + CsvSuffix == a + "_" + b + "_" + t;
    SplitThree(a, b, t);
    assert [a, b, t][1..] == [b, t] && [b, t][1..] == [t];
    assert Join('_', [b, t]) == b + "_" + t;
    assert b + "_" + t == (b + "_" + c) + CsvSuffix;
    StripCsvSuffix(b + "_" + c);
    StripCsvNoDot(b);
  }

  /** `sales_<date>_<time>.csv` with a 13-character `date_time` free of `.` takes part, keyed on `date` alone. */
  lemma AcceptsRaw(date: string, time: string)
    requires '_' !in date && '_' !in time
    requires '.' !in date && '.' !in time
    requires |date| + 1 + |time| == TimestampLength
    ensures Eligible(SalesTag + "_" + date + "_" + time + CsvSuffix)
    ensures DateKey(SalesTag + "_" + date + "_" + time + CsvSuffix) == date
  {
    NameOfThree(SalesTag, date, time);
    var ts := date + "_" + time;
    assert ts[|date|] == '_';
  }

  /**
   * A `sales_processed_<date>_<time>.csv` name has 4 segments, so this
   * resolver never takes it, although the one of src/helper.py does.
   */
  lemma ProcessedNeverQualifies(date: string, time: string)
    requires '_' !in date && '_' !in time
    requires '.' !in date && '.' !in time
    requires |date| + 1 + |time| == TimestampLength
    ensures !Eligible(SalesTag + "_" + ProcessedTag + "_" + date + "_" + time + CsvSuffix)
    ensures Helper.Eligible(SalesTag + "_" + ProcessedTag + "_" + date + "_" + time + CsvSuffix)
  {
    Helper.AcceptsProcessed(date, time);
    Helper.TimestampOfFour(SalesTag, ProcessedTag, date, time);
  }

  /** Of two exports with different dates, the later date is chosen, whichever is listed first. */
  lemma LaterDateWins(d1: string, t1: string, d2: string, t2: string)
    requires '_' !in d1 && '_' !in t1 && '_' !in d2 && '_' !in t2
    requires '.' !in d1 && '.' !in t1 && '.' !in d2 && '.' !in t2
    requires |d1| + 1 + |t1| == TimestampLength && |d2| + 1 + |t2| == TimestampLength
    requires LexLess(d1, d2)
    ensures var a, b := SalesTag + "_" + d1 + "_" + t1 + CsvSuffix, SalesTag + "_" + d2 + "_" + t2 + CsvSuffix;
            Resolve([a, b]) == Found(b) && Resolve([b, a]) == Found(b)
  {
    AcceptsRaw(d1, t1);
    AcceptsRaw(d2, t2);
    ResolveByTwo(SalesTag + "_" + d1 + "_" + t1 + CsvSuffix, SalesTag + "_" + d2 + "_" + t2 + CsvSuffix,
                 MatchesPattern, DateKey);
  }

  /**
   * Two exports of the same non-empty date tie: the one listed first is
   * chosen whatever the times, where the resolver of src/helper.py picks
   * the later time.
   */
  lemma SameDayKeepsFirst(date: string, t1: string, t2: string)
    requires '_' !in date && '_' !in t1 && '_' !in t2
    requires '.' !in date && '.' !in t1 && '.' !in t2
    requires |date| + 1 + |t1| == TimestampLength && |date| + 1 + |t2| == TimestampLength
    requires date != ""
    ensures var a, b := SalesTag + "_" + date + "_" + t1 + CsvSuffix, SalesTag + "_" + date + "_" + t2 + CsvSuffix;
            Resolve([a, b]) == Found(a) && Resolve([b, a]) == Found(b)
    ensures var a, b := SalesTag + "_" + date + "_" + t1 + CsvSuffix, SalesTag + "_" + date + "_" + t2 + CsvSuffix;
            LexLess(t1, t2) ==> Helper.Resolve([a, b]) == Found(b) && Helper.Resolve([b, a]) == Found(b)
  {
    var a, b := SalesTag + "_" + date + "_" + t1 + CsvSuffix, SalesTag + "_" + date + "_" + t2 + CsvSuffix;
    AcceptsRaw(date, t1);
    AcceptsRaw(date, t2);
    ResolveByTie(a, b, MatchesPattern, DateKey);
    ResolveByTie(b, a, MatchesPattern, DateKey);
    if LexLess(t1, t2) {
      Helper.LaterExportWins(date, t1, date, t2);
    }
  }

  /**
   * A lone `sales__<time>.csv` with a 12-character time passes the filter,
   * but its empty date never beats `""`, so the function returns `None`.
   */
  lemma EmptyDateNotFound(time: string)
    requires '_' !in time && '.' !in time
    requires |time| == TimestampLength - 1
    ensures Resolve([SalesTag + "_" + "" + "_" + time + CsvSuffix]) == NotFound
  {
    var name := SalesTag + "_" + "" + "_" + time + CsvSuffix;
    AcceptsRaw("", time);
    ResolveIsLatestByDate([name]);
  }

  /** `sales__123456789012.csv` alone: the function returns `None`. */
  lemma EmptyDateExample()
    ensures Resolve([SalesTag + "_" + "" + "_" + "123456789012" + CsvSuffix]) == NotFound
  {
    EmptyDateNotFound("123456789012");
  }
}
