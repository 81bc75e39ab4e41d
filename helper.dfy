/**
 * `find_latest_csv_file` of src/helper.py: the newest `sales_…csv` or
 * `sales_processed_…csv` entry of a directory listing, judged by the
 * timestamp in its name.
 */
module Helper {
  import opened PyStr
  import opened Seqs
  import opened Naming
  import opened LatestFile

  /** `"_".join(name.split("_")[-2:]).replace(".csv", "")`: the timestamp a name carries. */
  function TimestampOf(name: string): string {
    StripCsv(Join('_', LastTwo(Split(name, '_'))))
  }

  /** The test each `.csv` entry must pass: 3 or 4 segments, `sales` first, a 13-character timestamp holding `_`. */
  predicate MatchesPattern(name: string) {
    var parts := Split(name, '_');
    (|parts| == 3 || |parts| == 4) && parts[0] == SalesTag &&
    var ts := TimestampOf(name);
    |ts| == TimestampLength && '_' in ts
  }

  /** A listing entry that takes part in the selection. */
  predicate Eligible(name: string) {
    IsCsv(name) && MatchesPattern(name)
  }

  /** What the function returns, or which `exit(1)` it reaches, for a listing. */
  function Resolve(listing: seq<string>): Resolution {
    ResolveBy(listing, MatchesPattern, TimestampOf)
  }

  /**
   * The function itself: the comprehension keeping `.csv` entries, the
   * loop collecting `ts_files`, the loop keeping the greatest timestamp.
   */
  method FindLatestCsvFile(listing: seq<string>) returns (r: Resolution)
    ensures r == Resolve(listing)
  {
    var csvFiles := Filter(listing, IsCsv);
    if csvFiles == [] {
      return NoRawCsvFiles;
    }
    var tsFiles := CollectMatching(csvFiles);
    if tsFiles == [] {
      return NoMatchingPattern;
    }
    var latestFile := ScanLatest(tsFiles);
    r := if latestFile.Some? then Found(latestFile.value) else NotFound;
  }

  /** The loop appending every `.csv` name that matches the pattern to `ts_files`. */
  method CollectMatching(csvFiles: seq<string>) returns (tsFiles: seq<string>)
    ensures tsFiles == Filter(csvFiles, MatchesPattern)
  {
    tsFiles := [];
    for i := 0 to |csvFiles|
      invariant tsFiles == Filter(csvFiles[..i], MatchesPattern)
    {
      var f := csvFiles[i];
      var parts := Split(f, '_');
      if (|parts| == 3 || |parts| == 4) && parts[0] == SalesTag {
        var ts := TimestampOf(f);
        if |ts| == TimestampLength && '_' in ts {
          tsFiles := tsFiles + [f];
        }
      }
      FilterStep(csvFiles, MatchesPattern, i);
    }
    assert csvFiles[..|csvFiles|] == csvFiles;
  }

  /**
   * The loop that replaces `latest_file` whenever a timestamp is strictly
   * greater than `latest_ts`, which starts as `""`.
   */
  method ScanLatest(tsFiles: seq<string>) returns (latestFile: Option<string>)
    ensures latestFile == Latest(tsFiles, TimestampOf)
  {
    ghost var keys := KeysOf(tsFiles, TimestampOf);
    var latestTs := "";
    latestFile := None;
    for j := 0 to |tsFiles|
      invariant LatestIndex(keys[..j]).None? ==> latestFile == None && latestTs == ""
      invariant LatestIndex(keys[..j]).Some? ==>
                  var k := LatestIndex(keys[..j]).value;
                  k < j && latestFile == Some(tsFiles[k]) && latestTs == keys[k]
    {
      var f := tsFiles[j];
      var ts := TimestampOf(f);
      LatestIndexStep(keys, j);
      if LexLess(latestTs, ts) {
        latestTs := ts;
        latestFile := Some(f);
      }
    }
    assert keys[..|tsFiles|] == keys;
  }

  /** The last two segments of a 3- or 4-segment name, joined back together. */
  lemma JoinLastTwo(name: string)
    requires |Split(name, '_')| >= 2
    ensures var parts := Split(name, '_');
            Join('_', LastTwo(parts)) == parts[|parts| - 2] + "_" + parts[|parts| - 1]
  {
    var parts := Split(name, '_');
    assert LastTwo(parts)[1..] == [parts[|parts| - 1]];
  }

  /**
   * The `"_" in ts` test never rejects a name: the joined timestamp holds
   * exactly one `_`, and removing `.csv` keeps it.
   */
  lemma {:induction false} UnderscoreTestRedundant(name: string)
    ensures var parts := Split(name, '_');
            (|parts| == 3 || |parts| == 4) ==> Count('_', TimestampOf(name)) == 1
    ensures MatchesPattern(name) <==>
            var parts := Split(name, '_');
            (|parts| == 3 || |parts| == 4) && parts[0] == SalesTag
            && |TimestampOf(name)| == TimestampLength
  {
    var parts := Split(name, '_');
    if |parts| == 3 || |parts| == 4 {
      JoinLastTwo(name);
      var a, b := parts[|parts| - 2], parts[|parts| - 1];
      CountConcat('_', a + "_", b);
      CountConcat('_', a, "_");
      StripCsvKeeps('_', a + "_" + b);
    }
  }

  /**
   * A listing without `.csv` entries ends at the first `exit(1)`; one with
   * `.csv` entries none of which matches the pattern ends at the second.
   */
  lemma ResolveErrors(listing: seq<string>)
    ensures Resolve(listing) == NoRawCsvFiles
            <==> forall j :: 0 <= j < |listing| ==> !IsCsv(listing[j])
    ensures Resolve(listing) == NoMatchingPattern
            <==> (exists j :: 0 <= j < |listing| && IsCsv(listing[j]))
                 && forall j :: 0 <= j < |listing| && IsCsv(listing[j]) ==> !MatchesPattern(listing[j])
  {
    ResolveByErrors(listing, MatchesPattern, TimestampOf);
  }

  /**
   * With an eligible entry the result is a file, never `None`; it is the
   * first eligible entry whose timestamp is the greatest.
   */
  lemma ResolveIsLatest(listing: seq<string>)
    ensures Resolve(listing) != NotFound
    ensures (exists j :: 0 <= j < |listing| && Eligible(listing[j])) ==> Resolve(listing).Found?
    ensures Resolve(listing).Found? ==>
              exists k :: IsFirstLatest(listing, Eligible, TimestampOf, k)
                          && listing[k] == Resolve(listing).file
  {
    ResolveByFound(listing, MatchesPattern, TimestampOf, Eligible);
    ResolveByNotFound(listing, MatchesPattern, TimestampOf, Eligible);
    ResolveByErrors(listing, MatchesPattern, TimestampOf);
    if exists j :: 0 <= j < |listing| && Eligible(listing[j]) {
      var j :| 0 <= j < |listing| && Eligible(listing[j]);
      assert |TimestampOf(listing[j])| == TimestampLength;
    }
  }

  /** Entries that are not `.csv` files never influence the result. */
  lemma NonCsvEntriesIgnored(a: seq<string>, x: string, b: seq<string>)
    requires !IsCsv(x)
    ensures Resolve(a + [x] + b) == Resolve(a + b)
  {
    ResolveByIgnoresNonCsv(a, x, b, MatchesPattern, TimestampOf);
  }

  /** The timestamp of a name whose last two segments are `b` and `t`. */
  lemma TimestampOfParts(name: string, b: string, t: string)
    requires var parts := Split(name, '_'); |parts| >= 2 && parts[|parts| - 2] == b && parts[|parts| - 1] == t
    ensures TimestampOf(name) == StripCsv(b + "_" + t)
  {
    JoinLastTwo(name);
  }

  /** `a_b_c.csv`, with segments free of `_` and `.`, splits into its segments and carries `b_c`. */
  lemma TimestampOfThree(a: string, b: string, c: string)
    requires '_' !in a && '_' !in b && '_' !in c
    requires '.' !in b && '.' !in c
    ensures Split(a + "_" + b + "_" + c + CsvSuffix, '_') == [a, b, c + CsvSuffix]
    ensures TimestampOf(a + "_" + b + "_" + c + CsvSuffix) == b + "_" + c
  {
    var t := c + CsvSuffix;
    assert a + "_" + b + "_" + c + CsvSuffix == a + "_" + b + "_" + t;
    SplitThree(a, b, t);
    TimestampOfParts(a + "_" + b + "_" + t, b, t);
    assert b + "_" + t == (b + "_" + c) + CsvSuffix;
    StripCsvSuffix(b + "_" + c);
  }

  /** `a_b_c_d.csv`, with segments free of `_` and `.`, splits into its segments and carries `c_d`. */
  lemma TimestampOfFour(a: string, b: string, c: string, d: string)
    requires '_' !in a && '_' !in b && '_' !in c && '_' !in d
    requires '.' !in c && '.' !in d
    ensures Split(a + "_" + b + "_" + c + "_" + d + CsvSuffix, '_') == [a, b, c, d + CsvSuffix]
    ensures TimestampOf(a + "_" + b + "_" + c + "_" + d + CsvSuffix) == c + "_" + d
  {
    var t := d + CsvSuffix;
    assert a + "_" + b + "_" + c + "_" + d + CsvSuffix == a + "_" + b + "_" + c + "_" + t;
    SplitFour(a, b, c, t);
    TimestampOfParts(a + "_" + b + "_" + c + "_" + t, c, t);
    assert c + "_" + t == (c + "_" + d) + CsvSuffix;
    StripCsvSuffix(c + "_" + d);
  }

  /** A `date_time` of 13 characters, with one `_`, passes the timestamp test. */
  lemma TimestampTestPasses(date: string, time: string)
    requires |date| + 1 + |time| == TimestampLength
    ensures var ts := date + "_" + time; |ts| == TimestampLength && '_' in ts
  {
    var ts := date + "_" + time;
    assert ts[|date|] == '_';
  }

  /** `sales_<date>_<time>.csv` with a 13-character `date_time` free of `.` takes part, keyed on `date_time`. */
  lemma AcceptsRaw(date: string, time: string)
    requires '_' !in date && '_' !in time
    requires '.' !in date && '.' !in time
    requires |date| + 1 + |time| == TimestampLength
    ensures Eligible(SalesTag + "_" + date + "_" + time + CsvSuffix)
    ensures TimestampOf(SalesTag + "_" + date + "_" + time + CsvSuffix) == date + "_" + time
  {
    TimestampOfThree(SalesTag, date, time);
    TimestampTestPasses(date, time);
  }

  /** `sales_processed_<date>_<time>.csv` likewise takes part, keyed on `date_time`. */
  lemma AcceptsProcessed(date: string, time: string)
    requires '_' !in date && '_' !in time
    requires '.' !in date && '.' !in time
    requires |date| + 1 + |time| == TimestampLength
    ensures Eligible(SalesTag + "_" + ProcessedTag + "_" + date + "_" + time + CsvSuffix)
    ensures TimestampOf(SalesTag + "_" + ProcessedTag + "_" + date + "_" + time + CsvSuffix) == date + "_" + time
  {
    TimestampOfFour(SalesTag, ProcessedTag, date, time);
    TimestampTestPasses(date, time);
  }

  /** Of two eligible files, the one with the greater timestamp wins in either order. */
  lemma LaterOfTwo(a: string, b: string)
    requires Eligible(a) && Eligible(b)
    requires LexLess(TimestampOf(a), TimestampOf(b))
    ensures Resolve([a, b]) == Found(b) && Resolve([b, a]) == Found(b)
  {
    ResolveByTwo(a, b, MatchesPattern, TimestampOf);
  }

  /**
   * Two eligible files with the same timestamp: the one listed first is
   * chosen, since a later one must be strictly greater to replace it.
   */
  lemma TieKeepsFirst(a: string, b: string)
    requires Eligible(a) && Eligible(b) && TimestampOf(a) == TimestampOf(b)
    ensures Resolve([a, b]) == Found(a)
  {
    assert |TimestampOf(a)| == TimestampLength;
    ResolveByTie(a, b, MatchesPattern, TimestampOf);
  }

  /** A `date_time` timestamp is greater than another of the same shape when its date is, or its date is equal and its time greater. */
  lemma TimestampOrder(d1: string, t1: string, d2: string, t2: string)
    requires |d1| == |d2|
    requires LexLess(d1, d2) || (d1 == d2 && LexLess(t1, t2))
    ensures LexLess(d1 + "_" + t1, d2 + "_" + t2)
  {
    LexLessConcat(d1, "_" + t1, d2, "_" + t2);
    LexLessConcat("_", t1, "_", t2);
    assert d1 + "_" + t1 == d1 + ("_" + t1);
    assert d2 + "_" + t2 == d2 + ("_" + t2);
  }

  /**
   * Of two `sales_<date>_<time>.csv` exports with timestamps of the same
   * shape, the one with the later date, or the same date and the later
   * time, is chosen, whichever is listed first.
   */
  lemma LaterExportWins(d1: string, t1: string, d2: string, t2: string)
    requires '_' !in d1 && '_' !in t1 && '_' !in d2 && '_' !in t2
    requires '.' !in d1 && '.' !in t1 && '.' !in d2 && '.' !in t2
    requires |d1| == |d2| && |d1| + 1 + |t1| == TimestampLength && |d2| + 1 + |t2| == TimestampLength
    requires LexLess(d1, d2) || (d1 == d2 && LexLess(t1, t2))
    ensures var a, b := SalesTag + "_" + d1 + "_" + t1 + CsvSuffix, SalesTag + "_" + d2 + "_" + t2 + CsvSuffix;
            Resolve([a, b]) == Found(b) && Resolve([b, a]) == Found(b)
  {
    AcceptsRaw(d1, t1);
    AcceptsRaw(d2, t2);
    TimestampOrder(d1, t1, d2, t2);
    LaterOfTwo(SalesTag + "_" + d1 + "_" + t1 + CsvSuffix, SalesTag + "_" + d2 + "_" + t2 + CsvSuffix);
  }

  /**
   * `sales_20240101_0900.csv` and `sales_20240102_1000.csv`, listed in
   * either order: the second is the latest.
   */
  lemma NextDayExample()
    ensures var a, b := SalesTag + "_" + "20240101" + "_" + "0900" + CsvSuffix,
                        SalesTag + "_" + "20240102" + "_" + "1000" + CsvSuffix;
            Resolve([a, b]) == Found(b) && Resolve([b, a]) == Found(b)
  {
    LexLessAt("20240101", "20240102", 7);
    LaterExportWins("20240101", "0900", "20240102", "1000");
  }
}
