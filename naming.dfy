/** The file-name convention both resolvers read: `sales_YYYYMMDD_HHmm.csv`. */
module Naming {
  import opened PyStr

  /** The suffix of a tabular export. */
  const CsvSuffix := ".csv"
  /** The first underscore-separated segment of every accepted name. */
  const SalesTag := "sales"
  /** The second segment of a processed export's name, `sales_processed_YYYYMMDD_HHmm.csv`. */
  const ProcessedTag := "processed"
  /** `YYYYMMDD_HHmm` is 13 characters long. */
  const TimestampLength := 13

  /** `name.endswith(".csv")` */
  predicate IsCsv(name: string) {
    EndsWith(name, CsvSuffix)
  }

  /**
   * `s.replace(".csv", "")`: every occurrence of `.csv` is removed, found
   * left to right without overlap, wherever it stands in `s`.
   */
  function StripCsv(s: string): (r: string)
    ensures |r| <= |s|
    decreases |s|
  {
    if |s| < |CsvSuffix| then s
    else if s[..|CsvSuffix|] == CsvSuffix then StripCsv(s[|CsvSuffix|..])
    else [s[0]] + StripCsv(s[1..])
  }

  /** Removing `.csv` never removes a character that `.csv` does not contain. */
  lemma {:induction false} StripCsvKeeps(c: char, s: string)
    requires c !in CsvSuffix
    ensures Count(c, StripCsv(s)) == Count(c, s)
    decreases |s|
  {
    if |s| >= |CsvSuffix| {
      if s[..|CsvSuffix|] == CsvSuffix {
        StripCsvKeeps(c, s[|CsvSuffix|..]);
        CountConcat(c, s[..|CsvSuffix|], s[|CsvSuffix|..]);
        assert s == s[..|CsvSuffix|] + s[|CsvSuffix|..];
        assert Count(c, CsvSuffix) == 0;
      } else {
        StripCsvKeeps(c, s[1..]);
        CountConcat(c, [s[0]], StripCsv(s[1..]));
      }
    }
  }

  /** A leading part without a `.` survives the removal untouched. */
  lemma {:induction false} StripCsvPrefix(x: string, y: string)
    requires '.' !in x
    ensures StripCsv(x + y) == x + StripCsv(y)
    decreases |x|
  {
    if x != [] {
      var s := x + y;
      assert s[0] == x[0] != '.' == CsvSuffix[0];
      assert s[1..] == x[1..] + y;
      StripCsvPrefix(x[1..], y);
      if |s| >= |CsvSuffix| {
        assert s[..|CsvSuffix|] != CsvSuffix;
      } else {
        assert |y| < |CsvSuffix|;
      }
      assert [x[0]] + x[1..] == x;
    } else {
      assert x + y == y;
    }
  }

  /** The extension of a name whose stem holds no `.` is removed and nothing else. */
  lemma StripCsvSuffix(x: string)
    requires '.' !in x
    ensures StripCsv(x + CsvSuffix) == x
  {
    StripCsvPrefix(x, CsvSuffix);
    assert CsvSuffix[..|CsvSuffix|] == CsvSuffix;
    assert CsvSuffix[|CsvSuffix|..] == [];
  }

  /** Without a `.` there is nothing to remove. */
  lemma StripCsvNoDot(x: string)
    requires '.' !in x
    ensures StripCsv(x) == x
  {
    StripCsvPrefix(x, []);
    assert x + [] == x;
  }
}
