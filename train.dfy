/**
 * The two pieces of src/train.py that decide something: the name under
 * which a trained model is saved, and the split of a table into the
 * feature columns and the `sales` target.
 */
module Train {
  import opened PyStr
  import opened Seqs
  import opened Naming
  import opened LatestFile
  import Helper

  // ---------------------------------------------------------------------
  // Calendar time and `strftime("%Y%m%d_%H%M")`
  // ---------------------------------------------------------------------

  /** The fields of a `datetime` that the timestamp shows. */
  datatype DateTime = DateTime(year: int, month: int, day: int, hour: int, minute: int)

  predicate IsLeapYear(year: int) {
    year % 4 == 0 && (year % 100 != 0 || year % 400 == 0)
  }

  function DaysInMonth(year: int, month: int): (n: int)
    requires 1 <= month <= 12
    ensures 28 <= n <= 31
  {
    if month == 2 then (if IsLeapYear(year) then 29 else 28)
    else if month == 4 || month == 6 || month == 9 || month == 11 then 30
    else 31
  }

  /** The values a `datetime` accepts: years 1 to 9999 and a real calendar day. */
  predicate ValidDateTime(t: DateTime) {
    1 <= t.year <= 9999 && 1 <= t.month <= 12 && 1 <= t.day <= DaysInMonth(t.year, t.month)
    && 0 <= t.hour < 24 && 0 <= t.minute < 60
  }

  /** Points in time compared field by field, the largest unit first. */
  predicate Earlier(a: DateTime, b: DateTime) {
    if a.year != b.year then a.year < b.year
    else if a.month != b.month then a.month < b.month
    else if a.day != b.day then a.day < b.day
    else if a.hour != b.hour then a.hour < b.hour
    else a.minute < b.minute
  }

  predicate IsDigits(s: string) {
    forall i :: 0 <= i < |s| ==> '0' <= s[i] <= '9'
  }

  function Digit(d: nat): (c: char)
    requires d < 10
    ensures '0' <= c <= '9'
  {
    (48 + d) as char
  }

  function Pow10(w: nat): (p: nat)
    ensures p >= 1
  {
    if w == 0 then 1 else 10 * Pow10(w - 1)
  }

  /** The last `w` decimal digits of `n`, leading zeros kept: `%02d` for `w == 2`. */
  function Digits(n: nat, w: nat): (s: string)
    ensures |s| == w && IsDigits(s)
  {
    if w == 0 then [] else Digits(n / 10, w - 1) + [Digit(n % 10)]
  }

  /** `n` in decimal without padding, as the C library writes `%Y`. */
  function Decimal(n: nat): (s: string)
    ensures |s| >= 1 && IsDigits(s)
  {
    if n < 10 then [Digit(n)] else Decimal(n / 10) + [Digit(n % 10)]
  }

  /** `%Y%m%d` */
  function DateStamp(t: DateTime): (s: string)
    requires ValidDateTime(t)
    ensures IsDigits(s)
  {
    Decimal(t.year) + Digits(t.month, 2) + Digits(t.day, 2)
  }

  /** `%H%M` */
  function TimeStamp(t: DateTime): (s: string)
    requires ValidDateTime(t)
    ensures |s| == 4 && IsDigits(s)
  {
    Digits(t.hour, 2) + Digits(t.minute, 2)
  }

  /** `t.strftime("%Y%m%d_%H%M")` */
  function FormatTimestamp(t: DateTime): string
    requires ValidDateTime(t)
  {
    DateStamp(t) + "_" + TimeStamp(t)
  }

  /** A number of `w` digits is written with exactly those `w` digits. */
  lemma {:induction false} DecimalDigits(n: nat, w: nat)
    requires 1 <= w && Pow10(w - 1) <= n < Pow10(w)
    ensures Decimal(n) == Digits(n, w)
  {
    if w == 1 {
      assert Pow10(1) == 10;
    } else {
      assert Pow10(w - 1) == 10 * Pow10(w - 2);
      assert n / 10 < Pow10(w - 1);
      assert Pow10(w - 2) <= n / 10;
      DecimalDigits(n / 10, w - 1);
    }
  }

  /** Digits never tie unless the numbers do, and compare as the numbers do. */
  lemma {:induction false} DigitsOrder(a: nat, b: nat, w: nat)
    requires a < Pow10(w) && b < Pow10(w)
    ensures Digits(a, w) == Digits(b, w) <==> a == b
    ensures LexLess(Digits(a, w), Digits(b, w)) <==> a < b
  {
    if w > 0 {
      DigitsOrder(a / 10, b / 10, w - 1);
      var ha, hb := Digits(a / 10, w - 1), Digits(b / 10, w - 1);
      var la, lb := [Digit(a % 10)], [Digit(b % 10)];
      LexLessConcat(ha, la, hb, lb);
      ConcatEq(ha, la, hb, lb);
      assert LexLess(la, lb) <==> a % 10 < b % 10 by {
        assert la[1..] == [] && lb[1..] == [];
      }
    } else {
      assert Pow10(0) == 1;
    }
  }

  /** Two equally long first halves: the concatenations are equal exactly when both halves are. */
  lemma ConcatEq(a1: string, a2: string, b1: string, b2: string)
    requires |a1| == |b1|
    ensures a1 + a2 == b1 + b2 <==> a1 == b1 && a2 == b2
  {
    if a1 + a2 == b1 + b2 {
      assert a1 == (a1 + a2)[..|a1|] && b1 == (b1 + b2)[..|b1|];
      assert a2 == (a1 + a2)[|a1|..] && b2 == (b1 + b2)[|b1|..];
    }
  }

  /** Equally long leading parts decide first, the rest decides a tie. */
  lemma LexPair(a1: string, a2: string, b1: string, b2: string)
    requires |a1| == |b1|
    ensures a1 + a2 == b1 + b2 <==> a1 == b1 && a2 == b2
    ensures LexLess(a1 + a2, b1 + b2) <==> LexLess(a1, b1) || (a1 == b1 && LexLess(a2, b2))
  {
    ConcatEq(a1, a2, b1, b2);
    LexLessConcat(a1, a2, b1, b2);
  }

  /** A 4-digit year is written as those 4 digits, so `%Y%m%d` is 8 characters. */
  lemma YearStamp(t: DateTime)
    requires ValidDateTime(t) && 1000 <= t.year
    ensures Decimal(t.year) == Digits(t.year, 4)
    ensures |DateStamp(t)| == 8
  {
    assert Pow10(3) == 1000 && Pow10(4) == 10000;
    DecimalDigits(t.year, 4);
  }

  /** For 4-digit years, `%Y%m%d` orders and tells apart dates as the calendar does. */
  lemma DateStampOrder(a: DateTime, b: DateTime)
    requires ValidDateTime(a) && ValidDateTime(b) && 1000 <= a.year && 1000 <= b.year
    ensures DateStamp(a) == DateStamp(b) <==> a.year == b.year && a.month == b.month && a.day == b.day
    ensures LexLess(DateStamp(a), DateStamp(b)) <==>
              a.year < b.year || (a.year == b.year && (a.month < b.month || (a.month == b.month && a.day < b.day)))
  {
    YearStamp(a);
    YearStamp(b);
    var ya, ma, da := Digits(a.year, 4), Digits(a.month, 2), Digits(a.day, 2);
    var yb, mb, db := Digits(b.year, 4), Digits(b.month, 2), Digits(b.day, 2);
    assert (LexLess(ma + da, mb + db) <==> a.month < b.month || (a.month == b.month && a.day < b.day))
           && (ma + da == mb + db <==> a.month == b.month && a.day == b.day) by {
      assert Pow10(2) == 100;
      DigitsOrder(a.month, b.month, 2);
      DigitsOrder(a.day, b.day, 2);
      LexPair(ma, da, mb, db);
    }
    assert Pow10(4) == 10000;
    DigitsOrder(a.year, b.year, 4);
    LexPair(ya, ma + da, yb, mb + db);
    assert ya + ma + da == ya + (ma + da) && yb + mb + db == yb + (mb + db);
  }

  /** `%H%M` orders and tells apart times of day as the clock does. */
  lemma TimeStampOrder(a: DateTime, b: DateTime)
    requires ValidDateTime(a) && ValidDateTime(b)
    ensures TimeStamp(a) == TimeStamp(b) <==> a.hour == b.hour && a.minute == b.minute
    ensures LexLess(TimeStamp(a), TimeStamp(b)) <==>
              a.hour < b.hour || (a.hour == b.hour && a.minute < b.minute)
  {
    assert Pow10(2) == 100;
    DigitsOrder(a.hour, b.hour, 2);
    DigitsOrder(a.minute, b.minute, 2);
    LexPair(Digits(a.hour, 2), Digits(a.minute, 2), Digits(b.hour, 2), Digits(b.minute, 2));
  }

  /**
   * For 4-digit years, the timestamp tells apart any two minutes, and its
   * string order is the order of time.
   */
  lemma FormatTimestampOrder(a: DateTime, b: DateTime)
    requires ValidDateTime(a) && ValidDateTime(b) && 1000 <= a.year && 1000 <= b.year
    ensures FormatTimestamp(a) == FormatTimestamp(b) <==> a == b
    ensures LexLess(FormatTimestamp(a), FormatTimestamp(b)) <==> Earlier(a, b)
  {
    var da, db, ta, tb := DateStamp(a), DateStamp(b), TimeStamp(a), TimeStamp(b);
    assert ("_" + ta == "_" + tb <==> ta == tb) && (LexLess("_" + ta, "_" + tb) <==> LexLess(ta, tb)) by {
      LexPair("_", ta, "_", tb);
      LexLessIrreflexive("_");
    }
    assert (FormatTimestamp(a) == FormatTimestamp(b) <==> da == db && ta == tb)
           && (LexLess(FormatTimestamp(a), FormatTimestamp(b)) <==> LexLess(da, db) || (da == db && LexLess(ta, tb))) by {
      YearStamp(a);
      YearStamp(b);
      LexPair(da, "_" + ta, db, "_" + tb);
      assert da + "_" + ta == da + ("_" + ta) && db + "_" + tb == db + ("_" + tb);
    }
    DateStampOrder(a, b);
    TimeStampOrder(a, b);
  }

  /**
   * For 4-digit years the timestamp is `<8 digits>_<4 digits>`: 13
   * characters, one `_`, no `.`.
   */
  lemma TimestampShape(t: DateTime)
    requires ValidDateTime(t) && 1000 <= t.year
    ensures var ts := FormatTimestamp(t);
            |ts| == TimestampLength && Count('_', ts) == 1 && '.' !in ts
  {
    YearStamp(t);
    var d, h := DateStamp(t), TimeStamp(t);
    assert '_' !in d && '.' !in d && '_' !in h && '.' !in h;
    CountConcat('_', d + "_", h);
    CountConcat('_', d, "_");
  }

  // ---------------------------------------------------------------------
  // `get_model_filename`
  // ---------------------------------------------------------------------

  /** Where the standard model lives. */
  const StandardModelPath := "model/model.pkl"
  /** What every timestamped model path starts with. */
  const VersionedModelPrefix := "model/model_"
  const PickleSuffix := ".pkl"

  /**
   * The path a freshly trained model is saved to: the standard path while
   * no standard model exists, otherwise a path stamped with the minute
   * `now` (the clock reading that `get_model_filename` takes from
   * `datetime.now()`).
   */
  function GetModelFilename(modelExists: bool, now: DateTime): (path: string)
    requires ValidDateTime(now)
    ensures path == StandardModelPath <==> !modelExists
    ensures StartsWith(path, "model/model") && EndsWith(path, PickleSuffix)
    ensures modelExists ==>
              StartsWith(path, VersionedModelPrefix) && |path| >= |VersionedModelPrefix| + |PickleSuffix|
              && path[|VersionedModelPrefix|..|path| - |PickleSuffix|] == FormatTimestamp(now)
  {
    if !modelExists then StandardModelPath
    else
      var path := VersionedModelPrefix + FormatTimestamp(now) + PickleSuffix;
      assert path[11] == '_' && StandardModelPath[11] == '.';
      assert path[..11] == "model/model";
      assert path[..|VersionedModelPrefix|] == VersionedModelPrefix;
      assert path[|path| - |PickleSuffix|..] == PickleSuffix;
      path
  }

  /**
   * Models trained in different minutes (of 4-digit years) are saved to
   * different paths, and none of them to the standard path.
   */
  lemma DistinctMinutesDistinctPaths(a: DateTime, b: DateTime)
    requires ValidDateTime(a) && ValidDateTime(b) && 1000 <= a.year && 1000 <= b.year
    requires a != b
    ensures GetModelFilename(true, a) != GetModelFilename(true, b)
  {
    FormatTimestampOrder(a, b);
  }

  /**
   * The model timestamp has the shape the resolver of src/helper.py
   * accepts: a `sales_<timestamp>.csv` export stamped at `t` takes part in
   * the selection, keyed on that very timestamp.
   */
  lemma TimestampAccepted(t: DateTime)
    requires ValidDateTime(t) && 1000 <= t.year
    ensures Helper.Eligible(SalesTag + "_" + FormatTimestamp(t) + CsvSuffix)
    ensures Helper.TimestampOf(SalesTag + "_" + FormatTimestamp(t) + CsvSuffix) == FormatTimestamp(t)
  {
    var d, h := DateStamp(t), TimeStamp(t);
    assert '_' !in d && '.' !in d && '_' !in h && '.' !in h && |d| + 1 + |h| == TimestampLength by {
      YearStamp(t);
    }
    assert SalesTag + "_" + FormatTimestamp(t) + CsvSuffix == SalesTag + "_" + d + "_" + h + CsvSuffix;
    Helper.AcceptsRaw(d, h);
  }

  /**
   * Of two exports stamped in this format, the resolver of src/helper.py
   * picks the one stamped later, whichever is listed first.
   */
  lemma LaterStampChosen(a: DateTime, b: DateTime)
    requires ValidDateTime(a) && ValidDateTime(b) && 1000 <= a.year && 1000 <= b.year
    requires Earlier(a, b)
    ensures var x, y := SalesTag + "_" + FormatTimestamp(a) + CsvSuffix, SalesTag + "_" + FormatTimestamp(b) + CsvSuffix;
            Helper.Resolve([x, y]) == Found(y) && Helper.Resolve([y, x]) == Found(y)
  {
    TimestampAccepted(a);
    TimestampAccepted(b);
    FormatTimestampOrder(a, b);
    Helper.LaterOfTwo(SalesTag + "_" + FormatTimestamp(a) + CsvSuffix, SalesTag + "_" + FormatTimestamp(b) + CsvSuffix);
  }

  // ---------------------------------------------------------------------
  // `prepare_data`
  // ---------------------------------------------------------------------

  /** The name of the target column. */
  const TargetColumn := "sales"

  /** A named column of a table. */
  datatype Column<V> = Column(name: string, values: seq<V>)

  /** A table as its columns, in order, and its number of rows. */
  datatype Frame<V> = Frame(columns: seq<Column<V>>, rowCount: nat)

  /** Every column holds one value per row. */
  predicate WellFormed<V>(df: Frame<V>) {
    forall i :: 0 <= i < |df.columns| ==> |df.columns[i].values| == df.rowCount
  }

  predicate IsTarget<V>(c: Column<V>) {
    c.name == TargetColumn
  }

  predicate IsFeature<V>(c: Column<V>) {
    c.name != TargetColumn
  }

  /**
   * The features `X` and the target `y`, or the `KeyError` pandas raises
   * when the table has no `sales` column.  A table with several `sales`
   * columns gives all of them as the target.
   */
  datatype Prepared<V> = Prepared(features: Frame<V>, target: Frame<V>) | KeyError(missing: string)

  /** `X = df.drop(columns=["sales"])`, `y = df["sales"]` */
  function PrepareData<V(==)>(df: Frame<V>): (r: Prepared<V>)
    ensures r.KeyError? <==> forall i :: 0 <= i < |df.columns| ==> df.columns[i].name != TargetColumn
    ensures r.KeyError? ==> r.missing == TargetColumn
    ensures r.Prepared? ==>
              r.features.rowCount == df.rowCount && r.target.rowCount == df.rowCount
              && (forall i :: 0 <= i < |r.features.columns| ==> r.features.columns[i].name != TargetColumn)
              && (forall i :: 0 <= i < |r.target.columns| ==> r.target.columns[i].name == TargetColumn)
              && |r.target.columns| >= 1
  {
    FilterEmpty(df.columns, IsTarget);
    var target := Filter(df.columns, IsTarget);
    if target == [] then KeyError(TargetColumn)
    else Prepared(Frame(Filter(df.columns, IsFeature), df.rowCount), Frame(target, df.rowCount))
  }

  /** Features and target together are the input's columns, none lost or duplicated. */
  lemma PrepareDataPartition<V>(df: Frame<V>)
    requires PrepareData(df).Prepared?
    ensures var r := PrepareData(df);
            multiset(r.features.columns) + multiset(r.target.columns) == multiset(df.columns)
  {
    FilterPartition(df.columns, IsFeature, IsTarget);
  }

  /** The split keeps every column's values, so well-formed tables give well-formed parts. */
  lemma PrepareDataWellFormed<V>(df: Frame<V>)
    requires WellFormed(df) && PrepareData(df).Prepared?
    ensures WellFormed(PrepareData(df).features) && WellFormed(PrepareData(df).target)
  {
    FilterMembers(df.columns, IsFeature);
    FilterMembers(df.columns, IsTarget);
  }

  /**
   * With a single `sales` column at position `k`, the features are all the
   * other columns in their original order and the target is that column.
   */
  lemma PrepareDataSingleTarget<V>(df: Frame<V>, k: nat)
    requires k < |df.columns| && df.columns[k].name == TargetColumn
    requires forall i :: 0 <= i < |df.columns| && i != k ==> df.columns[i].name != TargetColumn
    ensures PrepareData(df) == Prepared(Frame(df.columns[..k] + df.columns[k + 1..], df.rowCount),
                                        Frame([df.columns[k]], df.rowCount))
  {
    FilterAllBut(df.columns, IsFeature, k);
    FilterOnly(df.columns, IsTarget, k);
  }
}
