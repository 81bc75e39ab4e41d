/**
 * What the two `find_latest_csv_file` variants share: keep the `.csv`
 * entries of a listing, keep those matching a name pattern, and scan them
 * for the first one whose selection key is the greatest.  The variants
 * differ only in the pattern and the key, which are parameters here.
 */
module LatestFile {
  import opened PyStr
  import opened Seqs
  import opened Naming

  datatype Option<T> = None | Some(value: T)

  /**
   * How a resolver ends: with a file name, with Python's `None` (no key
   * beat the initial `""`), or at one of its two `exit(1)` calls.
   */
  datatype Resolution = Found(file: string) | NotFound | NoRawCsvFiles | NoMatchingPattern

  /** `keys[i]` is at least every key and strictly greater than every earlier one. */
  ghost predicate IsFirstMax(keys: seq<string>, i: int) {
    0 <= i < |keys| &&
    (forall j :: 0 <= j < |keys| ==> LexLe(keys[j], keys[i])) &&
    (forall j :: 0 <= j < i ==> LexLess(keys[j], keys[i]))
  }

  /**
   * The scan `latest_ts = ""; for ts in keys: if ts > latest_ts: latest_ts = ts`,
   * as the position it settles on.
   */
  function LatestIndex(keys: seq<string>): (r: Option<nat>)
    ensures r.None? <==> forall j :: 0 <= j < |keys| ==> keys[j] == ""
    ensures r.Some? ==> IsFirstMax(keys, r.value) && keys[r.value] != ""
  {
    if keys == [] then None
    else
      var n := |keys| - 1;
      var prev := LatestIndex(keys[..n]);
      var best := if prev.Some? then keys[prev.value] else "";
      if LexLess(best, keys[n]) then
        assert IsFirstMax(keys, n) by {
          forall j | 0 <= j < n ensures LexLess(keys[j], keys[n]) {
            assert keys[j] == keys[..n][j];
            if prev.Some? {
              if keys[j] != best {
                LexLessTransitive(keys[j], best, keys[n]);
              }
            }
          }
        }
        Some(n)
      else
        LexLessTotal(best, keys[n]);
        assert prev.Some? || keys[n] == "";
        assert prev.Some? ==> IsFirstMax(keys, prev.value) by {
          if prev.Some? {
            forall j | 0 <= j < |keys| ensures LexLe(keys[j], best) {
              if j < n {
                assert keys[j] == keys[..n][j];
              }
            }
          }
        }
        prev
  }

  /** One more step of the scan: the next key replaces the best so far only when it is strictly greater. */
  lemma LatestIndexStep(keys: seq<string>, j: nat)
    requires j < |keys|
    ensures var prev := LatestIndex(keys[..j]);
            var best := if prev.Some? then keys[prev.value] else "";
            LatestIndex(keys[..j + 1]) == if LexLess(best, keys[j]) then Some(j) else prev
  {
    assert keys[..j + 1][..j] == keys[..j];
    var prev := LatestIndex(keys[..j]);
    if prev.Some? {
      assert keys[..j][prev.value] == keys[prev.value];
    }
  }

  /** The first maximum is unique, so the scan's answer is the only one. */
  lemma FirstMaxUnique(keys: seq<string>, i: int, j: int)
    requires IsFirstMax(keys, i) && IsFirstMax(keys, j)
    ensures i == j
  {
    if i < j {
      LexLessTotal(keys[i], keys[j]);
    } else if j < i {
      LexLessTotal(keys[j], keys[i]);
    }
  }

  /** The selection key of every file. */
  function KeysOf(files: seq<string>, key: string --> string): seq<string>
    requires forall i :: 0 <= i < |files| ==> key.requires(files[i])
  {
    seq(|files|, i requires 0 <= i < |files| => key(files[i]))
  }

  /** The file the scan settles on, or `None` when no key beats `""`. */
  function Latest(files: seq<string>, key: string --> string): Option<string>
    requires forall i :: 0 <= i < |files| ==> key.requires(files[i])
  {
    match LatestIndex(KeysOf(files, key))
    case None => None
    case Some(i) => Some(files[i])
  }

  /**
   * The resolver for a name pattern and a selection key, defined on the
   * directory listing: no `.csv` entry, no entry matching the pattern, or
   * the file the scan settles on.
   */
  function ResolveBy(listing: seq<string>, matches: string -> bool, key: string --> string): Resolution
    requires forall x :: matches(x) ==> key.requires(x)
  {
    var csvFiles := Filter(listing, IsCsv);
    if csvFiles == [] then NoRawCsvFiles
    else
      var tsFiles := Filter(csvFiles, matches);
      if tsFiles == [] then NoMatchingPattern
      else
        match Latest(tsFiles, key)
        case None => NotFound
        case Some(f) => Found(f)
  }

  /**
   * Position `k` of the listing holds an eligible entry whose key is at
   * least every eligible entry's key and strictly greater than the key of
   * every eligible entry before it.
   */
  ghost predicate IsFirstLatest(listing: seq<string>, eligible: string -> bool, key: string --> string, k: int)
    requires forall x :: eligible(x) ==> key.requires(x)
  {
    0 <= k < |listing| && eligible(listing[k]) &&
    (forall j :: 0 <= j < |listing| && eligible(listing[j]) ==> LexLe(key(listing[j]), key(listing[k]))) &&
    (forall j :: 0 <= j < k && eligible(listing[j]) ==> LexLess(key(listing[j]), key(listing[k])))
  }

  /** At most one position of a listing is the first latest. */
  lemma FirstLatestUnique(listing: seq<string>, eligible: string -> bool, key: string --> string, k1: int, k2: int)
    requires forall x :: eligible(x) ==> key.requires(x)
    requires IsFirstLatest(listing, eligible, key, k1) && IsFirstLatest(listing, eligible, key, k2)
    ensures k1 == k2
  {
    if k1 < k2 {
      LexLessTotal(key(listing[k1]), key(listing[k2]));
    } else if k2 < k1 {
      LexLessTotal(key(listing[k2]), key(listing[k1]));
    }
  }

  /** The two error outcomes, each in terms of the listing alone. */
  lemma ResolveByErrors(listing: seq<string>, matches: string -> bool, key: string --> string)
    requires forall x :: matches(x) ==> key.requires(x)
    ensures ResolveBy(listing, matches, key) == NoRawCsvFiles
            <==> forall j :: 0 <= j < |listing| ==> !IsCsv(listing[j])
    ensures ResolveBy(listing, matches, key) == NoMatchingPattern
            <==> (exists j :: 0 <= j < |listing| && IsCsv(listing[j]))
                 && forall j :: 0 <= j < |listing| && IsCsv(listing[j]) ==> !matches(listing[j])
  {
    var csvFiles := Filter(listing, IsCsv);
    FilterEmpty(listing, IsCsv);
    FilterEmpty(csvFiles, matches);
    FilterMembers(listing, IsCsv);
    if csvFiles != [] && Filter(csvFiles, matches) == [] {
      forall j | 0 <= j < |listing| && IsCsv(listing[j]) ensures !matches(listing[j]) {
        var m :| 0 <= m < |csvFiles| && csvFiles[m] == listing[j];
      }
    }
  }

  /** Every eligible entry's key is among the keys the scan sees. */
  lemma KeyOfEligible(listing: seq<string>, eligible: string -> bool, key: string --> string, j: nat) returns (m: nat)
    requires forall x :: eligible(x) ==> key.requires(x)
    requires j < |listing| && eligible(listing[j])
    ensures m < |Filter(listing, eligible)|
    ensures Filter(listing, eligible)[m] == listing[j]
  {
    FilterMembers(listing, eligible);
    m :| 0 <= m < |Filter(listing, eligible)| && Filter(listing, eligible)[m] == listing[j];
  }

  /**
   * The entry of the listing that the `i`-th element of its eligible
   * sub-sequence came from is the first latest when `i` is the first maximum.
   */
  lemma FirstMaxIsFirstLatest(listing: seq<string>, eligible: string -> bool, key: string --> string,
                              tsFiles: seq<string>, i: nat, k: nat)
    requires forall x :: eligible(x) ==> key.requires(x)
    requires tsFiles == Filter(listing, eligible)
    requires IsFirstMax(KeysOf(tsFiles, key), i)
    requires k < |listing| && eligible(listing[k]) && listing[k] == tsFiles[i]
    requires Filter(listing[..k], eligible) == tsFiles[..i]
    ensures IsFirstLatest(listing, eligible, key, k)
  {
    var keys := KeysOf(tsFiles, key);
    forall j | 0 <= j < |listing| && eligible(listing[j])
      ensures LexLe(key(listing[j]), key(listing[k]))
      ensures j < k ==> LexLess(key(listing[j]), key(listing[k]))
    {
      var m := KeyOfEligible(listing, eligible, key, j);
      assert keys[m] == key(listing[j]);
      if j < k {
        assert listing[j] == listing[..k][j];
        var m' := KeyOfEligible(listing[..k], eligible, key, j);
        assert tsFiles[..i][m'] == tsFiles[m'];
        assert keys[m'] == key(listing[j]);
      }
    }
  }

  /** A found file is the first latest eligible entry of the listing. */
  lemma ResolveByFound(listing: seq<string>, matches: string -> bool, key: string --> string, eligible: string -> bool)
    requires forall x :: matches(x) ==> key.requires(x)
    requires forall x :: eligible(x) == (IsCsv(x) && matches(x))
    ensures ResolveBy(listing, matches, key).Found? ==>
              exists k :: IsFirstLatest(listing, eligible, key, k)
                          && listing[k] == ResolveBy(listing, matches, key).file
  {
    var tsFiles := Filter(Filter(listing, IsCsv), matches);
    FilterCompose(listing, IsCsv, matches, eligible);
    if ResolveBy(listing, matches, key).Found? {
      var i := LatestIndex(KeysOf(tsFiles, key)).value;
      FilterIndex(listing, eligible, i);
      var k :| 0 <= k < |listing| && listing[k] == tsFiles[i] && eligible(listing[k])
               && Filter(listing[..k], eligible) == tsFiles[..i];
      FirstMaxIsFirstLatest(listing, eligible, key, tsFiles, i, k);
    }
  }

  /**
   * `None` comes back exactly when eligible entries exist and all their
   * keys are empty.
   */
  lemma ResolveByNotFound(listing: seq<string>, matches: string -> bool, key: string --> string, eligible: string -> bool)
    requires forall x :: matches(x) ==> key.requires(x)
    requires forall x :: eligible(x) == (IsCsv(x) && matches(x))
    ensures ResolveBy(listing, matches, key) == NotFound <==>
              (exists j :: 0 <= j < |listing| && eligible(listing[j]))
              && forall j :: 0 <= j < |listing| && eligible(listing[j]) ==> key(listing[j]) == ""
  {
    var tsFiles := Filter(Filter(listing, IsCsv), matches);
    FilterCompose(listing, IsCsv, matches, eligible);
    FilterEmpty(listing, eligible);
    FilterMembers(listing, eligible);
    var keys := KeysOf(tsFiles, key);
    if tsFiles != [] {
      assert Filter(listing, IsCsv) != [];
      if LatestIndex(keys).None? {
        forall j | 0 <= j < |listing| && eligible(listing[j]) ensures key(listing[j]) == "" {
          var m :| 0 <= m < |tsFiles| && tsFiles[m] == listing[j];
          assert keys[m] == key(listing[j]);
        }
      } else {
        var i := LatestIndex(keys).value;
        assert tsFiles[i] in listing;
      }
    }
  }

  /** The scan over two keys settles on the strictly greater one, whichever comes first. */
  lemma LatestOfTwoKeys(ka: string, kb: string)
    requires LexLess(ka, kb)
    ensures LatestIndex([ka, kb]) == Some(1)
    ensures LatestIndex([kb, ka]) == Some(0)
  {
    LexLessTotal(ka, kb);
    assert [ka, kb][..1] == [ka] && [kb, ka][..1] == [kb];
    assert [ka][..0] == [] && [kb][..0] == [];
  }

  /** On a listing of eligible files only, the resolver is the scan itself. */
  lemma ResolveByEligible(listing: seq<string>, matches: string -> bool, key: string --> string)
    requires forall x :: matches(x) ==> key.requires(x)
    requires listing != []
    requires forall i :: 0 <= i < |listing| ==> IsCsv(listing[i]) && matches(listing[i])
    ensures ResolveBy(listing, matches, key) ==
              match LatestIndex(KeysOf(listing, key))
              case None => NotFound
              case Some(i) => Found(listing[i])
  {
    FilterAll(listing, IsCsv);
    FilterAll(listing, matches);
  }

  /** On two eligible files, the resolver is the scan over their two keys. */
  lemma ResolveByPair(a: string, b: string, matches: string -> bool, key: string --> string)
    requires forall x :: matches(x) ==> key.requires(x)
    requires IsCsv(a) && matches(a) && IsCsv(b) && matches(b)
    ensures LatestIndex([key(a), key(b)]) == Some(0) ==> ResolveBy([a, b], matches, key) == Found(a)
    ensures LatestIndex([key(a), key(b)]) == Some(1) ==> ResolveBy([a, b], matches, key) == Found(b)
  {
    ResolveByEligible([a, b], matches, key);
    assert KeysOf([a, b], key) == [key(a), key(b)];
  }

  /** Of two eligible files, the one with the strictly greater key is chosen, whichever comes first. */
  lemma ResolveByTwo(a: string, b: string, matches: string -> bool, key: string --> string)
    requires forall x :: matches(x) ==> key.requires(x)
    requires IsCsv(a) && matches(a) && IsCsv(b) && matches(b)
    requires LexLess(key(a), key(b))
    ensures ResolveBy([a, b], matches, key) == Found(b)
    ensures ResolveBy([b, a], matches, key) == Found(b)
  {
    ResolveByPair(a, b, matches, key);
    ResolveByPair(b, a, matches, key);
    LatestOfTwoKeys(key(a), key(b));
  }

  /** The scan over two equal non-empty keys keeps the first. */
  lemma LatestOfEqualKeys(k: string)
    requires k != ""
    ensures LatestIndex([k, k]) == Some(0)
  {
    LexLessIrreflexive(k);
    assert [k, k][..1] == [k];
    assert [k][..0] == [];
  }

  /** Of two eligible files with the same non-empty key, the one listed first is chosen. */
  lemma ResolveByTie(a: string, b: string, matches: string -> bool, key: string --> string)
    requires forall x :: matches(x) ==> key.requires(x)
    requires IsCsv(a) && matches(a) && IsCsv(b) && matches(b)
    requires key(a) == key(b) != ""
    ensures ResolveBy([a, b], matches, key) == Found(a)
  {
    ResolveByPair(a, b, matches, key);
    LatestOfEqualKeys(key(a));
  }

  /** An entry that does not end in `.csv` never changes the outcome, wherever it stands. */
  lemma ResolveByIgnoresNonCsv(a: seq<string>, x: string, b: seq<string>, matches: string -> bool, key: string --> string)
    requires forall y :: matches(y) ==> key.requires(y)
    requires !IsCsv(x)
    ensures ResolveBy(a + [x] + b, matches, key) == ResolveBy(a + b, matches, key)
  {
    var l1, l2 := a + [x] + b, a + b;
    FilterConcat(a + [x], b, IsCsv);
    FilterConcat(a, [x], IsCsv);
    FilterConcat(a, b, IsCsv);
    FilterNone([x], IsCsv);
    assert Filter(a + [x], IsCsv) == Filter(a, IsCsv);
    assert Filter(l1, IsCsv) == Filter(l2, IsCsv);
  }
}
