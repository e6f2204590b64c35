/**
 * The merged indicator table the dashboard reads: one row per (Country, Name,
 * Year) observation, with the country metadata joined in. The table itself is
 * read once at start-up and never changed; every callback works on filtered
 * copies of it. This module defines the rows, the row selections the callbacks
 * use, the orders they sort by, and "the latest row" of a series: the last row
 * after a stable sort by Year.
 */
module Dataset {
  import opened Wrappers
  import opened Frames

  /** One observation of the merged table; a missing value (NaN) is None. */
  datatype Row = Row(
    country: string,
    iso3: Option<string>,
    region: Option<string>,
    incomeGroup: Option<string>,
    name: string,
    year: int,
    value: Option<real>)

  type Table = seq<Row>

  // ----- row selections (boolean masks) -----

  /** df.Country == country and df.Name == name. */
  function IsSeries(country: string, name: string): Row -> bool {
    (r: Row) => r.country == country && r.name == name
  }

  /** df.Country == country. */
  function IsCountry(country: string): Row -> bool {
    (r: Row) => r.country == country
  }

  /** df.Region == region and df.Name == name; a NaN region equals nothing. */
  function InRegionSeries(region: Option<string>, name: string): Row -> bool {
    (r: Row) => region.Some? && r.region == region && r.name == name
  }

  /** dropna(subset=["value"]) keeps these rows. */
  function HasValue(): Row -> bool {
    (r: Row) => r.value.Some?
  }

  /** The rows of one country's series, in table order. */
  function Series(t: Table, country: string, name: string): (s: seq<Row>)
    ensures |s| <= |t|
  {
    Filter(t, IsSeries(country, name))
  }

  /** The rows of one country's series that have a value, in table order. */
  function ValuedSeries(t: Table, country: string, name: string): (s: seq<Row>)
    ensures |s| <= |t|
  {
    Filter(Series(t, country, name), HasValue())
  }

  /** Every row of a selection satisfies its mask, and every table row that does is selected. */
  lemma SeriesMembers(t: Table, country: string, name: string, r: Row)
    ensures r in Series(t, country, name) <==> r in t && r.country == country && r.name == name
    ensures r in ValuedSeries(t, country, name) <==> r in t && r.country == country && r.name == name && r.value.Some?
  {
    FilterMember(t, IsSeries(country, name), r);
    FilterMember(Series(t, country, name), HasValue(), r);
  }

  // ----- string order (Python compares str by code point) -----

  /** a < b between Python strings: lexicographic by code point, a proper prefix first. */
  predicate StrLt(a: string, b: string) {
    if a == [] then b != []
    else if b == [] then false
    else a[0] < b[0] || (a[0] == b[0] && StrLt(a[1..], b[1..]))
  }

  lemma {:induction false} StrLtIrreflexive(a: string)
    ensures !StrLt(a, a)
  {
    if a != [] {
      StrLtIrreflexive(a[1..]);
    }
  }

  lemma {:induction false} StrLtAsymmetric(a: string, b: string)
    ensures StrLt(a, b) ==> !StrLt(b, a)
  {
    if a != [] && b != [] && a[0] == b[0] {
      StrLtAsymmetric(a[1..], b[1..]);
    }
  }

  lemma {:induction false} StrLtTransitive(a: string, b: string, c: string)
    ensures StrLt(a, b) && StrLt(b, c) ==> StrLt(a, c)
  {
    if a != [] && b != [] && c != [] {
      StrLtTransitive(a[1..], b[1..], c[1..]);
    }
  }

  lemma {:induction false} StrLtTotal(a: string, b: string)
    ensures a == b || StrLt(a, b) || StrLt(b, a)
  {
    if a != [] && b != [] && a[0] == b[0] {
      StrLtTotal(a[1..], b[1..]);
      if a[1..] == b[1..] {
        assert a == [a[0]] + a[1..] && b == [b[0]] + b[1..];
      }
    }
  }

  // ----- sort orders: before(x, y) means x is placed strictly before y -----

  /** sort_values('Year'). */
  predicate ByYear(x: Row, y: Row) {
    x.year < y.year
  }

  /** sort_values(['Country', 'Year']). */
  predicate ByCountryYear(x: Row, y: Row) {
    StrLt(x.country, y.country) || (x.country == y.country && x.year < y.year)
  }

  /** sort_values(['Country', 'Name', 'Year']), the order of the loaded table. */
  predicate ByCountryNameYear(x: Row, y: Row) {
    || StrLt(x.country, y.country)
    || (x.country == y.country && StrLt(x.name, y.name))
    || (x.country == y.country && x.name == y.name && x.year < y.year)
  }

  /** sort_values('value', ascending=False): larger values first, NaN last. */
  predicate ByValueDescending(x: Row, y: Row) {
    x.value.Some? && (y.value.None? || x.value.value > y.value.value)
  }

  /** sort_values('value'): smaller values first, NaN last. */
  predicate ByValueAscending(x: Row, y: Row) {
    x.value.Some? && (y.value.None? || x.value.value < y.value.value)
  }

  lemma ByYearIsOrder()
    ensures StrictWeakOrder(ByYear)
  {
  }

  lemma ByCountryYearIsOrder()
    ensures StrictWeakOrder(ByCountryYear)
  {
    forall x: Row, y: Row | ByCountryYear(x, y) ensures !ByCountryYear(y, x) {
      StrLtAsymmetric(x.country, y.country);
      StrLtIrreflexive(x.country);
    }
    forall x: Row, y: Row, z: Row | !ByCountryYear(x, y) && !ByCountryYear(y, z) ensures !ByCountryYear(x, z) {
      StrLtTotal(x.country, y.country);
      StrLtTotal(y.country, z.country);
      StrLtTransitive(z.country, y.country, x.country);
      StrLtAsymmetric(x.country, z.country);
      StrLtIrreflexive(x.country);
    }
  }

  lemma ByValueDescendingIsOrder()
    ensures StrictWeakOrder(ByValueDescending)
  {
  }

  lemma ByValueAscendingIsOrder()
    ensures StrictWeakOrder(ByValueAscending)
  {
  }

  // ----- the latest row of a series -----

  /** The row a stable Year sort puts last: a row of the greatest Year, the last such in table order. */
  function Latest(s: seq<Row>): (r: Option<Row>)
    ensures r.None? <==> s == []
  {
    if s == [] then None else Some(s[LastMaxIndex(s, ByYear)])
  }

  /**
   * tail(2).head(1) after a stable Year sort: the row before the latest one,
   * which is the latest row itself when the series has a single row.
   */
  function SecondLatest(s: seq<Row>): (r: Option<Row>)
    ensures r.None? <==> s == []
  {
    if s == [] then None
    else if |s| == 1 then Some(s[0])
    else Latest(RemoveAt(s, LastMaxIndex(s, ByYear)))
  }

  /** The latest row has the greatest Year of its series, and every row after it in table order an earlier Year. */
  lemma LatestIsNewest(s: seq<Row>)
    requires s != []
    ensures Latest(s).value in s
    ensures forall k :: 0 <= k < |s| ==> s[k].year <= Latest(s).value.year
    ensures forall k :: LastMaxIndex(s, ByYear) < k < |s| ==> s[k].year < Latest(s).value.year
  {
    ByYearIsOrder();
    LastMaxIndexIsLatest(s, ByYear);
  }

  /** With two rows or more, the second latest row is a row other than the latest, of the greatest Year among the others. */
  lemma SecondLatestIsNewestOfRest(s: seq<Row>)
    requires 2 <= |s|
    ensures var i := LastMaxIndex(s, ByYear);
      && SecondLatest(s).value in RemoveAt(s, i)
      && SecondLatest(s).value.year <= s[i].year
      && forall k :: 0 <= k < |s| && k != i ==> s[k].year <= SecondLatest(s).value.year
  {
    var i := LastMaxIndex(s, ByYear);
    var rest := RemoveAt(s, i);
    assert SecondLatest(s) == Latest(rest);
    LatestIsNewest(s);
    LatestIsNewest(rest);
    NewestOfRest(s, i, Latest(rest).value);
  }

  /** A row of greatest Year once s[i] is removed is of a Year at most s[i]'s and at least every other row's. */
  lemma NewestOfRest(s: seq<Row>, i: nat, second: Row)
    requires i < |s|
    requires forall k :: 0 <= k < |s| ==> s[k].year <= s[i].year
    requires second in RemoveAt(s, i)
    requires forall k :: 0 <= k < |RemoveAt(s, i)| ==> RemoveAt(s, i)[k].year <= second.year
    ensures second.year <= s[i].year
    ensures forall k :: 0 <= k < |s| && k != i ==> s[k].year <= second.year
  {
    var rest := RemoveAt(s, i);
    RemoveAtIndices(s, i);
    var j :| 0 <= j < |rest| && rest[j] == second;
    assert second == s[if j < i then j else j + 1];
    forall k | 0 <= k < |s| && k != i ensures s[k].year <= second.year {
      assert s[k] == rest[if k < i then k else k - 1];
    }
  }

  /** Sorts a copy of the rows by Year and reads its last row, as `.tail(1)` does after `sort_values('Year')`. */
  method LatestRow(rows: seq<Row>) returns (latest: Option<Row>)
    ensures latest == Latest(rows)
  {
    var sorted := SortedCopy(rows, ByYear);
    if |sorted| == 0 {
      return None;
    }
    LastOfSort(rows, ByYear);
    latest := Some(sorted[|sorted| - 1]);
  }

  /** Sorts a copy of the rows by Year and reads `.tail(1)` and `.tail(2).head(1)`. */
  method LastTwoRows(rows: seq<Row>) returns (last: Option<Row>, before: Option<Row>)
    ensures last == Latest(rows) && before == SecondLatest(rows)
  {
    var sorted := SortedCopy(rows, ByYear);
    var n := |sorted|;
    if n == 0 {
      return None, None;
    }
    LastOfSort(rows, ByYear);
    last := Some(sorted[n - 1]);
    if n == 1 {
      before := Some(sorted[0]);
    } else {
      var rest := RemoveAt(rows, LastMaxIndex(rows, ByYear));
      SortWithoutLast(rows, ByYear);
      LastOfSort(rest, ByYear);
      assert sorted[..n - 1][n - 2] == sorted[n - 2];
      before := Some(sorted[n - 2]);
    }
  }

  // ----- the latest reading of a series with missing values dropped -----

  /** The Year and value of a row that has a value. */
  datatype Reading = Reading(year: int, score: real)

  /** dropna(subset=["value"]), sort_values('Year'), tail(1): the latest row that has a value, if any. */
  function LatestReading(t: Table, country: string, name: string): (r: Option<Reading>)
    ensures r.None? <==> ValuedSeries(t, country, name) == []
  {
    var s := ValuedSeries(t, country, name);
    if s == [] then None
    else
      LatestHasValue(t, country, name);
      Some(Reading(Latest(s).value.year, Latest(s).value.value.value))
  }

  lemma LatestHasValue(t: Table, country: string, name: string)
    requires ValuedSeries(t, country, name) != []
    ensures Latest(ValuedSeries(t, country, name)).value.value.Some?
  {
    var s := ValuedSeries(t, country, name);
    LatestIsNewest(s);
    SeriesMembers(t, country, name, Latest(s).value);
  }

  /**
   * The latest reading is a row of the country's series with that Year and
   * value, and no row of the series that has a value is of a later Year.
   */
  lemma LatestReadingMeaning(t: Table, country: string, name: string)
    requires LatestReading(t, country, name).Some?
    ensures var r := LatestReading(t, country, name).value;
      var row := Latest(ValuedSeries(t, country, name)).value;
      && row in t && row.country == country && row.name == name
      && row.year == r.year && row.value == Some(r.score)
      && forall x :: x in t && x.country == country && x.name == name && x.value.Some? ==> x.year <= r.year
  {
    var s := ValuedSeries(t, country, name);
    var last := Latest(s).value;
    LatestIsNewest(s);
    SeriesMembers(t, country, name, last);
    forall x | x in t && x.country == country && x.name == name && x.value.Some? ensures x.year <= last.year {
      SeriesMembers(t, country, name, x);
      var k :| 0 <= k < |s| && s[k] == x;
    }
  }

  /** Drops the missing values, sorts a copy by Year in place and reads the last row. */
  method ReadLatest(t: Table, country: string, name: string) returns (reading: Option<Reading>)
    ensures reading == LatestReading(t, country, name)
  {
    var rows := ValuedSeries(t, country, name);
    var latest := LatestRow(rows);
    if latest.None? {
      return None;
    }
    LatestHasValue(t, country, name);
    reading := Some(Reading(latest.value.year, latest.value.value.value));
  }

  // ----- the loaded table's order -----

  /** Filtering keeps an order: a subsequence of sorted rows is sorted. */
  lemma {:induction false} FilterKeepsSorted<T>(s: seq<T>, p: T -> bool, before: (T, T) -> bool)
    requires SortedBy(s, before)
    ensures SortedBy(Filter(s, p), before)
  {
    if s != [] {
      var s' := s[..|s| - 1];
      var x := s[|s| - 1];
      assert SortedBy(s', before);
      FilterKeepsSorted(s', p, before);
      var f := Filter(s', p);
      if p(x) {
        forall i | 0 <= i < |f| ensures !before(x, f[i]) {
          assert f[i] in f;
          FilterMember(s', p, f[i]);
        }
      }
    }
  }

  /**
   * In the table as loaded (sorted by Country, Name, Year) each series is
   * already in Year order, so the callbacks' Year sort leaves it unchanged.
   */
  lemma SeriesOfSortedTable(t: Table, country: string, name: string)
    requires SortedBy(t, ByCountryNameYear)
    ensures SortedBy(Series(t, country, name), ByYear)
    ensures Sort(Series(t, country, name), ByYear) == Series(t, country, name)
  {
    var s := Series(t, country, name);
    FilterKeepsSorted(t, IsSeries(country, name), ByCountryNameYear);
    forall i, j | 0 <= i < j < |s| ensures !ByYear(s[j], s[i]) {
      assert s[i] in s && s[j] in s;
      SeriesMembers(t, country, name, s[i]);
      SeriesMembers(t, country, name, s[j]);
      StrLtIrreflexive(country);
      StrLtIrreflexive(name);
    }
    SortOfSorted(s, ByYear);
  }
}
