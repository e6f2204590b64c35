/**
 * weightedAverage (utils.py): the population-weighted average of an indicator
 * over the countries of a region, per year. The region's indicator rows are
 * left-joined to the region's population rows on (Country, Year), the
 * population column is filled within each country, and for every year the
 * sum of value x population is divided by the sum of population.
 */
module RegionalAverage {
  import opened Wrappers
  import opened Frames
  import opened Dataset

  /** A row of the merged frame: the indicator row's keys and value (value_x) and the joined population (value_y). */
  datatype Merged = Merged(country: string, year: int, value: Option<real>, population: Option<real>)

  /** One row of the result: a year and its weighted average (None for NaN). */
  datatype YearAverage = YearAverage(year: int, average: Option<real>)

  function SameCountryYear(country: string, year: int): Row -> bool {
    (r: Row) => r.country == country && r.year == year
  }

  /** The merged rows one indicator row gives: one per matching population row, or one with NaN population. */
  function JoinRow(x: Row, population: seq<Row>): (m: seq<Merged>)
    ensures 1 <= |m|
    ensures forall k :: 0 <= k < |m| ==> m[k].country == x.country && m[k].year == x.year && m[k].value == x.value
  {
    var matches := Filter(population, SameCountryYear(x.country, x.year));
    if matches == [] then [Merged(x.country, x.year, x.value, None)]
    else seq(|matches|, k requires 0 <= k < |matches| => Merged(x.country, x.year, x.value, matches[k].value))
  }

  /** merge(..., on=['Country', 'Year'], how='left'): the left rows in order, each expanded by its matches. */
  function LeftJoin(rows: seq<Row>, population: seq<Row>): (m: seq<Merged>)
    ensures |rows| <= |m|
  {
    if rows == [] then []
    else LeftJoin(rows[..|rows| - 1], population) + JoinRow(rows[|rows| - 1], population)
  }

  /** The first population value among the rows of this country, if any. */
  function NextPopulation(rows: seq<Merged>, country: string): Option<real> {
    if rows == [] then None
    else if rows[0].country == country && rows[0].population.Some? then rows[0].population
    else NextPopulation(rows[1..], country)
  }

  /** The last population value among the rows of this country, if any. */
  function PreviousPopulation(rows: seq<Merged>, country: string): Option<real> {
    if rows == [] then None
    else if rows[|rows| - 1].country == country && rows[|rows| - 1].population.Some? then rows[|rows| - 1].population
    else PreviousPopulation(rows[..|rows| - 1], country)
  }

  /** groupby('Country')['value_y'].bfill(): a missing population takes the next one of the same country. */
  function BackFill(rows: seq<Merged>): (p: seq<Option<real>>)
    ensures |p| == |rows|
  {
    seq(|rows|, k requires 0 <= k < |rows| =>
      if rows[k].population.Some? then rows[k].population else NextPopulation(rows[k + 1..], rows[k].country))
  }

  /** groupby('Country')['value_y'].ffill(): a missing population takes the previous one of the same country. */
  function ForwardFill(rows: seq<Merged>): (p: seq<Option<real>>)
    ensures |p| == |rows|
  {
    seq(|rows|, k requires 0 <= k < |rows| =>
      if rows[k].population.Some? then rows[k].population else PreviousPopulation(rows[..k], rows[k].country))
  }

  /** value_x * population; NaN when either is NaN. */
  function Product(value: Option<real>, population: Option<real>): (w: Option<real>)
    ensures w.Some? <==> value.Some? && population.Some?
  {
    if value.Some? && population.Some? then Some(value.value * population.value) else None
  }

  function Products(rows: seq<Merged>, population: seq<Option<real>>): (w: seq<Option<real>>)
    requires |population| == |rows|
    ensures |w| == |rows|
    ensures forall k :: 0 <= k < |rows| ==> w[k] == Product(rows[k].value, population[k])
  {
    seq(|rows|, k requires 0 <= k < |rows| => Product(rows[k].value, population[k]))
  }

  /** The groupby('Year') sum of a column: the sum over the year's rows, NaN entries skipped (an all-NaN year sums to 0). */
  function YearSum(rows: seq<Merged>, column: seq<Option<real>>, year: int): real
    requires |column| == |rows|
  {
    if rows == [] then 0.0
    else
      var n := |rows| - 1;
      YearSum(rows[..n], column[..n], year) + (if rows[n].year == year && column[n].Some? then column[n].value else 0.0)
  }

  /** w_value / population; a zero population sum gives NaN or an infinity, both shown as None. */
  function Ratio(weighted: real, population: real): (r: Option<real>)
    ensures r.Some? <==> population != 0.0
  {
    if population == 0.0 then None else Some(weighted / population)
  }

  function IntLt(a: int, b: int): bool {
    a < b
  }

  /** Drops repeated neighbours from a sorted list. */
  function Dedup(s: seq<int>): (r: seq<int>)
    ensures |r| <= |s|
    ensures forall y :: y in r <==> y in s
  {
    if |s| <= 1 then s
    else if s[0] == s[1] then Dedup(s[1..])
    else [s[0]] + Dedup(s[1..])
  }

  /** Dedup of a sorted list is strictly increasing. */
  lemma {:induction false} DedupIncreasing(s: seq<int>)
    requires SortedBy(s, IntLt)
    ensures forall i, j :: 0 <= i < j < |Dedup(s)| ==> Dedup(s)[i] < Dedup(s)[j]
  {
    if |s| > 1 {
      assert SortedBy(s[1..], IntLt);
      DedupIncreasing(s[1..]);
      if s[0] != s[1] {
        var r := Dedup(s[1..]);
        forall j | 0 <= j < |r| ensures s[0] < r[j] {
          assert r[j] in s[1..];
          var k :| 0 <= k < |s[1..]| && s[1..][k] == r[j];
          assert !IntLt(s[k + 1], s[0]);
          assert !IntLt(s[1], s[0]);
        }
      }
    }
  }

  function YearsOf(rows: seq<Merged>): (ys: seq<int>)
    ensures |ys| == |rows|
    ensures forall k :: 0 <= k < |rows| ==> ys[k] == rows[k].year
  {
    seq(|rows|, k requires 0 <= k < |rows| => rows[k].year)
  }

  /** The groupby('Year') keys: the distinct years, ascending. */
  function DistinctYears(rows: seq<Merged>): seq<int> {
    Dedup(Sort(YearsOf(rows), IntLt))
  }

  /** The indicator rows of the region joined to the region's population rows (lines 633-637). */
  function MergedRows(t: Table, region: Option<string>, name: string): seq<Merged> {
    LeftJoin(Filter(t, InRegionSeries(region, name)), Filter(t, InRegionSeries(region, "population")))
  }

  /** Population after line 640 (back-filled) and value x population (line 643). */
  function Weights(merged: seq<Merged>): (w: seq<Option<real>>)
    ensures |w| == |merged|
  {
    Products(merged, BackFill(merged))
  }

  /** groupby('Year') sums of both columns, merged on Year, and their ratio (lines 645-646). */
  function YearAverages(merged: seq<Merged>, weighted: seq<Option<real>>, population: seq<Option<real>>, years: seq<int>): (r: seq<YearAverage>)
    requires |weighted| == |merged| && |population| == |merged|
    ensures |r| == |years|
  {
    seq(|years|, i requires 0 <= i < |years| =>
      YearAverage(years[i], Ratio(YearSum(merged, weighted, years[i]), YearSum(merged, population, years[i]))))
  }

  /** weightedAverage: the rows of the result, step by step as the frame's columns are written. */
  method WeightedAverage(t: Table, region: Option<string>, name: string) returns (result: seq<YearAverage>)
    ensures forall i, j :: 0 <= i < j < |result| ==> result[i].year < result[j].year
    ensures forall i :: 0 <= i < |result| ==>
      exists r :: r in Filter(t, InRegionSeries(region, name)) && r.year == result[i].year
    ensures forall r :: r in Filter(t, InRegionSeries(region, name)) ==>
      exists i :: 0 <= i < |result| && result[i].year == r.year
    ensures forall i :: 0 <= i < |result| ==>
      result[i].average == Ratio(YearSum(MergedRows(t, region, name), Weights(MergedRows(t, region, name)), result[i].year),
                                 YearSum(MergedRows(t, region, name), BackFill(MergedRows(t, region, name)), result[i].year))
  {
    var rgl := Filter(t, InRegionSeries(region, name));
    var merged := LeftJoin(rgl, Filter(t, InRegionSeries(region, "population")));
    var population := ForwardFill(merged);
    population := BackFill(merged);
    var weighted := Products(merged, population);
    result := YearAverages(merged, weighted, population, DistinctYears(merged));
    WeightedAverageMeaning(t, region, name, result);
  }

  lemma WeightedAverageMeaning(t: Table, region: Option<string>, name: string, result: seq<YearAverage>)
    requires var merged := MergedRows(t, region, name);
      result == YearAverages(merged, Weights(merged), BackFill(merged), DistinctYears(merged))
    ensures forall i, j :: 0 <= i < j < |result| ==> result[i].year < result[j].year
    ensures forall i :: 0 <= i < |result| ==>
      exists r :: r in Filter(t, InRegionSeries(region, name)) && r.year == result[i].year
    ensures forall r :: r in Filter(t, InRegionSeries(region, name)) ==>
      exists i :: 0 <= i < |result| && result[i].year == r.year
    ensures forall i :: 0 <= i < |result| ==>
      result[i].average == Ratio(YearSum(MergedRows(t, region, name), Weights(MergedRows(t, region, name)), result[i].year),
                                 YearSum(MergedRows(t, region, name), BackFill(MergedRows(t, region, name)), result[i].year))
  {
    var merged := MergedRows(t, region, name);
    YearAveragesMeaning(merged, Weights(merged), BackFill(merged), DistinctYears(merged));
    ResultYears(Filter(t, InRegionSeries(region, name)), Filter(t, InRegionSeries(region, "population")), result);
  }

  lemma YearAveragesMeaning(merged: seq<Merged>, weighted: seq<Option<real>>, population: seq<Option<real>>, years: seq<int>)
    requires |weighted| == |merged| && |population| == |merged|
    ensures var r := YearAverages(merged, weighted, population, years);
      forall i :: 0 <= i < |r| ==> r[i].year == years[i] && r[i].average == Ratio(YearSum(merged, weighted, years[i]), YearSum(merged, population, years[i]))
  {
  }

  lemma ResultYears(rgl: seq<Row>, population: seq<Row>, result: seq<YearAverage>)
    requires |result| == |DistinctYears(LeftJoin(rgl, population))|
    requires forall i :: 0 <= i < |result| ==> result[i].year == DistinctYears(LeftJoin(rgl, population))[i]
    ensures forall i, j :: 0 <= i < j < |result| ==> result[i].year < result[j].year
    ensures forall i :: 0 <= i < |result| ==> exists r :: r in rgl && r.year == result[i].year
    ensures forall r :: r in rgl ==> exists i :: 0 <= i < |result| && result[i].year == r.year
  {
    var merged := LeftJoin(rgl, population);
    var years := DistinctYears(merged);
    DistinctYearsMeaning(merged);
    forall i | 0 <= i < |result| ensures exists r :: r in rgl && r.year == result[i].year {
      assert years[i] in years;
      LeftJoinYears(rgl, population, years[i]);
    }
    forall r | r in rgl ensures exists i :: 0 <= i < |result| && result[i].year == r.year {
      LeftJoinYears(rgl, population, r.year);
      assert r.year in years;
      var i :| 0 <= i < |years| && years[i] == r.year;
      assert result[i].year == r.year;
    }
  }

  // ----- properties -----

  lemma DistinctYearsMeaning(rows: seq<Merged>)
    ensures forall i, j :: 0 <= i < j < |DistinctYears(rows)| ==> DistinctYears(rows)[i] < DistinctYears(rows)[j]
    ensures forall y :: y in DistinctYears(rows) <==> exists k :: 0 <= k < |rows| && rows[k].year == y
  {
    var ys := YearsOf(rows);
    SortIsSorted(ys, IntLt);
    SortIsPermutation(ys, IntLt);
    DedupIncreasing(Sort(ys, IntLt));
    forall y ensures y in Sort(ys, IntLt) <==> y in ys {
      assert y in Sort(ys, IntLt) <==> y in multiset(Sort(ys, IntLt));
    }
    forall y | y in ys ensures exists k :: 0 <= k < |rows| && rows[k].year == y {
      var k :| 0 <= k < |ys| && ys[k] == y;
    }
    forall y, k | 0 <= k < |rows| && rows[k].year == y ensures y in ys {
      assert ys[k] == y;
    }
  }

  /** Some merged row is of year y. */
  ghost predicate MergedHasYear(m: seq<Merged>, y: int) {
    exists k :: 0 <= k < |m| && m[k].year == y
  }

  /** Some indicator row is of year y. */
  ghost predicate RowsHaveYear(rows: seq<Row>, y: int) {
    exists r :: r in rows && r.year == y
  }

  lemma MergedYearsConcat(a: seq<Merged>, b: seq<Merged>, y: int)
    ensures MergedHasYear(a + b, y) <==> MergedHasYear(a, y) || MergedHasYear(b, y)
  {
    if MergedHasYear(a + b, y) {
      var k :| 0 <= k < |a + b| && (a + b)[k].year == y;
      if k >= |a| {
        assert b[k - |a|].year == y;
      }
    }
    if MergedHasYear(b, y) {
      var k :| 0 <= k < |b| && b[k].year == y;
      assert (a + b)[|a| + k].year == y;
    }
    if MergedHasYear(a, y) {
      var k :| 0 <= k < |a| && a[k].year == y;
      assert (a + b)[k].year == y;
    }
  }

  lemma JoinRowYears(x: Row, population: seq<Row>, y: int)
    ensures MergedHasYear(JoinRow(x, population), y) <==> x.year == y
  {
    assert JoinRow(x, population)[0].year == x.year;
  }

  lemma RowsYearsSnoc(rows: seq<Row>, x: Row, y: int)
    ensures RowsHaveYear(rows + [x], y) <==> RowsHaveYear(rows, y) || x.year == y
  {
    if RowsHaveYear(rows + [x], y) {
      var r :| r in rows + [x] && r.year == y;
    }
    if RowsHaveYear(rows, y) {
      var r :| r in rows && r.year == y;
      assert r in rows + [x];
    }
    assert x in rows + [x];
  }

  /** The merged frame has a row of year y exactly when the indicator rows do. */
  lemma {:induction false} LeftJoinYears(rows: seq<Row>, population: seq<Row>, y: int)
    ensures (exists k :: 0 <= k < |LeftJoin(rows, population)| && LeftJoin(rows, population)[k].year == y)
        <==> (exists r :: r in rows && r.year == y)
  {
    if rows == [] {
      assert !RowsHaveYear(rows, y);
    } else {
      var rows' := rows[..|rows| - 1];
      var x := rows[|rows| - 1];
      assert rows == rows' + [x];
      LeftJoinYears(rows', population, y);
      assert MergedHasYear(LeftJoin(rows', population), y) <==> RowsHaveYear(rows', y);
      MergedYearsConcat(LeftJoin(rows', population), JoinRow(x, population), y);
      JoinRowYears(x, population, y);
      RowsYearsSnoc(rows', x, y);
      assert MergedHasYear(LeftJoin(rows, population), y) <==> RowsHaveYear(rows, y);
    }
  }

  /**
   * A year whose rows all carry the same value v and a population, with a
   * non-zero population sum, averages to v.
   */
  lemma {:induction false} ConstantValueAverage(rows: seq<Merged>, population: seq<Option<real>>, year: int, v: real)
    requires |population| == |rows|
    requires forall k :: 0 <= k < |rows| && rows[k].year == year ==> rows[k].value == Some(v) && population[k].Some?
    ensures YearSum(rows, Products(rows, population), year) == v * YearSum(rows, population, year)
  {
    if rows != [] {
      var n := |rows| - 1;
      assert Products(rows, population)[..n] == Products(rows[..n], population[..n]);
      ConstantValueAverage(rows[..n], population[..n], year, v);
    }
  }

  /** The worked example: countries of population 100 and 300 with values 50 and 10 in one year average to 20. */
  lemma TwoCountryExample()
    ensures var rows := [Merged("A", 2018, Some(50.0), Some(100.0)), Merged("B", 2018, Some(10.0), Some(300.0))];
      var population := BackFill(rows);
      Ratio(YearSum(rows, Products(rows, population), 2018), YearSum(rows, population, 2018)) == Some(20.0)
  {
    var rows := [Merged("A", 2018, Some(50.0), Some(100.0)), Merged("B", 2018, Some(10.0), Some(300.0))];
    var population := BackFill(rows);
    assert population == [Some(100.0), Some(300.0)];
    var w := Products(rows, population);
    assert w == [Some(5000.0), Some(3000.0)];
    assert rows[..1] == [rows[0]] && w[..1] == [w[0]] && population[..1] == [population[0]];
    assert YearSum(rows[..1], w[..1], 2018) == 5000.0;
    assert YearSum(rows[..1], population[..1], 2018) == 100.0;
    assert YearSum(rows, w, 2018) == 8000.0;
    assert YearSum(rows, population, 2018) == 400.0;
  }

  /**
   * The forward fill of line 639 is overwritten by line 640: a country's
   * missing population after a known one stays missing, so the row is left out
   * of both sums although its value is known.
   */
  lemma ForwardFillOverwritten()
    ensures var rows := [Merged("A", 2017, Some(40.0), Some(100.0)), Merged("A", 2018, Some(60.0), None)];
      && ForwardFill(rows)[1] == Some(100.0)
      && BackFill(rows)[1] == None
      && Ratio(YearSum(rows, Products(rows, BackFill(rows)), 2018), YearSum(rows, BackFill(rows), 2018)) == None
  {
    var rows := [Merged("A", 2017, Some(40.0), Some(100.0)), Merged("A", 2018, Some(60.0), None)];
    assert rows[..1] == [rows[0]];
    assert rows[2..] == [];
    var population := BackFill(rows);
    assert population == [Some(100.0), None];
    var w := Products(rows, population);
    assert w[..1] == [w[0]] && population[..1] == [population[0]];
    assert YearSum(rows[..1], population[..1], 2018) == 0.0;
    assert YearSum(rows, population, 2018) == 0.0;
  }

  /**
   * A row with a population but no value still counts in the population sum:
   * one country of value 10 and one with a missing value, both of population 1,
   * average to 5.
   */
  lemma MissingValueDilutes()
    ensures var rows := [Merged("A", 2018, Some(10.0), Some(1.0)), Merged("B", 2018, None, Some(1.0))];
      Ratio(YearSum(rows, Products(rows, BackFill(rows)), 2018), YearSum(rows, BackFill(rows), 2018)) == Some(5.0)
  {
    var rows := [Merged("A", 2018, Some(10.0), Some(1.0)), Merged("B", 2018, None, Some(1.0))];
    var population := BackFill(rows);
    assert population == [Some(1.0), Some(1.0)];
    var w := Products(rows, population);
    assert w == [Some(10.0), None];
    assert rows[..1] == [rows[0]] && w[..1] == [w[0]] && population[..1] == [population[0]];
    assert YearSum(rows[..1], w[..1], 2018) == 10.0;
    assert YearSum(rows[..1], population[..1], 2018) == 1.0;
    assert YearSum(rows, w, 2018) == 10.0;
    assert YearSum(rows, population, 2018) == 2.0;
  }
}
