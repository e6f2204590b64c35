/**
 * The Connectivity dashboard (apps/connectivity.py): the country profile
 * (population, income group, sub-region and the list of the region's
 * countries) and the four quick-look cells. The profile reads the last row
 * of the country after a Year sort, except the region list, which takes the
 * Region of the country's last row in table order.
 */
module Connectivity {
  import opened Wrappers
  import opened PyNum
  import opened Frames
  import opened Dataset

  // ----- the country profile -----

  /** "{0:,.0f}".format of the last population value after a Year sort; IndexError with no row, "nan" for NaN. */
  function PopulationText(t: Table, country: string): (r: Result<Text>)
    ensures r.Err? <==> Series(t, country, "population") == []
    ensures r.Err? ==> r.error == IndexError
  {
    var s := Series(t, country, "population");
    if s == [] then Err(IndexError)
    else match Latest(s).value.value
      case None => Ok(Str("nan"))
      case Some(x) => Ok([Grouped(x)])
  }

  /** update_country_population. */
  method UpdateCountryPopulation(t: Table, country: string) returns (text: Result<Text>)
    ensures text == PopulationText(t, country)
  {
    var pop := Series(t, country, "population");
    var latest := LatestRow(pop);
    if latest.None? {
      return Err(IndexError);
    }
    text := if latest.value.value.None? then Ok(Str("nan")) else Ok([Grouped(latest.value.value.value)]);
  }

  /** All rows of the country, in table order. */
  function CountryRows(t: Table, country: string): (s: seq<Row>)
    ensures |s| <= |t|
  {
    Filter(t, IsCountry(country))
  }

  /** The Income.group of the country's last row after a Year sort (of all its indicators); IndexError with no row. */
  function IncomeGroup(t: Table, country: string): (r: Result<Option<string>>)
    ensures r.Err? <==> CountryRows(t, country) == []
  {
    match Latest(CountryRows(t, country))
    case None => Err(IndexError)
    case Some(row) => Ok(row.incomeGroup)
  }

  /** The Region of the country's last row after a Year sort; IndexError with no row. */
  function SubRegion(t: Table, country: string): (r: Result<Option<string>>)
    ensures r.Err? <==> CountryRows(t, country) == []
  {
    match Latest(CountryRows(t, country))
    case None => Err(IndexError)
    case Some(row) => Ok(row.region)
  }

  /** update_country_income_group. */
  method UpdateCountryIncomeGroup(t: Table, country: string) returns (group: Result<Option<string>>)
    ensures group == IncomeGroup(t, country)
  {
    var rows := CountryRows(t, country);
    var latest := LatestRow(rows);
    group := if latest.None? then Err(IndexError) else Ok(latest.value.incomeGroup);
  }

  /** update_country_sub_region. */
  method UpdateCountrySubRegion(t: Table, country: string) returns (region: Result<Option<string>>)
    ensures region == SubRegion(t, country)
  {
    var rows := CountryRows(t, country);
    var latest := LatestRow(rows);
    region := if latest.None? then Err(IndexError) else Ok(latest.value.region);
  }

  /** region_df['Region'].iloc[-1]: the Region of the country's last row in table order, with no sort. */
  function ProfileRegion(t: Table, country: string): (r: Result<Option<string>>)
    ensures r.Err? <==> CountryRows(t, country) == []
  {
    var rows := CountryRows(t, country);
    if rows == [] then Err(IndexError) else Ok(rows[|rows| - 1].region)
  }

  /** All rows of a country agree on a column when the metadata was merged in per country. */
  predicate SameRegionThroughout(t: Table, country: string) {
    forall i, j :: 0 <= i < |t| && 0 <= j < |t| && t[i].country == country && t[j].country == country ==>
      t[i].region == t[j].region
  }

  /**
   * The sub-region shown and the region whose countries are listed are read
   * from different rows (the latest Year against the last in table order),
   * but they are the same when the country's rows agree on their Region.
   */
  lemma SubRegionMatchesProfile(t: Table, country: string)
    requires SameRegionThroughout(t, country)
    ensures SubRegion(t, country) == ProfileRegion(t, country)
  {
    var rows := CountryRows(t, country);
    if rows != [] {
      var a := Latest(rows).value;
      var b := rows[|rows| - 1];
      LatestIsNewest(rows);
      assert b in rows;
      FilterMember(t, IsCountry(country), a);
      FilterMember(t, IsCountry(country), b);
      var i :| 0 <= i < |t| && t[i] == a;
      var j :| 0 <= j < |t| && t[j] == b;
    }
  }

  // ----- the list of the region's countries -----

  /** df.Region == region: a NaN region equals nothing. */
  function InRegion(region: Option<string>): Row -> bool {
    (r: Row) => region.Some? && r.region == region
  }

  function CountriesOf(rows: seq<Row>): (c: seq<string>)
    ensures |c| == |rows|
    ensures forall k :: 0 <= k < |rows| ==> c[k] == rows[k].country
  {
    seq(|rows|, k requires 0 <= k < |rows| => rows[k].country)
  }

  /** Series.unique(): each value once, in order of first appearance. */
  function Unique(s: seq<string>): (u: seq<string>)
    ensures |u| <= |s|
  {
    if s == [] then []
    else
      var p := s[..|s| - 1];
      Unique(p) + (if s[|s| - 1] in p then [] else [s[|s| - 1]])
  }

  /** The index where x first appears in s. */
  function FirstIndex(s: seq<string>, x: string): (i: nat)
    requires x in s
    ensures i < |s| && s[i] == x && x !in s[..i]
  {
    if s[0] == x then 0 else 1 + FirstIndex(s[1..], x)
  }

  lemma {:induction false} FirstIndexAppend(p: seq<string>, x: string, y: string)
    requires y in p
    ensures FirstIndex(p + [x], y) == FirstIndex(p, y)
  {
    if p[0] != y {
      assert (p + [x])[1..] == p[1..] + [x];
      FirstIndexAppend(p[1..], x, y);
    }
  }

  lemma FirstIndexLast(p: seq<string>, x: string)
    requires x !in p
    ensures FirstIndex(p + [x], x) == |p|
  {
  }

  /**
   * unique() keeps every value and only those, each once, in the order in
   * which the values first appear.
   */
  lemma {:induction false} UniqueMeaning(s: seq<string>)
    ensures forall x :: x in Unique(s) <==> x in s
    ensures forall i, j :: 0 <= i < j < |Unique(s)| ==> Unique(s)[i] != Unique(s)[j]
    ensures forall i, j :: 0 <= i < j < |Unique(s)| ==> FirstIndex(s, Unique(s)[i]) < FirstIndex(s, Unique(s)[j])
  {
    if s != [] {
      var p := s[..|s| - 1];
      var x := s[|s| - 1];
      assert s == p + [x];
      UniqueMeaning(p);
      var u := Unique(p);
      forall y | y in p ensures FirstIndex(s, y) == FirstIndex(p, y) {
        FirstIndexAppend(p, x, y);
      }
      if x !in p {
        FirstIndexLast(p, x);
        var v := Unique(s);
        assert v == u + [x];
        forall i, j | 0 <= i < j < |v| ensures FirstIndex(s, v[i]) < FirstIndex(s, v[j]) {
          assert v[i] == u[i] && v[i] in p;
          if j < |u| {
            assert v[j] == u[j] && v[j] in p;
          }
        }
      }
    }
  }

  /** ' {}'.format applied twice, then every comma removed. */
  function ProfileEntry(country: string): (e: string)
    ensures |e| >= 2 && e[..2] == "  "
    ensures forall k :: 0 <= k < |e| ==> e[k] != ','
  {
    "  " + RemoveCommas(country)
  }

  function RemoveCommas(s: string): (r: string)
    ensures forall k :: 0 <= k < |r| ==> r[k] != ','
    ensures |r| <= |s|
  {
    if s == [] then []
    else RemoveCommas(s[..|s| - 1]) + (if s[|s| - 1] == ',' then [] else [s[|s| - 1]])
  }

  /** A name without commas is kept as it is. */
  lemma {:induction false} RemoveCommasKeeps(s: string)
    requires forall k :: 0 <= k < |s| ==> s[k] != ','
    ensures RemoveCommas(s) == s
  {
    if s != [] {
      RemoveCommasKeeps(s[..|s| - 1]);
    }
  }

  /** The countries listed under the profile: those of the region of the country's last row. */
  function RegionCountries(t: Table, region: Option<string>): seq<string> {
    Unique(CountriesOf(Filter(t, InRegion(region))))
  }

  /** update_country_profile_section: the list entries, or IndexError when the country has no row. */
  function ProfileList(t: Table, country: string): (r: Result<seq<string>>)
    ensures r.Err? <==> CountryRows(t, country) == []
  {
    var region :- ProfileRegion(t, country);
    var names := RegionCountries(t, region);
    Ok(seq(|names|, k requires 0 <= k < |names| => ProfileEntry(names[k])))
  }

  /**
   * The list has one entry per distinct country of the region, two spaces
   * then the name without commas, in order of first appearance in the table;
   * a country whose last row has no Region lists nobody, not even itself.
   */
  lemma ProfileListMeaning(t: Table, country: string)
    requires ProfileList(t, country).Ok?
    ensures var region := ProfileRegion(t, country).value;
      var names := RegionCountries(t, region);
      var list := ProfileList(t, country).value;
      && |list| == |names|
      && (forall k :: 0 <= k < |list| ==> list[k] == "  " + RemoveCommas(names[k]))
      && (forall c :: c in names <==> exists r :: r in t && r.region.Some? && r.region == region && r.country == c)
      && (forall i, j :: 0 <= i < j < |names| ==> names[i] != names[j])
      && (region.None? ==> list == [])
  {
    var region := ProfileRegion(t, country).value;
    var rows := Filter(t, InRegion(region));
    var cs := CountriesOf(rows);
    UniqueMeaning(cs);
    forall c ensures c in cs <==> exists r :: r in t && r.region.Some? && r.region == region && r.country == c {
      if c in cs {
        var k :| 0 <= k < |cs| && cs[k] == c;
        assert rows[k] in rows;
        FilterMember(t, InRegion(region), rows[k]);
      }
      if exists r :: r in t && r.region.Some? && r.region == region && r.country == c {
        var r :| r in t && r.region.Some? && r.region == region && r.country == c;
        FilterMember(t, InRegion(region), r);
        var k :| 0 <= k < |rows| && rows[k] == r;
        assert cs[k] == c;
      }
    }
    if region.None? {
      assert rows == [] by {
        if rows != [] {
          FilterMember(t, InRegion(region), rows[0]);
        }
      }
    }
  }

  // ----- the quick looks -----

  /** str(int(round(v))) + '%' of a last row, or 'NA' without one; round(nan) raises ValueError. */
  function PercentCell(last: Option<Row>): (r: Result<string>)
    ensures r == Ok("NA") <==> last.None?
    ensures r.Err? <==> last.Some? && last.value.value.None?
  {
    match last
    case None => Ok("NA")
    case Some(row) =>
      var n :- PyRoundInt(row.value);
      var text := IntToDecimal(n) + "%";
      assert text[|text| - 1] == '%';
      Ok(text)
  }

  /** A shown percentage reads back as the value rounded to the nearest int. */
  lemma PercentCellMeaning(last: Option<Row>)
    requires PercentCell(last).Ok? && last.Some?
    ensures var text := PercentCell(last).value;
      && 1 <= |text| && text[|text| - 1] == '%'
      && -0.5 <= last.value.value.value - ParseInt(text[..|text| - 1]) as real <= 0.5
  {
    var n := RoundHalfEven(last.value.value.value);
    var text := PercentCell(last).value;
    assert text[..|text| - 1] == IntToDecimal(n);
    IntToDecimalRoundTrip(n);
  }

  /** Quick looks 2, 3 and 4 ('at.least.3G.coverage', 'hh.internet', 'mobile.broadband.cost'): the latest value, missing values included. */
  method LatestPercent(t: Table, country: string, name: string) returns (cell: Result<string>)
    ensures cell == PercentCell(Latest(Series(t, country, name)))
  {
    var rows := Series(t, country, name);
    var latest := LatestRow(rows);
    cell := PercentCell(latest);
  }

  /** The three cells of quick look 1: all users, men, women. */
  datatype InternetCells = InternetCells(total: string, male: string, female: string)

  /** The last row is there but its value is NaN. */
  predicate NaNLast(last: Option<Row>) {
    last.Some? && last.value.value.None?
  }

  /** Quick look 1, as each cell's own series' latest value; ValueError from the first NaN, total then male then female. */
  function InternetUsers(t: Table, country: string): (r: Result<InternetCells>)
    ensures r.Err? <==>
      || NaNLast(Latest(Series(t, country, "ind.internet")))
      || NaNLast(Latest(Series(t, country, "ind.internet.male")))
      || NaNLast(Latest(Series(t, country, "ind.internet.female")))
    ensures r.Err? ==> r.error == ValueError
  {
    var total :- PercentCell(Latest(Series(t, country, "ind.internet")));
    var male :- PercentCell(Latest(Series(t, country, "ind.internet.male")));
    var female :- PercentCell(Latest(Series(t, country, "ind.internet.female")));
    Ok(InternetCells(total, male, female))
  }

  /** df['Name'].isin(['ind.internet.female', 'ind.internet.male']) for the country. */
  function GenderRows(country: string): Row -> bool {
    (r: Row) => r.country == country && (r.name == "ind.internet.female" || r.name == "ind.internet.male")
  }

  function HasName(name: string): Row -> bool {
    (r: Row) => r.name == name
  }

  /** fdf.loc[fdf['Name'] == name, 'value'].iloc[-1] on the Year-sorted fdf, when the name occurs in it. */
  function LastOfName(sorted: seq<Row>, name: string): Option<Row> {
    var rows := Filter(sorted, HasName(name));
    if rows == [] then None else Some(rows[|rows| - 1])
  }

  /**
   * Reading one sex's last row from the two series sorted together by Year is
   * reading the latest row of that sex's own series: the stable sort keeps
   * each series' rows in the order a sort of that series alone gives.
   */
  lemma GenderLastIsLatest(t: Table, country: string, name: string)
    requires name == "ind.internet.female" || name == "ind.internet.male"
    ensures LastOfName(Sort(Filter(t, GenderRows(country)), ByYear), name) == Latest(Series(t, country, name))
  {
    var fdf := Filter(t, GenderRows(country));
    var s := Series(t, country, name);
    assert Filter(fdf, HasName(name)) == s by {
      FilterThenFilter(t, GenderRows(country), HasName(name), IsSeries(country, name));
    }
    assert Filter(Sort(fdf, ByYear), HasName(name)) == Sort(s, ByYear) by {
      ByYearIsOrder();
      FilterSort(fdf, HasName(name), ByYear);
    }
    if s != [] {
      LastOfSort(s, ByYear);
    }
  }

  /** update_quick_look_section_1, step by step: the total's series, then both sexes sorted together. */
  method InternetUsersQuickLook(t: Table, country: string) returns (cells: Result<InternetCells>)
    ensures cells == InternetUsers(t, country)
  {
    var indInternet := Series(t, country, "ind.internet");
    var latest := LatestRow(indInternet);
    var total := PercentCell(latest);
    if total.Err? {
      return Err(total.error);
    }
    var fdf := Filter(t, GenderRows(country));
    fdf := SortedCopy(fdf, ByYear);
    GenderLastIsLatest(t, country, "ind.internet.male");
    var male := PercentCell(LastOfName(fdf, "ind.internet.male"));
    if male.Err? {
      return Err(male.error);
    }
    GenderLastIsLatest(t, country, "ind.internet.female");
    var female := PercentCell(LastOfName(fdf, "ind.internet.female"));
    if female.Err? {
      return Err(female.error);
    }
    cells := Ok(InternetCells(total.value, male.value, female.value));
  }

  /** The men's and women's cells fall back to "NA" independently, each when its own series is empty. */
  lemma InternetCellsIndependent(t: Table, country: string)
    requires InternetUsers(t, country).Ok?
    ensures InternetUsers(t, country).value.male == "NA" <==> Series(t, country, "ind.internet.male") == []
    ensures InternetUsers(t, country).value.female == "NA" <==> Series(t, country, "ind.internet.female") == []
    ensures InternetUsers(t, country).value.total == "NA" <==> Series(t, country, "ind.internet") == []
  {
  }
}
