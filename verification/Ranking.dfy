/**
 * getCountryRank (utils.py): a country's rank within its region for one
 * indicator. The region's rows are sorted by (Country, Year), each country's
 * last row is kept, those rows are sorted by value (largest first when
 * `ascending` is true, smallest first otherwise, NaN last), and the country's
 * position is shown as "k of n".
 */
module Ranking {
  import opened Wrappers
  import opened PyNum
  import opened Frames
  import opened Dataset

  /** The rows of the region's series, in table order. */
  function RegionSeries(t: Table, region: Option<string>, name: string): (s: seq<Row>)
    ensures |s| <= |t|
  {
    Filter(t, InRegionSeries(region, name))
  }

  function OtherCountry(c: string): Row -> bool {
    (r: Row) => r.country != c
  }

  /** groupby('Country').tail(1): each country's last row, in the rows' order. */
  function LastPerCountry(s: seq<Row>): (r: seq<Row>)
    ensures |r| <= |s|
  {
    if s == [] then []
    else
      var x := s[|s| - 1];
      Filter(LastPerCountry(s[..|s| - 1]), OtherCountry(x.country)) + [x]
  }

  /** No two rows of s belong to the same country. */
  ghost predicate DistinctCountries(s: seq<Row>) {
    forall i, j :: 0 <= i < j < |s| ==> s[i].country != s[j].country
  }

  ghost function Countries(s: seq<Row>): set<string> {
    set r | r in s :: r.country
  }

  /** The order of line 618 (ascending=True) or line 620 (ascending=False). */
  function RankOrder(ascending: bool): (Row, Row) -> bool {
    if ascending then ByValueDescending else ByValueAscending
  }

  /** The ranked rows: each country's latest row, in rank order. */
  function Ranked(t: Table, region: Option<string>, name: string, ascending: bool): seq<Row> {
    Sort(LastPerCountry(Sort(RegionSeries(t, region, name), ByCountryYear)), RankOrder(ascending))
  }

  /** rnk.loc[rnk['Country'] == country, 'ranks'].tolist(): the first position of the country, if any. */
  function PositionOf(s: seq<Row>, country: string): (p: Option<nat>)
    ensures p.Some? ==> p.value < |s| && s[p.value].country == country
    ensures p.Some? ==> forall k :: 0 <= k < p.value ==> s[k].country != country
    ensures p.None? ==> forall k :: 0 <= k < |s| ==> s[k].country != country
  {
    if s == [] then None
    else if s[0].country == country then Some(0)
    else match PositionOf(s[1..], country)
      case None => None
      case Some(k) => Some(k + 1)
  }

  /** The text "k of n". */
  function RankText(k: int, n: int): string {
    IntToDecimal(k) + " of " + IntToDecimal(n)
  }

  /** The rank text of the country's first position in the ranked rows, or the IndexError of `.tolist()[0]` when it has none. */
  function RankAt(ranked: seq<Row>, country: string): Result<string> {
    match PositionOf(ranked, country)
    case None => Err(IndexError)
    case Some(k) => Ok(RankText(k + 1, |ranked|))
  }

  /** getCountryRank: "k of n", or IndexError when the country has no row in the region's series. */
  function CountryRank(t: Table, country: string, region: Option<string>, name: string, ascending: bool): (r: Result<string>)
    ensures r.Err? ==> r.error == IndexError
    ensures r.Ok? <==> exists k :: 0 <= k < |Ranked(t, region, name, ascending)| && Ranked(t, region, name, ascending)[k].country == country
  {
    RankAt(Ranked(t, region, name, ascending), country)
  }

  /** getCountryRank, step by step: each `sort_values(..., inplace=True)` sorts a copy in place. */
  method GetCountryRank(t: Table, country: string, region: Option<string>, name: string, ascending: bool)
    returns (rank: Result<string>)
    ensures rank == CountryRank(t, country, region, name, ascending)
  {
    var series := RegionSeries(t, region, name);
    var byCountry := SortedCopy(series, ByCountryYear);
    var tails := LastPerCountry(byCountry);
    var rnk := SortedCopy(tails, RankOrder(ascending));
    rank := RankOfRows(rnk, country);
    RankOfSteps(t, country, region, name, ascending, rnk);
  }

  /** `.tolist()[0]` on the ranks of the country's rows, shown as "k of n". */
  method RankOfRows(ranked: seq<Row>, country: string) returns (rank: Result<string>)
    ensures rank.Ok? <==> exists k :: 0 <= k < |ranked| && ranked[k].country == country
    ensures rank.Err? ==> rank.error == IndexError
    ensures rank == RankAt(ranked, country)
  {
    var position := PositionOf(ranked, country);
    if position.None? {
      rank := Err(IndexError);
    } else {
      rank := Ok(RankText(position.value + 1, |ranked|));
    }
  }

  /** The rank read off the rows the three steps of getCountryRank produce is the country's rank. */
  lemma RankOfSteps(t: Table, country: string, region: Option<string>, name: string, ascending: bool, ranked: seq<Row>)
    requires ranked == Sort(LastPerCountry(Sort(RegionSeries(t, region, name), ByCountryYear)), RankOrder(ascending))
    ensures CountryRank(t, country, region, name, ascending) == RankAt(ranked, country)
  {
  }

  // ----- what groupby('Country').tail(1) keeps -----

  /** The group tail keeps only rows of its input. */
  lemma {:induction false} LastPerCountrySubset(s: seq<Row>, r: Row)
    ensures r in LastPerCountry(s) ==> r in s
  {
    if s != [] {
      var s' := s[..|s| - 1];
      var x := s[|s| - 1];
      LastPerCountrySubset(s', r);
      FilterMember(LastPerCountry(s'), OtherCountry(x.country), r);
      assert s == s' + [x];
    }
  }

  /** The group tail keeps a row of every country of its input. */
  lemma {:induction false} LastPerCountryHasCountry(s: seq<Row>, y: Row)
    ensures y in s ==> exists z :: z in LastPerCountry(s) && z.country == y.country
  {
    if s != [] && y in s {
      var s' := s[..|s| - 1];
      var x := s[|s| - 1];
      var kept := LastPerCountry(s');
      assert s == s' + [x];
      assert x in LastPerCountry(s);
      if y.country != x.country {
        assert y in s';
        LastPerCountryHasCountry(s', y);
        var z :| z in kept && z.country == y.country;
        FilterMember(kept, OtherCountry(x.country), z);
        assert z in LastPerCountry(s);
      }
    }
  }

  lemma LastPerCountryMembers(s: seq<Row>, r: Row)
    ensures r in LastPerCountry(s) ==> r in s
    ensures r.country in Countries(LastPerCountry(s)) <==> r.country in Countries(s)
  {
    LastPerCountrySubset(s, r);
    if r.country in Countries(s) {
      var y :| y in s && y.country == r.country;
      LastPerCountryHasCountry(s, y);
    }
    if r.country in Countries(LastPerCountry(s)) {
      var z :| z in LastPerCountry(s) && z.country == r.country;
      LastPerCountrySubset(s, z);
    }
  }

  lemma {:induction false} LastPerCountryDistinct(s: seq<Row>)
    ensures DistinctCountries(LastPerCountry(s))
  {
    if s != [] {
      var s' := s[..|s| - 1];
      var x := s[|s| - 1];
      var kept := LastPerCountry(s');
      LastPerCountryDistinct(s');
      var f := Filter(kept, OtherCountry(x.country));
      FilterKeepsDistinct(kept, OtherCountry(x.country));
      var r := f + [x];
      forall i, j | 0 <= i < j < |r| ensures r[i].country != r[j].country {
        if j == |r| - 1 {
          assert r[i] in f;
          FilterMember(kept, OtherCountry(x.country), r[i]);
        } else {
          assert r[i] == f[i] && r[j] == f[j];
        }
      }
    }
  }

  lemma {:induction false} FilterKeepsDistinct(s: seq<Row>, p: Row -> bool)
    requires DistinctCountries(s)
    ensures DistinctCountries(Filter(s, p))
  {
    if s != [] {
      var s' := s[..|s| - 1];
      var x := s[|s| - 1];
      FilterKeepsDistinct(s', p);
      var f := Filter(s', p);
      if p(x) {
        var r := f + [x];
        forall i, j | 0 <= i < j < |r| ensures r[i].country != r[j].country {
          if j == |r| - 1 {
            assert r[i] in f;
            FilterMember(s', p, r[i]);
            var k :| 0 <= k < |s'| && s'[k] == r[i];
            assert s[k] == s'[k];
          } else {
            assert r[i] == f[i] && r[j] == f[j];
          }
        }
      }
    }
  }

  /**
   * When the rows are sorted by (Country, Year), the row kept for a country
   * has the greatest Year among that country's rows.
   */
  lemma {:induction false} LastPerCountryIsLatest(s: seq<Row>, r: Row, y: Row)
    requires SortedBy(s, ByCountryYear)
    requires r in LastPerCountry(s) && y in s && y.country == r.country
    ensures y.year <= r.year
  {
    var s' := s[..|s| - 1];
    var x := s[|s| - 1];
    var kept := LastPerCountry(s');
    assert SortedBy(s', ByCountryYear);
    FilterMember(kept, OtherCountry(x.country), r);
    if r == x {
      if y != x {
        var k :| 0 <= k < |s| && s[k] == y;
        if k < |s| - 1 {
          assert !ByCountryYear(s[|s| - 1], s[k]);
        }
      }
    } else {
      assert r in kept && r.country != x.country;
      assert y in s';
      LastPerCountryIsLatest(s', r, y);
    }
  }

  /** A sequence of rows of distinct countries has as many rows as countries. */
  lemma {:induction false} DistinctCountriesCount(s: seq<Row>)
    requires DistinctCountries(s)
    ensures |Countries(s)| == |s|
  {
    if s != [] {
      var s' := s[..|s| - 1];
      var x := s[|s| - 1];
      assert DistinctCountries(s');
      DistinctCountriesCount(s');
      assert s == s' + [x];
      assert Countries(s) == Countries(s') + {x.country};
    }
  }

  lemma SortKeepsCountries(s: seq<Row>, before: (Row, Row) -> bool)
    ensures Countries(Sort(s, before)) == Countries(s)
    ensures forall r :: r in Sort(s, before) <==> r in s
  {
    SortIsPermutation(s, before);
    assert forall r :: r in Sort(s, before) <==> r in multiset(Sort(s, before));
  }

  lemma SortKeepsDistinct(s: seq<Row>, before: (Row, Row) -> bool)
    requires DistinctCountries(s)
    ensures DistinctCountries(Sort(s, before))
  {
    DistinctCountriesCount(s);
    SortKeepsCountries(s, before);
    FullCountIsDistinct(Sort(s, before));
  }

  /** Rows with as many countries as rows belong to distinct countries. */
  lemma FullCountIsDistinct(r: seq<Row>)
    requires |Countries(r)| == |r|
    ensures DistinctCountries(r)
  {
    if !DistinctCountries(r) {
      var i, j :| 0 <= i < j < |r| && r[i].country == r[j].country;
      var rest := r[..j] + r[j + 1..];
      forall c | c in Countries(r) ensures c in Countries(rest) {
        var y :| y in r && y.country == c;
        var k :| 0 <= k < |r| && r[k] == y;
        if k < j {
          assert rest[k] == y;
        } else if k > j {
          assert rest[k - 1] == y;
        } else {
          assert rest[i] == r[i];
        }
      }
      CountriesAtMostLength(rest);
      assert Countries(r) <= Countries(rest);
      SubsetCardinality(Countries(r), Countries(rest));
      assert false;
    }
  }

  lemma SubsetCardinality(a: set<string>, b: set<string>)
    requires a <= b
    ensures |a| <= |b|
  {
    assert b == a + (b - a);
  }

  lemma {:induction false} CountriesAtMostLength(s: seq<Row>)
    ensures |Countries(s)| <= |s|
  {
    if s != [] {
      var s' := s[..|s| - 1];
      CountriesAtMostLength(s');
      assert s == s' + [s[|s| - 1]];
      assert Countries(s) == Countries(s') + {s[|s| - 1].country};
    }
  }

  // ----- what the rank means -----

  /** The rank is found exactly when the country has a row in the region's series; otherwise IndexError. */
  lemma RankFound(t: Table, country: string, region: Option<string>, name: string, ascending: bool)
    ensures CountryRank(t, country, region, name, ascending).Ok?
        <==> exists r :: r in RegionSeries(t, region, name) && r.country == country
    ensures CountryRank(t, country, region, name, ascending).Err? ==>
        CountryRank(t, country, region, name, ascending).error == IndexError
  {
    var s := RegionSeries(t, region, name);
    var sorted := Sort(s, ByCountryYear);
    var kept := LastPerCountry(sorted);
    var ranked := Ranked(t, region, name, ascending);
    SortKeepsCountries(s, ByCountryYear);
    SortKeepsCountries(kept, RankOrder(ascending));
    if exists r :: r in s && r.country == country {
      var r :| r in s && r.country == country;
      assert r.country in Countries(sorted);
      LastPerCountryMembers(sorted, r);
      var z :| z in kept && z.country == country;
      assert z in ranked;
      var k :| 0 <= k < |ranked| && ranked[k] == z;
    }
    if PositionOf(ranked, country).Some? {
      var z := ranked[PositionOf(ranked, country).value];
      assert z in kept;
      LastPerCountryMembers(sorted, z);
      assert z.country in Countries(sorted);
      var r :| r in sorted && r.country == country;
      assert r in s;
    }
  }

  /** There is one ranked row per country of the region's series. */
  lemma RankedCount(t: Table, region: Option<string>, name: string, ascending: bool)
    ensures DistinctCountries(Ranked(t, region, name, ascending))
    ensures |Ranked(t, region, name, ascending)| == |Countries(RegionSeries(t, region, name))|
  {
    var s := RegionSeries(t, region, name);
    var sorted := Sort(s, ByCountryYear);
    var kept := LastPerCountry(sorted);
    var ranked := Sort(kept, RankOrder(ascending));
    assert ranked == Ranked(t, region, name, ascending);
    LastPerCountryKeepsCountries(sorted);
    assert Countries(sorted) == Countries(s) by {
      SortKeepsCountries(s, ByCountryYear);
    }
    assert Countries(ranked) == Countries(kept) by {
      SortKeepsCountries(kept, RankOrder(ascending));
    }
    LastPerCountryDistinct(sorted);
    SortKeepsDistinct(kept, RankOrder(ascending));
    DistinctCountriesCount(ranked);
  }

  lemma LastPerCountryKeepsCountries(s: seq<Row>)
    ensures Countries(LastPerCountry(s)) == Countries(s)
  {
    var kept := LastPerCountry(s);
    forall c | c in Countries(s) ensures c in Countries(kept) {
      var r :| r in s && r.country == c;
      LastPerCountryMembers(s, r);
    }
    forall c | c in Countries(kept) ensures c in Countries(s) {
      var r :| r in kept && r.country == c;
      LastPerCountryMembers(s, r);
    }
  }

  /**
   * The ranked rows: one per country of the region's series (so n is the number
   * of those countries), each that country's row of the greatest Year, in rank
   * order (largest value first when ascending, smallest first otherwise, NaN last).
   */
  lemma RankedRows(t: Table, region: Option<string>, name: string, ascending: bool)
    ensures var ranked := Ranked(t, region, name, ascending);
      && DistinctCountries(ranked)
      && |ranked| == |Countries(RegionSeries(t, region, name))|
      && SortedBy(ranked, RankOrder(ascending))
      && (forall r, y :: r in ranked && y in RegionSeries(t, region, name) && y.country == r.country ==>
            r in RegionSeries(t, region, name) && y.year <= r.year)
  {
    var s := RegionSeries(t, region, name);
    var sorted := Sort(s, ByCountryYear);
    var kept := LastPerCountry(sorted);
    var ranked := Ranked(t, region, name, ascending);
    ByCountryYearIsOrder();
    ByValueDescendingIsOrder();
    ByValueAscendingIsOrder();
    SortIsSorted(s, ByCountryYear);
    SortIsSorted(kept, RankOrder(ascending));
    SortKeepsCountries(s, ByCountryYear);
    SortKeepsCountries(kept, RankOrder(ascending));
    LastPerCountryDistinct(sorted);
    SortKeepsDistinct(kept, RankOrder(ascending));
    DistinctCountriesCount(ranked);
    forall c | true ensures c in Countries(ranked) <==> c in Countries(s) {
      if c in Countries(sorted) {
        var r :| r in sorted && r.country == c;
        LastPerCountryMembers(sorted, r);
      }
      if c in Countries(kept) {
        var r :| r in kept && r.country == c;
        LastPerCountryMembers(sorted, r);
      }
    }
    assert Countries(ranked) == Countries(s);
    forall r, y | r in ranked && y in s && y.country == r.country ensures r in s && y.year <= r.year {
      assert r in kept;
      LastPerCountryMembers(sorted, r);
      LastPerCountryIsLatest(sorted, r, y);
    }
  }

  /**
   * The shown rank is "k of n" where n is the number of countries in the
   * region's series and k - 1 < n is the country's position in the ranked rows.
   */
  lemma RankBounds(t: Table, country: string, region: Option<string>, name: string, ascending: bool)
    requires CountryRank(t, country, region, name, ascending).Ok?
    ensures PositionOf(Ranked(t, region, name, ascending), country).Some?
    ensures var k := PositionOf(Ranked(t, region, name, ascending), country).value + 1;
      var n := |Countries(RegionSeries(t, region, name))|;
      && 1 <= k <= n
      && CountryRank(t, country, region, name, ascending).value == RankText(k, n)
  {
    var ranked := Ranked(t, region, name, ascending);
    RankedCount(t, region, name, ascending);
    assert CountryRank(t, country, region, name, ascending) == RankAt(ranked, country);
  }
}
