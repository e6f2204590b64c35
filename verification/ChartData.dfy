/**
 * The data the utils.py charts are drawn from: a country's series with its
 * 2006-2016 placeholder, the colour and year range of the sparkline bar, the
 * colorscale built from a list of rating categories, the three tiers of the
 * Freedom in the World aggregate score, and the split of the mobile broadband
 * cost pie. The figures themselves are not modelled.
 */
module ChartData {
  import opened Wrappers
  import opened PyNum
  import opened Frames
  import opened Dataset

  const FitWAggregate := "FitW.total.aggregate.score"

  // ----- getCountryData -----

  /** (df['Country'] == country) & (df['Name'] == name) & (df['Year'] >= 2006). */
  function SinceSeries(country: string, name: string): Row -> bool {
    (r: Row) => r.country == country && r.name == name && r.year >= 2006
  }

  /** The frame built on an empty selection: Years 2006..2016, value NaN, the requested Country and Name, other columns NaN. */
  function Placeholder(country: string, name: string): (p: seq<Row>)
    ensures |p| == 11
  {
    seq(11, k => Row(country, None, None, None, name, 2006 + k, None))
  }

  /** getCountryData: the selected rows, or the placeholder when there are none. */
  function CountryData(t: Table, country: string, name: string): (r: seq<Row>)
    ensures r != []
  {
    var rows := Filter(t, SinceSeries(country, name));
    if rows == [] then Placeholder(country, name) else rows
  }

  /**
   * When the country has a row of the indicator from 2006 on, the result is
   * the table's rows of that kind in table order and no other row; otherwise it
   * is the eleven placeholder rows, one per Year 2006..2016, all missing.
   */
  lemma CountryDataRows(t: Table, country: string, name: string)
    ensures (exists k :: 0 <= k < |t| && t[k].country == country && t[k].name == name && t[k].year >= 2006) ==>
      && CountryData(t, country, name) == Filter(t, SinceSeries(country, name))
      && forall r :: r in CountryData(t, country, name)
           <==> r in t && r.country == country && r.name == name && r.year >= 2006
    ensures (forall k :: 0 <= k < |t| ==> !(t[k].country == country && t[k].name == name && t[k].year >= 2006)) ==>
      var p := CountryData(t, country, name);
      && |p| == 11
      && forall k :: 0 <= k < 11 ==> p[k].year == 2006 + k && p[k].value.None? && p[k].country == country && p[k].name == name
  {
    var rows := Filter(t, SinceSeries(country, name));
    forall r ensures r in rows <==> r in t && SinceSeries(country, name)(r) {
      FilterMember(t, SinceSeries(country, name), r);
    }
    if exists k :: 0 <= k < |t| && t[k].country == country && t[k].name == name && t[k].year >= 2006 {
      var k :| 0 <= k < |t| && t[k].country == country && t[k].name == name && t[k].year >= 2006;
      assert t[k] in rows;
    }
  }

  // ----- generate_sparklines_slider_bar_chart -----

  /** The bar colour for the latest non-missing value (lines 129-152); black when there is none. */
  function SparklineColour(indicator: string, latest: Option<real>): (r: string)
    ensures r in {"#10C80A", "#FFC300", "#9370DB", "#FF8A5B", "#000000"}
    ensures r == "#FF8A5B" <==> indicator == "GII" && latest.Some?
  {
    if latest.Some? && indicator == FitWAggregate then
      (if latest.value >= 70.0 then "#10C80A" else if latest.value >= 30.0 then "#FFC300" else "#9370DB")
    else if latest.Some? && indicator == "FotN" then
      (if latest.value >= 70.0 then "#10C80A" else if latest.value >= 40.0 then "#FFC300" else "#9370DB")
    else if latest.Some? && indicator == "GII" then
      (if latest.value >= 0.7 then "#FF8A5B" else if latest.value >= 0.3 then "#FF8A5B" else "#FF8A5B")
    else "#000000"
  }

  /** [year, year + 0.5] around the latest Year, or [2018, 2018.5] when there is no row. */
  function YearRange(latest: Option<Row>): (real, real) {
    match latest
    case None => (2018.0, 2018.5)
    case Some(r) => (r.year as real, r.year as real + 0.5)
  }

  /** The sparkline's value, year range and colour, from the latest row with a value after a Year sort. */
  method SparklineBar(t: Table, country: string, indicator: string)
    returns (value: Option<real>, yearRange: (real, real), colour: string)
    ensures var s := ValuedSeries(t, country, indicator);
      && (value.Some? <==> s != [])
      && (s != [] ==> value == Latest(s).value.value)
      && yearRange == YearRange(Latest(s))
      && colour == SparklineColour(indicator, value)
  {
    var rows := ValuedSeries(t, country, indicator);
    var latest := LatestRow(rows);
    if latest.None? {
      value := None;
    } else {
      LatestIsNewest(rows);
      SeriesMembers(t, country, indicator, latest.value);
      value := latest.value.value;
    }
    yearRange := YearRange(latest);
    colour := SparklineColour(indicator, value);
  }

  /**
   * The bar is coloured exactly when there is a value and the indicator is one
   * of the three rated ones; a GII bar is always the same orange, whatever the
   * value, and the FitW and FotN colours step up from purple through yellow to
   * green as the value rises.
   */
  lemma SparklineColourMeaning(indicator: string, latest: Option<real>, other: Option<real>)
    ensures SparklineColour(indicator, latest) != "#000000"
        <==> latest.Some? && (indicator == FitWAggregate || indicator == "FotN" || indicator == "GII")
    ensures indicator == "GII" && latest.Some? && other.Some? ==>
        SparklineColour(indicator, latest) == SparklineColour(indicator, other) == "#FF8A5B"
    ensures (indicator == FitWAggregate || indicator == "FotN") && latest.Some? && other.Some? && latest.value <= other.value ==>
        ColourStep(SparklineColour(indicator, latest)) <= ColourStep(SparklineColour(indicator, other))
  {
  }

  /** 0 for purple, 1 for yellow, 2 for green, as the freedom ratings rise. */
  function ColourStep(colour: string): nat {
    if colour == "#10C80A" then 2 else if colour == "#FFC300" then 1 else 0
  }

  // ----- the colorscale of generate_sparklines_bar_chart -----

  /** A rating category: {"name": ..., "range": [low, high], "color": ...}. */
  datatype Category = Category(name: string, low: real, high: real, colour: string)

  /** Ranges are fractions for GII and percentages otherwise. */
  function ScaleDivisor(indicator: string): (d: real)
    ensures d > 0.0
  {
    if indicator == "GII" then 1.0 else 100.0
  }

  /** Two colorscale stops per category, its low and its high end, both in its colour. */
  function Colorscale(categories: seq<Category>, indicator: string): (r: seq<(real, string)>)
    ensures |r| == 2 * |categories|
  {
    if categories == [] then []
    else
      var c := categories[|categories| - 1];
      var d := ScaleDivisor(indicator);
      Colorscale(categories[..|categories| - 1], indicator) + [(c.low / d, c.colour), (c.high / d, c.colour)]
  }

  /** cmin and cmax: categories[0]["range"][0] and categories[-1]["range"][1], IndexError with no category. */
  function ColorbarLimits(categories: seq<Category>): (r: Result<(real, real)>)
    ensures r.Err? <==> categories == []
  {
    if categories == [] then Err(IndexError)
    else Ok((categories[0].low, categories[|categories| - 1].high))
  }

  /** The colorscale loop of lines 373-383, appending two stops per category. */
  method BuildColorscale(categories: seq<Category>, indicator: string)
    returns (colorscale: seq<(real, string)>, limits: Result<(real, real)>)
    ensures colorscale == Colorscale(categories, indicator)
    ensures limits == ColorbarLimits(categories)
  {
    colorscale := [];
    var d := if indicator == "GII" then 1.0 else 100.0;
    for i := 0 to |categories|
      invariant colorscale == Colorscale(categories[..i], indicator)
    {
      var c := categories[i];
      assert categories[..i + 1][..i] == categories[..i];
      colorscale := colorscale + [(c.low / d, c.colour)];
      colorscale := colorscale + [(c.high / d, c.colour)];
    }
    assert categories[..|categories|] == categories;
    if |categories| == 0 {
      limits := Err(IndexError);
    } else {
      limits := Ok((categories[0].low, categories[|categories| - 1].high));
    }
  }

  /** Category k gives stops 2k and 2k + 1, at its ends scaled to [0, 1], in its colour. */
  lemma {:induction false} ColorscaleStops(categories: seq<Category>, indicator: string, k: nat)
    requires k < |categories|
    ensures var r := Colorscale(categories, indicator);
      var d := ScaleDivisor(indicator);
      && r[2 * k] == (categories[k].low / d, categories[k].colour)
      && r[2 * k + 1] == (categories[k].high / d, categories[k].colour)
  {
    if k < |categories| - 1 {
      ColorscaleStops(categories[..|categories| - 1], indicator, k);
    }
  }

  /** The first category whose closed range holds v, if any. */
  function BandOf(categories: seq<Category>, v: real): (k: Option<nat>)
    ensures k.Some? ==> k.value < |categories| && categories[k.value].low <= v <= categories[k.value].high
    ensures k.None? ==> forall j :: 0 <= j < |categories| ==> !(categories[j].low <= v <= categories[j].high)
  {
    if categories == [] then None
    else if categories[0].low <= v <= categories[0].high then Some(0)
    else match BandOf(categories[1..], v)
      case None => None
      case Some(j) => Some(j + 1)
  }

  /** Each category's range is non-empty and starts no lower than the previous one ends. */
  predicate Ascending(categories: seq<Category>) {
    && (forall k :: 0 <= k < |categories| ==> categories[k].low <= categories[k].high)
    && (forall k :: 0 < k < |categories| ==> categories[k - 1].high <= categories[k].low)
  }

  /** No stop of a colorscale lies before the one to its left. */
  predicate StopsAscending(r: seq<(real, string)>) {
    forall i, j :: 0 <= i < j < |r| ==> r[i].0 <= r[j].0
  }

  /** Dividing by the scale divisor keeps the order of two values. */
  lemma ScaledMonotone(a: real, b: real, indicator: string)
    requires a <= b
    ensures a / ScaleDivisor(indicator) <= b / ScaleDivisor(indicator)
  {
    if indicator != "GII" {
      assert a / 100.0 <= b / 100.0;
    }
  }

  /** Ascending categories give a colorscale whose stop positions never decrease, as a colorscale must. */
  lemma {:induction false} ColorscaleSorted(categories: seq<Category>, indicator: string)
    requires Ascending(categories)
    ensures StopsAscending(Colorscale(categories, indicator))
  {
    if categories != [] {
      var n := |categories|;
      var prefix := categories[..n - 1];
      var d := ScaleDivisor(indicator);
      assert Ascending(prefix);
      ColorscaleSorted(prefix, indicator);
      var p := Colorscale(prefix, indicator);
      var r := Colorscale(categories, indicator);
      var c := categories[n - 1];
      assert r == p + [(c.low / d, c.colour), (c.high / d, c.colour)];
      ScaledMonotone(c.low, c.high, indicator);
      forall i | 0 <= i < |p| ensures p[i].0 <= c.low / d {
        var k := i / 2;
        ColorscaleStops(prefix, indicator, k);
        assert prefix[k].low <= prefix[k].high <= c.low by {
          if k < n - 2 {
            AscendingEnds(categories, k, n - 2);
          }
        }
        ScaledMonotone(prefix[k].low, c.low, indicator);
        ScaledMonotone(prefix[k].high, c.low, indicator);
      }
      forall i, j | 0 <= i < j < |r| ensures r[i].0 <= r[j].0 {
        if j < |p| {
          assert r[i] == p[i] && r[j] == p[j];
          assert p[i].0 <= p[j].0;
        } else if i < |p| {
          assert r[i] == p[i] && p[i].0 <= c.low / d;
          assert r[j].0 == c.low / d || r[j].0 == c.high / d;
        } else {
          assert i == |p| && j == |p| + 1;
          assert r[i].0 == c.low / d && r[j].0 == c.high / d;
        }
      }
    }
  }

  /** In ascending categories a category ends no later than any later one starts. */
  lemma {:induction false} AscendingEnds(categories: seq<Category>, i: nat, j: nat)
    requires Ascending(categories)
    requires i <= j < |categories|
    ensures categories[i].high <= categories[j].high
  {
    if i < j {
      AscendingEnds(categories, i, j - 1);
    }
  }

  // ----- the aggregate score tiers (np.select at lines 1085-1087) -----

  /** np.select: the choice of the first condition that holds, or None for the default 'blue'. */
  function Tier(v: real): (k: Option<nat>)
    ensures k == Some(0) <==> v < 33.33
    ensures k == Some(1) <==> 33.33 <= v < 66.66
    ensures k == Some(2) <==> v >= 66.66
  {
    if v < 33.33 then Some(0)
    else if v >= 33.33 && v < 66.66 then Some(1)
    else if v >= 66.66 then Some(2)
    else None
  }

  /** The tier of every row of the country's aggregate score that has a value, in table order. */
  function Tiers(t: Table, country: string): (r: seq<Option<nat>>)
    ensures |r| == |ValuedSeries(t, country, FitWAggregate)|
  {
    var s := ValuedSeries(t, country, FitWAggregate);
    seq(|s|, i requires 0 <= i < |s| => ValuedTier(t, country, s[i]))
  }

  /** The tier of a row that survived dropna, whose value is therefore present. */
  function ValuedTier(t: Table, country: string, r: Row): Option<nat>
    requires r in ValuedSeries(t, country, FitWAggregate)
  {
    FilterMember(Series(t, country, FitWAggregate), HasValue(), r);
    Tier(r.value.value)
  }

  /**
   * The three conditions cover every value and exclude each other, so the
   * default 'blue' is never chosen; a higher score never has a lower tier.
   */
  lemma TierTotal(v: real, w: real)
    ensures Tier(v).Some? && Tier(v).value <= 2
    ensures (if v < 33.33 then 1 else 0) + (if 33.33 <= v < 66.66 then 1 else 0) + (if v >= 66.66 then 1 else 0) == 1
    ensures v <= w ==> Tier(v).value <= Tier(w).value
  {
  }

  /** Every row of the country's aggregate score gets a tier. */
  lemma TiersDefined(t: Table, country: string)
    ensures forall i :: 0 <= i < |Tiers(t, country)| ==> Tiers(t, country)[i].Some?
  {
    var s := ValuedSeries(t, country, FitWAggregate);
    forall i | 0 <= i < |s| ensures Tiers(t, country)[i].Some? {
      FilterMember(Series(t, country, FitWAggregate), HasValue(), s[i]);
      TierTotal(s[i].value.value, s[i].value.value);
    }
  }

  // ----- generate_mobile_broadband_cost_pie_chart (lines 855-856) -----

  /** The two slices of the cost pie: the cost rounded to 2 places, and what remains of 100. */
  datatype CostSplit = CostSplit(cost: Option<real>, remaining: real)

  /** None for 'NA' when the country has no cost row; a NaN cost is not below 100, so 0 remains. */
  function MobileCost(t: Table, country: string): (r: Option<CostSplit>)
    ensures r.None? <==> Series(t, country, "mobile.broadband.cost") == []
    ensures r.Some? ==>
      var v := Latest(Series(t, country, "mobile.broadband.cost")).value.value;
      && (r.value.cost.Some? <==> v.Some?)
      && (v.Some? ==> -0.005 <= v.value - r.value.cost.value <= 0.005)
  {
    var s := Series(t, country, "mobile.broadband.cost");
    if s == [] then None
    else
      var cost := PyRoundTo(Latest(s).value.value, 2);
      RoundedToHundredths(Latest(s).value.value);
      Some(CostSplit(cost, if cost.Some? && cost.value < 100.0 then 100.0 - cost.value else 0.0))
  }

  /** The cost pie's data: the last cost after a Year sort, missing values included. */
  method MobileBroadbandCost(t: Table, country: string) returns (split: Option<CostSplit>)
    ensures split == MobileCost(t, country)
  {
    var rows := Series(t, country, "mobile.broadband.cost");
    var latest := LatestRow(rows);
    if latest.None? {
      return None;
    }
    var cost := PyRoundTo(latest.value.value, 2);
    var gni := if cost.Some? && cost.value < 100.0 then 100.0 - cost.value else 0.0;
    split := Some(CostSplit(cost, gni));
  }

  /** Below 100 the two slices make up 100, the remainder positive; from 100 on, or for a NaN cost, nothing remains. */
  lemma CostComplement(t: Table, country: string)
    requires MobileCost(t, country).Some?
    ensures var split := MobileCost(t, country).value;
      && split.remaining >= 0.0
      && (split.cost.Some? && split.cost.value < 100.0 ==> split.cost.value + split.remaining == 100.0 && split.remaining > 0.0)
      && (split.cost.None? || split.cost.value >= 100.0 ==> split.remaining == 0.0)
      && (split.cost.None? <==> Latest(Series(t, country, "mobile.broadband.cost")).value.value.None?)
  {
  }
}
