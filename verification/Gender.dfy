/**
 * The Gender dashboard (apps/gender.py): the four quick-look cells, the
 * Gender Inequality Index (GII) rating panel and the GII categories of its
 * sparkline bar chart. Every callback reads the latest value of one series
 * with missing values dropped; the GII panel has three bands that all give
 * the same empty rating and colour, and both GII cells round a missing score
 * given as a string, which raises TypeError.
 */
module Gender {
  import opened Wrappers
  import opened PyNum
  import opened Dataset
  import opened ChartData

  const Orange := "#FF8A5B"

  /** round(value, 3) of the latest GII, or the TypeError of rounding the string 'NA'. */
  function GiiQuickLook(reading: Option<Reading>): (r: Result<Text>)
    ensures r.Err? <==> reading.None?
    ensures r.Err? ==> r.error == TypeError
  {
    match reading
    case None => Err(TypeError)
    case Some(g) => Ok([Real(RoundTo(g.score, 3))])
  }

  /** str(v) + "%" of the latest value, or "NA". */
  function PercentText(reading: Option<Reading>): (r: Text)
    ensures r == Str("NA") <==> reading.None?
  {
    match reading
    case None => Str("NA")
    case Some(g) => [Real(g.score), Lit("%")]
  }

  /** str(round(v, 1)) + '%' of the latest value, or "NA". */
  function RoundedPercentText(reading: Option<Reading>): (r: Text)
    ensures r == Str("NA") <==> reading.None?
    ensures reading.Some? ==> |r| == 2 && r[0].Real? && -0.05 <= reading.value.score - r[0].x <= 0.05
  {
    match reading
    case None => Str("NA")
    case Some(g) =>
      ShiftDifference(g.score, RoundTo(g.score, 1), 1);
      [Real(RoundTo(g.score, 1)), Lit("%")]
  }

  /** update_quick_look_section_1. */
  method QuickLookSection1(t: Table, country: string) returns (cell: Result<Text>)
    ensures cell == GiiQuickLook(LatestReading(t, country, "GII"))
  {
    var reading := ReadLatest(t, country, "GII");
    cell := GiiQuickLook(reading);
  }

  /** The women's and men's cells of a quick look, each from its own series. */
  datatype PairCells = PairCells(women: Text, men: Text)

  /** update_quick_look_section_2 ("NEET") and update_update_quick_look_section_3 ("Unemp"). */
  method PairQuickLook(t: Table, country: string, female: string, male: string) returns (cells: PairCells)
    ensures cells.women == PercentText(LatestReading(t, country, female))
    ensures cells.men == PercentText(LatestReading(t, country, male))
  {
    var women := ReadLatest(t, country, female);
    var men := ReadLatest(t, country, male);
    cells := PairCells(PercentText(women), PercentText(men));
  }

  /** update_quick_look_section_4: women in STEM. */
  method QuickLookSection4(t: Table, country: string) returns (cell: Text)
    ensures cell == RoundedPercentText(LatestReading(t, country, "women.in.stem"))
  {
    var reading := ReadLatest(t, country, "women.in.stem");
    cell := RoundedPercentText(reading);
  }

  /**
   * The two cells of a pair fall back to "NA" independently: each is "NA"
   * exactly when its own series has no value.
   */
  lemma PairCellsIndependent(t: Table, country: string, female: string, male: string)
    ensures PercentText(LatestReading(t, country, female)) == Str("NA") <==> ValuedSeries(t, country, female) == []
    ensures PercentText(LatestReading(t, country, male)) == Str("NA") <==> ValuedSeries(t, country, male) == []
  {
  }

  // ----- calculate_gender_rating -----

  /** The GII panel: str(int(Year)), the rating, its colour, and round(score, 3). */
  datatype GiiPanel = GiiPanel(year: string, rating: string, colour: string, score: Text)

  /** The rating of lines 599-608: each of the three bands (> 0.6, > 0.3, else) gives "" in orange. */
  function GiiRating(score: real): (r: (string, string))
    ensures r == ("", Orange)
  {
    if score > 0.6 then ("", Orange)
    else if score > 0.3 then ("", Orange)
    else ("", Orange)
  }

  /** calculate_gender_rating: the panel, or the TypeError of round('NO DATA', 3) at line 617. */
  function GenderRating(reading: Option<Reading>): (r: Result<GiiPanel>)
    ensures r.Ok? <==> reading.Some?
    ensures r.Ok? && reading.Some? ==>
      && ParseInt(r.value.year) == reading.value.year
      && |r.value.score| == 1 && r.value.score[0].Real?
      && -0.0005 <= reading.value.score - r.value.score[0].x <= 0.0005
  {
    match reading
    case None => Err(TypeError)
    case Some(g) =>
      IntToDecimalRoundTrip(g.year);
      RoundedToThousandths(Some(g.score));
      var (rating, colour) := GiiRating(g.score);
      Ok(GiiPanel(IntToDecimal(g.year), rating, colour, [Real(RoundTo(g.score, 3))]))
  }

  method CalculateGenderRating(t: Table, country: string) returns (panel: Result<GiiPanel>)
    ensures panel == GenderRating(LatestReading(t, country, "GII"))
  {
    var reading := ReadLatest(t, country, "GII");
    panel := GenderRating(reading);
  }

  /**
   * The panel is shown exactly when the country has a GII value, always with
   * the empty rating in orange whatever the score; the "NO DATA" rating of a
   * missing score is never shown because rounding it raises TypeError.
   */
  lemma GenderRatingOutcome(reading: Option<Reading>)
    ensures GenderRating(reading).Ok? <==> reading.Some?
    ensures GenderRating(reading).Err? ==> GenderRating(reading).error == TypeError
    ensures GenderRating(reading).Ok? ==>
      GenderRating(reading).value.rating == "" && GenderRating(reading).value.colour == Orange
  {
  }

  /** Quick look 1 and the panel show the same rounded score, and fail together. */
  lemma GiiCellsAgree(t: Table, country: string)
    ensures GiiQuickLook(LatestReading(t, country, "GII")).Ok? <==> GenderRating(LatestReading(t, country, "GII")).Ok?
    ensures GiiQuickLook(LatestReading(t, country, "GII")).Ok? ==>
      GiiQuickLook(LatestReading(t, country, "GII")).value == GenderRating(LatestReading(t, country, "GII")).value.score
  {
  }

  // ----- the GII categories (lines 646-662) -----

  const GiiCategories: seq<Category> := [
    Category("", 0.0, 0.3, Orange),
    Category("", 0.3, 0.6, Orange),
    Category("", 0.6, 1.0, Orange)]

  /**
   * The GII categories share one colour and name, so their colorscale is one
   * colour from 0 to 1; unlike the freedom categories they touch, and every
   * index from 0 to 1 falls in one of them.
   */
  lemma GiiCategoriesOneColour(x: real)
    ensures Ascending(GiiCategories)
    ensures var r := Colorscale(GiiCategories, "GII");
      && r[0].0 == 0.0 && r[|r| - 1].0 == 1.0
      && (forall i, j :: 0 <= i < j < |r| ==> r[i].0 <= r[j].0)
      && forall i :: 0 <= i < |r| ==> r[i].1 == Orange
    ensures 0.0 <= x <= 1.0 ==> BandOf(GiiCategories, x).Some?
    ensures 0.0 <= x <= 1.0 ==> GiiCategories[BandOf(GiiCategories, x).value].colour == GiiRating(x).1
  {
    ColorscaleSorted(GiiCategories, "GII");
    var r := Colorscale(GiiCategories, "GII");
    forall i | 0 <= i < |r| ensures r[i].1 == Orange {
      ColorscaleStops(GiiCategories, "GII", i / 2);
    }
    ColorscaleStops(GiiCategories, "GII", 0);
    ColorscaleStops(GiiCategories, "GII", 2);
    assert GiiCategories[1..][1..] == [GiiCategories[2]];
    assert GiiCategories[1..][1..][1..] == [];
  }
}
