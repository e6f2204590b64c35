/**
 * The Freedom dashboard (apps/freedom.py): the four quick-look cells, the
 * Freedom in the World and Freedom on the Net rating panels, and the rating
 * categories of the two sparkline bar charts. Each callback reads the latest
 * score of one series and classifies it with its own if/elif ladder; the
 * ladders do not all use the same cut-offs, and the lemmas below say where
 * they part.
 */
module Freedom {
  import opened Wrappers
  import opened PyNum
  import opened Frames
  import opened Dataset
  import opened Ranking
  import opened IndicatorTables
  import opened ChartData

  const Green := "#10C80A"
  const Yellow := "#FFC300"
  const Purple := "#9370DB"
  const Black := "#000000"

  /** A rating text and the colour it is shown in. */
  datatype Rating = Rating(text: string, colour: string)

  /** The three ratings every ladder chooses from, each in its own colour. */
  const Ladder: set<Rating> := {Rating("Free", Green), Rating("Partly Free", Yellow), Rating("Not Free", Purple)}

  /** calculate_freedom_rating: > 70 "Free", > 30 "Partly Free", else "Not Free". */
  function FreedomRating(score: real): (r: Rating)
    ensures r in Ladder
    ensures r.text == "Free" <==> score > 70.0
    ensures r.text == "Not Free" <==> score <= 30.0
  {
    if score > 70.0 then Rating("Free", Green)
    else if score > 30.0 then Rating("Partly Free", Yellow)
    else Rating("Not Free", Purple)
  }

  /** Quick look 1 on the truncated score: > 60 "Free", > 30 "Partly Free", else "Not Free". */
  function QuickLookRating(score: int): (r: Rating)
    ensures r in Ladder
    ensures r.text == "Free" <==> score > 60
    ensures r.text == "Not Free" <==> score <= 30
  {
    if score > 60 then Rating("Free", Green)
    else if score > 30 then Rating("Partly Free", Yellow)
    else Rating("Not Free", Purple)
  }

  /** Freedom on the Net, in calculate_freedom_on_the_net_rating and quick look 4: > 70 "Free", > 40 "Partly Free", else "Not Free". */
  function NetRating(score: real): (r: Rating)
    ensures r in Ladder
    ensures r.text == "Free" <==> score > 70.0
    ensures r.text == "Not Free" <==> score <= 40.0
  {
    if score > 70.0 then Rating("Free", Green)
    else if score > 40.0 then Rating("Partly Free", Yellow)
    else Rating("Not Free", Purple)
  }

  // ----- the quick looks -----

  /** A quick-look cell: the score text, and the rating with its colour. */
  datatype QuickLook = QuickLook(score: Text, rating: Rating)

  /** Quick look 1: "n/100" with the quick-look rating of int(score), or "NA" with "NO DATA". */
  function FreedomQuickLook(reading: Option<Reading>): (q: QuickLook)
    ensures q.rating.colour == Black <==> reading.None?
    ensures reading.None? ==> q.score == Str("NA") && q.rating.text == "NO DATA"
    ensures reading.Some? ==>
      && q.rating == QuickLookRating(Trunc(reading.value.score))
      && |q.score| == 1 && q.score[0].Lit?
      && ReadOutOf(q.score[0].s, 100) == Some(Trunc(reading.value.score))
  {
    match reading
    case None => QuickLook(Str("NA"), Rating("NO DATA", Black))
    case Some(r) =>
      OutOfHundredRoundTrip(Trunc(r.score));
      QuickLook(Str(IntToDecimal(Trunc(r.score)) + "/100"), QuickLookRating(Trunc(r.score)))
  }

  /** Quick look 4: "n/100" with the net rating of int(score), or "NA" with rating "NA". */
  function NetQuickLook(reading: Option<Reading>): (q: QuickLook)
    ensures q.rating.colour == Black <==> reading.None?
    ensures reading.None? ==> q.score == Str("NA") && q.rating.text == "NA"
    ensures reading.Some? ==>
      && q.rating == NetRating(Trunc(reading.value.score) as real)
      && |q.score| == 1 && q.score[0].Lit?
      && ReadOutOf(q.score[0].s, 100) == Some(Trunc(reading.value.score))
  {
    match reading
    case None => QuickLook(Str("NA"), Rating("NA", Black))
    case Some(r) =>
      OutOfHundredRoundTrip(Trunc(r.score));
      QuickLook(Str(IntToDecimal(Trunc(r.score)) + "/100"), NetRating(Trunc(r.score) as real))
  }

  /** update_quick_look_section_1: the latest aggregate score with a value. */
  method QuickLookSection1(t: Table, country: string) returns (cell: QuickLook)
    ensures cell == FreedomQuickLook(LatestReading(t, country, FitWAggregate))
  {
    var reading := ReadLatest(t, country, FitWAggregate);
    cell := FreedomQuickLook(reading);
  }

  /** update_quick_look_section_4: the latest Freedom on the Net score with a value. */
  method QuickLookSection4(t: Table, country: string) returns (cell: QuickLook)
    ensures cell == NetQuickLook(LatestReading(t, country, "FotN"))
  {
    var reading := ReadLatest(t, country, "FotN");
    cell := NetQuickLook(reading);
  }

  /**
   * Quick looks 2 and 3: "int(latest)/max", or "NA" with no rows; the change
   * they compute and never show still raises IndexError on a single row.
   */
  function ScoreQuickLook(t: Table, country: string, indicator: string, maxValue: int): (r: Result<string>)
    ensures r == Ok("NA") <==> Series(t, country, indicator) == []
    ensures |Series(t, country, indicator)| == 1 ==> r.Err?
    ensures Series(t, country, indicator) != [] && Latest(Series(t, country, indicator)).value.value.None? ==>
      r == Err(ValueError)
    ensures Series(t, country, indicator) != [] && r.Ok? ==>
      ReadOutOf(r.value, maxValue) == Some(Trunc(Latest(Series(t, country, indicator)).value.value.value))
  {
    var s := Series(t, country, indicator);
    if s == [] then Ok("NA")
    else
      var value :- PyInt(Latest(s).value.value);
      var rgn :- FirstRegion(t, country);
      var change :- YearChange(s);
      OutOfRoundTrip(value, maxValue);
      Ok(IntToDecimal(value) + "/" + IntToDecimal(maxValue))
  }

  /** update_quick_look_section_2 (max 40) and update_quick_look_section_3 (max 60), step by step. */
  method ScoreQuickLookOf(t: Table, country: string, indicator: string, maxValue: int) returns (cell: Result<string>)
    ensures cell == ScoreQuickLook(t, country, indicator, maxValue)
  {
    var prr := Series(t, country, indicator);
    var last, before := LastTwoRows(prr);
    if last.None? {
      return Ok("NA");
    }
    var value := PyInt(last.value.value);
    if value.Err? {
      return Err(value.error);
    }
    var rgn := FirstRegion(t, country);
    if rgn.Err? {
      return Err(rgn.error);
    }
    var change := YearChange(prr);
    if change.Err? {
      return Err(change.error);
    }
    cell := Ok(IntToDecimal(value.value) + "/" + IntToDecimal(maxValue));
  }

  /**
   * The quick look and the rating table of the same indicator show the same
   * "value/max" whenever the table is shown for a country with rows (the
   * table may still raise on the rank when the quick look does not); with no
   * rows the quick look says "NA" where the table says "NO DATA/max", and a
   * single row raises in both.
   */
  lemma ScoreQuickLookMatchesTable(t: Table, country: string, indicator: string, maxValue: int)
    ensures Series(t, country, indicator) == [] ==>
      ScoreQuickLook(t, country, indicator, maxValue) == Ok("NA")
      && FreedomInTheWorldTable(t, country, indicator, maxValue).value.value == Str("NO DATA/" + IntToDecimal(maxValue))
    ensures |Series(t, country, indicator)| == 1 ==>
      ScoreQuickLook(t, country, indicator, maxValue).Err? && FreedomInTheWorldTable(t, country, indicator, maxValue).Err?
    ensures Series(t, country, indicator) != [] && FreedomInTheWorldTable(t, country, indicator, maxValue).Ok? ==>
      ScoreQuickLook(t, country, indicator, maxValue).Ok?
      && FreedomInTheWorldTable(t, country, indicator, maxValue).value.value == Str(ScoreQuickLook(t, country, indicator, maxValue).value)
  {
  }

  // ----- the two rating panels -----

  /** A rating panel: the Year text, the rating with its colour, and the score as shown. */
  datatype RatingPanel = RatingPanel(year: string, rating: Rating, score: Text)

  /** str(int(Year)), the rating and the float score; "NA", "NO DATA" in black and "NO DATA" when there is no score. */
  function Panel(reading: Option<Reading>, ladder: real -> Rating): (p: RatingPanel)
    ensures p.score == Str("NO DATA") <==> reading.None?
    ensures reading.None? ==> p.year == "NA" && p.rating == Rating("NO DATA", Black)
    ensures reading.Some? ==>
      && ParseInt(p.year) == reading.value.year
      && p.rating == ladder(reading.value.score)
      && p.score == [Real(reading.value.score)]
  {
    match reading
    case None => RatingPanel("NA", Rating("NO DATA", Black), Str("NO DATA"))
    case Some(r) =>
      IntToDecimalRoundTrip(r.year);
      RatingPanel(IntToDecimal(r.year), ladder(r.score), [Real(r.score)])
  }

  /** calculate_freedom_rating. */
  method CalculateFreedomRating(t: Table, country: string) returns (panel: RatingPanel)
    ensures panel == Panel(LatestReading(t, country, FitWAggregate), FreedomRating)
  {
    var reading := ReadLatest(t, country, FitWAggregate);
    panel := Panel(reading, FreedomRating);
  }

  /** calculate_freedom_on_the_net_rating. */
  method CalculateNetRating(t: Table, country: string) returns (panel: RatingPanel)
    ensures panel == Panel(LatestReading(t, country, "FotN"), NetRating)
  {
    var reading := ReadLatest(t, country, "FotN");
    panel := Panel(reading, NetRating);
  }

  /** A missing score is never compared: the panel is black "NO DATA", and it is black only then. */
  lemma NoScoreNoRating(reading: Option<Reading>, ladder: real -> Rating)
    requires forall x :: ladder(x).colour != Black
    ensures Panel(reading, ladder).rating.colour == Black <==> reading.None?
    ensures reading.None? ==> Panel(reading, ladder).rating.text == "NO DATA" && Panel(reading, ladder).year == "NA"
  {
  }

  /** Each ladder never rates a higher score lower. */
  lemma RatingsMonotone(a: real, b: real)
    requires a <= b
    ensures FreedomLevel(FreedomRating(a).text) <= FreedomLevel(FreedomRating(b).text)
    ensures FreedomLevel(NetRating(a).text) <= FreedomLevel(NetRating(b).text)
    ensures FreedomLevel(QuickLookRating(Trunc(a)).text) <= FreedomLevel(QuickLookRating(Trunc(b)).text)
  {
  }

  /**
   * Quick look 1 and the rating panel read the same score and disagree
   * exactly on scores from 61 to 70, which the quick look calls "Free", and on
   * scores strictly between 30 and 31, which truncate to 30 ("Not Free").
   */
  lemma FreedomQuickLookDisagrees(score: real)
    requires 0.0 <= score
    ensures QuickLookRating(Trunc(score)) != FreedomRating(score)
        <==> (61.0 <= score <= 70.0) || (30.0 < score < 31.0)
  {
  }

  /**
   * Quick look 4 compares int(score) with the panel's cut-offs: the two agree
   * on whole scores and part only strictly between 70 and 71 or 40 and 41.
   */
  lemma NetQuickLookDisagrees(score: real)
    requires 0.0 <= score
    ensures NetRating(Trunc(score) as real) != NetRating(score)
        <==> (70.0 < score < 71.0) || (40.0 < score < 41.0)
  {
  }

  /** Both callbacks of each pair read the same latest reading, so a missing series shows no rating in either. */
  lemma PanelAndQuickLookShareScore(t: Table, country: string)
    ensures (FreedomQuickLook(LatestReading(t, country, FitWAggregate)).rating.text == "NO DATA")
        <==> Panel(LatestReading(t, country, FitWAggregate), FreedomRating).rating.text == "NO DATA"
    ensures (NetQuickLook(LatestReading(t, country, "FotN")).rating.text == "NA")
        <==> Panel(LatestReading(t, country, "FotN"), NetRating).rating.text == "NO DATA"
  {
  }

  // ----- the rating categories of the sparkline bar charts -----

  /** The Freedom in the World categories (lines 583-599). */
  const FreedomCategories: seq<Category> := [
    Category("Not Free", 0.0, 30.0, Purple),
    Category("Partly Free", 31.0, 70.0, Yellow),
    Category("Free", 71.0, 100.0, Green)]

  /** The Freedom on the Net categories (lines 728-744). */
  const NetCategories: seq<Category> := [
    Category("Not Free", 0.0, 40.0, Purple),
    Category("Partly Free", 41.0, 70.0, Yellow),
    Category("Free", 71.0, 100.0, Green)]

  /**
   * Both category lists are ascending from 0 to 100, so their colorscales
   * have non-decreasing stops from 0 to 1.
   */
  lemma CategoriesAscending()
    ensures Ascending(FreedomCategories) && Ascending(NetCategories)
    ensures var r := Colorscale(FreedomCategories, FitWAggregate);
      && r[0].0 == 0.0 && r[|r| - 1].0 == 1.0
      && forall i, j :: 0 <= i < j < |r| ==> r[i].0 <= r[j].0
    ensures var r := Colorscale(NetCategories, "FotN");
      && r[0].0 == 0.0 && r[|r| - 1].0 == 1.0
      && forall i, j :: 0 <= i < j < |r| ==> r[i].0 <= r[j].0
  {
    ColorscaleSorted(FreedomCategories, FitWAggregate);
    ColorscaleSorted(NetCategories, "FotN");
    ColorscaleStops(FreedomCategories, FitWAggregate, 0);
    ColorscaleStops(FreedomCategories, FitWAggregate, 2);
    ColorscaleStops(NetCategories, "FotN", 0);
    ColorscaleStops(NetCategories, "FotN", 2);
  }

  /**
   * Every whole score from 0 to 100 falls in a category, whose name and colour
   * are those the rating panel gives it; a score strictly between 30 and 31
   * (or 40 and 41 for the net) falls in none.
   */
  lemma CategoriesMatchPanels(n: int, x: real)
    requires 0 <= n <= 100
    ensures BandOf(FreedomCategories, n as real).Some?
    ensures var c := FreedomCategories[BandOf(FreedomCategories, n as real).value];
      Rating(c.name, c.colour) == FreedomRating(n as real)
    ensures BandOf(NetCategories, n as real).Some?
    ensures var c := NetCategories[BandOf(NetCategories, n as real).value];
      Rating(c.name, c.colour) == NetRating(n as real)
    ensures 30.0 < x < 31.0 ==> BandOf(FreedomCategories, x).None?
    ensures 40.0 < x < 41.0 ==> BandOf(NetCategories, x).None?
  {
    assert FreedomCategories[1..][1..] == [FreedomCategories[2]];
    assert NetCategories[1..][1..] == [NetCategories[2]];
    assert FreedomCategories[1..][1..][1..] == [];
    assert NetCategories[1..][1..][1..] == [];
  }

  /**
   * The sparkline bar (>= at both cut-offs) and the categories part at the
   * band edges: 30 and 70 for Freedom in the World, 40 and 70 for the net.
   */
  lemma SparklineAtBandEdges()
    ensures SparklineColour(FitWAggregate, Some(30.0)) == Yellow && FreedomRating(30.0).colour == Purple
    ensures SparklineColour(FitWAggregate, Some(70.0)) == Green && FreedomRating(70.0).colour == Yellow
    ensures SparklineColour("FotN", Some(40.0)) == Yellow && NetRating(40.0).colour == Purple
    ensures SparklineColour("FotN", Some(70.0)) == Green && NetRating(70.0).colour == Yellow
    ensures forall x :: 0.0 <= x <= 100.0 && x != 30.0 && x != 70.0 ==>
      SparklineColour(FitWAggregate, Some(x)) == FreedomRating(x).colour
    ensures forall x :: 0.0 <= x <= 100.0 && x != 40.0 && x != 70.0 ==>
      SparklineColour("FotN", Some(x)) == NetRating(x).colour
  {
  }
}
