/**
 * The small tables of utils.py that sit beside the charts: the most recent
 * value with its year-over-year change, the Freedom in the World rating
 * table, the two Freedom on the Net tables and the internet gender gap table.
 * Each callback filters the table to one country's series, sorts a copy by
 * Year in place and reads its last rows; the markup the cells go into and the
 * indicator description text are not modelled.
 */
module IndicatorTables {
  import opened Wrappers
  import opened PyNum
  import opened Frames
  import opened Dataset
  import opened Ranking

  /** The three cells of a value table: value, Year, and the change column "▲▼". */
  datatype Cells = Cells(value: Text, year: Text, change: Text)

  /** The three cells of a Freedom on the Net table: score, rating, Year. */
  datatype RatingCells = RatingCells(score: Text, rating: string, year: Text)

  // ----- the change column -----

  /** '▲ ' + str(abs(c)) + suffix when c > 0, '▼ ' + str(abs(c)) + suffix when c < 0, str(c) + suffix for 0. */
  function IntArrow(c: int, suffix: string): (s: string)
    ensures (2 <= |s| && s[..2] == "▲ ") <==> c > 0
    ensures (2 <= |s| && s[..2] == "▼ ") <==> c < 0
  {
    if c > 0 then
      var s := "▲ " + (IntToDecimal(c) + suffix);
      assert s[..2] == "▲ ";
      s
    else if c < 0 then
      var s := "▼ " + (IntToDecimal(-c) + suffix);
      assert s[..2] == "▼ " != "▲ ";
      s
    else
      var s := IntToDecimal(c) + suffix;
      assert s[0] == '0';
      s
  }

  /** Reads a change back from its arrow text, given the length of the suffix. */
  function ParseArrow(s: string, suffixLength: nat): int {
    ParseSigned(if suffixLength <= |s| then s[..|s| - suffixLength] else s)
  }

  /** Reads "▲ n" as n, "▼ n" as -n, and anything else as a plain int. */
  function ParseSigned(body: string): int {
    if 2 <= |body| && body[..2] == "▲ " then ParseInt(body[2..])
    else if 2 <= |body| && body[..2] == "▼ " then -ParseInt(body[2..])
    else ParseInt(body)
  }

  lemma StripSuffix(body: string, suffix: string)
    ensures ParseArrow(body + suffix, |suffix|) == ParseSigned(body)
  {
    assert (body + suffix)[..|body + suffix| - |suffix|] == body;
  }

  lemma SignedUp(digits: string)
    ensures ParseSigned("▲ " + digits) == ParseInt(digits)
  {
    assert ("▲ " + digits)[..2] == "▲ ";
    assert ("▲ " + digits)[2..] == digits;
  }

  lemma SignedDown(digits: string)
    ensures ParseSigned("▼ " + digits) == -ParseInt(digits)
  {
    assert ("▼ " + digits)[..2] == "▼ " != "▲ ";
    assert ("▼ " + digits)[2..] == digits;
  }

  /** The arrow text loses nothing: the change reads back from it, sign included. */
  lemma ArrowRoundTrip(c: int, suffix: string)
    ensures ParseArrow(IntArrow(c, suffix), |suffix|) == c
  {
    if c > 0 {
      var digits := IntToDecimal(c);
      calc {
        ParseArrow(IntArrow(c, suffix), |suffix|);
      == { assert IntArrow(c, suffix) == ("▲ " + digits) + suffix; StripSuffix("▲ " + digits, suffix); }
        ParseSigned("▲ " + digits);
      == { SignedUp(digits); }
        ParseInt(digits);
      == { IntToDecimalRoundTrip(c); }
        c;
      }
    } else if c < 0 {
      var digits := IntToDecimal(-c);
      calc {
        ParseArrow(IntArrow(c, suffix), |suffix|);
      == { assert IntArrow(c, suffix) == ("▼ " + digits) + suffix; StripSuffix("▼ " + digits, suffix); }
        ParseSigned("▼ " + digits);
      == { SignedDown(digits); }
        -ParseInt(digits);
      == { IntToDecimalRoundTrip(-c); }
        c;
      }
    } else {
      var digits := IntToDecimal(0);
      calc {
        ParseArrow(IntArrow(c, suffix), |suffix|);
      == { StripSuffix(digits, suffix); }
        ParseSigned(digits);
      == { assert |digits| == 1; }
        ParseInt(digits);
      == { IntToDecimalRoundTrip(0); }
        0;
      }
    }
  }

  /** A cell holding the arrow text of a change reads back as that change. */
  lemma ArrowCellReadsBack(text: Text, c: int, suffix: string)
    requires text == Str(IntArrow(c, suffix))
    ensures |text| == 1 && text[0].Lit? && ParseArrow(text[0].s, |suffix|) == c
  {
    ArrowRoundTrip(c, suffix);
  }

  /** The change column of the GII table: a float that may be NaN (NaN is neither > 0 nor < 0). */
  function RealArrow(c: Option<real>): (t: Text)
    ensures c.Some? && c.value > 0.0 ==> t == [Lit("▲ "), Real(c.value), Lit("%")]
    ensures c.Some? && c.value < 0.0 ==> t == [Lit("▼ "), Real(-c.value), Lit("%")]
  {
    match c
    case None => [Lit("nan"), Lit("%")]
    case Some(x) =>
      if x > 0.0 then [Lit("▲ "), Real(x), Lit("%")]
      else if x < 0.0 then [Lit("▼ "), Real(-x), Lit("%")]
      else [Real(x), Lit("%")]
  }

  /** Reads a GII change back from its pieces: the signed number, or None for "nan%" and other text. */
  function ReadRealArrow(t: Text): Option<real> {
    if |t| == 3 && t[0] == Lit("▲ ") && t[1].Real? && t[2] == Lit("%") then Some(t[1].x)
    else if |t| == 3 && t[0] == Lit("▼ ") && t[1].Real? && t[2] == Lit("%") then Some(-t[1].x)
    else if |t| == 2 && t[0].Real? && t[1] == Lit("%") then Some(t[0].x)
    else None
  }

  /** The GII change column loses nothing: the rounded change reads back, and the arrow is its sign. */
  lemma RealArrowRoundTrip(c: Option<real>)
    ensures ReadRealArrow(RealArrow(c)) == c
    ensures RealArrow(c)[0] == Lit("▲ ") <==> c.Some? && c.value > 0.0
    ensures RealArrow(c)[0] == Lit("▼ ") <==> c.Some? && c.value < 0.0
  {
    if c.Some? && c.value < 0.0 {
      assert -(-c.value) == c.value;
    }
  }

  /**
   * ((v1 - v2) / v2) * 100 between Python floats: dividing by a zero float
   * raises ZeroDivisionError even when v1 is NaN; otherwise NaN propagates.
   */
  function PercentChange(v1: Option<real>, v2: Option<real>): (r: Result<Option<real>>)
    ensures r.Err? <==> v2 == Some(0.0)
    ensures r.Err? ==> r.error == ZeroDivisionError
    ensures r.Ok? ==> (r.value.Some? <==> v1.Some? && v2.Some?)
  {
    if v2 == Some(0.0) then Err(ZeroDivisionError)
    else if v1.None? || v2.None? then Ok(None)
    else Ok(Some(((v1.value - v2.value) / v2.value) * 100.0))
  }

  /** The percent change is the growth that takes the earlier value to the later one. */
  lemma PercentChangeInverse(v1: real, v2: real)
    requires v2 != 0.0
    ensures PercentChange(Some(v1), Some(v2)).value.value == ((v1 - v2) / v2) * 100.0
    ensures v2 * (1.0 + PercentChange(Some(v1), Some(v2)).value.value / 100.0) == v1
  {
    var c := ((v1 - v2) / v2) * 100.0;
    calc {
      v2 * (1.0 + c / 100.0);
      v2 + v2 * ((v1 - v2) / v2);
      v1;
    }
  }

  // ----- generate_most_recent_value_table -----

  /** The change cell: rounded to 3 places for GII, int(round(...)) otherwise (ValueError on NaN). */
  function RecentChange(indicator: string, last: Row, before: Row): (r: Result<Text>)
    ensures before.value == Some(0.0) ==> r == Err(ZeroDivisionError)
  {
    var c :- PercentChange(last.value, before.value);
    if indicator == "GII" then Ok(RealArrow(PyRoundTo(c, 3)))
    else
      var n :- PyRoundInt(c);
      Ok(Str(IntArrow(n, "%")))
  }

  /** The value cell: str(round(v, 3)) for GII, str(int(v)) + '/100' as a rate, str(int(round(v, 0))) + '%' otherwise. */
  function RecentValue(indicator: string, formatAsRate: bool, last: Row): (r: Result<Text>)
    ensures r.Err? <==> indicator != "GII" && last.value.None?
    ensures r.Ok? && indicator == "GII" ==>
      && (r.value == [Lit("nan")] <==> last.value.None?)
      && (last.value.Some? ==> |r.value| == 1 && r.value[0].Real? && -0.0005 <= last.value.value - r.value[0].x <= 0.0005)
    ensures r.Ok? && indicator != "GII" && formatAsRate ==>
      |r.value| == 1 && r.value[0].Lit? && ReadOutOf(r.value[0].s, 100) == Some(Trunc(last.value.value))
    ensures r.Ok? && indicator != "GII" && !formatAsRate ==>
      && |r.value| == 1 && r.value[0].Lit? && 0 < |r.value[0].s| && r.value[0].s[|r.value[0].s| - 1] == '%'
      && -0.5 <= last.value.value - ParseInt(r.value[0].s[..|r.value[0].s| - 1]) as real <= 0.5
  {
    if indicator == "GII" then
      RoundedToThousandths(last.value);
      Ok(FloatStr(PyRoundTo(last.value, 3)))
    else if formatAsRate then
      var n :- PyInt(last.value);
      OutOfHundredRoundTrip(n);
      Ok(Str(IntToDecimal(n) + "/100"))
    else
      var n :- PyRoundInt(last.value);
      var text := IntToDecimal(n) + "%";
      assert text[..|text| - 1] == IntToDecimal(n);
      IntToDecimalRoundTrip(n);
      Ok(Str(text))
  }

  /** The table's cells, or None for the empty string returned when the country has no rows. */
  function RecentValueTable(t: Table, country: string, indicator: string, formatAsRate: bool): (r: Result<Option<Cells>>)
    ensures r.Ok? && r.value.Some? ==> Series(t, country, indicator) != []
    ensures r.Ok? && r.value.Some? && Series(t, country, indicator) != [] ==>
      var last := Latest(Series(t, country, indicator)).value;
      var cells := r.value.value;
      && |cells.year| == 1 && cells.year[0].Lit? && ParseInt(cells.year[0].s) == last.year
      && RecentValue(indicator, formatAsRate, last) == Ok(cells.value)
  {
    var s := Series(t, country, indicator);
    if s == [] then Ok(None)
    else
      var last := Latest(s).value;
      var change :- RecentChange(indicator, last, SecondLatest(s).value);
      var value :- RecentValue(indicator, formatAsRate, last);
      IntToDecimalRoundTrip(last.year);
      Ok(Some(Cells(value, IntStr(last.year), change)))
  }

  /** generate_most_recent_value_table: filter, sort a copy by Year in place, read tail(1) and tail(2).head(1). */
  method MostRecentValueTable(t: Table, country: string, indicator: string, formatAsRate: bool)
    returns (table: Result<Option<Cells>>)
    ensures table == RecentValueTable(t, country, indicator, formatAsRate)
  {
    var rows := Series(t, country, indicator);
    var last, before := LastTwoRows(rows);
    if last.None? {
      return Ok(None);
    }
    var change := RecentChange(indicator, last.value, before.value);
    if change.Err? {
      return Err(change.error);
    }
    var value := RecentValue(indicator, formatAsRate, last.value);
    if value.Err? {
      return Err(value.error);
    }
    table := Ok(Some(Cells(value.value, IntStr(last.value.year), change.value)));
  }

  /** No table exactly when the country has no row of the indicator. */
  lemma RecentValueTableEmpty(t: Table, country: string, indicator: string, formatAsRate: bool)
    ensures RecentValueTable(t, country, indicator, formatAsRate) == Ok(None)
        <==> Series(t, country, indicator) == []
  {
  }

  /**
   * With a single row both operands of the change are that row, so the change
   * shows "0%", or "0.0%" (round(0.0, 3)) for GII.
   */
  lemma SingleRowChangeIsZero(t: Table, country: string, indicator: string, formatAsRate: bool)
    requires |Series(t, country, indicator)| == 1
    requires Series(t, country, indicator)[0].value.Some?
    requires Series(t, country, indicator)[0].value.value != 0.0
    ensures RecentValueTable(t, country, indicator, formatAsRate).Ok?
    ensures RecentValueTable(t, country, indicator, formatAsRate).value.Some?
    ensures RecentValueTable(t, country, indicator, formatAsRate).value.value.change
      == if indicator == "GII" then [Real(0.0), Lit("%")] else Str("0%")
  {
    var s := Series(t, country, indicator);
    assert LastMaxIndex(s, ByYear) == 0;
    assert SecondLatest(s) == Latest(s) == Some(s[0]);
    var x := s[0].value.value;
    assert PercentChange(Some(x), Some(x)) == Ok(Some(0.0));
    if indicator == "GII" {
      assert Shift(0.0, 3) == 0.0;
      assert RoundTo(0.0, 3) == 0.0;
    } else {
      assert RoundHalfEven(0.0) == 0;
      assert IntArrow(0, "%") == "0%";
    }
  }

  /** A zero second-to-last value raises ZeroDivisionError, whatever the indicator. */
  lemma ZeroBaseRaises(t: Table, country: string, indicator: string, formatAsRate: bool)
    requires Series(t, country, indicator) != []
    requires SecondLatest(Series(t, country, indicator)).value.value == Some(0.0)
    ensures RecentValueTable(t, country, indicator, formatAsRate) == Err(ZeroDivisionError)
  {
  }

  /**
   * Outside GII the change cell shows the percent change from the second
   * latest to the latest value rounded to an int, with its sign as the arrow,
   * and the Year cell shows the greatest Year of the series.
   */
  lemma RecentChangeShown(t: Table, country: string, indicator: string, formatAsRate: bool)
    requires indicator != "GII"
    requires RecentValueTable(t, country, indicator, formatAsRate).Ok?
    requires RecentValueTable(t, country, indicator, formatAsRate).value.Some?
    ensures var s := Series(t, country, indicator);
      var cells := RecentValueTable(t, country, indicator, formatAsRate).value.value;
      var v1 := Latest(s).value.value;
      var v2 := SecondLatest(s).value.value;
      && v1.Some? && v2.Some? && v2.value != 0.0
      && |cells.change| == 1 && cells.change[0].Lit?
      && WithinHalfOfPercentChange(v1.value, v2.value, ParseArrow(cells.change[0].s, 1))
      && cells.year == IntStr(Latest(s).value.year)
      && forall r :: r in s ==> r.year <= Latest(s).value.year
  {
    RecentCells(t, country, indicator, formatAsRate);
    IntChangeReadsBack(indicator, Latest(Series(t, country, indicator)).value, SecondLatest(Series(t, country, indicator)).value,
      RecentValueTable(t, country, indicator, formatAsRate).value.value.change);
    var s := Series(t, country, indicator);
    LatestIsNewest(s);
    forall r | r in s ensures r.year <= Latest(s).value.year {
      var k :| 0 <= k < |s| && s[k] == r;
    }
  }

  /** A table that is shown holds the change of the two latest rows and the latest Year. */
  lemma RecentCells(t: Table, country: string, indicator: string, formatAsRate: bool)
    requires RecentValueTable(t, country, indicator, formatAsRate).Ok?
    requires RecentValueTable(t, country, indicator, formatAsRate).value.Some?
    ensures var s := Series(t, country, indicator);
      var cells := RecentValueTable(t, country, indicator, formatAsRate).value.value;
      && s != []
      && RecentChange(indicator, Latest(s).value, SecondLatest(s).value) == Ok(cells.change)
      && cells.year == IntStr(Latest(s).value.year)
  {
  }

  /** n is the percent change from v2 to v1, ((v1 - v2) / v2) * 100, to within one half. */
  predicate WithinHalfOfPercentChange(v1: real, v2: real, n: int) {
    v2 != 0.0 && -0.5 <= ((v1 - v2) / v2) * 100.0 - n as real <= 0.5
  }

  /** Outside GII a change cell that is computed reads back as the percent change rounded to an int. */
  lemma IntChangeReadsBack(indicator: string, last: Row, before: Row, change: Text)
    requires indicator != "GII"
    requires RecentChange(indicator, last, before) == Ok(change)
    ensures last.value.Some? && before.value.Some? && before.value.value != 0.0
    ensures |change| == 1 && change[0].Lit?
    ensures WithinHalfOfPercentChange(last.value.value, before.value.value, ParseArrow(change[0].s, 1))
  {
    var c := PercentChange(last.value, before.value).value;
    var n := PyRoundInt(c).value;
    assert change == Str(IntArrow(n, "%"));
    ArrowCellReadsBack(change, n, "%");
  }

  /** round(c, 3) shown by RealArrow reads back as a multiple of 0.001 within 0.0005 of c, or as None for NaN. */
  lemma GiiChangeCell(c: Option<real>)
    ensures var change := RealArrow(PyRoundTo(c, 3));
      && (ReadRealArrow(change).Some? <==> c.Some?)
      && (c.Some? ==> -0.0005 <= c.value - ReadRealArrow(change).value <= 0.0005)
      && (c.Some? ==> (1000.0 * ReadRealArrow(change).value).Floor as real == 1000.0 * ReadRealArrow(change).value)
      && (change[0] == Lit("▲ ") <==> c.Some? && ReadRealArrow(change).value > 0.0)
      && (change[0] == Lit("▼ ") <==> c.Some? && ReadRealArrow(change).value < 0.0)
  {
    var r := PyRoundTo(c, 3);
    RealArrowRoundTrip(r);
    assert Pow10(3) == 1000;
    if c.Some? {
      ShiftDifference(c.value, r.value, 3);
      ShiftIsScaling(c.value - r.value, 3);
      ShiftIsScaling(r.value, 3);
    }
  }

  /**
   * For GII the change cell shows the percent change from the second latest to
   * the latest value rounded to 3 places, with its sign as the arrow, or
   * "nan%" when either value is missing.
   */
  lemma RecentGiiChangeShown(t: Table, country: string, formatAsRate: bool)
    requires RecentValueTable(t, country, "GII", formatAsRate).Ok?
    requires RecentValueTable(t, country, "GII", formatAsRate).value.Some?
    ensures var s := Series(t, country, "GII");
      var change := RecentValueTable(t, country, "GII", formatAsRate).value.value.change;
      var v1 := Latest(s).value.value;
      var v2 := SecondLatest(s).value.value;
      var shown := ReadRealArrow(change);
      && v2 != Some(0.0)
      && (shown.Some? <==> v1.Some? && v2.Some?)
      && (v1.Some? && v2.Some? ==> -0.0005 <= ((v1.value - v2.value) / v2.value) * 100.0 - shown.value <= 0.0005)
      && (v1.Some? && v2.Some? ==> (1000.0 * shown.value).Floor as real == 1000.0 * shown.value)
      && (change[0] == Lit("▲ ") <==> shown.Some? && shown.value > 0.0)
      && (change[0] == Lit("▼ ") <==> shown.Some? && shown.value < 0.0)
  {
    var s := Series(t, country, "GII");
    GiiTableChange(t, country, formatAsRate);
    GiiChangeOf(Latest(s).value.value, SecondLatest(s).value.value,
      RecentValueTable(t, country, "GII", formatAsRate).value.value.change);
  }

  /** The GII change cell of a shown table is round(percent change, 3) with its arrow. */
  lemma GiiTableChange(t: Table, country: string, formatAsRate: bool)
    requires RecentValueTable(t, country, "GII", formatAsRate).Ok?
    requires RecentValueTable(t, country, "GII", formatAsRate).value.Some?
    ensures var s := Series(t, country, "GII");
      && SecondLatest(s).value.value != Some(0.0)
      && RecentValueTable(t, country, "GII", formatAsRate).value.value.change
         == RealArrow(PyRoundTo(PercentChange(Latest(s).value.value, SecondLatest(s).value.value).value, 3))
  {
    var s := Series(t, country, "GII");
    var last := Latest(s).value;
    var before := SecondLatest(s).value;
    assert RecentChange("GII", last, before).Ok?;
  }

  /** The rounded GII change between two values, read back from its cell. */
  lemma GiiChangeOf(v1: Option<real>, v2: Option<real>, change: Text)
    requires v2 != Some(0.0)
    requires change == RealArrow(PyRoundTo(PercentChange(v1, v2).value, 3))
    ensures var shown := ReadRealArrow(change);
      && (shown.Some? <==> v1.Some? && v2.Some?)
      && (v1.Some? && v2.Some? ==> -0.0005 <= ((v1.value - v2.value) / v2.value) * 100.0 - shown.value <= 0.0005)
      && (v1.Some? && v2.Some? ==> (1000.0 * shown.value).Floor as real == 1000.0 * shown.value)
      && (change[0] == Lit("▲ ") <==> shown.Some? && shown.value > 0.0)
      && (change[0] == Lit("▼ ") <==> shown.Some? && shown.value < 0.0)
  {
    GiiChangeCell(PercentChange(v1, v2).value);
  }

  // ----- generate_freedom_in_the_world_table -----

  /** df.loc[df.Country == country, 'Region'].tolist()[0]: the Region of the country's first row in the table. */
  function FirstRegion(t: Table, country: string): (r: Result<Option<string>>)
    ensures r.Err? <==> Filter(t, IsCountry(country)) == []
  {
    var rows := Filter(t, IsCountry(country));
    if rows == [] then Err(IndexError) else Ok(rows[0].region)
  }

  /** int(prr.iloc[-1, 2]) - int(prr.iloc[-2, 2]) on the Year-sorted series (column 2 taken to be value). */
  function YearChange(s: seq<Row>): (r: Result<int>)
    requires s != []
    ensures |s| == 1 ==> r == Err(IndexError)
  {
    if |s| == 1 then Err(IndexError)
    else
      var a :- PyInt(Latest(s).value.value);
      var b :- PyInt(SecondLatest(s).value.value);
      Ok(a - b)
  }

  /**
   * The Freedom in the World rating table: "value/max", the Year and the change,
   * with the rank computed only for its errors; "NO DATA/max" with no rows.
   * A zero change is left as the int 0 (the else branch at utils.py:1928
   * assigns pctChange, not change), which shows as "0": IntArrow(0, "").
   */
  function FreedomInTheWorldTable(t: Table, country: string, indicator: string, maxValues: int): (r: Result<Cells>)
    ensures Series(t, country, indicator) != [] && Latest(Series(t, country, indicator)).value.value.None? ==>
      r == Err(ValueError)
    ensures Series(t, country, indicator) != [] && r.Ok? ==>
      var last := Latest(Series(t, country, indicator)).value;
      && last.value.Some?
      && |r.value.value| == 1 && r.value.value[0].Lit?
      && ReadOutOf(r.value.value[0].s, maxValues) == Some(Trunc(last.value.value))
      && |r.value.year| == 1 && r.value.year[0].Lit? && ParseInt(r.value.year[0].s) == last.year
  {
    var s := Series(t, country, indicator);
    if s == [] then Ok(Cells(Str("NO DATA/" + IntToDecimal(maxValues)), Str("NA"), Str("NA")))
    else
      var last := Latest(s).value;
      var value :- PyInt(last.value);
      var rgn :- FirstRegion(t, country);
      var change :- YearChange(s);
      var rank :- CountryRank(t, country, rgn, indicator, true);
      OutOfRoundTrip(value, maxValues);
      IntToDecimalRoundTrip(last.year);
      Ok(Cells(Str(IntToDecimal(value) + "/" + IntToDecimal(maxValues)), IntStr(last.year), Str(IntArrow(change, ""))))
  }

  /** generate_freedom_in_the_world_table, step by step. */
  method FreedomInTheWorldTableOf(t: Table, country: string, indicator: string, maxValues: int)
    returns (table: Result<Cells>)
    ensures table == FreedomInTheWorldTable(t, country, indicator, maxValues)
  {
    var prr := Series(t, country, indicator);
    var last, before := LastTwoRows(prr);
    if last.None? {
      return Ok(Cells(Str("NO DATA/" + IntToDecimal(maxValues)), Str("NA"), Str("NA")));
    }
    var value := PyInt(last.value.value);
    if value.Err? {
      return Err(value.error);
    }
    var rgn := FirstRegion(t, country);
    if rgn.Err? {
      return Err(rgn.error);
    }
    var change := YearChange(prr);
    if change.Err? {
      return Err(change.error);
    }
    var rank := GetCountryRank(t, country, rgn.value, indicator, true);
    if rank.Err? {
      return Err(rank.error);
    }
    table := Ok(Cells(Str(IntToDecimal(value.value) + "/" + IntToDecimal(maxValues)), IntStr(last.value.year),
      Str(IntArrow(change.value, ""))));
  }

  /** A series of one row never yields a table: reading iloc[-2] raises. */
  lemma FreedomSingleRowRaises(t: Table, country: string, indicator: string, maxValues: int)
    requires |Series(t, country, indicator)| == 1
    ensures FreedomInTheWorldTable(t, country, indicator, maxValues).Err?
  {
  }

  /**
   * When the table is shown for a country with rows, the series has two
   * valued rows, the change cell shows int(latest) - int(second latest), and
   * the country has a row in the series of the Region of its first table row
   * (the rank did not raise).
   */
  lemma FreedomTableShown(t: Table, country: string, indicator: string, maxValues: int)
    requires Series(t, country, indicator) != []
    requires FreedomInTheWorldTable(t, country, indicator, maxValues).Ok?
    ensures var s := Series(t, country, indicator);
      var cells := FreedomInTheWorldTable(t, country, indicator, maxValues).value;
      && 2 <= |s|
      && Latest(s).value.value.Some? && SecondLatest(s).value.value.Some?
      && cells.change == Str(IntArrow(Trunc(Latest(s).value.value.value) - Trunc(SecondLatest(s).value.value.value), ""))
      && FirstRegion(t, country).Ok?
      && exists r :: r in RegionSeries(t, FirstRegion(t, country).value, indicator) && r.country == country
  {
    FreedomTableSteps(t, country, indicator, maxValues);
    RankFound(t, country, FirstRegion(t, country).value, indicator, true);
  }

  /** The steps a shown Freedom in the World table has passed: two rows, both valued, a region and a rank. */
  lemma FreedomTableSteps(t: Table, country: string, indicator: string, maxValues: int)
    requires Series(t, country, indicator) != []
    requires FreedomInTheWorldTable(t, country, indicator, maxValues).Ok?
    ensures var s := Series(t, country, indicator);
      && 2 <= |s|
      && Latest(s).value.value.Some? && SecondLatest(s).value.value.Some?
      && FirstRegion(t, country).Ok?
      && CountryRank(t, country, FirstRegion(t, country).value, indicator, true).Ok?
      && FreedomInTheWorldTable(t, country, indicator, maxValues).value.change
         == Str(IntArrow(Trunc(Latest(s).value.value.value) - Trunc(SecondLatest(s).value.value.value), ""))
  {
    var s := Series(t, country, indicator);
    var last := Latest(s).value;
    var value := PyInt(last.value);
    assert value.Ok?;
    var rgn := FirstRegion(t, country);
    assert rgn.Ok?;
    var change := YearChange(s);
    assert change.Ok?;
    assert |s| != 1;
    var a := PyInt(last.value);
    var b := PyInt(SecondLatest(s).value.value);
    assert b.Ok?;
    assert change.value == Trunc(last.value.value) - Trunc(SecondLatest(s).value.value.value);
    assert CountryRank(t, country, rgn.value, indicator, true).Ok?;
    assert FreedomInTheWorldTable(t, country, indicator, maxValues).value.change == Str(IntArrow(change.value, ""));
  }

  // ----- the two Freedom on the Net tables -----

  /** Line 1953: <= 40 "Not Free", <= 70 "Partly Free", else "Free". */
  function RegionalFotNRating(score: int): (r: string)
    ensures r in {"Free", "Partly Free", "Not Free"}
    ensures r == "Free" <==> score > 70
    ensures r == "Not Free" <==> score <= 40
  {
    if score <= 40 then "Not Free" else if score <= 70 then "Partly Free" else "Free"
  }

  /** Line 1992: <= 30 "Free", <= 60 "Partly Free", else "Not Free" (the labels run the other way). */
  function CountryFotNRating(score: int): (r: string)
    ensures r in {"Free", "Partly Free", "Not Free"}
    ensures r == "Free" <==> score <= 30
    ensures r == "Not Free" <==> score > 60
  {
    if score <= 30 then "Free" else if score <= 60 then "Partly Free" else "Not Free"
  }

  /** 0 for "Not Free", 1 for "Partly Free", 2 for "Free". */
  function FreedomLevel(rating: string): nat {
    if rating == "Free" then 2 else if rating == "Partly Free" then 1 else 0
  }

  /**
   * The regional table's label never falls as the score rises and the country
   * table's never rises; the two tables agree only on 41..60, where both say
   * "Partly Free".
   */
  lemma FotNRatingsDisagree(a: int, b: int)
    requires a <= b
    ensures FreedomLevel(RegionalFotNRating(a)) <= FreedomLevel(RegionalFotNRating(b))
    ensures FreedomLevel(CountryFotNRating(a)) >= FreedomLevel(CountryFotNRating(b))
    ensures RegionalFotNRating(a) == CountryFotNRating(a) <==> 41 <= a <= 60
  {
  }

  /** The table of line 1941: "n/100" with the regional rating, or "NO DATA", "NA", "NA". */
  function RegionalFotNTable(t: Table, country: string): (r: Result<RatingCells>)
    ensures Series(t, country, "FotN") != [] && Latest(Series(t, country, "FotN")).value.value.None? ==>
      r == Err(ValueError)
    ensures Series(t, country, "FotN") != [] && r.Ok? ==>
      var last := Latest(Series(t, country, "FotN")).value;
      && last.value.Some?
      && |r.value.score| == 1 && r.value.score[0].Lit?
      && ReadOutOf(r.value.score[0].s, 100) == Some(Trunc(last.value.value))
      && r.value.rating == RegionalFotNRating(Trunc(last.value.value))
      && |r.value.year| == 1 && r.value.year[0].Lit? && ParseInt(r.value.year[0].s) == last.year
  {
    var s := Series(t, country, "FotN");
    if s == [] then Ok(RatingCells(Str("NO DATA"), "NA", Str("NA")))
    else
      var last := Latest(s).value;
      var value :- PyInt(last.value);
      var rgn :- FirstRegion(t, country);
      var rank :- CountryRank(t, country, rgn, "FotN", false);
      OutOfHundredRoundTrip(value);
      IntToDecimalRoundTrip(last.year);
      Ok(RatingCells(Str(IntToDecimal(value) + "/100"), RegionalFotNRating(value), IntStr(last.year)))
  }

  /** The table of line 1980: the bare int score with the country rating, or "NO DATA", "NA", "NA". */
  function CountryFotNTable(t: Table, country: string): (r: Result<RatingCells>)
    ensures Series(t, country, "FotN") != [] && Latest(Series(t, country, "FotN")).value.value.None? ==>
      r == Err(ValueError)
    ensures Series(t, country, "FotN") != [] && r.Ok? ==>
      var last := Latest(Series(t, country, "FotN")).value;
      && last.value.Some?
      && |r.value.score| == 1 && r.value.score[0].Lit? && ParseInt(r.value.score[0].s) == Trunc(last.value.value)
      && r.value.rating == CountryFotNRating(Trunc(last.value.value))
      && |r.value.year| == 1 && r.value.year[0].Lit? && ParseInt(r.value.year[0].s) == last.year
  {
    var s := Series(t, country, "FotN");
    if s == [] then Ok(RatingCells(Str("NO DATA"), "NA", Str("NA")))
    else
      var last := Latest(s).value;
      var value :- PyInt(last.value);
      var rgn :- FirstRegion(t, country);
      var rank :- CountryRank(t, country, rgn, "FotN", false);
      IntToDecimalRoundTrip(value);
      IntToDecimalRoundTrip(last.year);
      Ok(RatingCells(IntStr(value), CountryFotNRating(value), IntStr(last.year)))
  }

  /** generate_percent_using_internet_vs_freedom_on_net_table, step by step. */
  method RegionalFotNTableOf(t: Table, country: string) returns (table: Result<RatingCells>)
    ensures table == RegionalFotNTable(t, country)
  {
    var fotn := Series(t, country, "FotN");
    var last := LatestRow(fotn);
    if last.None? {
      return Ok(RatingCells(Str("NO DATA"), "NA", Str("NA")));
    }
    var value := PyInt(last.value.value);
    if value.Err? {
      return Err(value.error);
    }
    var rgn := FirstRegion(t, country);
    if rgn.Err? {
      return Err(rgn.error);
    }
    var rank := GetCountryRank(t, country, rgn.value, "FotN", false);
    if rank.Err? {
      return Err(rank.error);
    }
    table := Ok(RatingCells(Str(IntToDecimal(value.value) + "/100"), RegionalFotNRating(value.value), IntStr(last.value.year)));
  }

  /** generate_country_percent_using_internet_vs_freedom_on_net_table, step by step. */
  method CountryFotNTableOf(t: Table, country: string) returns (table: Result<RatingCells>)
    ensures table == CountryFotNTable(t, country)
  {
    var fotn := Series(t, country, "FotN");
    var last := LatestRow(fotn);
    if last.None? {
      return Ok(RatingCells(Str("NO DATA"), "NA", Str("NA")));
    }
    var value := PyInt(last.value.value);
    if value.Err? {
      return Err(value.error);
    }
    var rgn := FirstRegion(t, country);
    if rgn.Err? {
      return Err(rgn.error);
    }
    var rank := GetCountryRank(t, country, rgn.value, "FotN", false);
    if rank.Err? {
      return Err(rank.error);
    }
    table := Ok(RatingCells(IntStr(value.value), CountryFotNRating(value.value), IntStr(last.value.year)));
  }

  /**
   * Both tables read the same latest score: when both are shown for a country
   * with data, a score up to 30 is "Not Free" in one and "Free" in the other,
   * and "NA" is the rating exactly when the country has no FotN row.
   */
  lemma FotNTablesCompared(t: Table, country: string)
    requires RegionalFotNTable(t, country).Ok?
    ensures CountryFotNTable(t, country).Ok?
    ensures (RegionalFotNTable(t, country).value.rating == "NA") <==> Series(t, country, "FotN") == []
    ensures (CountryFotNTable(t, country).value.rating == "NA") <==> Series(t, country, "FotN") == []
    ensures Series(t, country, "FotN") != [] ==>
      var score := Trunc(Latest(Series(t, country, "FotN")).value.value.value);
      && RegionalFotNTable(t, country).value.rating == RegionalFotNRating(score)
      && CountryFotNTable(t, country).value.rating == CountryFotNRating(score)
      && (score <= 30 ==> RegionalFotNTable(t, country).value.rating == "Not Free"
                          && CountryFotNTable(t, country).value.rating == "Free")
  {
    var s := Series(t, country, "FotN");
    if s != [] {
      var last := Latest(s).value;
      var value := PyInt(last.value);
      assert value.Ok?;
      var rgn := FirstRegion(t, country);
      assert rgn.Ok?;
      assert CountryRank(t, country, rgn.value, "FotN", false).Ok?;
      var score := value.value;
      assert RegionalFotNTable(t, country).value.rating == RegionalFotNRating(score);
      assert CountryFotNTable(t, country) == Ok(RatingCells(IntStr(score), CountryFotNRating(score), IntStr(last.year)));
    }
  }

  // ----- generate_gender_gap_table -----

  /** One row of the merge of the female and male internet-use series on Country and Year. */
  datatype GapRow = GapRow(year: int, female: Option<real>, male: Option<real>)

  /** The male rows of the same Year as one female row, in their order (an inner merge). */
  function MaleMatches(female: Row, males: seq<Row>): (g: seq<GapRow>)
    ensures |g| <= |males|
    ensures forall k :: 0 <= k < |g| ==> g[k].year == female.year && g[k].female == female.value
  {
    if males == [] then []
    else
      var m := males[|males| - 1];
      MaleMatches(female, males[..|males| - 1])
        + (if m.year == female.year then [GapRow(female.year, female.value, m.value)] else [])
  }

  /** dff.merge(dfm[['Country', 'Year', 'internet.male']]): for each female row in order, its matching male rows. */
  function GapJoin(females: seq<Row>, males: seq<Row>): seq<GapRow> {
    if females == [] then []
    else GapJoin(females[..|females| - 1], males) + MaleMatches(females[|females| - 1], males)
  }

  /** A Year present once in each series gives exactly one merged row for it. */
  lemma {:induction false} MaleMatchesSingle(female: Row, males: seq<Row>, k: nat)
    requires k < |males| && males[k].year == female.year
    requires forall j :: 0 <= j < |males| && j != k ==> males[j].year != female.year
    ensures MaleMatches(female, males) == [GapRow(female.year, female.value, males[k].value)]
  {
    var m := males[|males| - 1];
    if k == |males| - 1 {
      MaleMatchesNone(female, males[..|males| - 1]);
    } else {
      MaleMatchesSingle(female, males[..|males| - 1], k);
    }
  }

  lemma {:induction false} MaleMatchesNone(female: Row, males: seq<Row>)
    requires forall j :: 0 <= j < |males| ==> males[j].year != female.year
    ensures MaleMatches(female, males) == []
  {
    if males != [] {
      MaleMatchesNone(female, males[..|males| - 1]);
    }
  }

  /** (male - female) / male * 100; NaN when either is missing, and (not modelled) infinite when male is 0. */
  function Gap(g: GapRow): (r: Option<real>)
    ensures r.Some? ==> g.female.Some? && g.male.Some? && g.male.value != 0.0
  {
    if g.female.None? || g.male.None? || g.male.value == 0.0 then None
    else Some(((g.male.value - g.female.value) / g.male.value) * 100.0)
  }

  /** The gap is the share of the male rate by which the female rate trails it. */
  lemma GapMeaning(g: GapRow)
    requires g.female.Some? && g.male.Some? && g.male.value != 0.0
    ensures Gap(g).Some?
    ensures g.female.value == g.male.value * (1.0 - Gap(g).value / 100.0)
    ensures Gap(g).value > 0.0 <==> (g.male.value > 0.0 && g.female.value < g.male.value) || (g.male.value < 0.0 && g.female.value > g.male.value)
  {
    var m := g.male.value;
    var f := g.female.value;
    var x := ((m - f) / m) * 100.0;
    assert m * (1.0 - x / 100.0) == m - (m - f);
    assert x == (m - f) * (100.0 / m);
  }

  function GapByYear(x: GapRow, y: GapRow): bool {
    x.year < y.year
  }

  /** tail(2) of the Year-sorted merge. */
  function LastTwo(s: seq<GapRow>): (r: seq<GapRow>)
    ensures |r| == if |s| < 2 then |s| else 2
  {
    if |s| < 2 then s else s[|s| - 2..]
  }

  /** sum([val == year for val in dff['Year'].values]). */
  function CountYear(s: seq<GapRow>, year: int): nat {
    if s == [] then 0
    else (if s[0].year == year then 1 else 0) + CountYear(s[1..], year)
  }

  /** dff.loc[dff['Year'] == year, 'gender_gap'].iloc[0], which exists whenever the count is positive. */
  function FirstOfYear(s: seq<GapRow>, year: int): (r: Option<GapRow>)
    ensures r.None? ==> CountYear(s, year) == 0
    ensures r.Some? ==> r.value in s && r.value.year == year
  {
    if s == [] then None
    else if s[0].year == year then Some(s[0])
    else FirstOfYear(s[1..], year)
  }

  /**
   * int(round(((value - value2) / value2) * 100, 0)) on NumPy floats: a NaN
   * operand gives NaN and int() raises ValueError; a zero value2 gives an
   * infinity (OverflowError in int()) or, when value is 0 too, NaN.
   */
  function GapPercentChange(value: Option<real>, value2: Option<real>): (r: Result<int>)
    ensures r.Ok? <==> value.Some? && value2.Some? && value2.value != 0.0
  {
    if value.None? || value2.None? then Err(ValueError)
    else if value2.value == 0.0 then (if value.value == 0.0 then Err(ValueError) else Err(OverflowError))
    else Ok(RoundHalfEven(((value.value - value2.value) / value2.value) * 100.0))
  }

  /** The gap table: str(round(gap, 1)) + '%', the latest Year, and the change since the Year before, or "NA". */
  function GenderGapTableOf(last2: seq<GapRow>): (r: Result<Cells>)
    ensures r.Ok? && r.value.value == Str("NO DATA") <==> last2 == []
    ensures r.Err? ==> last2 != [] && CountYear(last2, last2[|last2| - 1].year - 1) == 1
    ensures r.Ok? && last2 != [] ==>
      var gap := Gap(last2[|last2| - 1]);
      var shown := ReadRealArrow(r.value.value);
      && (shown.Some? <==> gap.Some?)
      && (gap.Some? ==> -0.05 <= gap.value - shown.value <= 0.05)
      && |r.value.year| == 1 && r.value.year[0].Lit? && ParseInt(r.value.year[0].s) == last2[|last2| - 1].year
  {
    if last2 == [] then Ok(Cells(Str("NO DATA"), Str("NA"), Str("NA")))
    else
      var latest := last2[|last2| - 1];
      var value := PyRoundTo(Gap(latest), 1);
      var shown := FloatStr(value) + Str("%");
      RoundedToTenths(Gap(latest));
      IntToDecimalRoundTrip(latest.year);
      if CountYear(last2, latest.year - 1) != 1 then Ok(Cells(shown, IntStr(latest.year), Str("NA")))
      else
        var value2 := PyRoundTo(Gap(FirstOfYear(last2, latest.year - 1).value), 1);
        var pct :- GapPercentChange(value, value2);
        Ok(Cells(shown, IntStr(latest.year), Str(IntArrow(pct, "%"))))
  }

  /** generate_gender_gap_table over the merged, Year-sorted series of one country. */
  function GenderGapTable(t: Table, country: string): (r: Result<Cells>)
    ensures r.Ok? && r.value.value == Str("NO DATA")
        <==> GapJoin(Series(t, country, "ind.internet.female"), Series(t, country, "ind.internet.male")) == []
  {
    var joined := GapJoin(Series(t, country, "ind.internet.female"), Series(t, country, "ind.internet.male"));
    GenderGapTableOf(LastTwo(Sort(joined, GapByYear)))
  }

  /** generate_gender_gap_table, step by step: merge, sort a copy by Year in place, keep tail(2). */
  method GenderGap(t: Table, country: string) returns (table: Result<Cells>)
    ensures table == GenderGapTable(t, country)
  {
    var dff := GapJoin(Series(t, country, "ind.internet.female"), Series(t, country, "ind.internet.male"));
    dff := SortedCopy(dff, GapByYear);
    dff := LastTwo(dff);
    table := GenderGapTableOf(dff);
  }

  /**
   * The change is computed exactly when the last two merged rows are the
   * latest Year and the Year before it; with one row, or a gap in the years,
   * the check counts 0 and the change is "NA".
   */
  lemma PreviousYearCheck(last2: seq<GapRow>)
    requires |last2| <= 2
    requires |last2| == 2 ==> last2[0].year <= last2[1].year
    requires last2 != []
    ensures var latest := last2[|last2| - 1];
      && (CountYear(last2, latest.year - 1) == 1 <==> |last2| == 2 && last2[0].year == latest.year - 1)
      && (CountYear(last2, latest.year - 1) == 1 ==> FirstOfYear(last2, latest.year - 1) == Some(last2[0]))
  {
    var y := last2[|last2| - 1].year - 1;
    if |last2| == 2 {
      assert last2[1..][1..] == [];
      assert CountYear(last2[1..], y) == (if last2[1].year == y then 1 else 0);
      assert CountYear(last2, y) == (if last2[0].year == y then 1 else 0) + (if last2[1].year == y then 1 else 0);
    } else {
      assert last2[1..] == [];
      assert CountYear(last2, y) == 0;
    }
  }

  /**
   * The change cell of the gap table: "NA" unless the last two merged rows are
   * the latest Year and the Year before it; then the arrow text of the percent
   * change between their rounded gaps, or the error that change raises.
   */
  lemma GenderGapChangeCell(last2: seq<GapRow>)
    requires |last2| <= 2
    requires |last2| == 2 ==> last2[0].year <= last2[1].year
    requires last2 != []
    ensures !(|last2| == 2 && last2[0].year == last2[1].year - 1) ==>
      GenderGapTableOf(last2).Ok? && GenderGapTableOf(last2).value.change == Str("NA")
    ensures |last2| == 2 && last2[0].year == last2[1].year - 1 ==>
      var pct := GapPercentChange(PyRoundTo(Gap(last2[1]), 1), PyRoundTo(Gap(last2[0]), 1));
      && (GenderGapTableOf(last2).Err? <==> pct.Err?)
      && (pct.Err? ==> GenderGapTableOf(last2).error == pct.error)
      && (pct.Ok? ==> GenderGapTableOf(last2).value.change == Str(IntArrow(pct.value, "%")))
  {
    PreviousYearCheck(last2);
  }

  /** The last two rows of the Year-sorted merge meet the premises of GenderGapChangeCell. */
  lemma GenderGapLastTwoSorted(t: Table, country: string)
    ensures var last2 := LastTwo(Sort(GapJoin(Series(t, country, "ind.internet.female"), Series(t, country, "ind.internet.male")), GapByYear));
      && |last2| <= 2
      && (|last2| == 2 ==> last2[0].year <= last2[1].year)
  {
    var sorted := Sort(GapJoin(Series(t, country, "ind.internet.female"), Series(t, country, "ind.internet.male")), GapByYear);
    assert StrictWeakOrder(GapByYear);
    SortIsSorted(GapJoin(Series(t, country, "ind.internet.female"), Series(t, country, "ind.internet.male")), GapByYear);
    if |sorted| >= 2 {
      assert !GapByYear(sorted[|sorted| - 1], sorted[|sorted| - 2]);
    }
  }

  /** With no merged row the table shows "NO DATA"; with one it shows the gap but the change is "NA". */
  lemma GenderGapNoChange(last2: seq<GapRow>)
    requires |last2| <= 1
    ensures GenderGapTableOf(last2).Ok?
    ensures GenderGapTableOf(last2).value.change == Str("NA")
    ensures last2 == [] <==> GenderGapTableOf(last2).value.value == Str("NO DATA")
  {
    if |last2| == 1 {
      assert last2[1..] == [];
    }
  }
}
