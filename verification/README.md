# DA2I dashboards — a verified model of the data-shaping core

The DA2I dashboards are three Dash pages (Connectivity, Freedom, Gender) and an
About page over one table of country indicators. Each row of the table holds a
Country, its ISO3 code, Region and Income group, an indicator Name, a Year and
a value, which may be NaN. Every callback of the pages does the same thing:

1. filter the table to one country and indicator;
2. often drop the rows whose value is missing;
3. sort a copy by Year in place;
4. read the last row or rows;
5. turn the value into display text, a rating and a colour, or a change
   arrow.

Around these callbacks sit the indicator helpers of `utils.py`:
- a country's series with a 2006–2016 placeholder;
- a country's rank in its region;
- a population-weighted regional average;
- the small value, rating and gender-gap tables;
- the colours and colorscales of the sparkline bars.

There is also the navigation bar, which puts the country in the URL with
`quote_plus` and reads it back with `unquote`, and the router of `index.py`.

This project models that core in Dafny and proves what it does.

- The table is a `seq<Row>`; a NaN value is `None`.
- Python exceptions (IndexError, ValueError, ZeroDivisionError, TypeError,
  UnboundLocalError, OverflowError) are the `Err` case of a `Result`, and are
  kept wherever the code raises.
- Every in-place `sort_values` is a stable insertion sort on an array
  (`Frames.SortInPlace`). It is specified by the functional `Frames.Sort`, whose
  properties are proved: a permutation, ordered, stable under filtering, and
  its last row is `Frames.LastMaxIndex`.
- Each callback is a method that sorts its filtered copy and reads the last
  rows. Its `ensures` ties the result to a specification function.
- Lemmas then state what that function means: the latest Year, the rank
  position, the percent change, the rating ladder.
- The code's quirks are reproduced and stated as lemmas:
  - quick look 1 rates Freedom in the World with a cut-off of 60, where the
    rating panel uses 70;
  - the Freedom on the Net country table inverts the labels;
  - the forward fill of `weightedAverage` is overwritten by the back fill;
  - a one-row series shows a 0% change;
  - the `pagename == '/'` test can never succeed.

Modules, one file each:
- `Wrappers`: Option, Result and the Python errors.
- `PyNum`: `int()`, `round()` half to even, `round(x, d)` and `str(int)`,
  with a parse round trip, and the display text.
- `Frames`: filtering, the stable sort, and the last rows.
- `Dataset`: the rows, the selections, the sort orders, and the latest
  reading.
- `Ranking`: `getCountryRank`.
- `RegionalAverage`: `weightedAverage`.
- `IndicatorTables`: the most recent value table, the Freedom in the World
  table, the two Freedom on the Net tables, and the gender gap table.
- `ChartData`: `getCountryData`, the sparkline bar, the colorscale, the
  aggregate score tiers, and the cost pie.
- `Freedom`, `Gender` and `Connectivity`: the three pages.
- `Urls`: UTF-8, `quote_plus`, `unquote` and `split('/')`.
- `Navbar` and `Routing`.

Behaviours of the code that the model keeps and states:
- A one-row series shows a change of 0%: `tail(2).head(1)` reads that same
  row, so both operands of the percent change are equal (utils.py:956-972).
  With GII the change is `round(0.0, 3)` and shows "0.0%".
- A zero second-to-last value raises ZeroDivisionError in the value table
  (utils.py:958-963).
- In the gender gap table a zero earlier gap makes the change an infinity, so
  `int()` raises OverflowError (utils.py:1038).
- The population of `weightedAverage` is only back-filled: line 640 of
  utils.py overwrites the forward fill of line 639.
- A year whose population sum is 0 divides by zero at utils.py:646, which
  gives NaN or an infinity. The model shows it as `None`.
- The Freedom in the World table with no rows shows "NO DATA/max", "NA", "NA"
  and does not raise (utils.py:1910-1914 and 1931).
- A zero change in the Freedom in the World table stays the int 0: line 1928
  of utils.py assigns `pctChange` where `change` was meant, so the cell shows
  "0" (utils.py:1921-1933).

## Model

| member | source | states |
|---|---|---|
| Frames.Filter | utils.py:591 | a boolean-mask selection keeps at most the rows it is given |
| Frames.FilterMember | utils.py:591 | a row is selected exactly when it is in the frame and passes the mask |
| Frames.FilterAppend | utils.py:591 | selecting from two concatenated frames is concatenating the two selections |
| Frames.FilterThenFilter | apps/freedom.py:307-311 | filtering by country, then by name, then by value is one filter by the conjunction of the masks |
| Frames.FilterSameMask | apps/freedom.py:307-311 | masks that agree on every row select the same rows |
| Frames.InsertIsPermutation | apps/freedom.py:313 | one insertion step of the sort adds exactly the inserted row to the multiset |
| Frames.SortIsPermutation | apps/freedom.py:313 | `sort_values` only reorders: the sorted rows are a permutation of the input |
| Frames.SortIsSorted | apps/freedom.py:313 | for any strict weak order, the sorted rows are in order |
| Frames.SortOfSorted | apps/freedom.py:313 | sorting rows already in order leaves them unchanged |
| Frames.FilterInsert | apps/connectivity.py:411-421 | filtering after inserting into sorted rows is inserting into the filtered rows |
| Frames.FilterSort | apps/connectivity.py:411-421 | stability: filtering the sorted rows equals sorting the filtered rows |
| Frames.LastMaxIndex | apps/freedom.py:313-314 | the index of the row the sort puts last is a valid index |
| Frames.LastOfSort | apps/freedom.py:313-314 | `tail(1)` after the sort is the row at `LastMaxIndex` |
| Frames.LastMaxIndexIsLatest | apps/freedom.py:313-314 | that row goes before no other row, and every row after it in the frame goes strictly before it |
| Frames.SortWithoutLast | utils.py:958 | the rows before the last sorted row are the sort of the other rows, so `tail(2).head(1)` is the latest of the rest |
| Frames.InsertLast | apps/freedom.py:313 | one step of the in-place sort: the row at i moves into the sorted prefix exactly where `Insert` puts it, and the rows after i stay |
| Frames.SortInPlace | apps/freedom.py:313 | the in-place sort leaves the array holding the stable sort of its old contents |
| Frames.SortedCopy | apps/gender.py:421 | sorting a copy of the filtered rows gives the stable sort of those rows |
| Dataset.SeriesMembers | apps/freedom.py:307-311 | a row is in a country's series (with values) exactly when it is a table row of that country and name (with a value) |
| Dataset.Latest | apps/freedom.py:313-316 | the last row after a Year sort exists exactly when the series is non-empty |
| Dataset.SecondLatest | utils.py:957 | `tail(2).head(1)` exists exactly when the series is non-empty |
| Dataset.LatestIsNewest | apps/freedom.py:313-316 | the latest row is in the series, has its greatest Year, and every later row in table order has an earlier Year |
| Dataset.SecondLatestIsNewestOfRest | utils.py:956-957 | with two rows or more, `tail(2).head(1)` is another row, of the greatest Year among the rest and no later than the latest |
| Dataset.LatestRow | utils.py:946-956 | sorting a copy by Year and reading `tail(1)` gives `Latest` |
| Dataset.LastTwoRows | utils.py:946-957 | sorting a copy and reading `tail(1)` and `tail(2).head(1)` gives `Latest` and `SecondLatest` |
| Dataset.LatestReading | apps/freedom.py:311-316 | there is a reading exactly when the country has a row of the indicator with a value |
| Dataset.LatestHasValue | apps/freedom.py:311-316 | after `dropna` the latest row has a value |
| Dataset.LatestReadingMeaning | apps/freedom.py:311-316 | the reading is the Year and value of a row of the series, and no valued row of the series has a later Year |
| Dataset.ReadLatest | apps/gender.py:589-597 | `dropna`, sort in place and read the last row gives `LatestReading` |
| Dataset.FilterKeepsSorted | app.py:45 | a selection from ordered rows is ordered |
| Dataset.SeriesOfSortedTable | app.py:45 | in the table as loaded, sorted by Country, Name and Year, each series is already in Year order, so the Year sort changes nothing |
| Ranking.RegionSeries | utils.py:613 | the region's rows of the indicator are no more than the table's rows |
| Ranking.LastPerCountry | utils.py:615 | `groupby('Country').tail(1)` keeps at most the rows given |
| Ranking.PositionOf | utils.py:624 | the first position of the country in the ranked rows, or none when it is absent |
| Ranking.CountryRank | utils.py:602-624 | IndexError exactly when none of the ranked rows is the country's, and no other error |
| Ranking.GetCountryRank | utils.py:602-624 | the three in-place sorts and the group tail give `CountryRank` |
| Ranking.RankOfRows | utils.py:622-624 | reading the rank off the ranked rows succeeds exactly when some row is of the country, and fails only with IndexError |
| Ranking.LastPerCountryDistinct | utils.py:615 | the group tail keeps one row per country |
| Ranking.LastPerCountryIsLatest | utils.py:614-615 | after the (Country, Year) sort, the row kept for a country has its greatest Year |
| Ranking.LastPerCountryKeepsCountries | utils.py:615 | the group tail keeps every country of its input |
| Ranking.RankFound | utils.py:624 | the rank is shown exactly when the country has a row in the region's series; otherwise IndexError |
| Ranking.RankedCount | utils.py:613-622 | there is one ranked row per distinct country of the region's series |
| Ranking.RankedRows | utils.py:613-622 | the ranked rows are each country's latest row, one per country, ordered by value (largest first when `ascending`, NaN last) |
| Ranking.RankBounds | utils.py:622-624 | a shown rank is "k of n" with 1 <= k <= n and n the number of countries of the region's series |
| RegionalAverage.JoinRow | utils.py:635-637 | a left-joined indicator row yields at least one merged row, all with its keys and value |
| RegionalAverage.LeftJoin | utils.py:635-637 | the left merge keeps every indicator row |
| RegionalAverage.BackFill | utils.py:640 | the back fill gives one population per merged row |
| RegionalAverage.ForwardFill | utils.py:639 | the forward fill gives one population per merged row |
| RegionalAverage.Product | utils.py:643 | value times population is defined exactly when both are |
| RegionalAverage.Ratio | utils.py:646 | the weighted average is defined exactly when the population sum is non-zero |
| RegionalAverage.Dedup | utils.py:645 | the group keys: the same years, each kept |
| RegionalAverage.DedupIncreasing | utils.py:645 | the group keys of sorted years are strictly increasing |
| RegionalAverage.WeightedAverage | utils.py:627-648 | one row per distinct Year of the region's indicator rows, increasing, each being Σ(value×population)/Σ(population) over that year with the back-filled population |
| RegionalAverage.WeightedAverageMeaning | utils.py:645-648 | the same, about the result built from the specification functions |
| RegionalAverage.DistinctYearsMeaning | utils.py:645 | the years of the result are increasing and are exactly the years of the merged rows |
| RegionalAverage.LeftJoinYears | utils.py:635-637 | the merged frame has a row of a year exactly when the indicator rows do |
| RegionalAverage.ConstantValueAverage | utils.py:643-646 | a year whose rows all hold the same value v has a weighted sum of v times the population sum |
| RegionalAverage.TwoCountryExample | utils.py:643-646 | populations 100 and 300 with values 50 and 10 average to 20 |
| RegionalAverage.ForwardFillOverwritten | utils.py:639-640 | a population after a known one is forward-filled by line 639, but line 640 leaves it missing, so the year has no average |
| RegionalAverage.MissingValueDilutes | utils.py:643-646 | a row with a population and no value still counts in the population sum |
| PyNum.Trunc | utils.py:1903 | `int()` truncates toward zero |
| PyNum.RoundHalfEven | utils.py:960 | `round()` is within one half of x, and ties go to the even integer |
| PyNum.RoundHalfEvenUnique | utils.py:960 | those two properties determine `round()` |
| PyNum.RoundTo | utils.py:958 | `round(x, d)` is a multiple of 10^-d within half a unit of x, and at a tie it is the even multiple |
| PyNum.RoundToUnique | utils.py:958 | those three properties determine `round(x, d)` |
| PyNum.PyInt | apps/freedom.py:314 | `int()` of a NaN raises ValueError; otherwise it truncates toward zero: within 1 of the value, never above a non-negative value and never below a negative one |
| PyNum.PyRoundInt | utils.py:960 | `int(round())` of a NaN raises ValueError; otherwise it is within one half, and even at a tie |
| PyNum.PyRoundTo | utils.py:958 | `round(nan, d)` is NaN; otherwise a multiple of 10^-d within half a unit, even at a tie |
| PyNum.RoundedToTenths | apps/gender.py:559-561 | `round(v, 1)` is within 0.05 of v |
| PyNum.RoundedToHundredths | utils.py:855 | `round(v, 2)` is within 0.005 of v |
| PyNum.RoundedToThousandths | utils.py:958 | `round(v, 3)` is within 0.0005 of v |
| PyNum.NatToDecimal | apps/freedom.py:323 | `str(n)` is decimal digits with no leading zero |
| PyNum.IntToDecimal | apps/freedom.py:323 | `str(n)` starts with '-' exactly for negative n |
| PyNum.ParseNatToDecimal | apps/freedom.py:323 | the digits of `str(n)` read back as n |
| PyNum.IntToDecimalRoundTrip | apps/freedom.py:323 | `int(str(n)) == n` for every int |
| PyNum.OutOfRoundTrip | apps/freedom.py:363-421 | a score shown as str(n) + '/' + str(max) reads back as n |
| PyNum.HundredText | apps/freedom.py:323 | `str(100)` is "100" |
| PyNum.OutOfHundredRoundTrip | apps/freedom.py:323 | a score shown as str(n) + '/100' reads back as n |
| IndicatorTables.ArrowRoundTrip | utils.py:965-972 | the arrow text loses nothing: the change reads back from "▲ c%", "▼ c%" or "0%", sign included |
| IndicatorTables.IntArrow | utils.py:965-972 | the text starts with ▲ exactly for a rise and with ▼ exactly for a fall |
| IndicatorTables.RealArrow | utils.py:965-972 | the GII change shows ▲ with the value when positive and ▼ with its absolute value when negative |
| IndicatorTables.RealArrowRoundTrip | utils.py:965-972 | the GII change text reads back as the value shown, and its arrow is that value's sign |
| IndicatorTables.PercentChange | utils.py:958-961 | the change raises ZeroDivisionError exactly when the second latest value is 0, and is NaN exactly when an operand is |
| IndicatorTables.PercentChangeInverse | utils.py:958-961 | the percent change is the growth that takes the earlier value to the later one |
| IndicatorTables.RecentChange | utils.py:958-972 | a zero second latest value raises ZeroDivisionError |
| IndicatorTables.RecentValue | utils.py:975-990 | the value cell raises ValueError exactly for a NaN outside GII; otherwise it reads back as `round(v, 3)` within 0.0005 for GII ("nan" for NaN), as int(v) out of 100 for a rate, and as `round(v)` within one half before "%" |
| IndicatorTables.RecentValueTable | utils.py:944-1000 | a shown table has a row, its Year cell reads back as the latest Year, and its value cell is the value cell of the latest row |
| IndicatorTables.MostRecentValueTable | utils.py:933-1000 | filtering, sorting a copy in place and reading the last two rows gives `RecentValueTable` |
| IndicatorTables.RecentValueTableEmpty | utils.py:948-949 | the table is the empty string exactly when the country has no row of the indicator |
| IndicatorTables.SingleRowChangeIsZero | utils.py:956-972 | with a single row both operands are that row, so the change shows "0%", or "0.0%" for GII |
| IndicatorTables.ZeroBaseRaises | utils.py:958-961 | a zero second latest value raises ZeroDivisionError, for every indicator |
| IndicatorTables.IntChangeReadsBack | utils.py:957-972 | outside GII a change that is computed has both operands and a nonzero base, and its cell reads back within one half of the percent change |
| IndicatorTables.RecentChangeShown | utils.py:951-972 | outside GII the change cell reads back within one half of the percent change, and the Year cell is the greatest Year of the series; `RecentGiiChangeShown` is the GII counterpart |
| IndicatorTables.GiiChangeCell | utils.py:958-972 | `round(c, 3)` in the GII change column reads back as a multiple of 0.001 within 0.0005 of c, "nan%" exactly for NaN, with the arrow as its sign |
| IndicatorTables.RecentGiiChangeShown | utils.py:951-972 | for GII the change cell reads back within 0.0005 of the percent change as a multiple of 0.001, "nan%" exactly when an operand is NaN, with the arrow as its sign |
| IndicatorTables.GiiTableChange | utils.py:958-972 | a shown GII table has a non-zero second latest value and shows the rounded percent change |
| IndicatorTables.GiiChangeOf | utils.py:958-972 | the rounded GII change of two values reads back within 0.0005 of their percent change |
| IndicatorTables.FirstRegion | utils.py:1904 | reading the region of a country's first row raises exactly when the country has no row |
| IndicatorTables.YearChange | utils.py:1905-1906 | the change of a one-row series raises IndexError |
| IndicatorTables.FreedomInTheWorldTable | utils.py:1888-1938 | a NaN latest value raises ValueError; a shown table with rows reads back as int(latest) out of the maximum, with the latest Year |
| IndicatorTables.FreedomInTheWorldTableOf | utils.py:1888-1938 | the step-by-step table equals `FreedomInTheWorldTable` |
| IndicatorTables.FreedomSingleRowRaises | utils.py:1905-1906 | a one-row series never yields a table |
| IndicatorTables.FreedomTableShown | utils.py:1900-1938 | a shown table has at least two rows, its change cell is the arrow text of int(latest) − int(second latest) (which reads back by ArrowRoundTrip), and the country has a row in its region's series |
| IndicatorTables.FotNRatingsDisagree | utils.py:1953-1992 | the regional labels rise with the score and the country labels fall; the two agree exactly on 41..60 |
| IndicatorTables.RegionalFotNRating | utils.py:1953 | one of the three labels: "Free" exactly above 70 and "Not Free" exactly up to 40 |
| IndicatorTables.CountryFotNRating | utils.py:1992 | one of the three labels: "Free" exactly up to 30 and "Not Free" exactly above 60 |
| IndicatorTables.RegionalFotNTable | utils.py:1941-1978 | a NaN latest score raises ValueError; a shown score reads back as int(latest) out of 100, rated by `RegionalFotNRating`, with the latest Year |
| IndicatorTables.CountryFotNTable | utils.py:1980-2016 | a NaN latest score raises ValueError; a shown score reads back as int(latest), rated by `CountryFotNRating`, with the latest Year |
| IndicatorTables.RegionalFotNTableOf | utils.py:1941-1978 | the step-by-step table equals `RegionalFotNTable` |
| IndicatorTables.CountryFotNTableOf | utils.py:1980-2016 | the step-by-step table equals `CountryFotNTable` |
| IndicatorTables.FotNTablesCompared | utils.py:1941-2016 | both tables rate the same truncated score; "NA" exactly when there is no row; a score up to 30 is "Not Free" in one and "Free" in the other |
| IndicatorTables.MaleMatches | utils.py:1013-1016 | the merged rows of one female row have its Year and value |
| IndicatorTables.MaleMatchesSingle | utils.py:1013-1016 | a Year present once in each series gives exactly one merged row |
| IndicatorTables.MaleMatchesNone | utils.py:1013-1016 | a female Year without a male row gives no merged row |
| IndicatorTables.Gap | utils.py:1017 | the gap is defined only when both rates are known and the male rate is non-zero |
| IndicatorTables.GapMeaning | utils.py:1017 | the gap is the share of the male rate by which the female rate trails it |
| IndicatorTables.LastTwo | utils.py:1019 | `tail(2)` keeps two rows, or all when fewer |
| IndicatorTables.FirstOfYear | utils.py:1028-1033 | the first merged row of a year is a row of that year, and there is none only when the count is 0 |
| IndicatorTables.GapPercentChange | utils.py:1033-1036 | the change is an int exactly when both gaps are known and the earlier one is non-zero |
| IndicatorTables.GenderGapTableOf | utils.py:1019-1067 | "NO DATA" exactly without merged rows; errors come only from the change; the value cell reads back within 0.05 of the latest gap ("nan%" when it is unknown) and the Year cell as the latest Year; `GenderGapChangeCell` states the change cell |
| IndicatorTables.GenderGapTable | utils.py:1003-1067 | "NO DATA" exactly when no Year has both a female and a male row |
| IndicatorTables.GenderGap | utils.py:1003-1067 | merging, sorting a copy and keeping `tail(2)` gives `GenderGapTable` |
| IndicatorTables.PreviousYearCheck | utils.py:1025-1038 | of the two Year-sorted kept rows, the Year before the latest occurs once exactly when the first row is of that Year, and its first row is then the first kept row |
| IndicatorTables.GenderGapChangeCell | utils.py:1031-1056 | the change cell is "NA" unless the kept rows are of the latest Year and the Year before it; then it is the arrow text of the percent change between their gaps rounded to tenths, and the table fails exactly when that change fails, with its error |
| IndicatorTables.GenderGapLastTwoSorted | utils.py:1018-1020 | the rows kept by `tail(2)` after the Year sort are at most two, in Year order |
| IndicatorTables.GenderGapNoChange | utils.py:1022-1038 | with no merged row the table says "NO DATA"; with one row the change is "NA" |
| ChartData.Placeholder | utils.py:592-597 | the placeholder has eleven rows |
| ChartData.CountryData | utils.py:583-599 | `getCountryData` never returns an empty frame |
| ChartData.CountryDataRows | utils.py:591-599 | with matching rows the result is exactly those rows in table order; otherwise eleven missing rows for 2006..2016 with the country and name |
| ChartData.SparklineBar | utils.py:115-152 | the bar value is the latest valued reading, the year range surrounds its Year, and the colour follows the ladder |
| ChartData.SparklineColour | utils.py:129-152 | one of five colours; orange exactly for a GII value |
| ChartData.SparklineColourMeaning | utils.py:129-152 | black exactly without a value or for another indicator; GII always orange; FitW and FotN colours step up as the value rises |
| ChartData.ScaleDivisor | utils.py:377-378 | ranges are divided by a positive number: 1 for GII, 100 otherwise |
| ChartData.Colorscale | utils.py:375-378 | two stops per category |
| ChartData.ColorbarLimits | utils.py:380-381 | reading the colourbar limits fails exactly when there is no category |
| ChartData.BuildColorscale | utils.py:373-381 | the loop builds `Colorscale` and the limits |
| ChartData.ColorscaleStops | utils.py:377-378 | category k gives stops 2k and 2k+1 at its scaled ends, in its colour |
| ChartData.BandOf | apps/freedom.py:583-599 | the band of a value holds it, and no band is found only when none holds it |
| ChartData.ColorscaleSorted | utils.py:373-378 | ascending categories give stops that never decrease |
| ChartData.AscendingEnds | apps/freedom.py:583-599 | in ascending categories a category ends no later than a later one |
| ChartData.Tiers | utils.py:1083-1087 | one tier per valued row of the aggregate score |
| ChartData.Tier | utils.py:1085-1087 | tier 0 exactly below 33.33, 1 exactly from 33.33 below 66.66, 2 exactly from 66.66 |
| ChartData.TierTotal | utils.py:1085-1087 | exactly one condition holds for every value, so the default 'blue' is never used; tiers rise with the value |
| ChartData.TiersDefined | utils.py:1085-1087 | every valued row gets a tier |
| ChartData.MobileBroadbandCost | utils.py:849-860 | sorting a copy and reading the last cost gives `MobileCost` |
| ChartData.MobileCost | utils.py:849-860 | "NA" exactly without a cost row; the cost slice is NaN exactly for a NaN cost, and otherwise within 0.005 of it |
| ChartData.CostComplement | utils.py:855-856 | below 100 the slices make up 100 with a positive remainder; from 100 on, or for NaN, nothing remains |
| Freedom.FreedomRating | apps/freedom.py:526-535 | one of the three ratings in its colour: "Free" exactly above 70, "Not Free" exactly up to 30 |
| Freedom.QuickLookRating | apps/freedom.py:319-331 | one of the three ratings in its colour: "Free" exactly above 60, "Not Free" exactly up to 30 |
| Freedom.NetRating | apps/freedom.py:443-454 | one of the three ratings in its colour: "Free" exactly above 70, "Not Free" exactly up to 40 |
| Freedom.FreedomQuickLook | apps/freedom.py:314-334 | black exactly without a score, then "NA" and "NO DATA"; otherwise the score reads back as int(score) out of 100 and is rated on int(score) |
| Freedom.NetQuickLook | apps/freedom.py:437-457 | black exactly without a score, then "NA" and "NA"; otherwise the score reads back as int(score) out of 100 and is rated on int(score) |
| Freedom.QuickLookSection1 | apps/freedom.py:305-357 | the cell is `FreedomQuickLook` of the latest aggregate reading |
| Freedom.QuickLookSection4 | apps/freedom.py:427-478 | the cell is `NetQuickLook` of the latest FotN reading |
| Freedom.ScoreQuickLookOf | apps/freedom.py:363-421 | quick looks 2 and 3, step by step, equal `ScoreQuickLook` |
| Freedom.ScoreQuickLook | apps/freedom.py:363-421 | "NA" exactly with no rows; one row raises; a NaN latest value raises ValueError; a shown value reads back as int(latest) out of the maximum |
| Freedom.ScoreQuickLookMatchesTable | apps/freedom.py:363-421 | the quick look and the rating table show the same "value/max"; no rows give "NA" against "NO DATA/max"; one row raises in both |
| Freedom.CalculateFreedomRating | apps/freedom.py:512-558 | the panel is the > 70 / > 30 ladder on the latest aggregate reading |
| Freedom.Panel | apps/freedom.py:520-538 | "NO DATA" exactly without a score, then year "NA" in black; otherwise the Year reads back, the rating is the ladder's and the score is shown as it is |
| Freedom.CalculateNetRating | apps/freedom.py:655-702 | the panel is the > 70 / > 40 ladder on the latest FotN reading |
| Freedom.NoScoreNoRating | apps/freedom.py:536-538 | the panel is black exactly when there is no score, with "NO DATA" and year "NA" |
| Freedom.RatingsMonotone | apps/freedom.py:319-331 | no ladder rates a higher score lower |
| Freedom.FreedomQuickLookDisagrees | apps/freedom.py:319-331 | quick look 1 and the panel disagree exactly on scores 61..70 and strictly between 30 and 31 |
| Freedom.NetQuickLookDisagrees | apps/freedom.py:443-454 | quick look 4 (on int(score)) and the panel disagree exactly strictly between 70 and 71 or 40 and 41 |
| Freedom.PanelAndQuickLookShareScore | apps/freedom.py:305-357 | a quick look and its panel lack a rating together |
| Freedom.CategoriesAscending | apps/freedom.py:583-599 | both category lists are ascending, and their colorscales rise from 0 to 1 |
| Freedom.CategoriesMatchPanels | apps/freedom.py:728-744 | every whole score falls in a category whose name and colour match the panel; scores strictly between 30 and 31 (40 and 41) fall in none |
| Freedom.SparklineAtBandEdges | utils.py:129-142 | the sparkline's >= and the panel's > part exactly at 30 and 70 (40 and 70 for FotN) |
| Gender.GiiQuickLook | apps/gender.py:422-430 | rounding the 'NA' sentinel raises TypeError, exactly when there is no GII value |
| Gender.PercentText | apps/gender.py:451-456 | "NA" exactly when there is no value |
| Gender.RoundedPercentText | apps/gender.py:559-561 | "NA" exactly when there is no value; otherwise a number within 0.05 of it and a suffix piece |
| Gender.QuickLookSection1 | apps/gender.py:413-436 | the cell is `GiiQuickLook` of the latest GII reading |
| Gender.PairQuickLook | apps/gender.py:442-545 | each cell is `PercentText` of its own series' latest reading |
| Gender.QuickLookSection4 | apps/gender.py:551-574 | the cell is `RoundedPercentText` of the latest women in STEM reading |
| Gender.PairCellsIndependent | apps/gender.py:444-463 | each cell is "NA" exactly when its own series has no value |
| Gender.CalculateGenderRating | apps/gender.py:585-621 | the panel is `GenderRating` of the latest GII reading |
| Gender.GiiRating | apps/gender.py:599-608 | every band gives the empty rating in orange |
| Gender.GenderRating | apps/gender.py:585-621 | a panel exactly with a score; its Year reads back and its score is within 0.0005 of the GII value |
| Gender.GenderRatingOutcome | apps/gender.py:599-617 | a panel exactly with a value, always the empty rating in orange; a missing score raises TypeError |
| Gender.GiiCellsAgree | apps/gender.py:422-430 | quick look 1 and the panel fail together and show the same rounded score |
| Gender.GiiCategoriesOneColour | apps/gender.py:646-662 | the GII categories are ascending, form a single-colour scale from 0 to 1, and every index in [0, 1] falls in one |
| Connectivity.PopulationText | apps/connectivity.py:357-360 | IndexError exactly when the country has no population row |
| Connectivity.UpdateCountryPopulation | apps/connectivity.py:357-360 | the in-place sort and last row give `PopulationText` |
| Connectivity.IncomeGroup | apps/connectivity.py:366-370 | IndexError exactly when the country has no row |
| Connectivity.SubRegion | apps/connectivity.py:376-380 | IndexError exactly when the country has no row |
| Connectivity.UpdateCountryIncomeGroup | apps/connectivity.py:366-370 | the in-place sort and last row give `IncomeGroup` |
| Connectivity.UpdateCountrySubRegion | apps/connectivity.py:376-380 | the in-place sort and last row give `SubRegion` |
| Connectivity.ProfileRegion | apps/connectivity.py:387-388 | IndexError exactly when the country has no row |
| Connectivity.SubRegionMatchesProfile | apps/connectivity.py:376-388 | the shown sub-region and the listed region coincide when the country's rows agree on Region |
| Connectivity.Unique | apps/connectivity.py:390-392 | `unique()` keeps at most the values given |
| Connectivity.UniqueMeaning | apps/connectivity.py:390-392 | `unique()` keeps every value and only those, each once, in order of first appearance |
| Connectivity.ProfileEntry | apps/connectivity.py:392-394 | an entry starts with two spaces and has no comma |
| Connectivity.RemoveCommas | apps/connectivity.py:394 | the result has no comma |
| Connectivity.RemoveCommasKeeps | apps/connectivity.py:394 | a name without commas is kept as it is |
| Connectivity.ProfileList | apps/connectivity.py:386-396 | IndexError exactly when the country has no row |
| Connectivity.ProfileListMeaning | apps/connectivity.py:386-396 | one entry per distinct country of the region, "  " and the name without commas, in first-appearance order; a NaN region lists nobody |
| Connectivity.PercentCell | apps/connectivity.py:470-474 | "NA" exactly without a row; an error exactly for a NaN last value |
| Connectivity.PercentCellMeaning | apps/connectivity.py:470-474 | a shown cell ends in "%" and reads back within one half of the value |
| Connectivity.LatestPercent | apps/connectivity.py:469-530 | quick looks 2-4 give `PercentCell` of the latest row |
| Connectivity.GenderLastIsLatest | apps/connectivity.py:410-421 | reading one sex's last row from both series sorted together is the latest row of that sex's own series |
| Connectivity.InternetUsersQuickLook | apps/connectivity.py:404-424 | the step-by-step quick look 1 equals `InternetUsers` |
| Connectivity.InternetUsers | apps/connectivity.py:404-424 | ValueError exactly when one of the three series ends in NaN, and no other error |
| Connectivity.InternetCellsIndependent | apps/connectivity.py:404-424 | each cell is "NA" exactly when its own series is empty |
| Urls.EncodeChar | apps/navbar.py:17 | UTF-8 uses one byte exactly for ASCII, and at most four |
| Urls.FirstBad | apps/navbar.py:161 | the decoder's scan stops at the first byte that does not continue the sequence |
| Urls.DecodeEncodeChar | apps/navbar.py:161 | decoding a character's encoding followed by more bytes yields that character first |
| Urls.DecodeEncode | apps/navbar.py:161 | UTF-8 decoding undoes UTF-8 encoding |
| Urls.Decode | apps/navbar.py:161 | decoding gives at most one character per byte, and nothing only for no bytes |
| Urls.HexValue | apps/navbar.py:161 | a hex digit of either case has a value below 16 |
| Urls.QuotePlusNoSlash | apps/navbar.py:17 | the quoted country has no '/', so it stays one path segment |
| Urls.QuotePlus | apps/navbar.py:17 | the quoted country has no space: spaces become '+' |
| Urls.PlusToSpace | apps/navbar.py:161 | the same length, with no '+' left |
| Urls.Unquote | apps/navbar.py:161 | a string without '%' is returned unchanged |
| Urls.Units | apps/navbar.py:161 | at most one unit per character, and none only for the empty string |
| Urls.DecodeUnits | apps/navbar.py:161 | at most one character per unit, and none only for no units |
| Urls.UnquoteQuotePlus | apps/navbar.py:161 | turning '+' back into spaces and unquoting gives back any quoted string |
| Urls.Split | index.py:20 | a split has at least one part |
| Urls.SplitParts | index.py:20-21 | no part holds '/', and there are two parts or more exactly when the string holds '/' |
| Urls.JoinSplit | index.py:20 | joining the parts with '/' gives the string back |
| Urls.SplitJoin | apps/navbar.py:161 | splitting parts without '/' joined by '/' gives the parts back |
| Navbar.AllCountries | apps/navbar.py:12 | the copy equals the country list, element by element |
| Navbar.CountryParam | apps/navbar.py:15-19 | "" exactly for the empty country; otherwise '/' and a segment without '/' |
| Navbar.GeneratePathname | apps/navbar.py:37-41 | a path shorter than 5 becomes "/connectivity/Afghanistan"; others are unchanged |
| Navbar.NavHrefs | apps/navbar.py:44-88 | no links for a name shorter than 3; otherwise exactly three |
| Navbar.UpdateNavbar | apps/navbar.py:139-143 | TypeError exactly when the dropdown is cleared (`len(None)`); otherwise the buttons of NavHrefs for the selected name |
| Navbar.DropdownCountry | apps/navbar.py:157-164 | a chosen country is in the list; IndexError exactly for a short path and no countries; otherwise UnboundLocalError |
| Navbar.HrefParts | apps/navbar.py:60-85 | a section link splits into "", the section and the quoted country |
| Navbar.NavHrefsSections | apps/navbar.py:60-85 | the three links are connectivity, freedom and gender, each followed by the country parameter |
| Navbar.NavHrefsRoundTrip | apps/navbar.py:157-164 | following any navigation link sets the dropdown back to the country it was made for |
| Navbar.PlainSegmentCountry | apps/navbar.py:157-164 | a path "/section/name" whose name needs no unquoting shows that name when it is a known country, and raises UnboundLocalError otherwise |
| Navbar.DefaultPathnameCountry | apps/navbar.py:37-41 | the default path shows Afghanistan when it is a known country, and raises otherwise |
| Navbar.SectionWithoutCountry | apps/navbar.py:158-159 | a section path without a country shows the first country, or raises IndexError for none |
| Routing.DisplayPage | index.py:19-32 | IndexError exactly when the path holds no '/' |
| Routing.PageNamed | index.py:21-32 | 404 exactly for a name other than "/", "", connectivity, freedom, gender and about; the connectivity page exactly for the first three |
| Routing.PageOfSegment | index.py:21-32 | "" and "connectivity" open the connectivity page; freedom, gender and about open theirs; anything else is 404 |
| Routing.SlashSegmentUnreachable | index.py:21 | the `pagename == '/'` test never succeeds |
| Routing.NavHrefsRoute | index.py:19-32 | every navigation link opens its own section's page |
| Routing.DefaultPathnameRoute | index.py:19-24 | the default path opens the connectivity page |

## Left out

- Page markup, Plotly figures, Dash callback wiring, `apps/about.py`, `app.py`'s file loading and merges, and `assets/da2i-scripts.js`: these are presentation, framework and I/O. The table and the country list are parameters.
- Frames.SortInPlace: pandas' default single-column sort is quicksort, which does not promise stability. The model uses a stable sort, so ties in the sort key (Year, or value in Ranking.GetCountryRank) keep table order.
- How Python prints a float (`str(float)`, `"{0:,.0f}"`) is not modelled. A float piece of display text keeps the number itself. `str(int)` is modelled exactly.
- Floats are exact reals. Infinities are folded into `None`: the gender gap with a male rate of 0, and a zero population sum.
- IndicatorTables.Gap: a male rate of 0 gives `None` where pandas gives an infinity. For the latest year the value cell then shows "nan%" where the code shows "-inf%" (or "inf%" for a negative female rate). The change then raises ValueError where the code raises OverflowError from `int()` of an infinity.
- PyNum.RoundTo: computes `round(x, d)` on exact decimals, not on binary floats.
- IndicatorTables.GenderGap: the merge is on Country and Year. Both series are already one country's, so only Year is matched.
- IndicatorTables.YearChange: `iloc[-1, 2]` is taken to be the value column.
- The indicator descriptions and source-citation strings built from `Long.name` and `Source` are not modelled. Neither are any errors from reading them.
- Urls.Unquote: the characters below U+0080 and the wider ones are split into runs as `unquote` does. Decoding follows UTF-8 with one U+FFFD per maximal invalid subsequence. Surrogate-escape and other error handlers are not modelled.
- The charts' other traces (time series, choropleths, pies other than the cost split) are not modelled.
