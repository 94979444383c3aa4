/**
 * The country detail page (`country.js`): the records of the requested
 * country, a header with the latest score, two tables of the latest values of
 * eight indicators with their change against the record before, and one line
 * chart per indicator over the records sorted by year in place.
 *
 * Both the tables and the header read "the latest" and "the one before" by
 * position in the filtered records, and they are built before the chart sort
 * reorders the array; the lemmas below say what that means when the data is
 * and is not in year order.
 */
module Detail {
  import opened Dataset
  import opened Sorting

  // ---------------------------------------------------------------------------
  // The percent change column

  /** What `calculatePercentChange` returns, as the page shows it. */
  datatype Shown =
    | NoHistory                 // the number 0: fewer than two records
    | Fixed(hundredths: int)    // `toFixed(2)` of a finite change, counted in hundredths of a percent
    | Infinite(positive: bool)  // a nonzero value after a zero one: "Infinity" or "-Infinity"
    | NotANumber                // a missing value, or zero after zero: "NaN"

  function Abs(x: real): real {
    if x < 0.0 then -x else x
  }

  /**
   * `x.toFixed(2)`, in hundredths: the nearest multiple of 0.01, a tie going
   * to the one of larger magnitude.
   */
  function ToFixed2(x: real): (n: int)
    ensures x >= 0.0 ==> n as real - 0.5 <= 100.0 * x < n as real + 0.5
    ensures x < 0.0 ==> n as real - 0.5 < 100.0 * x <= n as real + 0.5
  {
    if x >= 0.0 then (100.0 * x + 0.5).Floor else -((0.5 - 100.0 * x).Floor)
  }

  /**
   * `((latest - previous) / previous * 100).toFixed(2)` for two field values,
   * either of which may be missing (`undefined` turns the arithmetic into NaN).
   */
  function ChangeBetween(latest: Option<real>, previous: Option<real>): Shown {
    if latest.None? || previous.None? then NotANumber
    else if previous.value != 0.0 then Fixed(ToFixed2(PercentChange(latest.value, previous.value)))
    else if latest.value == 0.0 then NotANumber
    else Infinite(latest.value > 0.0)
  }

  /**
   * `calculatePercentChange(data, variable)`: 0 for fewer than two records,
   * otherwise the change from the second-to-last record to the last one, by
   * position in `data` and not by year.
   */
  function CalculatePercentChange(data: seq<Record>, variable: string): (c: Shown)
    ensures c.NoHistory? <==> |data| < 2
  {
    if |data| < 2 then NoHistory
    else ChangeBetween(Lookup(data[|data| - 1], variable), Lookup(data[|data| - 2], variable))
  }

  /**
   * What the shown change means: "NaN" exactly when a value is missing or both
   * are zero, an infinity exactly when a nonzero value follows a zero one (with
   * the sign of the new value), and otherwise a number of hundredths `n` such
   * that growing the previous value by `n / 100` percent gives the latest value
   * up to half a hundredth of a percent of the previous value.
   */
  lemma ShownChangeMeaning(data: seq<Record>, variable: string)
    requires |data| >= 2
    ensures var c := CalculatePercentChange(data, variable);
      var latest, previous := Lookup(data[|data| - 1], variable), Lookup(data[|data| - 2], variable);
      && (c.NotANumber? <==> latest.None? || previous.None? || (latest == Some(0.0) && previous == Some(0.0)))
      && (c.Infinite? <==> latest.Some? && latest != Some(0.0) && previous == Some(0.0))
      && (c.Infinite? ==> (c.positive <==> latest.value > 0.0))
      && (c.Fixed? ==>
            && latest.Some? && previous.Some? && previous.value != 0.0
            && 2.0 * Abs(previous.value * (10000.0 + c.hundredths as real) - 10000.0 * latest.value)
               <= Abs(previous.value))
  {
    var c := CalculatePercentChange(data, variable);
    var latest, previous := Lookup(data[|data| - 1], variable), Lookup(data[|data| - 2], variable);
    if c.Fixed? {
      var l, p := latest.value, previous.value;
      RoundingError(l, p, PercentChange(l, p), c.hundredths);
    }
  }

  /** Rounding the change `r` to hundredths `n` moves the implied latest value by at most half a hundredth of a percent. */
  lemma RoundingError(l: real, p: real, r: real, n: int)
    requires p * (100.0 + r) == 100.0 * l
    requires n as real - 0.5 <= 100.0 * r <= n as real + 0.5
    ensures 2.0 * Abs(p * (10000.0 + n as real) - 10000.0 * l) <= Abs(p)
  {
    var e := n as real - 100.0 * r;
    assert p * (10000.0 + n as real) - 10000.0 * l == p * e by {
      assert 100.0 * (p * (100.0 + r)) == 10000.0 * l;
    }
    if p != 0.0 {
      // p * (1 - 2e) and p * (1 + 2e) both have the sign of p
      SignOfProduct(p, 1.0 - 2.0 * e);
      SignOfProduct(p, 1.0 + 2.0 * e);
      assert p * (1.0 - 2.0 * e) == p - 2.0 * (p * e);
      assert p * (1.0 + 2.0 * e) == p + 2.0 * (p * e);
    }
  }

  /** `item.percentChange > 0`: the test that picks the row's class. */
  predicate PositiveChange(c: Shown) {
    match c
    case NoHistory => false
    case Fixed(n) => n > 0
    case Infinite(positive) => positive
    case NotANumber => false
  }

  /** The class of the percent-change cell. */
  function ChangeClass(c: Shown): (cls: string)
    ensures cls == "positive-change" <==> PositiveChange(c)
    ensures !PositiveChange(c) ==> cls == "negative-change"
  {
    if PositiveChange(c) then "positive-change" else "negative-change"
  }

  /**
   * When a row is classed `positive-change`: both values are present and the
   * relative change, rounded to hundredths of a percent, is above zero (at
   * least 0.005 percent, that is 1/20000 of the previous value in the
   * previous value's direction), or a positive value follows a zero one.
   * Every other case, an unchanged value, a missing one and a single record
   * included, is classed `negative-change`. A negative previous value flips
   * the direction: a value that falls further below zero counts as positive.
   */
  lemma PositiveChangeIff(data: seq<Record>, variable: string)
    ensures PositiveChange(CalculatePercentChange(data, variable)) <==>
      && |data| >= 2
      && Lookup(data[|data| - 1], variable).Some?
      && Lookup(data[|data| - 2], variable).Some?
      && var latest, previous := data[|data| - 1].values[variable], data[|data| - 2].values[variable];
        || (previous > 0.0 && 20000.0 * (latest - previous) >= previous)
        || (previous < 0.0 && 20000.0 * (latest - previous) <= previous)
        || (previous == 0.0 && latest > 0.0)
  {
    if |data| >= 2 && Lookup(data[|data| - 1], variable).Some? && Lookup(data[|data| - 2], variable).Some? {
      var l, p := data[|data| - 1].values[variable], data[|data| - 2].values[variable];
      if p != 0.0 {
        var r := PercentChange(l, p);
        var n := ToFixed2(r);
        assert n > 0 <==> 200.0 * r >= 1.0;
        assert p * r == 100.0 * (l - p);
        assert p * (200.0 * r - 1.0) == 200.0 * (p * r) - p;
        SignOfProduct(p, 200.0 * r - 1.0);
      }
    }
  }

  /** Multiplying by a nonzero factor keeps or flips the sign of `x` with the factor's sign. */
  lemma SignOfProduct(p: real, x: real)
    requires p != 0.0
    ensures p > 0.0 ==> (x >= 0.0 <==> p * x >= 0.0)
    ensures p < 0.0 ==> (x >= 0.0 <==> p * x <= 0.0)
  {
    if p > 0.0 {
      if x < 0.0 { assert p * x < 0.0; }
    } else {
      if x < 0.0 { assert p * x > 0.0; }
    }
  }

  // ---------------------------------------------------------------------------
  // The tables

  /** The indicators charted on the page, in the order of their charts. */
  const ChartVariables: seq<string> := [
    "Log GDP per capita",
    "Social support",
    "Healthy life expectancy at birth",
    "Freedom to make life choices",
    "Generosity",
    "Perceptions of corruption",
    "Positive affect",
    "Negative affect"
  ]

  /** The rows of the first table. */
  const TableGroup1: seq<string> :=
    ["Log GDP per capita", "Social support", "Healthy life expectancy at birth", "Freedom to make life choices"]

  /** The rows of the second table. */
  const TableGroup2: seq<string> :=
    ["Generosity", "Perceptions of corruption", "Positive affect", "Negative affect"]

  /** The tooltip text of each known indicator. */
  const Definitions: map<string, string> := map[
    "Log GDP per capita" := "The logarithm of Gross Domestic Product per capita.",
    "Social support" := "Perceived social support in times of trouble.",
    "Healthy life expectancy at birth" := "Average number of years a newborn is expected to live in good health.",
    "Freedom to make life choices" := "Perceived freedom of choice in life decisions.",
    "Generosity" := "Willingness to donate time and resources to others.",
    "Perceptions of corruption" := "Perceived levels of corruption in society.",
    "Positive affect" := "Frequency of positive emotions.",
    "Negative affect" := "Frequency of negative emotions."
  ]

  /**
   * `getVariableDefinition(variable)`: the fixed text of a known indicator and
   * the empty text for any other name: exactly the charted indicators have a
   * text.
   */
  function VariableDefinition(variable: string): (d: string)
    ensures d != "" <==> variable in ChartVariables
    ensures variable in Definitions ==> d == Definitions[variable]
  {
    assert Definitions.Keys == set v | v in ChartVariables;
    if variable in Definitions then Definitions[variable] else ""
  }

  /** One table row. */
  datatype Row = Row(name: string, currentValue: Option<real>, percentChange: Shown, definition: string)

  /**
   * `variables.map(variable => ({ name, currentValue, percentChange, definition }))`
   * over the records `data` of one country, which the page guarantees are not
   * empty.
   */
  function BuildRows(data: seq<Record>, variables: seq<string>): (rows: seq<Row>)
    requires |data| > 0
    ensures |rows| == |variables|
    ensures forall i :: 0 <= i < |variables| ==>
      && rows[i].name == variables[i]
      && rows[i].currentValue == Lookup(data[|data| - 1], variables[i])
      && rows[i].percentChange == CalculatePercentChange(data, variables[i])
      && rows[i].definition == VariableDefinition(variables[i])
      && (rows[i].definition != "" <==> variables[i] in ChartVariables)
  {
    if |variables| == 0 then []
    else
      var v := variables[|variables| - 1];
      BuildRows(data, variables[..|variables| - 1]) +
        [Row(v, Lookup(data[|data| - 1], v), CalculatePercentChange(data, v), VariableDefinition(v))]
  }

  // ---------------------------------------------------------------------------
  // The charts

  /** `(a, b) => a.year - b.year`: earliest year first. */
  function ByYearAsc(): Comparator<Record> {
    (a: Record, b: Record) => (a.year - b.year) as real
  }

  function AnyRecord(): Record -> bool {
    (r: Record) => true
  }

  lemma RecordYearOrderConsistent()
    ensures ConsistentOn(ByYearAsc(), AnyRecord())
  {
  }

  /** One chart: the x-axis categories and the series, paired by index. */
  datatype Chart = Chart(variable: string, labels: seq<int>, dataValues: seq<Option<real>>)

  /** A plotted point: a year and the value drawn for it. */
  datatype Point = Point(year: int, value: Option<real>)

  /** The chart of one indicator over records `rs`, in their order. */
  function ChartOf(rs: seq<Record>, variable: string): (c: Chart)
    ensures c.variable == variable && |c.labels| == |rs| && |c.dataValues| == |rs|
    ensures forall i :: 0 <= i < |rs| ==> c.labels[i] == rs[i].year && c.dataValues[i] == Lookup(rs[i], variable)
  {
    Chart(variable,
      seq(|rs|, i requires 0 <= i < |rs| => rs[i].year),
      seq(|rs|, i requires 0 <= i < |rs| => Lookup(rs[i], variable)))
  }

  /** The points a chart draws: its labels and values paired by index. */
  function ChartPoints(c: Chart): seq<Point>
    requires |c.labels| == |c.dataValues|
  {
    seq(|c.labels|, i requires 0 <= i < |c.labels| => Point(c.labels[i], c.dataValues[i]))
  }

  /** The year and value of each record. */
  function Points(rs: seq<Record>, variable: string): seq<Point> {
    seq(|rs|, i requires 0 <= i < |rs| => Point(rs[i].year, Lookup(rs[i], variable)))
  }

  lemma PointsAppend(a: seq<Record>, b: seq<Record>, variable: string)
    ensures Points(a + b, variable) == Points(a, variable) + Points(b, variable)
  {
  }

  /** Rearranging the records rearranges their points. */
  lemma {:induction false} PointsPermute(s: seq<Record>, t: seq<Record>, variable: string)
    requires multiset(s) == multiset(t)
    ensures multiset(Points(s, variable)) == multiset(Points(t, variable))
    decreases |s|
  {
    if |s| > 0 {
      var x := s[0];
      assert x in multiset(t);
      var j :| 0 <= j < |t| && t[j] == x;
      var rest := RemoveAt(t, j);
      var px, left, right := Points([x], variable), Points(t[..j], variable), Points(t[j + 1..], variable);
      assert multiset(Points(s[1..], variable)) == multiset(Points(rest, variable)) by {
        assert s == [x] + s[1..];
        assert multiset(s[1..]) == multiset(rest);
        PointsPermute(s[1..], rest, variable);
      }
      assert Points(s, variable) == px + Points(s[1..], variable) by {
        assert s == [x] + s[1..];
        PointsAppend([x], s[1..], variable);
      }
      assert Points(t, variable) == left + px + right by {
        assert t == t[..j] + [x] + t[j + 1..];
        PointsAppend(t[..j] + [x], t[j + 1..], variable);
        PointsAppend(t[..j], [x], variable);
      }
      assert Points(rest, variable) == left + right by {
        PointsAppend(t[..j], t[j + 1..], variable);
      }
      MovedToFront(px, left, right);
    }
  }

  /** Moving a piece to the front does not change the multiset. */
  lemma MovedToFront<T>(x: seq<T>, a: seq<T>, b: seq<T>)
    ensures multiset(a + x + b) == multiset(x) + multiset(a + b)
  {
  }

  /**
   * The charts drawn from records `data`: the records sorted by year (a
   * rearrangement of `data`, same-year records keeping their order), labels
   * that never decrease, one label and one value per record, paired by index,
   * and exactly the year-value points of the records.
   */
  lemma ChartSeries(data: seq<Record>, variable: string)
    ensures var sorted := Sort(data, ByYearAsc()); var c := ChartOf(sorted, variable);
      && multiset(sorted) == multiset(data)
      && (forall k: Record :: TiesWith(sorted, ByYearAsc(), k) == TiesWith(data, ByYearAsc(), k))
      && |c.labels| == |data| && |c.dataValues| == |data|
      && (forall i, j :: 0 <= i < j < |c.labels| ==> c.labels[i] <= c.labels[j])
      && multiset(ChartPoints(c)) == multiset(Points(data, variable))
  {
    var sorted := Sort(data, ByYearAsc());
    var c := ChartOf(sorted, variable);
    RecordYearOrderConsistent();
    SortPermutes(data, ByYearAsc());
    assert AllOk(data, AnyRecord());
    SortSorted(data, ByYearAsc(), AnyRecord());
    forall k: Record ensures TiesWith(sorted, ByYearAsc(), k) == TiesWith(data, ByYearAsc(), k) {
      SortStable(data, ByYearAsc(), AnyRecord(), k);
    }
    forall i, j | 0 <= i < j < |c.labels| ensures c.labels[i] <= c.labels[j] {
      assert ByYearAsc()(sorted[i], sorted[j]) <= 0.0;
    }
    assert ChartPoints(c) == Points(sorted, variable);
    PointsPermute(sorted, data, variable);
  }

  /**
   * `renderBasicCharts(countryData, variables)`: sorts the caller's array by
   * year in place, then builds one chart per indicator from the sorted array.
   */
  method RenderBasicCharts(countryData: array<Record>, variables: seq<string>) returns (charts: seq<Chart>)
    modifies countryData
    ensures countryData[..] == Sort(old(countryData[..]), ByYearAsc())
    ensures |charts| == |variables|
    ensures forall i :: 0 <= i < |variables| ==> charts[i] == ChartOf(countryData[..], variables[i])
  {
    SortInPlace(countryData, ByYearAsc());
    var rs := countryData[..];
    charts := [];
    for i := 0 to |variables|
      invariant |charts| == i
      invariant forall k :: 0 <= k < i ==> charts[k] == ChartOf(rs, variables[k])
    {
      var labels := seq(|rs|, k requires 0 <= k < |rs| => rs[k].year);
      var dataValues := seq(|rs|, k requires 0 <= k < |rs| => Lookup(rs[k], variables[i]));
      charts := charts + [Chart(variables[i], labels, dataValues)];
    }
  }

  // ---------------------------------------------------------------------------
  // The page

  /** The header: the country, the year and score of its last record, and the score's change. */
  datatype Overview = Overview(name: string, year: int, score: Option<real>, change: Shown)

  /**
   * The values `renderCountryOverview` writes into the header: the year of the
   * last record, and the score and change a table row for the happiness score
   * would show.
   */
  function CountryOverview(name: string, countryData: seq<Record>): (o: Overview)
    requires |countryData| > 0
    ensures o.name == name && o.year == countryData[|countryData| - 1].year
    ensures var row := BuildRows(countryData, [LifeLadder])[0];
      o.score == row.currentValue && o.change == row.percentChange
    ensures o.change.NoHistory? <==> |countryData| < 2
  {
    var latest := countryData[|countryData| - 1];
    Overview(name, latest.year, Lookup(latest, LifeLadder), CalculatePercentChange(countryData, LifeLadder))
  }

  /** What the page shows: nothing, or the header, the two tables and the charts. */
  datatype Page = NoData | Details(overview: Overview, table1: seq<Row>, table2: seq<Row>, charts: seq<Chart>)

  /**
   * The page drawn from the records `countryData` of the country `name`: the
   * header and the tables from the records as given, the charts from the
   * records sorted by year.
   */
  function CountryPage(name: string, countryData: seq<Record>): Page
    requires |countryData| > 0
  {
    var sorted := Sort(countryData, ByYearAsc());
    Details(CountryOverview(name, countryData),
      BuildRows(countryData, TableGroup1),
      BuildRows(countryData, TableGroup2),
      seq(|ChartVariables|, i requires 0 <= i < |ChartVariables| => ChartOf(sorted, ChartVariables[i])))
  }

  /**
   * The page for the country named in the address (`None` when the address
   * names none): the records of that country, in their order in the data;
   * nothing when there are none; otherwise the page drawn from those records.
   */
  function DetailPage(data: seq<Record>, countryName: Option<string>): (page: Page)
    ensures page.NoData? <==> countryName.None? || !Occurs(data, countryName.value)
    ensures page.Details? ==> page == CountryPage(countryName.value, RecordsOf(data, countryName.value))
  {
    var countryData := if countryName.Some? then RecordsOf(data, countryName.value) else [];
    if |countryData| == 0 then NoData else CountryPage(countryName.value, countryData)
  }

  /**
   * `fetchAndRenderCountryDetails`, from the loaded records on: filter, stop
   * when nothing is found, otherwise render the header and the tables, then the
   * charts, which sort the filtered array in place.
   */
  method FetchAndRenderCountryDetails(data: seq<Record>, countryName: Option<string>) returns (page: Page)
    ensures page == DetailPage(data, countryName)
  {
    var countryData: seq<Record> := if countryName.Some? then RecordsOf(data, countryName.value) else [];
    if |countryData| == 0 {
      return NoData;
    }
    var overview := CountryOverview(countryName.value, countryData);
    var table1 := BuildRows(countryData, TableGroup1);
    var table2 := BuildRows(countryData, TableGroup2);
    var series := NewArray(countryData);
    var charts := RenderBasicCharts(series, ChartVariables);
    page := Details(overview, table1, table2, charts);
    assert page == CountryPage(countryName.value, countryData) by {
      var sorted := Sort(countryData, ByYearAsc());
      assert series[..] == sorted;
      assert charts == seq(|ChartVariables|, i requires 0 <= i < |ChartVariables| => ChartOf(sorted, ChartVariables[i]));
    }
  }

  /** The two tables list the charted indicators between them. */
  lemma TablesListChartVariables()
    ensures TableGroup1 + TableGroup2 == ChartVariables
    ensures |TableGroup1| == 4 && |TableGroup2| == 4
    ensures forall i :: 0 <= i < 4 ==> TableGroup1[i] == ChartVariables[i] && TableGroup2[i] == ChartVariables[4 + i]
    ensures forall v | v in TableGroup1 + TableGroup2 :: v in ChartVariables
  {
  }

  /**
   * The tables drawn from a country's records: one row per charted indicator,
   * the first four in the first table and the other four in the second, each
   * row with a definition and the value of the last record.
   */
  lemma TablesProperties(rs: seq<Record>)
    requires |rs| > 0
    ensures var t1, t2 := BuildRows(rs, TableGroup1), BuildRows(rs, TableGroup2);
      && |t1| == 4 && |t2| == 4
      && (forall i :: 0 <= i < 4 ==> t1[i].name == ChartVariables[i] && t2[i].name == ChartVariables[4 + i])
      && (forall row | row in t1 + t2 :: row.definition != "" && row.currentValue == Lookup(rs[|rs| - 1], row.name))
  {
    TablesListChartVariables();
    KnownRows(rs, TableGroup1);
    KnownRows(rs, TableGroup2);
  }

  /** Rows of charted indicators all have a definition and the last record's value. */
  lemma KnownRows(rs: seq<Record>, variables: seq<string>)
    requires |rs| > 0 && forall v | v in variables :: v in ChartVariables
    ensures forall row | row in BuildRows(rs, variables) ::
      row.definition != "" && row.currentValue == Lookup(rs[|rs| - 1], row.name)
  {
    var rows := BuildRows(rs, variables);
    forall row | row in rows ensures row.definition != "" && row.currentValue == Lookup(rs[|rs| - 1], row.name) {
      var i :| 0 <= i < |rows| && rows[i] == row;
      assert variables[i] in variables;
    }
  }

  /**
   * The charts drawn from a country's records: one per indicator, in order,
   * each with labels that never decrease and drawing exactly the year-value
   * points of the records.
   */
  lemma ChartsProperties(name: string, rs: seq<Record>)
    requires |rs| > 0
    ensures var charts := CountryPage(name, rs).charts;
      && |charts| == |ChartVariables|
      && forall i :: 0 <= i < |ChartVariables| ==>
        && charts[i].variable == ChartVariables[i]
        && |charts[i].labels| == |rs| && |charts[i].dataValues| == |rs|
        && (forall a, b :: 0 <= a < b < |rs| ==> charts[i].labels[a] <= charts[i].labels[b])
        && multiset(ChartPoints(charts[i])) == multiset(Points(rs, ChartVariables[i]))
  {
    var sorted := Sort(rs, ByYearAsc());
    var charts := CountryPage(name, rs).charts;
    forall i | 0 <= i < |ChartVariables| ensures
      && charts[i].variable == ChartVariables[i]
      && |charts[i].labels| == |rs| && |charts[i].dataValues| == |rs|
      && (forall a, b :: 0 <= a < b < |rs| ==> charts[i].labels[a] <= charts[i].labels[b])
      && multiset(ChartPoints(charts[i])) == multiset(Points(rs, ChartVariables[i]))
    {
      assert charts[i] == ChartOf(sorted, ChartVariables[i]);
      ChartSeries(rs, ChartVariables[i]);
    }
  }

  /**
   * When the country's records are already in year order, sorting changes
   * nothing: each row's current value is the last
   * value of its chart, the header's year is the last label, and the change
   * shown is the change between the chart's last two values.
   */
  lemma RowsAgreeWithCharts(data: seq<Record>, variable: string)
    requires |data| > 0 && Sorted(data, ByYearAsc())
    ensures var c := ChartOf(Sort(data, ByYearAsc()), variable); var n := |data|;
      && |c.labels| == n && |c.dataValues| == n
      && c.labels[n - 1] == data[n - 1].year
      && c.dataValues[n - 1] == BuildRows(data, [variable])[0].currentValue
      && (n >= 2 ==> CalculatePercentChange(data, variable) == ChangeBetween(c.dataValues[n - 1], c.dataValues[n - 2]))
  {
    SortOfSorted(data, ByYearAsc());
  }

  /**
   * Out of year order the tables and the charts can disagree: for two records
   * listed newest first, the row shows the older record's value while the
   * chart ends with the newer one.
   */
  lemma RowsCanDisagreeWithCharts(newer: Record, older: Record, variable: string)
    requires older.year < newer.year
    requires Lookup(newer, variable) != Lookup(older, variable)
    ensures var data := [newer, older]; var c := ChartOf(Sort(data, ByYearAsc()), variable);
      && BuildRows(data, [variable])[0].currentValue == Lookup(older, variable)
      && c.dataValues[1] == Lookup(newer, variable)
      && c.dataValues[1] != BuildRows(data, [variable])[0].currentValue
  {
    var data := [newer, older];
    assert data[..1] == [newer] && [newer][..0] == [];
    assert Sort([newer], ByYearAsc()) == [newer];
    assert ByYearAsc()(newer, older) > 0.0;
    assert Insert([newer], older, ByYearAsc()) == Insert([], older, ByYearAsc()) + [newer];
    assert Sort(data, ByYearAsc()) == [older, newer];
  }
}
