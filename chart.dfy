/**
 * The data of the trend chart (`prepareChartSeries`, app.js:649-693): a dense
 * axis of years from the start to the end of the period, the indicator rows
 * that pass the filters, grouped by region or by activity, and one series per
 * group with a value or a hole for every year.
 *
 * Within a group, a later row for the same year replaces an earlier one
 * (`data.set(row.year, row.value)`); values are not averaged.
 */
module Chart {
  import opened Wrappers
  import opened JsString
  import opened JsNumber
  import opened Records
  import opened Aggregation

  /** The parts of `state` the chart reads. */
  datatype ChartState = ChartState(
    indicator: Option<string>,
    period: (Option<int>, Option<int>),
    regions: seq<Option<string>>,
    activities: seq<Option<string>>)

  // ---------------------------------------------------------------------------
  // The year axis

  /** How many years the loop of app.js:653-655 pushes. */
  function YearCount(period: (Option<int>, Option<int>)): nat {
    if Bound(period.1) >= Bound(period.0) then Bound(period.1) - Bound(period.0) + 1 else 0
  }

  /**
   * The year axis: every integer from the start to the end. A `null` start
   * is pushed as `null` and then incremented to 1, and a `null` end compares
   * as 0.
   */
  function Categories(period: (Option<int>, Option<int>)): (years: seq<Option<int>>)
    ensures |years| == YearCount(period)
    ensures forall k :: 0 <= k < |years| ==>
              years[k] == if k == 0 && period.0.None? then None else Some(Bound(period.0) + k)
  {
    seq(YearCount(period), k => if k == 0 && period.0.None? then None else Some(Bound(period.0) + k))
  }

  /** The loop of app.js:652-655. */
  method YearAxis(period: (Option<int>, Option<int>)) returns (years: seq<Option<int>>)
    ensures years == Categories(period)
  {
    years := [];
    var year := period.0;
    while Bound(year) <= Bound(period.1)
      invariant Bound(year) == Bound(period.0) + |years|
      invariant |years| > 0 ==> year.Some?
      invariant |years| == 0 ==> year == period.0
      invariant |years| <= YearCount(period)
      invariant years == Categories(period)[..|years|]
      decreases Bound(period.1) + 1 - Bound(year)
    {
      years := years + [year];
      year := Some(Bound(year) + 1);
    }
    assert |years| == YearCount(period);
  }

  /** With both ends set and `start <= end`, the axis is exactly the years from start to end. */
  lemma AxisIsEveryYear(start: int, end: int, y: int)
    requires start <= end
    ensures |Categories((Some(start), Some(end)))| == end - start + 1
    ensures Some(y) in Categories((Some(start), Some(end))) <==> start <= y <= end
  {
    var years := Categories((Some(start), Some(end)));
    if start <= y <= end {
      assert years[y - start] == Some(y);
    }
  }

  // ---------------------------------------------------------------------------
  // Rows and groups

  /** The filter callback of app.js:661-668. */
  predicate ChartMatches(row: Observation, st: ChartState) {
    && IndicatorMatches(row.indicator, st.indicator)
    && InPeriod(row.year, st.period)
    && ActivityMatches(row.activity, st.activities)
    && (st.regions == [] || row.regionCode in st.regions)
    && row.value.Some?
  }

  function Filtered(rows: seq<Observation>, st: ChartState): (r: seq<Observation>)
    ensures forall k :: 0 <= k < |r| ==> ChartMatches(r[k], st)
  {
    if rows == [] then []
    else Filtered(rows[..|rows| - 1], st) + (if ChartMatches(rows[|rows| - 1], st) then [rows[|rows| - 1]] else [])
  }

  datatype Dimension = ByRegion | ByActivity

  /** `groupBy` of app.js:670. */
  function GroupBy(st: ChartState): Dimension {
    if |st.regions| > 1 then ByRegion else if |st.activities| > 1 then ByActivity else ByRegion
  }

  function GroupKey(row: Observation, dim: Dimension): Option<string> {
    match dim
    case ByRegion => row.regionCode
    case ByActivity => row.activity
  }

  /** `datasets.regions.find((region) => region.code === code)`. */
  function FindRegion(regions: seq<Region>, code: Option<string>): (r: Option<Region>)
    ensures r.Some? ==> r.value in regions && r.value.code == code
    ensures r.None? ==> forall k :: 0 <= k < |regions| ==> regions[k].code != code
  {
    if regions == [] then None else if regions[0].code == code then Some(regions[0]) else FindRegion(regions[1..], code)
  }

  /** The name of a new group (app.js:677-680): `code. name` for a region, with the table's name preferred; the activity otherwise. */
  function GroupName(row: Observation, dim: Dimension, regions: seq<Region>): Option<string> {
    match dim
    case ByRegion =>
      var found := FindRegion(regions, row.regionCode);
      var name := if found.Some? && found.value.name.Some? then found.value.name else row.regionName;
      Some(Show(row.regionCode) + ". " + Show(name))
    case ByActivity => row.activity
  }

  /** An entry of the `groups` map: its key, its name, and its year-to-value map. */
  datatype Group = Group(key: Option<string>, name: Option<string>, data: map<Num, real>)

  function Keys(groups: seq<Group>): (r: seq<Option<string>>)
    ensures |r| == |groups| && forall k :: 0 <= k < |groups| ==> r[k] == groups[k].key
  {
    if groups == [] then [] else [groups[0].key] + Keys(groups[1..])
  }

  /** One step of the `forEach` of app.js:673-685. */
  function AddRow(groups: seq<Group>, row: Observation, dim: Dimension, regions: seq<Region>): seq<Group>
    requires row.value.Some?
  {
    var key := GroupKey(row, dim);
    if groups == [] then [Group(key, GroupName(row, dim, regions), map[row.year := row.value.value])]
    else if groups[0].key == key then [groups[0].(data := groups[0].data[row.year := row.value.value])] + groups[1..]
    else [groups[0]] + AddRow(groups[1..], row, dim, regions)
  }

  /** The `groups` map after the `forEach` over `rows`. */
  function Groups(rows: seq<Observation>, dim: Dimension, regions: seq<Region>): seq<Group>
    requires forall k :: 0 <= k < |rows| ==> rows[k].value.Some?
    decreases |rows|
  {
    if rows == [] then []
    else AddRow(Groups(rows[..|rows| - 1], dim, regions), rows[|rows| - 1], dim, regions)
  }

  /** A series of the chart. */
  datatype Series = Series(name: Option<string>, data: seq<Option<real>>)

  /** `group.data.has(year) ? group.data.get(year) : null`; a `null` year is never a key. */
  function ValueAt(data: map<Num, real>, year: Option<int>): Option<real> {
    if year.Some? && Finite(year.value as real) in data then Some(data[Finite(year.value as real)]) else None
  }

  function SeriesOf(group: Group, years: seq<Option<int>>): (s: Series)
    ensures s.name == group.name && |s.data| == |years|
    ensures forall k :: 0 <= k < |years| ==> s.data[k] == ValueAt(group.data, years[k])
  {
    Series(group.name, seq(|years|, k requires 0 <= k < |years| => ValueAt(group.data, years[k])))
  }

  function AllSeries(groups: seq<Group>, years: seq<Option<int>>): (r: seq<Series>)
    ensures |r| == |groups| && forall g :: 0 <= g < |groups| ==> r[g] == SeriesOf(groups[g], years)
  {
    if groups == [] then [] else [SeriesOf(groups[0], years)] + AllSeries(groups[1..], years)
  }

  /** The `{ series, categories }` object. */
  datatype ChartData = ChartData(series: seq<Series>, categories: seq<Option<int>>)

  /** `!indicator`: no indicator, or the empty string. */
  predicate NoIndicator(indicator: Option<string>) {
    indicator.None? || indicator.value == []
  }

  /** What `prepareChartSeries` returns. */
  function ChartOf(st: ChartState, regions: seq<Region>, rows: seq<Observation>): ChartData {
    var years := Categories(st.period);
    if NoIndicator(st.indicator) then ChartData([], years)
    else ChartData(AllSeries(Groups(Filtered(rows, st), GroupBy(st), regions), years), years)
  }

  /** The `forEach` of app.js:673-685 over the filtered rows. */
  method GroupRows(filtered: seq<Observation>, dim: Dimension, regions: seq<Region>) returns (groups: seq<Group>)
    requires forall k :: 0 <= k < |filtered| ==> filtered[k].value.Some?
    ensures groups == Groups(filtered, dim, regions)
  {
    groups := [];
    var i := 0;
    while i < |filtered|
      invariant 0 <= i <= |filtered|
      invariant groups == Groups(filtered[..i], dim, regions)
    {
      assert filtered[..i + 1][..i] == filtered[..i];
      groups := AddRow(groups, filtered[i], dim, regions);
      i := i + 1;
    }
    assert filtered[..i] == filtered;
  }

  /** The `forEach` of app.js:687-690: one series per group, in the order the groups were created. */
  method BuildSeries(groups: seq<Group>, years: seq<Option<int>>) returns (series: seq<Series>)
    ensures series == AllSeries(groups, years)
  {
    series := [];
    var g := 0;
    while g < |groups|
      invariant 0 <= g <= |groups|
      invariant series == AllSeries(groups[..g], years)
    {
      series := series + [SeriesOf(groups[g], years)];
      g := g + 1;
    }
    assert groups[..g] == groups;
  }

  /** `prepareChartSeries` on `state`, `datasets.regions` and `datasets.indicators`. */
  method PrepareChartSeries(st: ChartState, regions: seq<Region>, rows: seq<Observation>) returns (chart: ChartData)
    ensures chart == ChartOf(st, regions, rows)
  {
    var years := YearAxis(st.period);
    if NoIndicator(st.indicator) {
      return ChartData([], years);
    }
    var filtered := Filtered(rows, st);
    var groups := GroupRows(filtered, GroupBy(st), regions);
    var series := BuildSeries(groups, years);
    return ChartData(series, years);
  }

  // ---------------------------------------------------------------------------
  // What the chart shows

  /** A missing or empty indicator gives no series, over the same year axis. */
  lemma NoIndicatorNoSeries(st: ChartState, regions: seq<Region>, rows: seq<Observation>)
    requires NoIndicator(st.indicator)
    ensures ChartOf(st, regions, rows).series == []
    ensures ChartOf(st, regions, rows).categories == Categories(st.period)
  {
  }

  /** Every series has one value or hole per year of the axis. */
  lemma SeriesAreDense(st: ChartState, regions: seq<Region>, rows: seq<Observation>)
    ensures var chart := ChartOf(st, regions, rows);
            chart.categories == Categories(st.period)
            && forall g :: 0 <= g < |chart.series| ==> |chart.series[g].data| == |chart.categories|
  {
  }

  /** The value of the last row with this key and year, if any. */
  function LastValue(rows: seq<Observation>, dim: Dimension, key: Option<string>, year: Num): Option<real>
    requires forall k :: 0 <= k < |rows| ==> rows[k].value.Some?
    decreases |rows|
  {
    if rows == [] then None
    else
      var row := rows[|rows| - 1];
      if GroupKey(row, dim) == key && row.year == year then Some(row.value.value)
      else LastValue(rows[..|rows| - 1], dim, key, year)
  }

  function FindGroup(groups: seq<Group>, key: Option<string>): Option<Group> {
    if groups == [] then None else if groups[0].key == key then Some(groups[0]) else FindGroup(groups[1..], key)
  }

  lemma {:induction false} FindAfterAddRow(groups: seq<Group>, row: Observation, dim: Dimension, regions: seq<Region>, key: Option<string>)
    requires row.value.Some?
    ensures FindGroup(AddRow(groups, row, dim, regions), key) ==
      if key != GroupKey(row, dim) then FindGroup(groups, key)
      else match FindGroup(groups, key)
        case Some(g) => Some(g.(data := g.data[row.year := row.value.value]))
        case None => Some(Group(key, GroupName(row, dim, regions), map[row.year := row.value.value]))
  {
    if groups != [] && groups[0].key != GroupKey(row, dim) {
      FindAfterAddRow(groups[1..], row, dim, regions, key);
    }
  }

  /** The group of a key exists exactly when some row has that key. */
  lemma {:induction false} GroupExists(rows: seq<Observation>, dim: Dimension, regions: seq<Region>, key: Option<string>)
    requires forall k :: 0 <= k < |rows| ==> rows[k].value.Some?
    ensures FindGroup(Groups(rows, dim, regions), key).Some? <==> exists k :: 0 <= k < |rows| && GroupKey(rows[k], dim) == key
  {
    if rows != [] {
      var init := rows[..|rows| - 1];
      var row := rows[|rows| - 1];
      GroupExists(init, dim, regions, key);
      FindAfterAddRow(Groups(init, dim, regions), row, dim, regions, key);
      if exists k :: 0 <= k < |init| && GroupKey(init[k], dim) == key {
        var k :| 0 <= k < |init| && GroupKey(init[k], dim) == key;
        assert rows[k] == init[k];
      }
      if GroupKey(row, dim) != key && exists k :: 0 <= k < |rows| && GroupKey(rows[k], dim) == key {
        var k :| 0 <= k < |rows| && GroupKey(rows[k], dim) == key;
        assert k < |init| && init[k] == rows[k];
      }
    }
  }

  /** The map of a group sends a year to the value of the last row with the group's key and that year. */
  lemma {:induction false} GroupDataIsLastRow(rows: seq<Observation>, dim: Dimension, regions: seq<Region>, key: Option<string>, year: Num)
    requires forall k :: 0 <= k < |rows| ==> rows[k].value.Some?
    requires FindGroup(Groups(rows, dim, regions), key).Some?
    ensures var data := FindGroup(Groups(rows, dim, regions), key).value.data;
            (year in data <==> LastValue(rows, dim, key, year).Some?)
            && (year in data ==> LastValue(rows, dim, key, year) == Some(data[year]))
  {
    var init := rows[..|rows| - 1];
    var row := rows[|rows| - 1];
    FindAfterAddRow(Groups(init, dim, regions), row, dim, regions, key);
    if FindGroup(Groups(init, dim, regions), key).Some? {
      GroupDataIsLastRow(init, dim, regions, key, year);
    } else {
      GroupExists(init, dim, regions, key);
      LastValueNeedsRow(init, dim, key, year);
    }
  }

  /** A group is named after the FIRST row with its key; later rows only add years. */
  lemma {:induction false} GroupNamedByFirstRow(rows: seq<Observation>, dim: Dimension, regions: seq<Region>, key: Option<string>)
    requires forall k :: 0 <= k < |rows| ==> rows[k].value.Some?
    requires FindGroup(Groups(rows, dim, regions), key).Some?
    ensures exists k :: 0 <= k < |rows| && GroupKey(rows[k], dim) == key
              && (forall j :: 0 <= j < k ==> GroupKey(rows[j], dim) != key)
              && FindGroup(Groups(rows, dim, regions), key).value.name == GroupName(rows[k], dim, regions)
  {
    var init := rows[..|rows| - 1];
    var row := rows[|rows| - 1];
    FindAfterAddRow(Groups(init, dim, regions), row, dim, regions, key);
    GroupExists(init, dim, regions, key);
    if FindGroup(Groups(init, dim, regions), key).Some? {
      GroupNamedByFirstRow(init, dim, regions, key);
      var k :| 0 <= k < |init| && GroupKey(init[k], dim) == key
              && (forall j :: 0 <= j < k ==> GroupKey(init[j], dim) != key)
              && FindGroup(Groups(init, dim, regions), key).value.name == GroupName(init[k], dim, regions);
      assert rows[k] == init[k];
      assert forall j :: 0 <= j < k ==> rows[j] == init[j];
    } else {
      assert forall j :: 0 <= j < |init| ==> rows[j] == init[j];
      assert GroupKey(rows[|rows| - 1], dim) == key;
    }
  }

  /** A row opens a new group at the end exactly when its key has none yet. */
  lemma {:induction false} KeysAfterAddRow(groups: seq<Group>, row: Observation, dim: Dimension, regions: seq<Region>)
    requires row.value.Some?
    ensures var t := Keys(groups); var x := GroupKey(row, dim);
            Keys(AddRow(groups, row, dim, regions)) == if x in t then t else t + [x]
  {
    if groups != [] {
      KeysAfterAddRow(groups[1..], row, dim, regions);
      assert Keys(groups) == [groups[0].key] + Keys(groups[1..]);
    }
  }

  /** A key without rows has no last value. */
  lemma {:induction false} LastValueNeedsRow(rows: seq<Observation>, dim: Dimension, key: Option<string>, year: Num)
    requires forall k :: 0 <= k < |rows| ==> rows[k].value.Some?
    requires forall k :: 0 <= k < |rows| ==> GroupKey(rows[k], dim) != key
    ensures LastValue(rows, dim, key, year).None?
  {
    if rows != [] {
      LastValueNeedsRow(rows[..|rows| - 1], dim, key, year);
    }
  }

  predicate DistinctKeys(keys: seq<Option<string>>) {
    forall i, j :: 0 <= i < j < |keys| ==> keys[i] != keys[j]
  }

  lemma {:induction false} FindGroupIsEntry(groups: seq<Group>, g: nat)
    requires g < |groups| && DistinctKeys(Keys(groups))
    ensures FindGroup(groups, groups[g].key) == Some(groups[g])
  {
    if g > 0 {
      assert Keys(groups)[0] == groups[0].key && Keys(groups)[g] == groups[g].key;
      assert Keys(groups[1..]) == Keys(groups)[1..];
      FindGroupIsEntry(groups[1..], g - 1);
    } else {
      assert groups[0].key == groups[g].key;
    }
  }

  /** The groups come one per key, in the order their first rows occur. */
  lemma {:induction false} GroupKeysDistinct(rows: seq<Observation>, dim: Dimension, regions: seq<Region>)
    requires forall k :: 0 <= k < |rows| ==> rows[k].value.Some?
    ensures DistinctKeys(Keys(Groups(rows, dim, regions)))
  {
    if rows != [] {
      var init := rows[..|rows| - 1];
      GroupKeysDistinct(init, dim, regions);
      var t := Keys(Groups(init, dim, regions));
      var x := GroupKey(rows[|rows| - 1], dim);
      KeysAfterAddRow(Groups(init, dim, regions), rows[|rows| - 1], dim, regions);
      if x !in t {
        var r := t + [x];
        forall i, j | 0 <= i < j < |r| ensures r[i] != r[j] {
          if j == |t| {
            assert r[i] == t[i];
          }
        }
      }
    }
  }

  /**
   * One series per distinct key among the filtered rows, and at every year of
   * the axis a series holds the value of the LAST filtered row with its key
   * and that year, or a hole when there is none.
   */
  lemma LastRowWins(st: ChartState, regions: seq<Region>, rows: seq<Observation>, g: nat, k: nat)
    requires !NoIndicator(st.indicator)
    requires g < |ChartOf(st, regions, rows).series| && k < |Categories(st.period)|
    ensures var filtered := Filtered(rows, st);
            var groups := Groups(filtered, GroupBy(st), regions);
            var year := Categories(st.period)[k];
            && g < |groups|
            && (exists r :: 0 <= r < |filtered| && GroupKey(filtered[r], GroupBy(st)) == groups[g].key)
            && ChartOf(st, regions, rows).series[g].data[k] ==
                 if year.None? then None else LastValue(filtered, GroupBy(st), groups[g].key, Finite(year.value as real))
  {
    var filtered := Filtered(rows, st);
    var dim := GroupBy(st);
    var groups := Groups(filtered, dim, regions);
    var years := Categories(st.period);
    GroupKeysDistinct(filtered, dim, regions);
    FindGroupIsEntry(groups, g);
    GroupExists(filtered, dim, regions, groups[g].key);
    if years[k].Some? {
      GroupDataIsLastRow(filtered, dim, regions, groups[g].key, Finite(years[k].value as real));
    }
  }

  /** Grouping is by region when several regions are chosen, else by activity when several activities are, else by region. */
  lemma GroupingDimension(st: ChartState)
    ensures GroupBy(st) == ByActivity <==> |st.regions| <= 1 && |st.activities| > 1
  {
  }

  /** Every filtered row lands in the group of its key. */
  lemma EveryRowHasAGroup(st: ChartState, regions: seq<Region>, rows: seq<Observation>, r: nat)
    requires r < |Filtered(rows, st)|
    ensures var filtered := Filtered(rows, st);
            FindGroup(Groups(filtered, GroupBy(st), regions), GroupKey(filtered[r], GroupBy(st))).Some?
  {
    var filtered := Filtered(rows, st);
    GroupExists(filtered, GroupBy(st), regions, GroupKey(filtered[r], GroupBy(st)));
  }

  // ---------------------------------------------------------------------------
  // The filter and `find` exactly

  /** The filter keeps the order of the rows: a concatenation is filtered piece by piece. */
  lemma {:induction false} FilteredAppend(a: seq<Observation>, b: seq<Observation>, st: ChartState)
    ensures Filtered(a + b, st) == Filtered(a, st) + Filtered(b, st)
    decreases |b|
  {
    if b == [] {
      assert a + b == a;
    } else {
      var n := |b| - 1;
      assert (a + b)[..|a + b| - 1] == a + b[..n];
      assert (a + b)[|a + b| - 1] == b[n];
      FilteredAppend(a, b[..n], st);
    }
  }

  /** A single row is kept exactly when it matches. */
  lemma FilteredSingle(row: Observation, st: ChartState)
    ensures Filtered([row], st) == if ChartMatches(row, st) then [row] else []
  {
    assert [row][..0] == [];
  }

  /** The filter keeps exactly the matching rows. */
  lemma {:induction false} FilteredExactly(rows: seq<Observation>, st: ChartState)
    ensures forall x :: x in Filtered(rows, st) <==> x in rows && ChartMatches(x, st)
    decreases |rows|
  {
    if rows != [] {
      var n := |rows| - 1;
      FilteredExactly(rows[..n], st);
      assert rows == rows[..n] + [rows[n]];
      forall x
        ensures x in Filtered(rows, st) <==> x in rows && ChartMatches(x, st)
      {
        assert x in rows <==> x in rows[..n] || x == rows[n];
      }
    }
  }

  /** `find` returns the first region with the code. */
  lemma {:induction false} FindRegionIsFirst(regions: seq<Region>, code: Option<string>)
    ensures var r := FindRegion(regions, code);
            r.Some? ==> exists i :: 0 <= i < |regions| && regions[i] == r.value
                          && forall j :: 0 <= j < i ==> regions[j].code != code
    decreases |regions|
  {
    if regions != [] && regions[0].code != code {
      FindRegionIsFirst(regions[1..], code);
      var r := FindRegion(regions, code);
      if r.Some? {
        var i :| 0 <= i < |regions[1..]| && regions[1..][i] == r.value
                 && forall j :: 0 <= j < i ==> regions[1..][j].code != code;
        assert regions[i + 1] == r.value;
        forall j | 0 <= j < i + 1 ensures regions[j].code != code {
          if j > 0 { assert regions[j] == regions[1..][j - 1]; }
        }
      }
    } else if regions != [] {
      assert FindRegion(regions, code) == Some(regions[0]);
    }
  }
}
