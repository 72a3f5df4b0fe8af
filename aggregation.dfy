/**
 * The map layer's data (`computeAggregatedValues` and `buildMapSeries`,
 * app.js:463-503): the mean value per region code over the indicator rows
 * that pass the current filters, and one map point per region that has a
 * map key.
 *
 * The JavaScript `Map` keyed by region code is an association list here: it
 * keeps the order in which codes are first set, as `Map.prototype.entries`
 * does.
 */
module Aggregation {
  import opened Wrappers
  import opened JsNumber
  import opened Records

  /** The filters the map applies, read from `state`. */
  datatype Filter = Filter(
    indicator: Option<string>,
    period: (Option<int>, Option<int>),
    activities: seq<Option<string>>)

  /** A relational comparison with a `null` bound reads the bound as 0. */
  function Bound(b: Option<int>): int {
    b.GetOr(0)
  }

  /**
   * `row.indicator !== indicator` is false exactly when both are the same
   * string: a `null` indicator matches no row, since a row's indicator is a
   * string or `undefined`.
   */
  predicate IndicatorMatches(rowIndicator: Option<string>, indicator: Option<string>) {
    indicator.Some? && rowIndicator == indicator
  }

  /** `!(row.year < start || row.year > end)`: a NaN year passes, since both comparisons are false. */
  predicate InPeriod(year: Num, period: (Option<int>, Option<int>)) {
    !(LessThan(year, Bound(period.0)) || GreaterThan(year, Bound(period.1)))
  }

  /** An empty activity filter lets every row through. */
  predicate ActivityMatches(activity: Option<string>, activities: seq<Option<string>>) {
    activities == [] || activity in activities
  }

  /** The four early returns of app.js:471-474. */
  predicate Matches(row: Observation, f: Filter) {
    && IndicatorMatches(row.indicator, f.indicator)
    && InPeriod(row.year, f.period)
    && ActivityMatches(row.activity, f.activities)
    && row.value.Some?
  }

  /** An entry of the `mapValues` map. */
  datatype Stat = Stat(code: Option<string>, total: real, count: nat)

  function Codes(t: seq<Stat>): (r: seq<Option<string>>)
    ensures |r| == |t| && forall k :: 0 <= k < |t| ==> r[k] == t[k].code
  {
    if t == [] then [] else [t[0].code] + Codes(t[1..])
  }

  /** `mapValues.set(key, {total: total + value, count: count + 1})`, starting from `{0, 0}` for a new key. */
  function AddValue(t: seq<Stat>, code: Option<string>, v: real): seq<Stat> {
    if t == [] then [Stat(code, v, 1)]
    else if t[0].code == code then [Stat(code, t[0].total + v, t[0].count + 1)] + t[1..]
    else [t[0]] + AddValue(t[1..], code, v)
  }

  /** The `mapValues` map after the `forEach` of app.js:470-481 over `rows`. */
  function Tally(rows: seq<Observation>, f: Filter): seq<Stat>
    decreases |rows|
  {
    if rows == [] then []
    else
      var t := Tally(rows[..|rows| - 1], f);
      var row := rows[|rows| - 1];
      if Matches(row, f) then AddValue(t, row.regionCode, row.value.value) else t
  }

  /** An element of the result of `computeAggregatedValues`. */
  datatype Aggregate = Aggregate(regionCode: Option<string>, value: Option<real>)

  /** `Array.from(mapValues.entries()).map(...)` of app.js:483-486. */
  function Means(t: seq<Stat>): (r: seq<Aggregate>)
    ensures |r| == |t|
    ensures forall k :: 0 <= k < |t| ==>
              r[k] == Aggregate(t[k].code, if t[k].count != 0 then Some(t[k].total / t[k].count as real) else None)
  {
    if t == [] then []
    else [Aggregate(t[0].code, if t[0].count != 0 then Some(t[0].total / t[0].count as real) else None)] + Means(t[1..])
  }

  /** `computeAggregatedValues` on the indicator rows and the current filters. */
  method ComputeAggregatedValues(rows: seq<Observation>, f: Filter) returns (result: seq<Aggregate>)
    ensures result == Means(Tally(rows, f))
  {
    var mapValues: seq<Stat> := [];
    var i := 0;
    while i < |rows|
      invariant 0 <= i <= |rows|
      invariant mapValues == Tally(rows[..i], f)
    {
      assert rows[..i + 1][..i] == rows[..i];
      var row := rows[i];
      if Matches(row, f) {
        mapValues := AddValue(mapValues, row.regionCode, row.value.value);
      }
      i := i + 1;
    }
    assert rows[..i] == rows;
    result := Means(mapValues);
  }

  // ---------------------------------------------------------------------------
  // The reference definition: sums and counts over the matching rows

  /** The sum of the values of the matching rows with this code. */
  function SumFor(rows: seq<Observation>, f: Filter, code: Option<string>): real
    decreases |rows|
  {
    if rows == [] then 0.0
    else
      var row := rows[|rows| - 1];
      SumFor(rows[..|rows| - 1], f, code) + (if Matches(row, f) && row.regionCode == code then row.value.value else 0.0)
  }

  /** The number of matching rows with this code. */
  function CountFor(rows: seq<Observation>, f: Filter, code: Option<string>): nat
    decreases |rows|
  {
    if rows == [] then 0
    else
      var row := rows[|rows| - 1];
      CountFor(rows[..|rows| - 1], f, code) + (if Matches(row, f) && row.regionCode == code then 1 else 0)
  }

  /** The stat kept for `code`, if any. */
  function Find(t: seq<Stat>, code: Option<string>): Option<Stat> {
    if t == [] then None else if t[0].code == code then Some(t[0]) else Find(t[1..], code)
  }

  lemma {:induction false} FindAfterAdd(t: seq<Stat>, code: Option<string>, v: real, other: Option<string>)
    ensures Find(AddValue(t, code, v), other) ==
      if other != code then Find(t, other)
      else match Find(t, code)
        case Some(s) => Some(Stat(code, s.total + v, s.count + 1))
        case None => Some(Stat(code, v, 1))
  {
    if t != [] && t[0].code != code {
      FindAfterAdd(t[1..], code, v, other);
    }
  }

  lemma {:induction false} SumWithoutRows(rows: seq<Observation>, f: Filter, code: Option<string>)
    ensures CountFor(rows, f, code) == 0 ==> SumFor(rows, f, code) == 0.0
  {
    if rows != [] {
      SumWithoutRows(rows[..|rows| - 1], f, code);
    }
  }

  /** The tally holds, for each code, exactly the sum and count of its matching rows, or nothing when there are none. */
  lemma {:induction false} TallyIsSumAndCount(rows: seq<Observation>, f: Filter, code: Option<string>)
    ensures Find(Tally(rows, f), code) ==
      if CountFor(rows, f, code) == 0 then None else Some(Stat(code, SumFor(rows, f, code), CountFor(rows, f, code)))
  {
    if rows != [] {
      var init := rows[..|rows| - 1];
      var row := rows[|rows| - 1];
      TallyIsSumAndCount(init, f, code);
      if Matches(row, f) {
        FindAfterAdd(Tally(init, f), row.regionCode, row.value.value, code);
        assert Tally(rows, f) == AddValue(Tally(init, f), row.regionCode, row.value.value);
        if row.regionCode == code {
          SumWithoutRows(init, f, code);
          assert CountFor(rows, f, code) == CountFor(init, f, code) + 1;
          assert SumFor(rows, f, code) == SumFor(init, f, code) + row.value.value;
        } else {
          assert CountFor(rows, f, code) == CountFor(init, f, code);
          assert SumFor(rows, f, code) == SumFor(init, f, code);
        }
      }
    }
  }

  /** A value opens a new entry at the end exactly when its code has none yet. */
  lemma {:induction false} CodesAfterAdd(t: seq<Stat>, code: Option<string>, v: real)
    ensures Codes(AddValue(t, code, v)) == if code in Codes(t) then Codes(t) else Codes(t) + [code]
  {
    if t != [] {
      CodesAfterAdd(t[1..], code, v);
      assert Codes(t) == [t[0].code] + Codes(t[1..]);
    }
  }

  lemma {:induction false} CodesDistinct(rows: seq<Observation>, f: Filter)
    ensures forall i, j :: 0 <= i < j < |Tally(rows, f)| ==> Tally(rows, f)[i].code != Tally(rows, f)[j].code
  {
    if rows != [] {
      var init := rows[..|rows| - 1];
      CodesDistinct(init, f);
      var t := Tally(init, f);
      var row := rows[|rows| - 1];
      if Matches(row, f) {
        var r := AddValue(t, row.regionCode, row.value.value);
        CodesAfterAdd(t, row.regionCode, row.value.value);
        assert Codes(r) == if row.regionCode in Codes(t) then Codes(t) else Codes(t) + [row.regionCode];
        forall i, j | 0 <= i < j < |r| ensures r[i].code != r[j].code {
          assert Codes(r)[i] == r[i].code && Codes(r)[j] == r[j].code;
          if j < |t| {
            assert Codes(t)[i] == t[i].code && Codes(t)[j] == t[j].code;
          } else {
            assert Codes(t)[i] == t[i].code;
          }
        }
      }
    }
  }

  lemma {:induction false} FindIsEntry(t: seq<Stat>, code: Option<string>, k: nat)
    requires k < |t| && t[k].code == code
    requires forall i, j :: 0 <= i < j < |t| ==> t[i].code != t[j].code
    ensures Find(t, code) == Some(t[k])
  {
    if k > 0 {
      FindIsEntry(t[1..], code, k - 1);
    }
  }

  lemma {:induction false} FindAbsent(t: seq<Stat>, code: Option<string>)
    requires forall k :: 0 <= k < |t| ==> t[k].code != code
    ensures Find(t, code) == None
  {
    if t != [] {
      FindAbsent(t[1..], code);
    }
  }

  /**
   * The aggregates: each code occurs once; a code occurs exactly when some
   * matching row has it; and its value is the total of the matching rows'
   * values with that code divided by their number, never `null`.
   */
  lemma AggregatesAreMeans(rows: seq<Observation>, f: Filter)
    ensures var agg := Means(Tally(rows, f));
            && (forall i, j :: 0 <= i < j < |agg| ==> agg[i].regionCode != agg[j].regionCode)
            && (forall k :: 0 <= k < |agg| ==>
                  CountFor(rows, f, agg[k].regionCode) > 0
                  && agg[k].value == Some(SumFor(rows, f, agg[k].regionCode) / CountFor(rows, f, agg[k].regionCode) as real))
            && (forall code :: CountFor(rows, f, code) > 0 ==> exists k :: 0 <= k < |agg| && agg[k].regionCode == code)
  {
    var t := Tally(rows, f);
    CodesDistinct(rows, f);
    forall k | 0 <= k < |t|
      ensures CountFor(rows, f, t[k].code) > 0
      ensures t[k] == Stat(t[k].code, SumFor(rows, f, t[k].code), CountFor(rows, f, t[k].code))
    {
      FindIsEntry(t, t[k].code, k);
      TallyIsSumAndCount(rows, f, t[k].code);
    }
    forall code | CountFor(rows, f, code) > 0 ensures exists k :: 0 <= k < |t| && t[k].code == code {
      TallyIsSumAndCount(rows, f, code);
      if forall k :: 0 <= k < |t| ==> t[k].code != code {
        FindAbsent(t, code);
      }
    }
  }

  /** A code no matching row has is absent from the aggregates. */
  lemma NoRowsNoAggregate(rows: seq<Observation>, f: Filter, code: Option<string>)
    requires CountFor(rows, f, code) == 0
    ensures forall k :: 0 <= k < |Means(Tally(rows, f))| ==> Means(Tally(rows, f))[k].regionCode != code
  {
    AggregatesAreMeans(rows, f);
  }

  // ---------------------------------------------------------------------------
  // Map points

  /** A point of the map series. */
  datatype MapPoint = MapPoint(hcKey: string, value: Option<real>, regionCode: Option<string>, name: Option<string>)

  /** `region.hcKey` is truthy: present and not the empty string. */
  predicate HasMapKey(region: Region) {
    region.hcKey.Some? && region.hcKey.value != []
  }

  /** `aggregates.find((item) => item.regionCode === code)`. */
  function FindAggregate(aggregates: seq<Aggregate>, code: Option<string>): (r: Option<Aggregate>)
    ensures r.Some? ==> r.value in aggregates && r.value.regionCode == code
    ensures r.None? ==> forall k :: 0 <= k < |aggregates| ==> aggregates[k].regionCode != code
  {
    if aggregates == [] then None
    else if aggregates[0].regionCode == code then Some(aggregates[0])
    else FindAggregate(aggregates[1..], code)
  }

  function PointOf(region: Region, aggregates: seq<Aggregate>): MapPoint
    requires HasMapKey(region)
  {
    var found := FindAggregate(aggregates, region.code);
    MapPoint(region.hcKey.value, if found.Some? then found.value.value else None, region.code, region.name)
  }

  /** The `filter` then `map` of `buildMapSeries` (app.js:491-501). */
  function MapSeries(regions: seq<Region>, aggregates: seq<Aggregate>): seq<MapPoint> {
    if regions == [] then []
    else (if HasMapKey(regions[0]) then [PointOf(regions[0], aggregates)] else []) + MapSeries(regions[1..], aggregates)
  }

  /** The regions that have a map key, in order. */
  function KeyedRegions(regions: seq<Region>): (r: seq<Region>)
    ensures forall k :: 0 <= k < |r| ==> HasMapKey(r[k])
  {
    if regions == [] then []
    else (if HasMapKey(regions[0]) then [regions[0]] else []) + KeyedRegions(regions[1..])
  }

  /** `buildMapSeries`: the aggregates computed from the rows, then one point per keyed region. */
  function BuildMapSeries(regions: seq<Region>, rows: seq<Observation>, f: Filter): seq<MapPoint> {
    MapSeries(regions, Means(Tally(rows, f)))
  }

  lemma {:induction false} MapSeriesPerKeyedRegion(regions: seq<Region>, aggregates: seq<Aggregate>)
    ensures |MapSeries(regions, aggregates)| == |KeyedRegions(regions)|
    ensures forall k :: 0 <= k < |KeyedRegions(regions)| ==>
              MapSeries(regions, aggregates)[k] == PointOf(KeyedRegions(regions)[k], aggregates)
  {
    if regions != [] {
      MapSeriesPerKeyedRegion(regions[1..], aggregates);
    }
  }

  /**
   * The map series has exactly one point per region with a map key, in the
   * order of `datasets.regions`; a point is `null` exactly when no matching
   * row has the region's code, and otherwise holds the mean of those rows.
   */
  lemma MapSeriesPoints(regions: seq<Region>, rows: seq<Observation>, f: Filter)
    ensures var series := BuildMapSeries(regions, rows, f);
            var keyed := KeyedRegions(regions);
            |series| == |keyed|
            && forall k :: 0 <= k < |keyed| ==>
                 && series[k].hcKey == keyed[k].hcKey.value
                 && series[k].regionCode == keyed[k].code
                 && series[k].name == keyed[k].name
                 && (series[k].value.None? <==> CountFor(rows, f, keyed[k].code) == 0)
                 && (series[k].value.Some? ==>
                       series[k].value.value == SumFor(rows, f, keyed[k].code) / CountFor(rows, f, keyed[k].code) as real)
  {
    var agg := Means(Tally(rows, f));
    MapSeriesPerKeyedRegion(regions, agg);
    AggregatesAreMeans(rows, f);
    var keyed := KeyedRegions(regions);
    forall k | 0 <= k < |keyed|
      ensures var p := PointOf(keyed[k], agg);
              (p.value.None? <==> CountFor(rows, f, keyed[k].code) == 0)
              && (p.value.Some? ==> p.value.value == SumFor(rows, f, keyed[k].code) / CountFor(rows, f, keyed[k].code) as real)
    {
      var found := FindAggregate(agg, keyed[k].code);
      if found.Some? {
        var j :| 0 <= j < |agg| && agg[j] == found.value;
      }
    }
  }

  /** The filter of `buildMapSeries` keeps the order of the regions: a concatenation is filtered piece by piece. */
  lemma {:induction false} KeyedRegionsAppend(a: seq<Region>, b: seq<Region>)
    ensures KeyedRegions(a + b) == KeyedRegions(a) + KeyedRegions(b)
    decreases |a|
  {
    if a == [] {
      assert a + b == b;
    } else {
      assert (a + b)[0] == a[0] && (a + b)[1..] == a[1..] + b;
      KeyedRegionsAppend(a[1..], b);
    }
  }

  /** A single region is kept exactly when it has a map key. */
  lemma KeyedRegionsSingle(region: Region)
    ensures KeyedRegions([region]) == if HasMapKey(region) then [region] else []
  {
    assert [region][1..] == [];
  }

  /** The filter keeps exactly the regions with a map key. */
  lemma {:induction false} KeyedRegionsExactly(regions: seq<Region>)
    ensures forall x :: x in KeyedRegions(regions) <==> x in regions && HasMapKey(x)
    decreases |regions|
  {
    if regions != [] {
      KeyedRegionsExactly(regions[1..]);
      assert regions == [regions[0]] + regions[1..];
      forall x
        ensures x in KeyedRegions(regions) <==> x in regions && HasMapKey(x)
      {
        assert x in regions <==> x == regions[0] || x in regions[1..];
      }
    }
  }

  /** `find` returns the first aggregate with the code. */
  lemma {:induction false} FindAggregateIsFirst(aggregates: seq<Aggregate>, code: Option<string>)
    ensures var r := FindAggregate(aggregates, code);
            r.Some? ==> exists i :: 0 <= i < |aggregates| && aggregates[i] == r.value
                          && forall j :: 0 <= j < i ==> aggregates[j].regionCode != code
    decreases |aggregates|
  {
    if aggregates != [] && aggregates[0].regionCode != code {
      FindAggregateIsFirst(aggregates[1..], code);
      var r := FindAggregate(aggregates, code);
      if r.Some? {
        var i :| 0 <= i < |aggregates[1..]| && aggregates[1..][i] == r.value
                 && forall j :: 0 <= j < i ==> aggregates[1..][j].regionCode != code;
        assert aggregates[i + 1] == r.value;
        forall j | 0 <= j < i + 1 ensures aggregates[j].regionCode != code {
          if j > 0 { assert aggregates[j] == aggregates[1..][j - 1]; }
        }
      }
    } else if aggregates != [] {
      assert FindAggregate(aggregates, code) == Some(aggregates[0]);
    }
  }
}
