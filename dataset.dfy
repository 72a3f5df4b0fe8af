/**
 * The `datasets` object of app.js:12-16 and the two steps that fill it:
 * `loadData` (app.js:284-325, without the `fetch` of the three files, whose
 * texts are parameters here) and `enrichRegions` (app.js:327-346, with the
 * geo features as a parameter).
 */
module Dataset {
  import opened Wrappers
  import opened Csv
  import opened Records
  import opened Regions

  class Datasets {
    var indicators: seq<Observation>
    var regions: seq<Region>
    var activities: seq<Activity>

    /** All three tables start empty. */
    constructor()
      ensures indicators == [] && regions == [] && activities == []
    {
      indicators := [];
      regions := [];
      activities := [];
    }

    /**
     * `loadData` on the texts of `indicators.csv`, `regions_reference.csv`
     * and `activity_reference.csv`. The tables are assigned one after the
     * other, so when a text has no line at all (where `parseCSV` throws) the
     * tables before it are already replaced and the rest keep their old
     * contents; `ok` is false then.
     */
    method LoadData(indicatorCsv: string, regionsCsv: string, activityCsv: string) returns (ok: bool)
      modifies this
      ensures ok <==> Parse(indicatorCsv).Some? && Parse(regionsCsv).Some? && Parse(activityCsv).Some?
      ensures Parse(indicatorCsv).Some? ==> indicators == Observations(Parse(indicatorCsv).value)
      ensures Parse(indicatorCsv).None? ==> indicators == old(indicators)
      ensures Parse(indicatorCsv).Some? && Parse(regionsCsv).Some? ==> regions == Records.Regions(Parse(regionsCsv).value)
      ensures !(Parse(indicatorCsv).Some? && Parse(regionsCsv).Some?) ==> regions == old(regions)
      ensures ok ==> activities == Catalogue(Records.Activities(Parse(activityCsv).value), indicators)
      ensures !ok ==> activities == old(activities)
    {
      var indicatorRows := ParseCsv(indicatorCsv);
      if indicatorRows.None? {
        return false;
      }
      indicators := Observations(indicatorRows.value);
      var regionRows := ParseCsv(regionsCsv);
      if regionRows.None? {
        return false;
      }
      regions := Records.Regions(regionRows.value);
      var activityRows := ParseCsv(activityCsv);
      if activityRows.None? {
        return false;
      }
      var reference := Records.Activities(activityRows.value);
      var extras := CollectExtras(ActivityNames(reference), indicators);
      activities := reference + ExtraEntries(extras);
      return true;
    }

    /** `enrichRegions`: every region with code `'0'` dropped, every other joined to the features by normalised name. */
    method EnrichRegions(features: seq<GeoFeature>)
      modifies this
      ensures regions == Enrich(old(regions), GeoIndex(features))
      ensures indicators == old(indicators) && activities == old(activities)
    {
      var byName := IndexByName(features);
      regions := Enrich(regions, byName);
    }
  }
}
