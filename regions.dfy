/**
 * Reconciliation of the region reference table with the geo features of the
 * map (`enrichRegions`, app.js:327-346): regions with code `'0'` (the country
 * total) are dropped, every other name goes through the fixed renaming table
 * `nameMappings` (app.js:18-28), and the result is joined to the features by
 * exact name. There is no case or punctuation folding.
 */
module Regions {
  import opened Wrappers
  import opened Records

  /** The properties of a geo feature that the join reads. */
  datatype GeoFeature = GeoFeature(name: Option<string>, hcKey: Option<string>, postalCode: Option<string>)

  /** `nameMappings` of app.js:18-28: reference-table names to geo-feature names. */
  const NameMappings: map<string, string> := map[
    "Республика Адыгея (Адыгея)" := "Республика Адыгея",
    "Республика Северная Осетия - Алания" := "Республика Северная Осетия",
    "Республика Татарстан (Татарстан)" := "Республика Татарстан",
    "Чувашская Республика - Чувашия" := "Чувашская Республика",
    "Кемеровская область - Кузбасс" := "Кемеровская область",
    "г. Москва" := "Москва",
    "г. Санкт-Петербург" := "Санкт-Петербург",
    "Ханты-Мансийский автономный округ - Югра" := "Ханты-Мансийский автономный округ",
    "г. Севастополь" := "г.Севастополь"
  ]

  /** `nameMappings[name] || name`. Every mapped name is a non-empty string, so `||` keeps it. */
  function NormalizedName(name: Option<string>): (r: Option<string>)
    ensures name.Some? && name.value in NameMappings ==> r == Some(NameMappings[name.value])
    ensures (name.None? || name.value !in NameMappings) ==> r == name
  {
    match name
    case Some(n) => if n in NameMappings then Some(NameMappings[n]) else name
    case None => None
  }

  /** The `geoByName` map after the `forEach` of app.js:330-332: a later feature with the same name replaces an earlier one. */
  function GeoIndex(features: seq<GeoFeature>): map<Option<string>, GeoFeature>
    decreases |features|
  {
    if features == [] then map[]
    else GeoIndex(features[..|features| - 1])[features[|features| - 1].name := features[|features| - 1]]
  }

  /** The `forEach` of app.js:329-332. */
  method IndexByName(features: seq<GeoFeature>) returns (byName: map<Option<string>, GeoFeature>)
    ensures byName == GeoIndex(features)
  {
    byName := map[];
    var i := 0;
    while i < |features|
      invariant 0 <= i <= |features|
      invariant byName == GeoIndex(features[..i])
    {
      assert features[..i + 1][..i] == features[..i];
      byName := byName[features[i].name := features[i]];
      i := i + 1;
    }
    assert features[..i] == features;
  }

  /** The `map` callback of app.js:336-345. */
  function EnrichRegion(region: Region, byName: map<Option<string>, GeoFeature>): Region {
    var normalized := NormalizedName(region.name);
    var found := normalized in byName;
    region.(normalizedName := normalized,
            hcKey := if found then byName[normalized].hcKey else None,
            postalCode := if found then byName[normalized].postalCode else None)
  }

  /** `region.code !== '0'`. */
  predicate Kept(region: Region) {
    region.code != Some("0")
  }

  /** The regions the filter keeps, in order. */
  function KeptRegions(regions: seq<Region>): (r: seq<Region>)
    ensures forall k :: 0 <= k < |r| ==> Kept(r[k]) && r[k] in regions
    ensures forall x :: x in regions && Kept(x) ==> x in r
  {
    if regions == [] then []
    else (if Kept(regions[0]) then [regions[0]] else []) + KeptRegions(regions[1..])
  }

  /** The `filter` then `map` of app.js:334-345. */
  function Enrich(regions: seq<Region>, byName: map<Option<string>, GeoFeature>): seq<Region> {
    var kept := KeptRegions(regions);
    seq(|kept|, k requires 0 <= k < |kept| => EnrichRegion(kept[k], byName))
  }

  // ---------------------------------------------------------------------------

  /** No renamed name is itself renamed again, so normalising twice is normalising once. */
  lemma NormalizedNameIdempotent(name: Option<string>)
    ensures NormalizedName(NormalizedName(name)) == NormalizedName(name)
  {
    forall n | n in NameMappings ensures NameMappings[n] !in NameMappings {
    }
  }

  /**
   * The join looks a name up among the features by exact equality: a name is
   * indexed exactly when some feature has it, and it is then the last such
   * feature that is kept.
   */
  lemma {:induction false} GeoIndexLastWins(features: seq<GeoFeature>, name: Option<string>)
    ensures name in GeoIndex(features) <==> exists k :: 0 <= k < |features| && features[k].name == name
    ensures name in GeoIndex(features) ==>
              exists k :: 0 <= k < |features| && GeoIndex(features)[name] == features[k] && features[k].name == name
                && forall j :: k < j < |features| ==> features[j].name != name
  {
    if features != [] {
      var init := features[..|features| - 1];
      var last := features[|features| - 1];
      GeoIndexLastWins(init, name);
      if last.name != name {
        if name in GeoIndex(features) {
          var k :| 0 <= k < |init| && GeoIndex(init)[name] == init[k] && init[k].name == name
                   && forall j :: k < j < |init| ==> init[j].name != name;
          assert features[k] == init[k];
          assert forall j :: k < j < |features| ==> features[j].name != name by {
            forall j | k < j < |features| ensures features[j].name != name {
              if j < |init| { assert features[j] == init[j]; }
            }
          }
        }
        if exists k :: 0 <= k < |features| && features[k].name == name {
          var k :| 0 <= k < |features| && features[k].name == name;
          assert init[k] == features[k];
        }
      } else {
        assert GeoIndex(features)[name] == features[|features| - 1];
      }
    }
  }

  /**
   * What `enrichRegions` leaves in `datasets.regions`: no region with code
   * `'0'`; the code and name of each kept region as they were; its normalised
   * name; and its `hcKey` and `postalCode` taken from the last feature whose
   * name is the normalised name, or `null` when no feature has it.
   */
  lemma EnrichedRegions(regions: seq<Region>, features: seq<GeoFeature>)
    ensures var out := Enrich(regions, GeoIndex(features));
            |out| == |KeptRegions(regions)|
            && forall k :: 0 <= k < |out| ==>
                 var src := KeptRegions(regions)[k];
                 && out[k].code == src.code && out[k].code != Some("0")
                 && out[k].name == src.name
                 && out[k].normalizedName == NormalizedName(src.name)
                 && ((exists j :: 0 <= j < |features| && features[j].name == out[k].normalizedName) <==>
                       NormalizedName(src.name) in GeoIndex(features))
                 && (NormalizedName(src.name) !in GeoIndex(features) ==> out[k].hcKey.None? && out[k].postalCode.None?)
  {
    var byName := GeoIndex(features);
    forall k | 0 <= k < |KeptRegions(regions)|
      ensures var n := NormalizedName(KeptRegions(regions)[k].name);
              (exists j :: 0 <= j < |features| && features[j].name == n) <==> n in byName
    {
      GeoIndexLastWins(features, NormalizedName(KeptRegions(regions)[k].name));
    }
  }

  /**
   * The key of a region is the key of the last feature with its normalised
   * name: when every feature carries an `hc-key`, a region has one exactly
   * when some feature's name matches.
   */
  lemma HcKeyFromLastMatch(region: Region, features: seq<GeoFeature>)
    requires Kept(region)
    requires forall j :: 0 <= j < |features| ==> features[j].hcKey.Some?
    ensures var r := EnrichRegion(region, GeoIndex(features));
            r.hcKey.Some? <==> exists j :: 0 <= j < |features| && features[j].name == r.normalizedName
    ensures var r := EnrichRegion(region, GeoIndex(features));
            r.hcKey.Some? ==>
              exists j :: 0 <= j < |features| && features[j].name == r.normalizedName && r.hcKey == features[j].hcKey
                && r.postalCode == features[j].postalCode
                && forall i :: j < i < |features| ==> features[i].name != r.normalizedName
  {
    GeoIndexLastWins(features, NormalizedName(region.name));
  }
}
