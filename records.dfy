/**
 * The rows of the three reference tables once parsed (the `map` callbacks of
 * `loadData`, app.js:291-313) and the synthesis of catalogue entries for
 * activities that only the indicator table names (app.js:315-324).
 *
 * A column absent from a table's header is `undefined` in every row; it is
 * `None` here.
 */
module Records {
  import opened Wrappers
  import opened JsString
  import opened JsNumber
  import opened Csv

  /** One row of the indicator table. */
  datatype Observation = Observation(
    year: Num,
    regionCode: Option<string>,
    regionName: Option<string>,
    activity: Option<string>,
    indicator: Option<string>,
    value: Option<real>,
    unit: Option<string>)

  /**
   * One region of the reference table. The last three fields are filled in by
   * `enrichRegions` and are `None` before it runs.
   */
  datatype Region = Region(
    code: Option<string>,
    name: Option<string>,
    normalizedName: Option<string>,
    hcKey: Option<string>,
    postalCode: Option<string>)

  /** One entry of the activity catalogue. */
  datatype Activity = Activity(code: Option<string>, name: Option<string>)

  /** The code given to activities missing from the reference table (an em dash). */
  const ExtraCode: string := "—"

  /** `row[key]`: `undefined` when the table has no such column. */
  function Column(row: Record, key: string): Option<string> {
    if key in row then Some(row[key]) else None
  }

  /** The cell as `(row[key] || '').replace(',', '.')`. */
  function RawValue(cell: Option<string>): string {
    ReplaceFirst(cell.GetOr([]), ',', '.')
  }

  /**
   * The `value` of an indicator row (app.js:292-300): the first comma becomes
   * a point, an empty cell gives `null`, and so does anything `Number` does
   * not read as a finite number.
   */
  function ParseValue(cell: Option<string>): (v: Option<real>)
    ensures v.Some? ==> cell.Some? && cell.value != []
    ensures v.Some? <==> RawValue(cell) != [] && ToNumber(RawValue(cell)).Finite?
    ensures v.Some? ==> ToNumber(RawValue(cell)) == Finite(v.value)
  {
    var raw := RawValue(cell);
    if raw == [] then None
    else
      match ToNumber(raw)
      case Finite(x) => Some(x)
      case _ => None
  }

  /** The row mapping of app.js:291-302. */
  function ObservationOf(row: Record): Observation {
    Observation(
      ToNumberOf(Column(row, "Год")),
      Column(row, "Код региона"),
      Column(row, "Регион"),
      Column(row, "Вид экономической деятельности"),
      Column(row, "Показатель"),
      ParseValue(Column(row, "Значение")),
      Column(row, "Единица измерения"))
  }

  /** The row mapping of app.js:305-308. */
  function RegionOf(row: Record): Region {
    Region(Column(row, "Код"), Column(row, "Наименование"), None, None, None)
  }

  /** The row mapping of app.js:310-313. */
  function ActivityOf(row: Record): Activity {
    Activity(Column(row, "Код ОКВЭД"), Column(row, "Наименование"))
  }

  function Observations(rows: seq<Record>): (r: seq<Observation>)
    ensures |r| == |rows| && forall k :: 0 <= k < |rows| ==> r[k] == ObservationOf(rows[k])
  {
    if rows == [] then [] else [ObservationOf(rows[0])] + Observations(rows[1..])
  }

  function Regions(rows: seq<Record>): (r: seq<Region>)
    ensures |r| == |rows| && forall k :: 0 <= k < |rows| ==> r[k] == RegionOf(rows[k])
  {
    if rows == [] then [] else [RegionOf(rows[0])] + Regions(rows[1..])
  }

  function Activities(rows: seq<Record>): (r: seq<Activity>)
    ensures |r| == |rows| && forall k :: 0 <= k < |rows| ==> r[k] == ActivityOf(rows[k])
  {
    if rows == [] then [] else [ActivityOf(rows[0])] + Activities(rows[1..])
  }

  // ---------------------------------------------------------------------------
  // Value parsing

  /** An empty or missing value is `null`, never 0. */
  lemma EmptyValueIsNull()
    ensures ParseValue(None) == None
    ensures ParseValue(Some("")) == None
  {
  }

  /**
   * A decimal comma reads like a decimal point: digits `w`, a comma and
   * digits `f` give the number the digits spell, scaled down by `10^|f|`,
   * which is what `w.f` gives.
   */
  lemma DecimalCommaValue(w: string, f: string)
    requires w != [] && AllDigits(w) && AllDigits(f)
    ensures AllDigits(w + f)
    ensures ParseValue(Some(w + "," + f)) == Some(Scale(DigitsValue(w + f), 0 - |f|))
    ensures ParseValue(Some(w + "," + f)) == ParseValue(Some(w + "." + f))
  {
    var s := w + "," + f;
    assert ',' !in w by {
      forall i | 0 <= i < |w| ensures w[i] != ',' { assert IsDigit(w[i]); }
    }
    assert s == w + ("," + f);
    IndexOfAfterPrefix(w, "," + f, ',');
    assert RawValue(Some(s)) == w + "." + f;
    assert '.' !in w by {
      forall i | 0 <= i < |w| ensures w[i] != '.' { assert IsDigit(w[i]); }
    }
    var t := w + "." + f;
    assert t == w + ("." + f);
    assert IndexOf(t, ',') == |t|;
    assert RawValue(Some(t)) == t;
    PointedNumber(w, f);
  }

  /** Only the first comma is replaced, so a value with a second comma is `null`. */
  lemma SecondCommaIsNull(s: string, j: nat)
    requires j < |s| && s[j] == ',' && IndexOf(s, ',') < j
    ensures ParseValue(Some(s)) == None
  {
    var raw := RawValue(Some(s));
    assert raw[j] == ',';
    CommaIsNotANumber(raw, j);
  }

  /** A finite number is kept as `Number` reads it, and a non-finite one becomes `null`. */
  lemma ParsedValueIsNumber(s: string)
    requires ',' !in s && s != []
    ensures ParseValue(Some(s)) == match ToNumber(s) case Finite(x) => Some(x) case _ => None
  {
    assert IndexOf(s, ',') == |s|;
    assert RawValue(Some(s)) == s;
  }

  // ---------------------------------------------------------------------------
  // Activity synthesis

  function ActivityNames(activities: seq<Activity>): (names: set<Option<string>>)
    ensures forall k :: 0 <= k < |activities| ==> activities[k].name in names
    ensures forall n :: n in names ==> exists k :: 0 <= k < |activities| && activities[k].name == n
  {
    set k | 0 <= k < |activities| :: activities[k].name
  }

  /**
   * The contents of the `extras` set in insertion order: each activity of the
   * indicator rows that the catalogue does not name, at its first occurrence.
   */
  function Extras(names: set<Option<string>>, rows: seq<Observation>): seq<Option<string>>
    decreases |rows|
  {
    if rows == [] then []
    else
      var init := Extras(names, rows[..|rows| - 1]);
      var a := rows[|rows| - 1].activity;
      if a in names || a in init then init else init + [a]
  }

  /** The `forEach` over the indicator rows of app.js:317-321. */
  method CollectExtras(names: set<Option<string>>, rows: seq<Observation>) returns (extras: seq<Option<string>>)
    ensures extras == Extras(names, rows)
  {
    extras := [];
    var i := 0;
    while i < |rows|
      invariant 0 <= i <= |rows|
      invariant extras == Extras(names, rows[..i])
    {
      assert rows[..i + 1][..i] == rows[..i];
      var a := rows[i].activity;
      if a !in names && a !in extras {
        extras := extras + [a];
      }
      i := i + 1;
    }
    assert rows[..i] == rows;
  }

  /** The catalogue after loading: the reference entries, then one entry per extra name with the code `'—'`. */
  function Catalogue(reference: seq<Activity>, rows: seq<Observation>): seq<Activity> {
    reference + ExtraEntries(Extras(ActivityNames(reference), rows))
  }

  function ExtraEntries(extras: seq<Option<string>>): (r: seq<Activity>)
    ensures |r| == |extras|
    ensures forall k :: 0 <= k < |extras| ==> r[k] == Activity(Some(ExtraCode), extras[k])
  {
    if extras == [] then [] else [Activity(Some(ExtraCode), extras[0])] + ExtraEntries(extras[1..])
  }

  /** The extras are exactly the activities of the rows that the catalogue does not name. */
  lemma {:induction false} ExtrasMembers(names: set<Option<string>>, rows: seq<Observation>, a: Option<string>)
    ensures a in Extras(names, rows) <==> a !in names && exists k :: 0 <= k < |rows| && rows[k].activity == a
  {
    if rows != [] {
      var init := rows[..|rows| - 1];
      ExtrasMembers(names, init, a);
      if a !in names && (exists k :: 0 <= k < |rows| && rows[k].activity == a) {
        var k :| 0 <= k < |rows| && rows[k].activity == a;
        if k < |init| { assert init[k].activity == a; }
      }
      if exists k :: 0 <= k < |init| && init[k].activity == a {
        var k :| 0 <= k < |init| && init[k].activity == a;
        assert rows[k].activity == a;
      }
    }
  }

  /** No name is synthesized twice. */
  lemma {:induction false} ExtrasDistinct(names: set<Option<string>>, rows: seq<Observation>)
    ensures forall i, j :: 0 <= i < j < |Extras(names, rows)| ==> Extras(names, rows)[i] != Extras(names, rows)[j]
  {
    if rows != [] {
      ExtrasDistinct(names, rows[..|rows| - 1]);
    }
  }

  /**
   * After loading, the reference entries come first and unchanged, every
   * activity of the indicator rows is named in the catalogue, and each
   * synthesized entry carries the code `'—'` and a name of its own.
   */
  lemma CatalogueCoversActivities(reference: seq<Activity>, rows: seq<Observation>)
    ensures Catalogue(reference, rows)[..|reference|] == reference
    ensures forall k :: 0 <= k < |rows| ==> rows[k].activity in ActivityNames(Catalogue(reference, rows))
    ensures forall k :: |reference| <= k < |Catalogue(reference, rows)| ==>
              Catalogue(reference, rows)[k].code == Some(ExtraCode)
              && Catalogue(reference, rows)[k].name !in ActivityNames(reference)
    ensures forall i, j :: |reference| <= i < j < |Catalogue(reference, rows)| ==>
              Catalogue(reference, rows)[i].name != Catalogue(reference, rows)[j].name
  {
    var names := ActivityNames(reference);
    var extras := Extras(names, rows);
    var all := Catalogue(reference, rows);
    assert all[..|reference|] == reference;
    forall k | 0 <= k < |rows| ensures rows[k].activity in ActivityNames(all) {
      var a := rows[k].activity;
      if a !in names {
        ExtrasMembers(names, rows, a);
        var e :| 0 <= e < |extras| && extras[e] == a;
        assert all[|reference| + e].name == a;
      } else {
        var r :| 0 <= r < |reference| && reference[r].name == a;
        assert all[r].name == a;
      }
    }
    forall k | |reference| <= k < |all| ensures all[k].code == Some(ExtraCode) && all[k].name !in names {
      var e := k - |reference|;
      assert all[k] == Activity(Some(ExtraCode), extras[e]);
      ExtrasMembers(names, rows, extras[e]);
    }
    ExtrasDistinct(names, rows);
  }
}
