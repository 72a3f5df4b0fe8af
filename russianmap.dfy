/**
 * The data steps of the stand-alone map page (true-russian-map-main/app.js):
 * the string hash behind its synthetic metric values, the repair of feature
 * properties, the registry of regions by postal code, the colour scale and
 * the extreme entries shown as insights.
 */
module RussianMap {
  import opened Wrappers
  import opened JsString
  import opened JsNumber

  // ---------------------------------------------------------------------------
  // pseudoRandom (true-russian-map-main/app.js:403-409)

  /** The modulus of the hash. */
  const HashModulus: int := 2147483647

  /** JavaScript's `%` on integers: the remainder takes the sign of the dividend. */
  function JsRem(a: int, b: int): (r: int)
    requires b > 0
    ensures a >= 0 ==> 0 <= r < b
    ensures a < 0 ==> -b < r <= 0
  {
    if a >= 0 then a % b else -((-a) % b)
  }

  /** `hash` after the loop has read all of `s` (the character code is the code point). */
  function Hash(s: string, seed: int): int
    decreases |s|
  {
    if s == [] then 0
    else JsRem(Hash(s[..|s| - 1], seed) * 31 + s[|s| - 1] as int + seed, HashModulus)
  }

  /** `(hash % 1000) / 1000`. */
  function Fraction(hash: int): real {
    JsRem(hash, 1000) as real / 1000.0
  }

  /** `pseudoRandom(str, seed)`. */
  method PseudoRandom(str: string, seed: int) returns (r: real)
    ensures r == Fraction(Hash(str, seed))
  {
    var hash := 0;
    var i := 0;
    while i < |str|
      invariant 0 <= i <= |str|
      invariant hash == Hash(str[..i], seed)
    {
      assert str[..i + 1][..i] == str[..i];
      hash := JsRem(hash * 31 + str[i] as int + seed, HashModulus);
      i := i + 1;
    }
    assert str[..i] == str;
    r := Fraction(hash);
  }

  /** With a non-negative seed (the page passes `index + 1`), the hash stays in `[0, 2147483647)`. */
  lemma {:induction false} HashInRange(s: string, seed: int)
    requires seed >= 0
    ensures 0 <= Hash(s, seed) < HashModulus
  {
    if s != [] {
      HashInRange(s[..|s| - 1], seed);
    }
  }

  /** ... and so the result of `pseudoRandom` lies in `[0, 1)`, in steps of a thousandth. */
  lemma PseudoRandomInUnitInterval(s: string, seed: int)
    requires seed >= 0
    ensures 0.0 <= Fraction(Hash(s, seed)) < 1.0
    ensures Fraction(Hash(s, seed)) == (Hash(s, seed) % 1000) as real / 1000.0
  {
    HashInRange(s, seed);
  }

  /** Any seed keeps the hash strictly between `-2147483647` and `2147483647`, and the result in `(-1, 1)`. */
  lemma HashBounded(s: string, seed: int)
    ensures -HashModulus < Hash(s, seed) < HashModulus
    ensures -1.0 < Fraction(Hash(s, seed)) < 1.0
  {
    if s != [] {
      var h := Hash(s[..|s| - 1], seed) * 31 + s[|s| - 1] as int + seed;
      assert Hash(s, seed) == JsRem(h, HashModulus);
    }
  }

  // ---------------------------------------------------------------------------
  // Feature properties (true-russian-map-main/app.js:180-192)

  /** A JavaScript value as it can appear among the properties of a feature; an object or array carries its identity. */
  datatype JsValue = Undefined | Null | Bool(b: bool) | Number(n: Num) | Text(s: string) | Object(id: nat)

  /** JavaScript truthiness. */
  predicate Truthy(v: JsValue) {
    match v
    case Undefined => false
    case Null => false
    case Bool(b) => b
    case Number(n) => n != NaN && n != Finite(0.0)
    case Text(s) => s != []
    case Object(_) => true
  }

  /** A properties object: its own keys and their values. */
  type Properties = map<string, JsValue>

  /** Reading a key: a missing key reads as `undefined`. */
  function Get(p: Properties, key: string): JsValue {
    if key in p then p[key] else Undefined
  }

  const NameKey: string := "name"
  const PostalKey: string := "postal-code"
  const HcKey: string := "hc-key"

  /** The name given to a feature without one. */
  const Unnamed: string := "Без названия"

  /** The name after the two name steps of true-russian-map-main/app.js:182-187; `decode` stands for `decodeCyrillic`. */
  function RepairedName(name: JsValue, decode: string -> string): JsValue {
    var decoded := if name.Text? && name.s != [] then Text(decode(name.s)) else name;
    if Truthy(decoded) then decoded else Text(Unnamed)
  }

  /** The name steps of true-russian-map-main/app.js:182-187 on the copy `p`: the key is written when the name is a string or falsy. */
  function NameStep(p: Properties, decode: string -> string): Properties {
    var name := Get(p, NameKey);
    if name.Text? || !Truthy(name) then p[NameKey := RepairedName(name, decode)] else p
  }

  /** The postal step of true-russian-map-main/app.js:188-190. */
  function PostalStep(p: Properties): Properties {
    var hc := Get(p, HcKey);
    if !Truthy(Get(p, PostalKey)) && hc.Text? then p[PostalKey := Text(ToUpperAscii(LastTwo(hc.s)))] else p
  }

  /** `normalizeProperties(properties)`. `null` and `undefined` (`None`) spread to an empty object. */
  function NormalizeProperties(properties: Option<Properties>, decode: string -> string): Properties {
    PostalStep(NameStep(properties.GetOr(map[]), decode))
  }

  lemma KeysDiffer()
    ensures NameKey != PostalKey && NameKey != HcKey && PostalKey != HcKey
  {
    assert NameKey[0] == 'n' && PostalKey[0] == 'p' && HcKey[0] == 'h';
  }

  /**
   * A truthy postal code is kept; a falsy one next to a string `hc-key`
   * becomes its last two characters upper-cased, and otherwise stays as it
   * was.
   */
  lemma NormalizedPostalCode(properties: Option<Properties>, decode: string -> string)
    ensures var p := properties.GetOr(map[]);
            var r := NormalizeProperties(properties, decode);
            && (Truthy(Get(p, PostalKey)) ==> Get(r, PostalKey) == Get(p, PostalKey))
            && (!Truthy(Get(p, PostalKey)) && Get(p, HcKey).Text? ==>
                  Get(r, PostalKey) == Text(ToUpperAscii(LastTwo(Get(p, HcKey).s))))
            && (!Truthy(Get(p, PostalKey)) && !Get(p, HcKey).Text? ==> Get(r, PostalKey) == Get(p, PostalKey))
  {
    KeysDiffer();
    var p := properties.GetOr(map[]);
    assert Get(NameStep(p, decode), PostalKey) == Get(p, PostalKey);
    assert Get(NameStep(p, decode), HcKey) == Get(p, HcKey);
  }

  /**
   * The name is never falsy afterwards: a truthy non-string name is kept, a
   * non-empty string name is decoded unless decoding empties it, and a falsy
   * one becomes `"Без названия"`.
   */
  lemma NormalizedFeatureName(properties: Option<Properties>, decode: string -> string)
    ensures var p := properties.GetOr(map[]);
            var r := NormalizeProperties(properties, decode);
            && Truthy(Get(r, NameKey))
            && (Truthy(Get(p, NameKey)) && !Get(p, NameKey).Text? ==> Get(r, NameKey) == Get(p, NameKey))
            && (Get(p, NameKey).Text? && Get(p, NameKey).s != [] && decode(Get(p, NameKey).s) != [] ==>
                  Get(r, NameKey) == Text(decode(Get(p, NameKey).s)))
            && (!Truthy(Get(p, NameKey)) ==> Get(r, NameKey) == Text(Unnamed))
  {
    var p := properties.GetOr(map[]);
    var name := Get(p, NameKey);
    var q := NameStep(p, decode);
    assert Get(q, NameKey) == if name.Text? || !Truthy(name) then RepairedName(name, decode) else name;
    assert Get(PostalStep(q), NameKey) == Get(q, NameKey) by {
      KeysDiffer();
    }
    assert Truthy(Text(Unnamed)) by {
      assert Unnamed[0] == 'Б';
    }
  }

  /** No key other than the name and the postal code is added, removed or changed. */
  lemma NormalizedOtherKeys(properties: Option<Properties>, decode: string -> string, k: string)
    requires k != NameKey && k != PostalKey
    ensures var p := properties.GetOr(map[]);
            var r := NormalizeProperties(properties, decode);
            (k in r <==> k in p) && Get(r, k) == Get(p, k)
  {
    var p := properties.GetOr(map[]);
    var q := NameStep(p, decode);
    assert (k in q <==> k in p) && Get(q, k) == Get(p, k);
  }

  /** The postal code of a feature without one is the upper-cased tail of its `hc-key`: `"ru-msk"` gives `"SK"`. */
  lemma PostalFromHcKey(decode: string -> string)
    ensures Get(NormalizeProperties(Some(map[HcKey := Text("ru-msk")]), decode), PostalKey) == Text("SK")
  {
    var p: Properties := map[HcKey := Text("ru-msk")];
    KeysDiffer();
    var q := NameStep(p, decode);
    assert q == p[NameKey := Text(Unnamed)];
    assert Get(q, PostalKey) == Undefined && Get(q, HcKey) == Text("ru-msk");
    assert LastTwo("ru-msk") == "sk";
    assert ToUpperAscii("sk") == "SK" by {
      assert UpperChar('s') == 'S' && UpperChar('k') == 'K';
    }
  }

  // ---------------------------------------------------------------------------
  // projectToLatLng (true-russian-map-main/app.js:145-178)

  /** GeoJSON coordinates: a position `[x, y]`, or an array of coordinates. */
  datatype Coordinates = Position(x: real, y: real) | Nested(items: seq<Coordinates>)

  /** `transformCoords`: every position reprojected by `toLatLng` (`mercatorToLatLng`), the nesting kept. */
  function Transform(c: Coordinates, toLatLng: (real, real) -> (real, real)): (r: Coordinates)
    ensures c.Position? <==> r.Position?
    ensures c.Nested? ==> |r.items| == |c.items|
  {
    match c
    case Position(x, y) => Position(toLatLng(x, y).0, toLatLng(x, y).1)
    case Nested(items) => Nested(seq(|items|, k requires 0 <= k < |items| => Transform(items[k], toLatLng)))
  }

  datatype Geometry = Geometry(kind: string, coordinates: Coordinates)

  /** A feature: its `type`, its `properties` (`None` when missing) and its geometry. */
  datatype Feature = Feature(kind: string, properties: Option<Properties>, geometry: Geometry)

  /** The normalised properties of every feature, in order. */
  function Normalized(features: seq<Feature>, decode: string -> string): (ps: seq<Properties>)
    ensures |ps| == |features|
  {
    if features == [] then [] else [NormalizeProperties(features[0].properties, decode)] + Normalized(features[1..], decode)
  }

  lemma {:induction false} NormalizedAt(features: seq<Feature>, decode: string -> string, k: nat)
    requires k < |features|
    ensures Normalized(features, decode)[k] == NormalizeProperties(features[k].properties, decode)
  {
    if k > 0 {
      NormalizedAt(features[1..], decode, k - 1);
    }
  }

  /** The copy of a feature that `projectToLatLng` pushes. */
  function Projected(f: Feature, p: Properties, toLatLng: (real, real) -> (real, real)): Feature {
    Feature(f.kind, Some(p), Geometry(f.geometry.kind, Transform(f.geometry.coordinates, toLatLng)))
  }

  /** The postal code the normalised properties `p` are registered under. */
  function CodeOf(p: Properties): JsValue {
    Get(p, PostalKey)
  }

  /** The `features` array: the projected copies of the features whose normalised properties `ps` have a truthy postal code, in order. */
  function KeptFeatures(features: seq<Feature>, ps: seq<Properties>, toLatLng: (real, real) -> (real, real)): seq<Feature>
    requires |ps| == |features|
    decreases |features|
  {
    if features == [] then []
    else
      var n := |features| - 1;
      KeptFeatures(features[..n], ps[..n], toLatLng)
        + (if Truthy(CodeOf(ps[n])) then [Projected(features[n], ps[n], toLatLng)] else [])
  }

  /** `regionByCode` after the `forEach`: a later feature with the same code replaces an earlier one. */
  function Registry(ps: seq<Properties>): map<JsValue, Properties>
    decreases |ps|
  {
    if ps == [] then map[]
    else
      var p := ps[|ps| - 1];
      var init := Registry(ps[..|ps| - 1]);
      if Truthy(CodeOf(p)) then init[CodeOf(p) := p] else init
  }

  /** The module-level state the map page keeps about regions. */
  class MapPage {
    /** `regionByCode`. */
    var regionByCode: map<JsValue, Properties>

    constructor()
      ensures regionByCode == map[]
    {
      regionByCode := map[];
    }

    /**
     * `projectToLatLng(geojson)` on the features of `geojson`; the other keys
     * of the collection are copied unchanged by the caller's spread. The
     * registry is cleared first, so it depends on the features only.
     */
    method ProjectToLatLng(features: seq<Feature>, decode: string -> string, toLatLng: (real, real) -> (real, real))
      returns (projected: seq<Feature>)
      modifies this
      ensures regionByCode == Registry(Normalized(features, decode))
      ensures projected == KeptFeatures(features, Normalized(features, decode), toLatLng)
    {
      ghost var ps := Normalized(features, decode);
      regionByCode := map[];
      projected := [];
      var i := 0;
      while i < |features|
        invariant 0 <= i <= |features|
        invariant regionByCode == Registry(ps[..i])
        invariant projected == KeptFeatures(features[..i], ps[..i], toLatLng)
      {
        assert features[..i + 1][..i] == features[..i];
        assert ps[..i + 1][..i] == ps[..i];
        var normalized := NormalizeProperties(features[i].properties, decode);
        NormalizedAt(features, decode, i);
        assert normalized == ps[..i + 1][i];
        var code := Get(normalized, PostalKey);
        if Truthy(code) {
          var feature := Projected(features[i], normalized, toLatLng);
          regionByCode := regionByCode[code := normalized];
          projected := projected + [feature];
        }
        i := i + 1;
      }
      assert features[..i] == features;
      assert ps[..i] == ps;
    }
  }

  /**
   * Exactly the truthy postal codes are registered, each with the
   * normalised properties of the LAST feature carrying it.
   */
  lemma {:induction false} RegistryHoldsLast(ps: seq<Properties>, code: JsValue)
    ensures code in Registry(ps) <==> Truthy(code) && exists k :: 0 <= k < |ps| && CodeOf(ps[k]) == code
    ensures code in Registry(ps) ==>
              exists k :: 0 <= k < |ps| && CodeOf(ps[k]) == code && Registry(ps)[code] == ps[k]
                && forall j :: k < j < |ps| ==> CodeOf(ps[j]) != code
  {
    if ps != [] {
      var init := ps[..|ps| - 1];
      var last := ps[|ps| - 1];
      RegistryHoldsLast(init, code);
      if Truthy(CodeOf(last)) && CodeOf(last) == code {
        assert CodeOf(ps[|ps| - 1]) == code;
      } else {
        if code in Registry(ps) {
          var k :| 0 <= k < |init| && CodeOf(init[k]) == code && Registry(init)[code] == init[k]
                   && forall j :: k < j < |init| ==> CodeOf(init[j]) != code;
          assert ps[k] == init[k];
          assert forall j :: k < j < |ps| ==> CodeOf(ps[j]) != code by {
            forall j | k < j < |ps| ensures CodeOf(ps[j]) != code {
              if j < |init| { assert ps[j] == init[j]; }
            }
          }
        }
        if Truthy(code) && exists k :: 0 <= k < |ps| && CodeOf(ps[k]) == code {
          var k :| 0 <= k < |ps| && CodeOf(ps[k]) == code;
          assert k < |init| && init[k] == ps[k];
        }
      }
    }
  }

  /** Every kept feature carries normalised properties with a truthy postal code, under which it is registered. */
  lemma {:induction false} KeptFeaturesRegistered(features: seq<Feature>, ps: seq<Properties>, toLatLng: (real, real) -> (real, real))
    requires |ps| == |features|
    ensures forall k :: 0 <= k < |KeptFeatures(features, ps, toLatLng)| ==>
              KeptFeatures(features, ps, toLatLng)[k].properties.Some?
              && Truthy(CodeOf(KeptFeatures(features, ps, toLatLng)[k].properties.value))
              && CodeOf(KeptFeatures(features, ps, toLatLng)[k].properties.value) in Registry(ps)
  {
    if features != [] {
      var n := |features| - 1;
      KeptFeaturesRegistered(features[..n], ps[..n], toLatLng);
      var before := KeptFeatures(features[..n], ps[..n], toLatLng);
      var kept := KeptFeatures(features, ps, toLatLng);
      assert Registry(ps[..n]).Keys <= Registry(ps).Keys;
      forall k | 0 <= k < |kept|
        ensures kept[k].properties.Some? && Truthy(CodeOf(kept[k].properties.value))
                && CodeOf(kept[k].properties.value) in Registry(ps)
      {
        if k < |before| {
          assert kept[k] == before[k];
        } else {
          assert kept[k] == Projected(features[n], ps[n], toLatLng);
        }
      }
    }
  }

  /** The features are kept in order: a concatenation is filtered piece by piece. */
  lemma {:induction false} KeptFeaturesAppend(fa: seq<Feature>, fb: seq<Feature>, pa: seq<Properties>, pb: seq<Properties>,
                                              toLatLng: (real, real) -> (real, real))
    requires |pa| == |fa| && |pb| == |fb|
    ensures KeptFeatures(fa + fb, pa + pb, toLatLng) == KeptFeatures(fa, pa, toLatLng) + KeptFeatures(fb, pb, toLatLng)
    decreases |fb|
  {
    if fb == [] {
      assert fa + fb == fa && pa + pb == pa;
    } else {
      var n := |fb| - 1;
      var f := fa + fb;
      var p := pa + pb;
      assert f[..|f| - 1] == fa + fb[..n] && f[|f| - 1] == fb[n];
      assert p[..|p| - 1] == pa + pb[..n] && p[|p| - 1] == pb[n];
      KeptFeaturesAppend(fa, fb[..n], pa, pb[..n], toLatLng);
    }
  }

  /** A single feature is kept, as its projected copy, exactly when its normalised postal code is truthy. */
  lemma KeptFeaturesSingle(f: Feature, p: Properties, toLatLng: (real, real) -> (real, real))
    ensures KeptFeatures([f], [p], toLatLng) == if Truthy(CodeOf(p)) then [Projected(f, p, toLatLng)] else []
  {
    assert [f][..0] == [] && [p][..0] == [];
  }

  /** A feature is dropped exactly when its normalised postal code is falsy. */
  lemma {:induction false} KeptCount(features: seq<Feature>, ps: seq<Properties>, toLatLng: (real, real) -> (real, real))
    requires |ps| == |features|
    ensures |KeptFeatures(features, ps, toLatLng)| == |set k | 0 <= k < |ps| && Truthy(CodeOf(ps[k]))|
  {
    if features != [] {
      var n := |features| - 1;
      var init := ps[..n];
      KeptCount(features[..n], init, toLatLng);
      var before := set k | 0 <= k < n && Truthy(CodeOf(init[k]));
      var after := set k | 0 <= k < |ps| && Truthy(CodeOf(ps[k]));
      assert before == set k | 0 <= k < n && Truthy(CodeOf(ps[k]));
      if Truthy(CodeOf(ps[n])) {
        assert after == before + {n};
      } else {
        assert after == before;
      }
    }
  }

  // ---------------------------------------------------------------------------
  // getColorForValue (true-russian-map-main/app.js:318-326)

  const Palette: seq<string> := ["#f1f5ff", "#d6e4ff", "#adc8ff", "#84a9ff", "#6690ff", "#5c78ff", "#4f60ff", "#3d4ad4", "#2d36aa"]

  function Clamp01(x: real): real {
    if x < 0.0 then 0.0 else if x > 1.0 then 1.0 else x
  }

  /** `Math.min(palette.length - 1, Math.floor(ratio * (palette.length - 1)))` for the clamped ratio. */
  function IndexOfRatio(ratio: real): (i: int)
    ensures 0 <= i < |Palette|
  {
    var scaled := (Clamp01(ratio) * 8.0).Floor;
    if scaled < 8 then scaled else 8
  }

  /**
   * The palette index for `value` on the scale `[min, max]`. A missing value
   * (`undefined` from the metric map) turns the arithmetic into `NaN`, and
   * `palette[NaN]` is `undefined`: `None`.
   */
  function ColorIndex(value: Option<real>, min: real, max: real): (r: Option<int>)
    ensures r.Some? ==> 0 <= r.value < |Palette|
    ensures max == min ==> r == Some(|Palette| - 1)
    ensures max != min ==> (r.Some? <==> value.Some?)
  {
    if max == min then Some(|Palette| - 1)
    else if value.None? then None
    else Some(IndexOfRatio((value.value - min) / (max - min)))
  }

  /** `getColorForValue(value, metric)`. */
  function ColorForValue(value: Option<real>, min: real, max: real): (c: Option<string>)
    ensures c.Some? <==> ColorIndex(value, min, max).Some?
    ensures c.Some? ==> c.value in Palette
  {
    match ColorIndex(value, min, max)
    case Some(i) => Some(Palette[i])
    case None => None
  }

  lemma IndexOfRatioMonotone(r1: real, r2: real)
    requires r1 <= r2
    ensures IndexOfRatio(r1) <= IndexOfRatio(r2)
  {
    assert Clamp01(r1) * 8.0 <= Clamp01(r2) * 8.0;
  }

  lemma DivMonotone(a: real, b: real, d: real)
    requires a <= b && d > 0.0
    ensures a / d <= b / d
  {
    assert b / d - a / d == (b - a) / d;
  }

  lemma DivAntitone(a: real, b: real, d: real)
    requires a <= b && d < 0.0
    ensures a / d >= b / d
  {
    assert b / d - a / d == (b - a) / d;
  }

  /** On an increasing scale a larger value never gets a lighter colour. */
  lemma ColorIndexMonotone(v1: real, v2: real, min: real, max: real)
    requires v1 <= v2 && min < max
    ensures ColorIndex(Some(v1), min, max).value <= ColorIndex(Some(v2), min, max).value
  {
    DivMonotone(v1 - min, v2 - min, max - min);
    IndexOfRatioMonotone((v1 - min) / (max - min), (v2 - min) / (max - min));
  }

  /** On a reversed scale (`max < min`) a larger value never gets a darker colour. */
  lemma ColorIndexAntitone(v1: real, v2: real, min: real, max: real)
    requires v1 <= v2 && max < min
    ensures ColorIndex(Some(v1), min, max).value >= ColorIndex(Some(v2), min, max).value
  {
    DivAntitone(v1 - min, v2 - min, max - min);
    IndexOfRatioMonotone((v2 - min) / (max - min), (v1 - min) / (max - min));
  }

  /** The ends of an increasing scale: at or below `min` the first colour, at or above `max` the last. */
  lemma ColorIndexEnds(value: real, min: real, max: real)
    requires min < max
    ensures value <= min ==> ColorIndex(Some(value), min, max) == Some(0)
    ensures value >= max ==> ColorIndex(Some(value), min, max) == Some(|Palette| - 1)
  {
    if value <= min {
      DivMonotone(value - min, 0.0, max - min);
    }
    if value >= max {
      DivMonotone(max - min, value - min, max - min);
      assert (max - min) / (max - min) == 1.0;
    }
  }

  // ---------------------------------------------------------------------------
  // updateInsights (true-russian-map-main/app.js:355-362)

  /** An entry of `metric.values`: a postal code and its value. */
  type Entry = (JsValue, real)

  /**
   * The position of the entry `values.slice(0, n).reduce((best, current) =>
   * current[1] > best[1] ? current : best, values[0])` returns.
   */
  function MaxIndex(values: seq<Entry>, n: nat): (i: nat)
    requires 0 < |values| && n <= |values|
    ensures i < |values| && (n > 0 ==> i < n)
  {
    if n == 0 then 0
    else
      var best := MaxIndex(values, n - 1);
      if values[n - 1].1 > values[best].1 then n - 1 else best
  }

  /** The same reduction with `<`. */
  function MinIndex(values: seq<Entry>, n: nat): (i: nat)
    requires 0 < |values| && n <= |values|
    ensures i < |values| && (n > 0 ==> i < n)
  {
    if n == 0 then 0
    else
      var best := MinIndex(values, n - 1);
      if values[n - 1].1 < values[best].1 then n - 1 else best
  }

  /** `maxEntry`; `None` when the metric has no values (the reduction returns `undefined`). */
  function MaxEntry(values: seq<Entry>): Option<Entry> {
    if values == [] then None else Some(values[MaxIndex(values, |values|)])
  }

  /** `minEntry`; `None` when the metric has no values. */
  function MinEntry(values: seq<Entry>): Option<Entry> {
    if values == [] then None else Some(values[MinIndex(values, |values|)])
  }

  lemma {:induction false} MaxIndexIsEarliestLargest(values: seq<Entry>, n: nat)
    requires 0 < |values| && 0 < n <= |values|
    ensures var i := MaxIndex(values, n);
            (forall j :: 0 <= j < i ==> values[j].1 < values[i].1)
            && (forall j :: 0 <= j < n ==> values[j].1 <= values[i].1)
  {
    if n > 1 {
      MaxIndexIsEarliestLargest(values, n - 1);
    }
  }

  lemma {:induction false} MinIndexIsEarliestSmallest(values: seq<Entry>, n: nat)
    requires 0 < |values| && 0 < n <= |values|
    ensures var i := MinIndex(values, n);
            (forall j :: 0 <= j < i ==> values[j].1 > values[i].1)
            && (forall j :: 0 <= j < n ==> values[j].1 >= values[i].1)
  {
    if n > 1 {
      MinIndexIsEarliestSmallest(values, n - 1);
    }
  }

  /**
   * The maximum entry has a value at least every other value, and is the
   * first entry with that value: with strict comparisons a tie keeps the
   * earlier entry. There is none exactly when there are no values.
   */
  lemma MaxEntryIsEarliestLargest(values: seq<Entry>)
    ensures MaxEntry(values).Some? <==> values != []
    ensures MaxEntry(values).Some? ==>
              exists i :: 0 <= i < |values| && MaxEntry(values).value == values[i]
                && (forall j :: 0 <= j < i ==> values[j].1 < values[i].1)
                && (forall j :: 0 <= j < |values| ==> values[j].1 <= values[i].1)
  {
    if values != [] {
      MaxIndexIsEarliestLargest(values, |values|);
    }
  }

  /** The minimum entry, likewise. */
  lemma MinEntryIsEarliestSmallest(values: seq<Entry>)
    ensures MinEntry(values).Some? <==> values != []
    ensures MinEntry(values).Some? ==>
              exists i :: 0 <= i < |values| && MinEntry(values).value == values[i]
                && (forall j :: 0 <= j < i ==> values[j].1 > values[i].1)
                && (forall j :: 0 <= j < |values| ==> values[j].1 >= values[i].1)
  {
    if values != [] {
      MinIndexIsEarliestSmallest(values, |values|);
    }
  }

  /** `regionByCode.get(maxEntry[0]).name`: `None` when there is no entry, or its code is not registered (where the page throws). */
  function LeaderName(registry: map<JsValue, Properties>, values: seq<Entry>): Option<JsValue> {
    match MaxEntry(values)
    case Some(e) => if e.0 in registry then Some(Get(registry[e.0], NameKey)) else None
    case None => None
  }

  /** When every code of the metric is registered, a non-empty metric has a leader, and its name is never falsy. */
  lemma LeaderIsNamed(features: seq<Feature>, decode: string -> string, values: seq<Entry>)
    requires values != []
    requires forall k :: 0 <= k < |values| ==> values[k].0 in Registry(Normalized(features, decode))
    ensures LeaderName(Registry(Normalized(features, decode)), values).Some?
    ensures Truthy(LeaderName(Registry(Normalized(features, decode)), values).value)
  {
    var e := values[MaxIndex(values, |values|)];
    var ps := Normalized(features, decode);
    RegistryHoldsLast(ps, e.0);
    var k :| 0 <= k < |ps| && CodeOf(ps[k]) == e.0 && Registry(ps)[e.0] == ps[k]
             && forall j :: k < j < |ps| ==> CodeOf(ps[j]) != e.0;
    NormalizedAt(features, decode, k);
    NormalizedFeatureName(features[k].properties, decode);
  }
}
