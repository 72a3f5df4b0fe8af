# Regional indicators dashboard: a Dafny model of its data core

This project models the data logic behind two pages: the regional indicators dashboard (`app.js`) and the stand-alone map page (`true-russian-map-main/app.js`). The DOM, charting and mapping code around that logic is not modelled.

For the dashboard, the model covers these steps:

- **Reading CSV.** The quote-aware reader `parseCSV` turns the three CSV tables into records.
- **Normalising records.** Number values written with a decimal comma are parsed, and empty or non-finite values become `null`. Activities named only in the indicator table get a catalogue entry with the code `—`.
- **Reconciling regions.** Regions are joined to the geo features by name through the `nameMappings` table. The country row (code `0`) is dropped.
- **Selection state.** This covers the region toggle, the rule that regions and activities are never both multi-valued, and the start/end swap of the year sliders.
- **The map.** It shows the mean value per region over the filtered rows.
- **The trend chart.** The chart has a dense year axis, one series per region or per activity, and `null` holes.

For the map page, the model covers these steps:

- **The string hash.** This is the integer hash behind its synthetic metric values.
- **Repairing properties.** A feature without a name gets a placeholder name. A feature without a postal code gets one derived from its `hc-key`.
- **The feature filter.** Features without a postal code are dropped, and the rest are registered in `regionByCode`.
- **The colour scale.** A value is mapped to one of nine palette entries.
- **Extreme entries.** The insights panel shows the largest and smallest entries.

Modules, one per file:

| module | file | models |
|---|---|---|
| `Wrappers` | wrappers.dfy | `Option` |
| `JsString` | jsstring.dfy | `String.prototype.trim`, `indexOf`, `replace` with a one-character pattern, `slice(-2)`, `toUpperCase` on ASCII |
| `JsNumber` | jsnumber.dfy | `Number(string)` on decimal, exponent, hexadecimal, octal and binary literals, `Infinity` and blanks; `Number.isFinite`; numeric comparison; the `Number(a) - Number(b)` sort comparator |
| `Csv` | csv.dfy | `parseCSV`, both as written and corrected (see Findings), with its loops as methods |
| `Records` | records.dfy | the row mappings of `loadData`, value parsing, the activity catalogue |
| `Regions` | regions.dfy | `nameMappings`, the `geoByName` index, `enrichRegions` |
| `Dataset` | dataset.dfy | class `Datasets`: the `datasets` object, `loadData` and `enrichRegions` updating it |
| `Selection` | selection.dfy | class `SelectionState`: the `state` object and its handlers |
| `Aggregation` | aggregation.dfy | `computeAggregatedValues`, `buildMapSeries` |
| `Chart` | chart.dfy | `prepareChartSeries` |
| `RussianMap` | russianmap.dfy | the map page: `pseudoRandom`, `normalizeProperties`, `projectToLatLng` with class `MapPage` holding `regionByCode`, `getColorForValue`, the `updateInsights` reductions |

How JavaScript values are represented:

- A cell missing from a record reads as `undefined`, modelled as `None`.
- `Number` results are `Num`: `NaN`, `+Infinity`, `-Infinity` or a finite real.
- Each modelled index loop or `forEach` that builds its result step by step is a method with a `while` loop. The method is proved equal to a function, and the lemmas are stated about that function. The one exception is the loop of app.js:322-324 that pushes one `{ code: '—', name }` entry per extra activity name: `LoadData` writes it as the concatenation `reference + ExtraEntries(extras)`.

## Model

| member | source | states |
|---|---|---|
| Csv.ParseCsvAsWritten | app.js:226-282 | The method's result equals `ParseAsWritten`. That is the reader exactly as written: the first pass consumes quotes, the header is split by a plain `split(',')`, and the result is `None` for a text with no line at all, where `lines[0]` is undefined and the source throws. |
| Csv.ParseCsv | app.js:226-282 | The method's result equals `Parse`. That is the corrected reader: the first pass keeps the quotes so that the field pass can honour them, and the header line is split by the same quote-aware field scan (`Fields`) instead of the source's plain `split(',')`. For a header without quote characters the two agree (`Csv.UnquotedSplitsAtEverySeparator`). |
| Csv.SplitLinesAsWritten | app.js:227-249 | The line loop as written equals `LinesAsWritten`: split at newlines outside quotes, quotes dropped, `""` inside quotes read as `"`, and an empty last piece not pushed. |
| Csv.SplitLines | app.js:227-249 | The corrected line loop equals `Lines`: the same split, with every character kept. |
| Csv.SplitFields | app.js:255-274 | The field loop equals `Fields(line)`. |
| Csv.BuildRecord | app.js:275-278 | The `headers.forEach` equals `MakeRecord`. |
| Csv.BuildRecords | app.js:251-280 | The row loop equals `RecordsOf` over the lines after the header. |
| Csv.QuotedRunNotSplit | app.js:258-273 | Inside quotes, a run without quote characters is never split, whatever separator it contains. |
| Csv.UnquotedSplitsAtEverySeparator | app.js:266-271 | Outside quotes, and with no quote characters, the field scan equals a plain split: every comma ends a field. |
| Csv.QuotedFieldUnescapes | app.js:260-264 | Inside quotes, the escaped text of a field followed by the closing quote gives back the field itself. Each `""` yields one `"`. |
| Csv.FieldsRoundTrip | app.js:255-274 | For any fields, including ones with commas, quotes or newlines, the field pass over their RFC 4180 encoding gives back exactly those fields. |
| Csv.LinesOfTable | app.js:227-249 | The corrected line pass splits an encoded table exactly at the row ends. A newline inside quotes does not end a line. |
| Csv.ParseRoundTrip | app.js:226-282 | The RFC 4180 encoding of a header and rows parses to one record per row, in order, each built from exactly that row's cells. |
| Csv.RecordKeys | app.js:275-278 | A record's keys are exactly the trimmed header names. |
| Csv.RecordValuesTrimmed | app.js:277 | Every value in a record is trimmed. |
| Csv.RecordCell | app.js:275-278 | Under the last header with a given trimmed name, the record holds the trimmed cell with that header's index. When the row is short, it holds `''`. |
| Csv.RecordsCount | app.js:251-254 | There is exactly one record per non-blank line; whitespace-only lines are skipped. |
| Csv.NonBlankHasNoBlank | app.js:253 | No line that survives the blank-line skip is blank. |
| Csv.RecordsSkipBlank | app.js:251-280 | Dropping the whitespace-only lines first gives the same records: blank lines contribute nothing. |
| Csv.RecordsAreNonBlankLines | app.js:251-280 | Record `k` is built from the fields of the `k`-th non-blank line, so the records are exactly the non-blank lines, in order. |
| Csv.RecordsOfNoBlank | app.js:251-280 | With no blank lines, record `k` is built from the fields of line `k`. |
| Csv.AsWrittenSplitsQuotedComma | app.js:231-249 | As written, the header `h1,h2` and the row `"a,b",c` give `h1 = a` and `h2 = b`. |
| Csv.CorrectedKeepsQuotedComma | app.js:226-282 | The corrected reader gives `h1 = a,b` and `h2 = c` for the same text. |
| Csv.AsWrittenDropsEscapedQuote | app.js:231-249 | As written, the row `"x""y"` under header `h` gives `h = xy`. |
| Csv.CorrectedKeepsEscapedQuote | app.js:226-282 | The corrected reader gives `h = x"y` for the same row. |
| JsString.Trim | app.js:253 | The result has no leading or trailing white space and is never longer than the input. A string that neither starts nor ends with white space is returned unchanged. |
| JsString.TrimBounds | app.js:277 | `trim` returns a contiguous slice `s[i..j]`. Everything before `i` and from `j` on is white space. |
| JsString.TrimIdempotent | app.js:277 | Trimming twice equals trimming once. |
| JsString.TrimKeeps | app.js:253 | Every non-white-space character survives `trim`. |
| JsString.ReplaceFirst | app.js:292 | `replace(',', '.')` replaces only the first occurrence and keeps the length. |
| JsString.LastTwo | true-russian-map-main/app.js:189 | `slice(-2)` gives the last two characters, or the whole string when it is shorter. |
| JsString.ToUpperAscii | true-russian-map-main/app.js:189 | `toUpperCase` maps each character and keeps the length. |
| JsNumber.CommaIsNotANumber | app.js:293 | `Number` of any string containing a comma is `NaN`. |
| JsNumber.PointedNumber | app.js:293 | `Number("w.f")` is the finite decimal `w.f`. |
| JsNumber.DigitsValueAppend | app.js:293 | The value of concatenated digit strings is `a * 10^|b| + b`. |
| JsNumber.ComparatorSignOrder | app.js:612 | The sign of `Number(a) - Number(b)` orders non-`NaN` numbers exactly as `<=` does, in both directions. |
| JsNumber.NumLeTotal | app.js:612 | The order used by the comparator is total on non-`NaN` numbers. |
| JsNumber.NumLeTransitive | app.js:612 | The order is transitive. |
| Records.ParseValue | app.js:292-300 | The value is non-null exactly when the raw text, after its first comma becomes a point, is non-empty and `Number` gives a finite number. It is then that number, unchanged. |
| Records.EmptyValueIsNull | app.js:292-293 | A missing or empty value is `null`, never `0`. |
| Records.DecimalCommaValue | app.js:292-293 | `w,f` reads as the decimal `w.f`, the same as `w.f` itself. |
| Records.SecondCommaIsNull | app.js:292-300 | Only the first comma is replaced: a value with a second comma is `null`. |
| Records.ParsedValueIsNumber | app.js:293-300 | Without a comma, a finite `Number` is kept and anything else is `null`. |
| Records.Observations | app.js:291-302 | There is one indicator row per record, in order. |
| Records.Regions | app.js:305-308 | There is one region per record, in order. |
| Records.Activities | app.js:310-313 | There is one activity per record, in order. |
| Records.ActivityNames | app.js:315 | The `activityNames` set holds exactly the names of the reference activities. |
| Records.CollectExtras | app.js:316-321 | The loop equals `Extras`. |
| Records.ExtrasMembers | app.js:316-321 | A name is an extra exactly when some indicator row names it and the reference table does not. |
| Records.ExtrasDistinct | app.js:316-321 | Every extra is collected once. |
| Records.ExtraEntries | app.js:322-324 | Every extra becomes an entry with code `—` and its name. |
| Records.CatalogueCoversActivities | app.js:315-324 | The reference entries are kept unchanged and come first. Every activity of every indicator row is in the catalogue. The appended entries have code `—`, are not reference names, and are pairwise distinct. |
| Regions.NormalizedName | app.js:337 | The name is `nameMappings[name]` when the table has the name, and the name itself otherwise. |
| Regions.NormalizedNameIdempotent | app.js:18-28 | No target of `nameMappings` is itself a key: normalising twice equals normalising once. |
| Regions.IndexByName | app.js:329-332 | The `forEach` filling `geoByName` equals `GeoIndex`. |
| Regions.GeoIndexLastWins | app.js:329-332 | A name is in the index exactly when some feature has it. The feature stored is the last one with that name. |
| Regions.KeptRegions | app.js:335 | The filter keeps exactly the regions whose code is not `'0'`. |
| Regions.EnrichedRegions | app.js:334-345 | There is one output per kept region, in order, with its code (never `'0'`) and name. `normalizedName` is the mapped name. `hcKey` and `postalCode` are `null` when no feature has that name. |
| Regions.HcKeyFromLastMatch | app.js:336-344 | When features carry `hc-key`, a region's `hcKey` is non-null exactly when a feature's name equals its `normalizedName`. It and `postalCode` then come from the last such feature. |
| Dataset.Datasets.LoadData | app.js:284-325 | If every text parses, `datasets` holds the mapped indicator rows, the mapped regions, and the reference activities followed by the extras. |
| Dataset.Datasets.EnrichRegions | app.js:327-346 | `regions` becomes the enrichment of the old regions against the name index of the features. The other fields are unchanged. |
| Selection.Enforced | app.js:401-419 | Regions and activities are never both longer than one. |
| Selection.EnforcedCutsTheOtherList | app.js:401-419 | If both lists were multi-valued, the list not named by `lastChanged` is cut to its first element and the other is untouched. Otherwise neither list changes. |
| Selection.EnforcedIdempotent | app.js:401-419 | Applying the rule twice equals applying it once. |
| Selection.Dedup | app.js:605 | `new Set` keeps exactly the members and drops duplicates. |
| Selection.Remove | app.js:607 | Deleting a code removes exactly that code and keeps distinctness. |
| Selection.SortCodes | app.js:612 | The sort is a permutation. |
| Selection.SortCodesSorted | app.js:612 | With numeric codes, the sorted list is ascending by `Number(code)`. |
| Selection.ToggledSelection | app.js:604-612 | Toggling flips the membership of exactly that code and leaves every other code as it was. The list has no duplicates, and when every code is numeric it is sorted ascending. |
| Selection.SwappedPeriod | app.js:440-445 | The period is ordered, start at most end, and is a permutation of the two slider values. |
| Selection.SelectionState.constructor | app.js:3-10 | The initial `state`. |
| Selection.SelectionState.EnforceSelectionRules | app.js:401-419 | The two lists become `Enforced` of the old ones, and nothing else changes. |
| Selection.SelectionState.SelectRegions | app.js:374-381 | The picked regions are kept, `lastChanged` becomes `regions`, and the rule is applied. |
| Selection.SelectionState.SelectActivities | app.js:391-398 | The picked activities are kept, `lastChanged` becomes `activities`, and the rule is applied. |
| Selection.SelectionState.ToggleRegion | app.js:604-618 | The regions become the toggled list, `lastChanged` becomes `regions`, the rule is applied, and the other fields are unchanged. |
| Selection.SelectionState.UpdatePeriod | app.js:435-445 | The period becomes the swapped pair, and nothing else changes. |
| Aggregation.ComputeAggregatedValues | app.js:463-487 | The method equals the means of `Tally`. |
| Aggregation.Means | app.js:483-486 | There is one aggregate per tallied code, with value `total / count`. |
| Aggregation.FindAfterAdd | app.js:475-479 | Adding a value changes only its code's entry: `total` grows by the value and `count` by one, starting from `{0, 0}`. |
| Aggregation.TallyIsSumAndCount | app.js:470-481 | A code's entry holds the sum and the count of its matching rows. There is no entry when there are none. |
| Aggregation.CodesDistinct | app.js:470-481 | The codes of the map are distinct. |
| Aggregation.AggregatesAreMeans | app.js:463-487 | The aggregates have distinct codes, and each is the mean over that code's matching rows. A row matches on indicator, on `start <= year <= end`, on the activity filter (empty means all), and on a finite value. Every code with a matching row has an aggregate. |
| Aggregation.NoRowsNoAggregate | app.js:463-487 | A code without matching rows has no aggregate. |
| Aggregation.FindAggregate | app.js:494 | `find` returns an aggregate with that code, or none when there is no such aggregate. |
| Aggregation.FindAggregateIsFirst | app.js:494 | The aggregate `find` returns is the first one with that code: no earlier aggregate has it. |
| Aggregation.KeyedRegions | app.js:492 | Only regions with an `hcKey` are kept. |
| Aggregation.KeyedRegionsAppend | app.js:492 | The filter distributes over concatenation, so it keeps the input order. |
| Aggregation.KeyedRegionsSingle | app.js:492 | A single region is kept exactly when it has an `hcKey`. |
| Aggregation.KeyedRegionsExactly | app.js:492 | A region is in the result if and only if it is in the input and has an `hcKey`. |
| Aggregation.MapSeriesPerKeyedRegion | app.js:489-503 | There is one point per kept region, in order. |
| Aggregation.MapSeriesPoints | app.js:489-503 | There is exactly one point per region with an `hcKey`, in `datasets.regions` order, carrying its key, code and name. The value is `null` exactly when the code has no matching rows, and otherwise the mean. |
| Chart.Categories | app.js:650-655 | There is one year per step of the loop: `start, start+1, ...`. An unset start pushes `null` first. |
| Chart.YearAxis | app.js:652-655 | The loop equals `Categories`. |
| Chart.AxisIsEveryYear | app.js:652-655 | With both bounds set, the axis holds exactly the integers from start to end. |
| Chart.Filtered | app.js:661-668 | Every kept row matches: indicator, year range, activity filter, region filter, and finite value. |
| Chart.FilteredAppend | app.js:661-668 | The filter distributes over concatenation, so kept rows stay in input order. |
| Chart.FilteredSingle | app.js:661-668 | A single row is kept exactly when it matches. |
| Chart.FilteredExactly | app.js:661-668 | A row is in the result if and only if it is in the input and matches. |
| Chart.FindRegion | app.js:679 | `find` returns a region with that code, or none when there is no such region. |
| Chart.FindRegionIsFirst | app.js:679 | The region `find` returns is the first one with that code: no earlier region has it. |
| Chart.GroupRows | app.js:673-685 | The loop equals `Groups`. |
| Chart.BuildSeries | app.js:687-691 | The loop equals `AllSeries`. |
| Chart.SeriesOf | app.js:688-689 | A series has the group's name and one entry per category: the group's value for that year, or `null`. |
| Chart.PrepareChartSeries | app.js:649-693 | The method equals `ChartOf`. |
| Chart.NoIndicatorNoSeries | app.js:657-659 | A missing or empty indicator gives no series, and the axis is still built. |
| Chart.SeriesAreDense | app.js:649-693 | Every series has exactly as many entries as there are categories. |
| Chart.GroupingDimension | app.js:670 | Grouping is by activity exactly when there is at most one region and more than one activity. It is by region otherwise. |
| Chart.FindAfterAddRow | app.js:673-685 | A row changes only its own group. It creates the group named after the row, or sets the row's year to the row's value. |
| Chart.KeysAfterAddRow | app.js:674-682 | A new key is appended after the existing ones; a known key adds nothing. |
| Chart.GroupExists | app.js:673-685 | A group exists exactly when some filtered row has its key. |
| Chart.GroupDataIsLastRow | app.js:684 | A group holds a year exactly when some row of that key has that year. The value stored is that of the last such row, not an average. |
| Chart.GroupNamedByFirstRow | app.js:675-682 | A group is named after the first row with its key. |
| Chart.GroupKeysDistinct | app.js:673-685 | The group keys are distinct. |
| Chart.EveryRowHasAGroup | app.js:673-685 | Every filtered row has its group. |
| Chart.LastRowWins | app.js:649-693 | Series `g`, entry `k`, is the value of the last filtered row of the group's key for year `k`, or `null` when there is no such row. Every group's key comes from a filtered row. |
| RussianMap.JsRem | true-russian-map-main/app.js:406 | JavaScript `%`: the remainder has the sign of the dividend and is smaller than the divisor in magnitude. |
| RussianMap.PseudoRandom | true-russian-map-main/app.js:403-409 | The loop computes `Fraction(Hash(str, seed))`, a function of `(str, seed)` alone. |
| RussianMap.HashInRange | true-russian-map-main/app.js:404-407 | With a non-negative seed, `hash` is always in `[0, 2147483647)`. |
| RussianMap.PseudoRandomInUnitInterval | true-russian-map-main/app.js:408 | With a non-negative seed, `(hash % 1000) / 1000` lies in `[0, 1)`. |
| RussianMap.HashBounded | true-russian-map-main/app.js:403-409 | For any seed, the hash lies strictly between `-2147483647` and `2147483647`, and the result strictly between `-1` and `1`. |
| RussianMap.NormalizedPostalCode | true-russian-map-main/app.js:188-190 | A truthy `postal-code` is never overwritten. With a falsy one and a string `hc-key`, the code is the last two characters of `hc-key`, upper-cased. Otherwise it is left as it was. |
| RussianMap.NormalizedFeatureName | true-russian-map-main/app.js:182-187 | The name is always truthy. A non-empty string name is replaced by its decoding, when that decoding is non-empty. A missing or empty name becomes `Без названия`. |
| RussianMap.NormalizedOtherKeys | true-russian-map-main/app.js:180-191 | Every key other than `name` and `postal-code` is present and valued exactly as in the input. |
| RussianMap.PostalFromHcKey | true-russian-map-main/app.js:188-190 | `hc-key` `ru-msk` alone gives `postal-code` `SK`. |
| RussianMap.Transform | true-russian-map-main/app.js:148-153 | Positions stay positions, and arrays keep their length. |
| RussianMap.NormalizedAt | true-russian-map-main/app.js:158 | Each feature's properties are normalised in place of the original. |
| RussianMap.MapPage.constructor | true-russian-map-main/app.js:114 | `regionByCode` starts empty. |
| RussianMap.MapPage.ProjectToLatLng | true-russian-map-main/app.js:145-178 | `regionByCode` becomes `Registry` of the normalised properties, whatever it held before, so a re-run gives the same map. The result is the projected copies of the kept features. |
| RussianMap.RegistryHoldsLast | true-russian-map-main/app.js:157-174 | A code is registered exactly when it is truthy and some feature has it. The properties stored are those of the last such feature. |
| RussianMap.KeptFeaturesRegistered | true-russian-map-main/app.js:157-175 | Every kept feature has properties with a truthy postal code, and that code is registered. |
| RussianMap.KeptCount | true-russian-map-main/app.js:157-175 | Exactly the features with a truthy postal code are kept. |
| RussianMap.KeptFeaturesAppend | true-russian-map-main/app.js:157-175 | The kept features of two concatenated feature lists are those of the first list followed by those of the second, so the input order is kept. |
| RussianMap.KeptFeaturesSingle | true-russian-map-main/app.js:157-175 | A single feature is kept, projected with its normalised properties, exactly when its postal code is truthy; otherwise nothing is kept. |
| RussianMap.IndexOfRatio | true-russian-map-main/app.js:323-324 | The palette index is clamped to `[0, 8]`. |
| RussianMap.ColorIndex | true-russian-map-main/app.js:318-326 | When `max === min`, the index is the last one. Otherwise there is an index, always in range, exactly when there is a value. |
| RussianMap.ColorForValue | true-russian-map-main/app.js:318-326 | There is a colour exactly when there is an index, and it is a palette entry. |
| RussianMap.IndexOfRatioMonotone | true-russian-map-main/app.js:323-324 | The index does not decrease as the ratio grows. |
| RussianMap.ColorIndexMonotone | true-russian-map-main/app.js:318-326 | For `min < max`, the index does not decrease as the value grows. |
| RussianMap.ColorIndexAntitone | true-russian-map-main/app.js:318-326 | For `max < min`, the index does not increase as the value grows. |
| RussianMap.ColorIndexEnds | true-russian-map-main/app.js:318-326 | For `min < max`, values at or below `min` get the first colour, and values at or above `max` get the last. |
| RussianMap.MaxIndexIsEarliestLargest | true-russian-map-main/app.js:356 | The reduction's index has the largest value of the prefix, and every earlier entry is strictly smaller. |
| RussianMap.MinIndexIsEarliestSmallest | true-russian-map-main/app.js:357 | The same for the smallest value. |
| RussianMap.MaxEntryIsEarliestLargest | true-russian-map-main/app.js:356 | There is a `maxEntry` exactly when there are entries. Its value is at least every entry's, and on ties it is the earliest. |
| RussianMap.MinEntryIsEarliestSmallest | true-russian-map-main/app.js:357 | There is a `minEntry` exactly when there are entries. Its value is at most every entry's, and on ties it is the earliest. |
| RussianMap.LeaderIsNamed | true-russian-map-main/app.js:360-362 | When every entry's code is registered, the leader has a truthy name, so the lookup does not fail. |

## Left out

- The `CustomSelect` widget, the slider DOM and track percentages, and the legend, subtitle and meta rendering. These are user-interface code.
- `fetch`, `Promise.all` and `bootstrap`, and the map page's `fetch` chain. These are I/O and async sequencing. `LoadData` takes the three texts as parameters.
- Every Highcharts and Leaflet call. These are third-party rendering libraries.
- `localeCompare(…, 'ru')` option sorting and the option lists it feeds. This is Russian collation, a foreign call.
- `indicatorSelect.onChange`, which derives the slider range and unit from the indicator's years. It is DOM range inputs driving `state.period`. `UpdatePeriod` models the part that changes the period.
- `decodeCyrillic` and `mercatorToLatLng` are function parameters (`decode`, `toLatLng`). They are a `TextDecoder` call and floating-point trigonometry.
- `cloneGeometry` is the identity. It is a JSON round trip of plain arrays.
- `formatValue` is left out. It is `Intl.NumberFormat`.
- `prepareMetricValues` is left out beyond `pseudoRandom`. It is float statistics over synthetic data.
- Doubles are modelled as exact reals in sums, means, division and the palette ratio. The hash is exact because its intermediate values stay below 2^53 for the seeds the page uses.
- `Number` literals too large for a double become finite reals here, not `Infinity`.
- `RussianMap.PseudoRandom`: the character code is the Unicode code point. It differs from JavaScript's UTF-16 code unit only for characters outside the Basic Multilingual Plane.
- `JsString.ToUpperAscii`: only ASCII letters are upper-cased. JavaScript also maps other scripts.
- Positions are modelled as `[x, y]` only. Feature and geometry keys other than `type`, `properties` and `geometry` are not carried.
- Keys inherited through the JavaScript prototype, such as `nameMappings['constructor']`, are not modelled. CSV headers and names are treated as plain keys.
- `Selection.SortCodes` is a stable insertion sort. It agrees with JavaScript's stable `sort` whenever no code is `NaN` as a number. With a `NaN` code the comparator is inconsistent and the engine's order is unspecified, so `Selection.ToggledSelection` promises sortedness only for numeric codes.
- `Selection.SelectionState.UpdatePeriod` takes the two slider values as integers. The year sliders have a step of 1.
- `Dataset.Datasets.LoadData` uses the corrected CSV reader, not the one as written (see Findings). That reader also splits the header line with the quote-aware field scan, where the source uses `split(',')`; the two differ only for a header holding a quote character.
- `RussianMap.MapPage.ProjectToLatLng`: every feature carries a geometry. When a kept feature has a null or missing geometry, the source throws at `feature.geometry.type` (true-russian-map-main/app.js:168), and `regionByCode` keeps only the features stored before it. That failure path is not modelled.
- `RussianMap.ColorIndexMonotone` is stated separately for `min < max` and, as `RussianMap.ColorIndexAntitone`, for `max < min`: the page never sets `min > max`, but the code does not exclude it.

## Findings

The two fields of a row come out wrong when a field holds a quoted comma or a doubled quote, because pass 1 removes the quote characters before pass 2 sees them.

| source | as written | input that shows it | evidently intended | confidence | as-written member | corrected member |
|---|---|---|---|---|---|---|
| app.js:231-249 | The line pass consumes every quote character: it toggles `inQuotes` on `"` and turns `""` into `"` without keeping the quotes. The field pass then sees no quoting. | Header `h1,h2` and row `"a,b",c` give `{h1: 'a', h2: 'b'}`. Header `h` and row `"x""y"` give `{h: 'xy'}`. | As in section 2 of RFC 4180, a comma inside quotes stays in the field and `""` inside quotes is one `"`: `{h1: 'a,b', h2: 'c'}` and `{h: 'x"y'}`. | not executed | Csv.ParseCsvAsWritten, Csv.AsWrittenSplitsQuotedComma, Csv.AsWrittenDropsEscapedQuote | Csv.ParseCsv, Csv.ParseRoundTrip, Csv.CorrectedKeepsQuotedComma, Csv.CorrectedKeepsEscapedQuote |
