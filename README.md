# ec2instances.info page logic in Dafny

This project models the settings and filter bookkeeping of the instance
table page, `www/default.js`. It covers these parts:

- the built-in defaults (`g_settings_defaults`);
- `load_settings`, which merges the local store with the query string;
- `url_for_selections`, which builds the shareable address;
- the price projection of `change_cost`, including the "unavailable" cell;
- the minimum-value filter `apply_min_values`;
- the compare view `update_visible_rows`;
- the `span-sort` key extraction and the two comparators;
- the clear button's reset to the defaults.

The page state lives in a class, `App.Page`. Its fields are the settings
record, the local store, the table's search text, the rows and the cost
cells. Each handler is a method that updates these fields in place. Each
method is proved equal to a function on plain values, and the behaviour of
the page is proved as lemmas about those functions.

JavaScript values are the datatype `JsValue.Value`. A settings record is a
`map<string, Value>`, and a missing key reads as `undefined`. Prices are exact
reals, and NaN is a separate case of `JsNumber.Number`. The modules are:

| file | module | models |
|---|---|---|
| strings.dfy | JsString | `split`, `join`, `replace` with a one-character pattern |
| numbers.dfy | JsNumber | `parseFloat` and `Number(string)` over exact reals |
| values.dfy | JsValue | values, truthiness, `===`, `== null`, `Number(v)`, `String(v)` |
| settings.dfy | SettingsStore | the defaults and `load_settings` |
| url.dfy | UrlSync | `url_for_selections` |
| pricing.dfy | PriceProjector | the arithmetic and the sentinel of `change_cost` |
| rows.dfy | RowFilter | `apply_min_values`, `update_visible_rows`, highlighted rows |
| span_sort.dfy | SpanSort | `span-sort-pre`, `span-sort-asc`, `span-sort-desc` |
| page.dfy | App | the page state and the handlers that update it |

A price of 0 is shown as unavailable: the guard `per_time && !isNaN(per_time)`
at www/default.js:222 treats 0 as false, so such a cell shows "unavailable"
with sort key 999999 (`PriceProjector.ZeroPriceIsUnavailable`).

There is also a consequence of storing URL values as raw strings, and the
model states it as a lemma rather than changing it. Turning measuring units
off writes `measuring_units_on=false` into the address. Reloading that address
gives the string "false", which `if (g_settings.measuring_units_on)` takes as on
(`UrlSync.MeasuringUnitsOffReloadsAsOn`).

## Model

| member | source | states |
|---|---|---|
| SettingsStore.DefaultOf | www/default.js:7-20 | the default of each of the twelve keys; `undefined` exactly for keys without a default; no default is null or an array |
| SettingsStore.DefaultSettings | www/default.js:7-20 | the defaults record has exactly the default keys, each mapped to its default |
| SettingsStore.CanonicalKey | www/default.js:575-580 | `cost` becomes `cost_duration`, `term` becomes `reserved_term`, every other key is kept verbatim; the result is never a legacy name |
| SettingsStore.ParsePair | www/default.js:572-580 | a query piece yields a key that is never a legacy name, and a value that is a raw string exactly when the piece has an `=` and `undefined` otherwise |
| SettingsStore.ParsePairs | www/default.js:570-584 | one assignment per piece; no assignment is to a legacy key; an assignment has a value exactly when its piece has an `=` |
| SettingsStore.SearchPairs | www/default.js:569-570 | the URL assigns something exactly when `location.search` is not empty (`?` alone assigns the key `''`) |
| SettingsStore.ApplyPairs | www/default.js:583 | after the assignments the record has its own keys plus every assigned key |
| SettingsStore.FillDefaults | www/default.js:587-592 | after the fill the record has its own keys plus every listed key |
| SettingsStore.Loaded | www/default.js:565-595 | the loaded record holds exactly the stored keys, the keys the URL assigns and the default keys |
| SettingsStore.ApplyPairsLastWins | www/default.js:583 | the last assignment to a key decides its value |
| SettingsStore.ApplyPairsUntouched | www/default.js:567-584 | a key no URL piece names keeps its stored value, or stays missing |
| SettingsStore.FillDefaultsSpec | www/default.js:587-592 | after the fill every default key is defined; a defined key is never overwritten; an undefined listed key gets its default; other keys are untouched |
| SettingsStore.ParsePairOfAssignment | www/default.js:572-574 | `key=value` is read as (key, raw string value) |
| SettingsStore.ParsePairDropsAfterSecondEquals | www/default.js:572-574 | in `key=value=more` the text after the second `=` is lost |
| SettingsStore.ParsePairWithoutEquals | www/default.js:572-574 | a piece without `=` assigns `undefined` |
| SettingsStore.SearchPairsOfJoin | www/default.js:569-571 | `?p1&p2&...` gives one assignment per piece, in order |
| SettingsStore.LoadDefinesEveryDefault | www/default.js:587-592 | after `load_settings` every key of the defaults is defined |
| SettingsStore.LoadUrlOverridesStore | www/default.js:567-584 | a URL value overwrites the stored value and is kept as a string, not replaced by the default |
| SettingsStore.LoadUndefinedFallsBackToDefault | www/default.js:572-592 | a URL piece without `=` makes its key fall back to its default |
| SettingsStore.LoadKeepsStoredOrDefault | www/default.js:565-595 | a key the URL does not mention keeps its defined stored value, or otherwise gets its default |
| SettingsStore.LoadNeverAssignsLegacyKeys | www/default.js:575-580 | the URL never assigns the keys `cost` or `term` |
| SettingsStore.LoadLegacyCost | www/default.js:574-577 | loading `?cost=v` sets `cost_duration` to the string `v`, whatever the store held |
| SettingsStore.LoadLegacyTerm | www/default.js:574-580 | loading `?term=v` sets `reserved_term` to the string `v`, whatever the store held |
| SettingsStore.LoadLegacyPiece | www/default.js:569-584 | loading the one-piece query `?key=v` sets the renamed key to the string `v` |
| SettingsStore.TwoAssignmentsPairs | www/default.js:569-584 | `?k1=v1&k2=v2` (such as `?min_memory=16&region=eu-west-1`) assigns the two keys their raw strings, in order |
| SettingsStore.LoadTwoFromUrl | www/default.js:565-595 | loading `?k1=v1&k2=v2` over an empty store leaves both keys holding the strings from the URL |
| SettingsStore.LoadTwoDefaults | www/default.js:565-595 | loading `?k1=v1&k2=v2` gives every other key its default |
| SettingsStore.LoadOfNothingIsDefaults | www/default.js:354-360 | a reload after the store is cleared, with no query, gives exactly the defaults |
| App.Page.constructor | www/default.js:5 | a fresh page has the settings record `{}` |
| App.Page.LoadSettings | www/default.js:565-595 | the settings become the merge of store, URL and defaults; the store and the search text are unchanged |
| App.Page.AssignPieces | www/default.js:571-584 | the `forEach` assigns every piece in order |
| App.Page.ReadPiece | www/default.js:572-580 | one piece is read as `ParsePair` reads it; the key is never legacy; the value is a string exactly when the piece has `=` |
| App.Page.FillMissingDefaults | www/default.js:587-592 | the default-fill loop |
| UrlSync.ParamRecord | www/default.js:369-382 | the parameter record has its keys in the fixed literal order, `filter` holding the search text and every other key its current setting |
| UrlSync.Kept | www/default.js:384-389 | the deletion loop never adds entries, and no entry it leaves is empty, nullish or default |
| UrlSync.KeptPositions | www/default.js:384-389 | the entries kept by deletion appear in record order, at increasing positions |
| UrlSync.KeptExactly | www/default.js:384-389 | an entry is kept exactly when it is in the record and is not empty, nullish or default |
| UrlSync.EmittedShape | www/default.js:384-397 | no emitted entry is `''`, nullish or `===` its default; `selected` appears exactly when a row is highlighted, and then last; a record entry is emitted exactly when it is not deleted |
| UrlSync.EmittedInRecordOrder | www/default.js:369-389 | the emitted entries follow the record's key order |
| UrlSync.EmittedKeysDistinct | www/default.js:369-397 | emitted keys are distinct, known, free of `&` and `=`, and never legacy names |
| UrlSync.DefaultsEmitNothing | www/default.js:384-397 | at the defaults, with empty search and no highlight, nothing is emitted |
| UrlSync.ParametersOfDefined | www/default.js:400-405 | each emitted entry yields the string `key=value` |
| UrlSync.UrlShape | www/default.js:399-409 | the `?` is appended only when a parameter remains; then the parameters are `&`-joined |
| UrlSync.QueryRoundTrip | www/default.js:401-407 | splitting the produced query on `&` and `=` gives back exactly the emitted keys and printed values, in order, when no value contains `&`, `=` or a character the browser would encode |
| UrlSync.LoadAfterSerialise | www/default.js:399-409 | loading the produced address restores every emitted setting as its printed string, whatever the store held |
| UrlSync.StringSettingRoundTrip | www/default.js:369-409 | a non-default string setting survives the address round trip unchanged |
| UrlSync.MeasuringUnitsOffReloadsAsOn | www/default.js:380 | measuring units off is written as `false` and reloads as the truthy string "false" |
| App.Page.UrlForSelections | www/default.js:368-410 | the method returns exactly the address `SelectionsUrl` describes for the current settings, search text and highlighted rows |
| App.Page.KeepParams | www/default.js:384-389 | the deletion loop leaves exactly the entries `Kept` keeps, in order |
| App.Page.SelectedIds | www/default.js:391-397 | the ids collected are those of the highlighted rows, in table order |
| App.Page.ParameterStrings | www/default.js:399-405 | one `key=value` string per entry that is not `undefined`, in order |
| PriceProjector.HourMultiplier | www/default.js:188-195 | NaN exactly for a duration other than the six listed; each listed duration has a positive number of hours; hourly is 1 |
| PriceProjector.PriceOf | www/default.js:222 | the looked-up price counts only when it is truthy and numeric |
| PriceProjector.Project | www/default.js:222-227 | unavailable exactly when the price or the divisor fails the guard; NaN exactly when it passes but the modifier or duration is not a number; a price otherwise |
| PriceProjector.DivisorFor | www/default.js:218-220 | the divisor is 1 for the `instance` unit |
| PriceProjector.QueryFor | www/default.js:216-270 | each cell's `get_pricing` call uses the cell's row and the setting `region` |
| PriceProjector.Repriced | www/default.js:216-270 | re-pricing changes only a cell's content |
| PriceProjector.RepriceAll | www/default.js:216-270 | re-pricing keeps the number of cells |
| PriceProjector.RepricedIf | www/default.js:216-228 | one pass keeps every cell's kind, changes at most the content, and leaves cells of other kinds alone |
| PriceProjector.FourPassesRepriceOnce | www/default.js:216-270 | the on-demand, reserved, EBS and EMR passes in sequence re-price each cell exactly once |
| PriceProjector.UnavailableSortsLast | www/default.js:225-227 | an unavailable cell has sort key 999999 |
| PriceProjector.ZeroPriceIsUnavailable | www/default.js:222 | a price of 0 is shown as unavailable |
| PriceProjector.IdentityAtDefaults | www/default.js:203-227 | hourly, per instance, modifier 1 shows the price itself |
| PriceProjector.DailyPerVcpuExample | www/default.js:222-223 | 10 per hour, daily, per vCPU with 4 vCPUs is 60 |
| PriceProjector.ProjectionInverse | www/default.js:223 | dividing out modifier and hours and multiplying back the divisor recovers the hourly price |
| PriceProjector.AmountPerHour | www/default.js:223 | a shown amount is the duration's hours times the price per hour per unit |
| PriceProjector.DurationsScale | www/default.js:188-195 | daily is 24 times hourly, weekly 7 times daily, annually 12 times monthly and 365 times daily, hourly 3600 times secondly |
| PriceProjector.RepricedAtDefaults | www/default.js:216-270 | at the defaults every kind of cell shows its looked-up price |
| App.Page.RepriceCategory | www/default.js:216-228 | one pass re-prices exactly the cells of its kind |
| App.Page.ChangeCost | www/default.js:160-273 | every cost cell is re-priced from the settings at entry; `cost_duration` and `pricing_unit` are recorded; the settings are saved |
| RowFilter.Threshold | www/default.js:449 | non-numeric input is threshold 0; other input is its `parseFloat` value |
| RowFilter.ShowAll | www/default.js:445 | every row is shown, nothing else changes |
| RowFilter.HideFailing | www/default.js:454-462 | a row stays shown exactly when it was shown and is not below the threshold; nothing else changes |
| RowFilter.MinValuesApplied | www/default.js:441-463 | the filter changes only the rows' visibility |
| RowFilter.MinValuesShownIff | www/default.js:445-462 | after the filter a row is hidden exactly when it is strictly below some threshold |
| RowFilter.MinValuesLastStep | www/default.js:441-463 | the last input hides a row exactly when the row was shown before it and falls below its threshold |
| RowFilter.ThresholdIsInclusive | www/default.js:459 | a value equal to the threshold stays visible |
| RowFilter.NonNumericRowIsKept | www/default.js:456-459 | a row without a numeric value in the column is never hidden by that column's input |
| RowFilter.NonNumericInputIsZero | www/default.js:449 | non-numeric input hides only negative values |
| RowFilter.MinVcpusExample | www/default.js:441-463 | `vcpus` = 4 hides a 2-vCPU row and shows a 4-vCPU row |
| RowFilter.ThresholdKeyShape | www/default.js:452 | the corrected key is `min_` and the type with every `-` made `_` |
| RowFilter.AsWrittenLosesPerVcpuThreshold | www/default.js:452 | the as-written key of `memory-per-vcpu` is no setting the URL or the defaults know; the corrected key is |
| RowFilter.ThresholdKeysAreSettings | www/default.js:476-479 | each input's corrected key is a default key and a URL parameter |
| RowFilter.AsWrittenAgreesWithOneDash | www/default.js:452 | for a type with at most one `-` both keys agree |
| RowFilter.ThresholdRecorded | www/default.js:447-452 | for the key as written or the corrected one, the last input whose type gives a key decides that setting, as a number |
| RowFilter.ThresholdUntouched | www/default.js:447-452 | for the key as written or the corrected one, a setting no input's type gives as its key is unchanged |
| RowFilter.AsWrittenPerVcpuInput | www/default.js:452 | as written, a `memory-per-vcpu` input stores its threshold in `min_memory_per-vcpu` and leaves `min_memory_per_vcpu` as it was |
| RowFilter.CorrectedPerVcpuInput | www/default.js:452 | with the corrected key, the same input stores its threshold in `min_memory_per_vcpu` |
| App.Page.ApplyMinValues | www/default.js:441-465 | the rows become `MinValuesApplied` of the rows at entry; the thresholds are recorded under the corrected keys; the settings are saved |
| App.Page.ShowRows | www/default.js:445 | all rows shown |
| App.Page.HideBelow | www/default.js:454-462 | the rows below one input's threshold are hidden |
| RowFilter.CompareApplied | www/default.js:659-666 | the compare view changes only visibility |
| RowFilter.CompareShownIff | www/default.js:659-666 | with compare off every row is shown; with it on a row is shown exactly when it is highlighted and was shown |
| RowFilter.CompareIdempotent | www/default.js:659-666 | applying the view twice is applying it once |
| RowFilter.CompareOffUndoesMinValues | www/default.js:661-662 | compare off shows again the rows the thresholds hid |
| RowFilter.CompareAfterMinValues | www/default.js:659-666 | thresholds then compare on: shown exactly when highlighted and meeting every threshold |
| App.Page.UpdateVisibleRows | www/default.js:659-666 | the rows become `CompareApplied` of the rows at entry, for the truthiness of `compare_on` |
| RowFilter.HighlightedIds | www/default.js:392-394 | there are no more ids than rows |
| RowFilter.HighlightedIdsExactly | www/default.js:392-394 | an id is listed exactly when a highlighted row has it |
| RowFilter.HighlightedIdsIgnoreVisibility | www/default.js:392-394 | hiding or showing rows does not change the selection |
| RowFilter.ClearHighlights | www/default.js:364-366 | every highlight is removed and nothing else changes |
| RowFilter.ClearedHasNoSelection | www/default.js:364-366 | after clearing no row id is selected |
| App.Page.Reset | www/default.js:351-361 | the settings equal the defaults; the search is empty; no row is highlighted; the store is cleared |
| App.ResetUrlIsBare | www/default.js:354-357 | after the reset the address has no query string |
| SpanSort.ClosingQuote | www/default.js:541 | the lazy group ends at a quote, with no quote or line terminator before it |
| SpanSort.SortCapture | www/default.js:541 | the captured text holds no quote or line terminator |
| SpanSort.ClosingQuoteAfter | www/default.js:541 | the group stops at the first quote |
| SpanSort.SortCaptureSkip | www/default.js:541 | the leftmost match is taken |
| SpanSort.PreOfSpan | www/default.js:540-546 | the key of `<span sort="x"...` is `parseFloat(x)` |
| SpanSort.PreWithoutAttribute | www/default.js:545 | markup without a `sort="` attribute sorts as 0 |
| SpanSort.CellSortKeyRoundTrip | www/default.js:540-546 | the key read back from a cost cell's markup is the number `change_cost` wrote: the amount, NaN, or 999999 |
| SpanSort.Asc | www/default.js:548-550 | the comparator returns -1, 0 or 1 |
| SpanSort.Desc | www/default.js:552-554 | the comparator returns -1, 0 or 1 |
| SpanSort.AscMatchesLess | www/default.js:548-550 | -1 exactly when a < b, 1 exactly when b < a, 0 otherwise |
| SpanSort.DescNegatesAsc | www/default.js:548-554 | descending equals ascending negated |
| SpanSort.AscAntisymmetric | www/default.js:548-550 | swapping the arguments negates the result |
| SpanSort.AscTransitive | www/default.js:548-550 | on numbers the comparator is transitive |
| SpanSort.NaNTiesWithEverything | www/default.js:548-554 | NaN compares as equal to every key |
| JsString.Split | www/default.js:570-572 | there is always at least one piece, and no piece contains the separator |
| JsString.SplitHasSecondPiece | www/default.js:572-574 | a second piece exists exactly when the separator occurs |
| JsString.JoinSplit | www/default.js:570 | splitting a string and joining the pieces gives the string back |
| JsString.SplitJoin | www/default.js:570 | joining pieces without the separator and splitting gives the pieces back |
| JsString.ReplaceFirstSpec | www/default.js:452 | only the first occurrence of the character is replaced |
| JsNumber.ParseFloat | www/default.js:449 | the result is a number exactly when a decimal literal follows the leading white space |
| JsNumber.StringToNumber | www/default.js:222-223 | blank text is 0; other text is a number exactly when, trimmed, it is one decimal literal from end to end, and then it is that literal's value |
| JsNumber.ParseFloatNatToString | www/default.js:543 | `parseFloat` and `Number` read the decimal digits of a natural number back as that number |
| JsValue.ToNumber | www/default.js:222-223 | `Number(v)` of a number is itself, of `undefined` is NaN |

## Left out

- DataTables configuration, column toggles, dropdown and button text, tooltips and the measuring-unit visibility (www/default.js:22-157, 160-186, 331-349, 597-634, 668-682) are presentation only.
- The browser is not modelled: `history.replaceState`, `location`, the page reload and the `setTimeout` start-up. `maybe_update_url` is modelled only by its `store.set`, which sets `App.Page.store` to the whole settings record. The store's JSON encoding is not modelled.
- `get_pricing` is not part of this model. It is the parameter `lookup` of `App.Page.ChangeCost`, a function from the call's arguments to a value.
- `get_instance_availability_zones` and `change_availability_zones` are not part of this model. They make an external lookup that the core does not depend on.
- `Number.prototype.toString` is not modelled. It is the parameter `fmt` wherever a number is printed into the address.
- `toFixed(6)` is not modelled. It is the parameter `fixed` of `SpanSort.CellMarkup`. `PriceProjector.Project` keeps the exact quotient, with no rounding to six decimals and no double-precision rounding.
- JsNumber.ParseFloat: does not read `Infinity`. The cells' sort attributes never hold it, but the minimum-value inputs are free text: typing `Infinity` there gives the threshold Infinity in the browser and 0 in the model.
- JsNumber.StringToNumber: does not read `Infinity`, hexadecimal, octal or binary literals, which a price modifier typed into the URL could hold.
- UrlSync.LoadAfterSerialise: assumes `location.search` gives back the query exactly as `url_for_selections` wrote it. A browser percent-encodes spaces, quotes, `<`, `>` and non-ASCII characters in the query and cuts it at `#`, and `load_settings` does not decode it; `UrlSync.UrlSafe` therefore requires values made of characters the browser keeps (`UrlSync.QueryChar`). The same holds for `UrlSync.QueryRoundTrip` and `UrlSync.StringSettingRoundTrip`.
- App.Page.ApplyMinValues: records each threshold under the corrected key `RowFilter.ThresholdKey`, not the key line 452 computes; the handler as written is `RowFilter.ThresholdSettings` with `RowFilter.ThresholdKeyAsWritten`, and `RowFilter.AsWrittenPerVcpuInput` states what it does (see Findings).
- The measuring-unit suffix and the `$` text of a cost cell (www/default.js:207-215) appear only as the parameter `suffix` of `SpanSort.CellMarkup`.
- `redraw_costs` (www/default.js:326-329) only calls `change_cost` with the current settings, modelled as `App.Page.ChangeCost`.
- `apply_price_modifier`, `change_region`, `change_reserved_term`, the row-click and compare-button handlers, and re-highlighting rows from `g_settings.selected` at start-up are outside the part of the page this model covers.
- App.Page.KeepParams: the deletion loop of `url_for_selections` is modelled as collecting the entries it does not delete, which leaves the same record in the same order.
- App.Page.ChangeCost: takes the duration and the unit as strings, as every caller passes them.

## Findings

| source | as written | input that shows it | evidently intended | confidence | as-written member | corrected member |
|---|---|---|---|---|---|---|
| www/default.js:452 | `"min_" + filter_on.replace('-', '_')` replaces only the first `-` | the input of type `memory-per-vcpu` stores its threshold at `min_memory_per-vcpu`; the address reads `min_memory_per_vcpu` (line 372) and the input is filled from it (line 478), so this threshold is never written to the address | every `-` replaced, giving `min_memory_per_vcpu` | not executed | RowFilter.ThresholdKeyAsWritten, RowFilter.AsWrittenLosesPerVcpuThreshold, RowFilter.AsWrittenPerVcpuInput | RowFilter.ThresholdKey, RowFilter.ThresholdKeysAreSettings, RowFilter.CorrectedPerVcpuInput |
