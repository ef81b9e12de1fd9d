# happydata: the data core of the happiness dashboard, in Dafny

The dashboard has two views that turn fetched data into chart data. This
model covers only that data logic. The rows are taken as already fetched and
parsed.

- **Indicator vs Happiness** (`IndicatorVsHappiness`, file
  `indicator_vs_happiness.dfy`). The `loadHappiness` loop folds the survey's
  CSV rows into a happiness index: country name to year to ladder score.
  `fetchBoth` then builds three parallel series on one year axis for a chosen
  country: the years, the indicator values and the happiness values. The
  indicator rows arrive newest first and are reversed. Happiness values are
  looked up in the index, and a missing entry is null.
- **Regional Happiness** (`RegionalHappiness`, file `regional_happiness.dfy`).
  `loadData` picks the latest survey year with `Math.max` over `parseInt`,
  keeps the rows of that year, and fills a score map keyed by trimmed country
  name. It copies scores onto alias names from the `nameMapping` table, and
  projects the map onto the map's geographic features by exact name.
- **JavaScript semantics** (`JsSemantics`, file `js_semantics.dfy`). These
  are the language behaviours the two views depend on:
  - an absent property reads as `undefined`;
  - `String(undefined)` is the text `"undefined"`;
  - `||` turns a score of 0 into null, while `??` keeps it;
  - `trim` removes ECMAScript white space;
  - `reverse` reverses an array.

`parseFloat` and `parseInt` are parameters of type `string -> Option<...>`,
where `None` stands for NaN. Parsing `undefined` (an absent column) gives NaN.
Scores are `real`.

The three imperative loops are methods over a local map:
- the index builder;
- the `scoreMap` fill;
- the alias pass over `Object.keys(nameMapping)`.

Each method is proved equal to a fold function over a growing prefix of its
input. The properties are proved as lemmas about those folds. The
expression-only parts are functions: `Math.max`, `filter`, the `map`/`reverse`
alignment and the feature projection.

The model keeps these behaviours of the code:
- The index builder stores a row that has no `Year` column.
  `String(undefined)` is `"undefined"`, which is truthy, so the row is stored
  under the year `"undefined"`.
- Name reconciliation runs only in the regional view, on the flat
  `country -> score` map. It copies only when the source score is truthy,
  so a score of 0 is not copied.
- `latestYear` is `-Infinity` for no rows. It is NaN as soon as one row's
  year fails to parse, and then no row is kept and every map value is null.
- The projection gives null for a score of 0 as well as for a missing name.
- The indicator series is the API's rows (newest first) reversed.

## Model

| member | source | states |
|---|---|---|
| `JsSemantics.ToJsString` | src/IndicatorVsHappiness.jsx:44 | `String(v)` is the text itself for a string. It is a non-empty text ("undefined") for `undefined`. |
| `JsSemantics.OrNull` | src/RegionalHappiness.jsx:101 | The logical-or fallback to null (`m[key] or null`) is the score exactly when the key is present and the score is not 0. Otherwise it is null. |
| `JsSemantics.OrNullish` | src/IndicatorVsHappiness.jsx:70 | `m[key] ?? null` is the score exactly when the key is present, a score of 0 included. |
| `JsSemantics.TrimStart` | src/RegionalHappiness.jsx:60 | The result is a suffix of the input. Everything cut off is white space, and the result does not start with white space. |
| `JsSemantics.TrimEnd` | src/RegionalHappiness.jsx:60 | The result is a prefix of the input. Everything cut off is white space, and the result does not end with white space. |
| `JsSemantics.Trim` | src/RegionalHappiness.jsx:60 | `trim()` never lengthens the name, and its result neither starts nor ends with white space. |
| `JsSemantics.TrimCutsOnlySpace` | src/RegionalHappiness.jsx:60 | What `trim()` keeps is a slice of the name, and everything it cuts off on either side is white space. |
| `JsSemantics.TrimIdempotent` | src/RegionalHappiness.jsx:60 | Trimming a trimmed name changes nothing. |
| `JsSemantics.Reversed` | src/IndicatorVsHappiness.jsx:66-67 | `reverse` keeps the length and puts element `n-1-i` at position `i`. |
| `JsSemantics.ReversedTwice` | src/IndicatorVsHappiness.jsx:66-67 | Reversing twice restores the original order. |
| `JsSemantics.AssignAllHasKey` | src/RegionalHappiness.jsx:58-63 | An object filled by property assignments in order, starting empty, has key `k` iff some assignment writes `k`. |
| `JsSemantics.AssignAllLastWins` | src/RegionalHappiness.jsx:62 | The value under a present key is that of the last assignment to it: later writes overwrite earlier ones. |
| `IndicatorVsHappiness.ReadRow` | src/IndicatorVsHappiness.jsx:43-46 | A row is accepted iff its country name is present and non-empty, `String(Year)` is non-empty, and the ladder score parses. An absent Year gives the year "undefined". |
| `IndicatorVsHappiness.Put` | src/IndicatorVsHappiness.jsx:48-49 | Storing an entry sets that (country, year) score. It creates the inner map only when the country is absent, and changes no other country and no other year. |
| `IndicatorVsHappiness.BuildHappinessIndex` | src/IndicatorVsHappiness.jsx:41-50 | The builder loop produces the fold of `ReadRow`/`Put` over the rows in input order. |
| `IndicatorVsHappiness.PutLookup` | src/IndicatorVsHappiness.jsx:48-49 | After storing an entry, the lookup of its own (country, year) is its score, and every other lookup is what it was. |
| `IndicatorVsHappiness.HappinessAt` | src/IndicatorVsHappiness.jsx:70 | The lookup of (country, year) is present iff the index has that country and, under it, that year, and is then the stored score. |
| `IndicatorVsHappiness.IndexStep` | src/IndicatorVsHappiness.jsx:48-49 | One more row changes the lookup of a (country, year) only when that row is accepted with that key. The new value is that row's score. |
| `IndicatorVsHappiness.IndexFlattens` | src/IndicatorVsHappiness.jsx:41-50 | The nested index answers every (country, year) lookup as a flat object would, filled in row order with one assignment per accepted row. |
| `IndicatorVsHappiness.IndexHasEntry` | src/IndicatorVsHappiness.jsx:41-50 | A (country, year) lookup is present iff some accepted row has that key. A row with an unparseable score adds nothing. |
| `IndicatorVsHappiness.IndexLastWins` | src/IndicatorVsHappiness.jsx:49 | A present (country, year) score is the score of the last accepted row with that key. |
| `IndicatorVsHappiness.IndexEmpty` | src/IndicatorVsHappiness.jsx:41-50 | The index is empty iff no row is accepted. |
| `IndicatorVsHappiness.RowsOrEmpty` | src/IndicatorVsHappiness.jsx:64 | A present page of indicator rows is taken as is. A missing page is no rows. |
| `IndicatorVsHappiness.Align` | src/IndicatorVsHappiness.jsx:64-71 | Rows missing from the API give empty series. Otherwise the three series have the rows' length. Position `i` of years and indicator values comes from row `n-1-i`. Happiness at `i` is present iff the index has (country, `years[i]`), then equals it (0 included); it is never filled. |
| `IndicatorVsHappiness.FetchBoth` | src/IndicatorVsHappiness.jsx:60-71 | No chart data is produced iff the index is empty. Otherwise the result is the aligned series. |
| `IndicatorVsHappiness.AlignedValueFromRows` | src/IndicatorVsHappiness.jsx:41-71 | End to end: the charted happiness value at `i` is present iff some accepted CSV row has the country and that year. It is then the last such row's score. |
| `IndicatorVsHappiness.ChartDataNeedsAcceptedRow` | src/IndicatorVsHappiness.jsx:41-60 | End to end: chart data is produced iff at least one CSV row is accepted. |
| `RegionalHappiness.ProjectRows` | src/RegionalHappiness.jsx:39-43 | There is one projected row per CSV row, in order. Year, Country and Score are read from the columns "Year", "Country name" and "Ladder score", and are `undefined` when the column is absent. |
| `RegionalHappiness.MaxOf` | src/RegionalHappiness.jsx:54 | `Math.max` gives -Infinity iff there are no arguments, and NaN iff some argument is NaN. Otherwise it gives an argument that no argument exceeds. |
| `RegionalHappiness.LatestYear` | src/RegionalHappiness.jsx:54 | `latestYear` is -Infinity iff there are no rows, and NaN iff some row's year fails to parse. Otherwise it is some row's parsed year, and every row's parsed year is at most it. |
| `RegionalHappiness.FilterLatest` | src/RegionalHappiness.jsx:55 | `filtered` is no longer than the input, and every row in it has the parsed year `latestYear`. |
| `RegionalHappiness.FilterLatestMembers` | src/RegionalHappiness.jsx:55 | A row is in `filtered` iff it is an input row whose parsed year equals `latestYear`. |
| `RegionalHappiness.FilterLatestAppend` | src/RegionalHappiness.jsx:55 | Filtering a concatenation concatenates the filtered parts, so input order is kept. |
| `RegionalHappiness.NothingIsLatest` | src/RegionalHappiness.jsx:55 | When `latestYear` is NaN or -Infinity no row is kept. |
| `RegionalHappiness.CountryKey` | src/RegionalHappiness.jsx:60-62 | An absent country name becomes the key "undefined". A present one becomes its trimmed form, which is no longer than the name and neither starts nor ends with white space. |
| `RegionalHappiness.BuildScoreMap` | src/RegionalHappiness.jsx:58-63 | The `forEach` loop produces the fold over `filtered` that stores each non-NaN score under the trimmed name, or under "undefined" when the name is absent. |
| `RegionalHappiness.FilterThenScoreStep` | src/RegionalHappiness.jsx:55-63 | One more input row changes `scoreMap` only when it is a latest-year row with a non-NaN score. It then sets its trimmed name to its score. |
| `RegionalHappiness.FilterThenScore` | src/RegionalHappiness.jsx:55-63 | Filtering to the latest year and then filling `scoreMap` gives the object filled by one assignment per kept input row with a non-NaN score, in input order. |
| `RegionalHappiness.ScoreMapHasKey` | src/RegionalHappiness.jsx:58-63 | `scoreMap` has key `k` iff some latest-year row has trimmed name `k` and a non-NaN score. |
| `RegionalHappiness.ScoreMapLastWins` | src/RegionalHappiness.jsx:62 | `scoreMap[k]` is the score of the last such row in input order. |
| `RegionalHappiness.AliasStep` | src/RegionalHappiness.jsx:93-95 | One turn of the alias loop copies a present, non-zero source score onto the target. It leaves the map unchanged otherwise, and never changes any key but the target. |
| `RegionalHappiness.AliasPass` | src/RegionalHappiness.jsx:92-96 | The alias loop never removes a key, and every key it adds is a target of the table. |
| `RegionalHappiness.AliasPassKeepsNonTarget` | src/RegionalHappiness.jsx:92-96 | A key that is no alias target keeps its entry through the alias pass. |
| `RegionalHappiness.AliasPassAppliesAlias` | src/RegionalHappiness.jsx:92-96 | The target of an alias ends with the source's score when that score is present and non-zero, and keeps its own entry otherwise. This needs the source to be no target and the target to be no other alias's target. |
| `RegionalHappiness.AliasPassEffect` | src/RegionalHappiness.jsx:92-96 | For a well-formed table, every alias takes effect as above and every non-target key, each source included, is unchanged. |
| `RegionalHappiness.AliasPassIdempotent` | src/RegionalHappiness.jsx:92-96 | For a well-formed table, running the alias pass twice gives the same map as once. |
| `RegionalHappiness.AliasPassEmpty` | src/RegionalHappiness.jsx:92-96 | The alias pass adds nothing to an empty score map. |
| `RegionalHappiness.NameMappingSourcesDistinct` | src/RegionalHappiness.jsx:70-90 | The table's survey names are pairwise distinct. |
| `RegionalHappiness.NameMappingTargetsDistinct` | src/RegionalHappiness.jsx:70-90 | The table's target names are pairwise distinct. |
| `RegionalHappiness.NameMappingTargetsNotSources` | src/RegionalHappiness.jsx:70-90 | No target name of the table is also a survey name. |
| `RegionalHappiness.NameMapping` | src/RegionalHappiness.jsx:70-90 | The 19 (survey name, target name) pairs of `nameMapping`, in the order `Object.keys` lists them. |
| `RegionalHappiness.NameMappingEffect` | src/RegionalHappiness.jsx:70-96 | With `nameMapping`, every alias takes effect and every key that is no target keeps its entry. |
| `RegionalHappiness.ApplyAliases` | src/RegionalHappiness.jsx:92-96 | The loop over a table, run in table order in place, produces the alias fold of that table. |
| `RegionalHappiness.ReconcileNames` | src/RegionalHappiness.jsx:92-96 | The alias loop over `nameMapping`, in key order, copies each truthy source score onto its target. It leaves other targets and every non-target key unchanged. |
| `RegionalHappiness.ReconcileNamesIdempotent` | src/RegionalHappiness.jsx:70-96 | Reconciling names twice with `nameMapping` equals reconciling once. |
| `RegionalHappiness.ProjectFeatures` | src/RegionalHappiness.jsx:99-102 | There is one data row per feature, in order, carrying that feature. Its value is the score under the feature's exact name iff that score is present and not 0, and null otherwise. |
| `RegionalHappiness.LoadData` | src/RegionalHappiness.jsx:39-102 | The data part of `loadData` does these steps in order: projection, `latestYear`, `filtered`, the score-map loop, the alias loop and the feature projection. |
| `RegionalHappiness.NoLatestYearAllNull` | src/RegionalHappiness.jsx:54-63 | With no rows, or with one row whose year fails to parse, every feature's value is null. |
| `RegionalHappiness.ProjectedValue` | src/RegionalHappiness.jsx:92-102 | End to end: a feature whose name is no alias target shows its latest-year score when present and non-zero, null otherwise. A feature named by an alias target whose source score is truthy shows the source's score. |

## Left out

- Fetching (`fetch`, `axios`), CSV parsing (Papa Parse, with its header trimming and empty-line skipping) and the TopoJSON-to-GeoJSON conversion are left out. Their outputs are inputs here: CSV rows as `map<string, string>`, indicator rows as `Option<seq<ApiRow>>`, and features with a name function.
- The internals of `parseFloat` and `parseInt` are left out. They are uninterpreted parameters, so infinite values, float rounding and `toFixed` formatting are not modelled. The index builder's `isNaN` test therefore never meets an infinite score here.
- Chart.js setup is left out: the chart handle's destroy-and-redraw, the tooltip, the dataset labels and styling.
- React state and effect scheduling are left out. So are stale responses that arrive after the selection changed, and the `COUNTRIES` dropdown table (the chosen country name is a parameter).
- The `console.log` debug lines are left out.
- `src/IndicatorVsHappiness.jsx:37` reads an undefined variable `res` instead of `whrRes`. The model takes the fetched text as already parsed into rows.
- Property names inherited from `Object.prototype` (such as `"constructor"` or `"__proto__"` used as a country or feature name) are left out. Objects are modelled as plain maps.
- `Math.max(...)` over a very large argument list is not modelled (the engine's spread limit).
- src/CountryIndicatorTrend.jsx, src/App.jsx and vite.config.js are not part of this model. They hold a one-line reversal of a response, tab navigation and build configuration.
