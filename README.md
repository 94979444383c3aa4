# National Happiness Scorecard — a verified model

The scorecard is a two-page web site over the World Happiness Report data set.
The data set is an array of records, each holding a country name, a year and a
number of measured variables ("Life Ladder", "Log GDP per capita", "Social
support", …).

- **Landing page** (`script.js`). It groups the records by country. For each
  country it finds the newest score and the percent change from the country's
  second-newest record, which may be of an earlier year or of the same year. From these summaries it fills five card sections: Top 10 Overall,
  Most Improved, Largest Regression, Most Challenged and All Countries. A search
  box lists the distinct country names that contain the typed text.
- **Detail page** (`country.js`). It keeps the records of one country. It shows
  two tables of four variables each, with the current value, the percent change
  and a definition for every variable. It draws one line chart per variable
  over the years.

The project has five modules:

| module | file | what it holds |
|---|---|---|
| `Dataset` | `dataset.dfy` | records, the distinct names in first-appearance order, the records of one country, the percent-change formula |
| `Sorting` | `sorting.dfy` | `Array.prototype.sort` as a stable insertion sort driven by a comparator, proved to permute, to sort and to be stable; an in-place array version proved equal to it |
| `Search` | `search.dfy` | the search-box handler, identical in the two files |
| `Landing` | `landing.dfy` | `processCountryData`, the five sections and the page driver |
| `Detail` | `detail.dfy` | the country filter, `calculatePercentChange`, the table rows, the definitions, the charts and the page driver |

## Behaviour of the source that the model keeps

- **Comparators.** A JavaScript comparator returns a number. A positive result
  puts the second argument first; `NaN` counts as 0. `Sort(s, cmp)` is a stable
  insertion sort on such a comparator, matching the stability that ECMAScript
  requires of `Array.prototype.sort`. `localeCompare` is a parameter `collate`.
  `toLowerCase` is a per-character `fold`.
- **Aliasing on the landing page.** `processCountryData` returns one array, and
  three sections sort that same array in place. `getTop10Overall` sorts it by
  descending score. `getBottom10Scored` then re-sorts the already sorted array
  by ascending score. `getAllCountriesAlphabetical` sorts it by name and returns
  the array itself. The model keeps a single `array<Summary>` and three
  `modifies` methods, so each section's result is stated in terms of the
  previous sort. `Landing.AliasedSortsAgree` shows that the alphabetical section
  still comes out as a plain name sort, because country names are distinct.
  The two percent-change sections call `processCountryData(data)` again on the
  raw records and work on fresh copies.
- **Landing-page percent change.** The change is computed from the newest and
  the second-newest entry, after a stable descending-year sort of the country's
  entries. A country with one entry gets `'N/A'`.
- **Detail-page percent change.** `calculatePercentChange` uses the last two
  records **by position in the array**, not by year. It returns `0` for fewer
  than two records, and otherwise the text produced by
  `((latest - previous) / previous * 100).toFixed(2)`.
  - The result is modelled as `Shown`: `NoHistory`, `Fixed(hundredths)`,
    `Infinite(positive)` or `NotANumber`.
  - A missing value, or two zero values, gives `NaN`.
  - A zero previous value with a nonzero latest value gives `±Infinity`.
  - The cell's class is `positive-change` exactly when the shown string
    compares above zero.
  - Because the source divides by `previous` and not by its magnitude, a
    variable whose previous value is negative is marked `positive-change` when
    it falls further below zero. For example, Generosity going from −0.1 to
    −0.2 shows `100.00%` with class `positive-change`.
    `Detail.PositiveChangeIff` states this case exactly.
- **Row order and chart order.** `renderCurrentYearData` builds its rows before
  `renderBasicCharts` sorts `countryData` by year in place. The rows therefore
  use the data set's own order, and the charts use year order. When the records
  are already in year order the two agree (`Detail.RowsAgreeWithCharts`).
  `Detail.RowsCanDisagreeWithCharts` gives two records listed newest first,
  for which the table's current value differs from the chart's last point.

## Model

| member | source | states |
|---|---|---|
| `Dataset.Names` | script.js:42-60 | the keys of `countryMap` are the country names, each once, and every name in the data appears among them |
| `Dataset.NamesInFirstAppearanceOrder` | script.js:60 | `Object.keys` lists the countries in the order in which each first appears in the data |
| `Dataset.RecordsOf` | country.js:11 | every filtered record is a record of that country from the data, every record of that country is kept, and the result is empty exactly when the country does not occur |
| `Dataset.RecordsOfInOrder` | country.js:11 | the filter keeps data order and multiplicity: the result is the data's records at strictly increasing indices, and those are all the indices of that country's records |
| `Dataset.PercentChange` | script.js:73 | `((latest - prior) / prior) * 100` satisfies `prior * (100 + r) == 100 * latest`, and it is positive exactly when the latest score lies beyond the prior one on the far side from zero |
| `Sorting.SortPermutes` | script.js:64 | the sort rearranges the array without adding or losing elements |
| `Sorting.SortSorted` | script.js:90 | under a consistent comparator, no element of the sorted array must go after a later one |
| `Sorting.SortStable` | script.js:64 | elements that compare equal keep their original relative order, as ECMAScript requires of `Array.prototype.sort` |
| `Sorting.SortInPlace` | script.js:90 | the in-place sort leaves the array equal to `Sort` of its old contents |
| `Sorting.SortForgetsOrder` | script.js:119 | when only equal elements tie, the sorted result does not depend on the input order |
| `Landing.GroupByCountry` | script.js:42-57 | the `forEach` loop builds the map of each country to its entries in data order, and the key order is `Names(data)` |
| `Landing.GroupMapGroups` | script.js:42-57 | the map has a key exactly for each occurring country, mapped to that country's entries in data order |
| `Landing.SummarizeCountry` | script.js:60-81 | one step of the `map`: it sorts the country's entries by year and builds its summary |
| `Landing.SummarizeKeys` | script.js:60-82 | the `map` over the keys gives one summary per key, in key order |
| `Landing.ProcessCountryData` | script.js:41-85 | returns a fresh array holding the country summaries, in first-appearance order |
| `Landing.SummariesProperties` | script.js:41-85 | one summary per distinct country, names distinct, each summary that country's own |
| `Landing.SummarizeMeaning` | script.js:63-80 | the latest year is the largest year and the latest score that of the first entry having it; the change is `'N/A'` exactly when there is one entry, and otherwise the percent change from the prior entry: the first entry, other than the latest one, of the newest remaining year |
| `Landing.PriorFirst` | script.js:64-68 | after the stable descending-year sort, the second entry is the first entry in input order, other than the first entry, of the newest remaining year |
| `Landing.NewestAndPrior` | script.js:60-81 | the same facts, stated on the country's records in the data set |
| `Landing.YearSorted` | script.js:64 | the year sort permutes the entries and orders them newest first |
| `Landing.GetTop10Overall` | script.js:88-92 | sorts the shared array by descending score in place and returns its first ten |
| `Landing.TopOverallRanking` | script.js:88-92 | Top 10 Overall has min(10, n) distinct countries in descending score, and no country left out scores higher than one shown |
| `Landing.GetBottom10Scored` | script.js:111-115 | re-sorts the shared array by ascending score and returns its first ten |
| `Landing.BottomScoredRanking` | script.js:111-115 | Most Challenged, taken from the already score-sorted array, has min(10, n) distinct countries in ascending score, and no country left out scores lower than one shown |
| `Landing.GetAllCountriesAlphabetical` | script.js:118-120 | sorts the shared array by `localeCompare` of the names and returns that same array |
| `Landing.AliasedSortsAgree` | script.js:12-24 | after the two score sorts, the alphabetical sort still gives exactly the name sort of the summaries: a permutation in strict name order |
| `Landing.WithChange` | script.js:97 | the filter keeps exactly the summaries with a numeric change |
| `Landing.WithChangeAppend` | script.js:97 | the filter distributes over concatenation, so it keeps the summaries' relative order |
| `Landing.WithChangeInOrder` | script.js:97 | the summaries kept are those of the input at strictly increasing indices, and those are all the indices of summaries with a numeric change |
| `Landing.GetTop10MostImproved` | script.js:95-100 | recomputes the summaries from the raw data, filters, sorts by descending change and takes ten |
| `Landing.MostImprovedRanking` | script.js:95-100 | Most Improved has min(10, m) distinct countries with a change, where m is the number of countries with a change; each has at least two records, the changes descend, and no country left out improved more |
| `Landing.GetTop10LargestDecline` | script.js:103-108 | the same with an ascending sort |
| `Landing.LargestDeclineRanking` | script.js:103-108 | Largest Regression has min(10, m) distinct countries, the changes ascend, and no country left out declined more |
| `Landing.FetchDataAndRenderCards` | script.js:2-38 | the five sections, with Most Challenged and All Countries each taken from the array the previous section sorted |
| `Search.MatchingNames` | script.js:204-209 | a name is listed exactly when it occurs and its lower-cased form contains the query |
| `Search.MatchingNamesKeepsOrder` | script.js:201-212 | filtering keeps the first-appearance order of the Set |
| `Search.SearchResultsProperties` | country.js:247-271 | an empty query lists nothing; otherwise every matching name is listed, each once, only matching names, in first-appearance order |
| `Search.OnInput` | script.js:195-219 | the loop with its Set of names lists exactly `SearchResults` |
| `Detail.ToFixed2` | country.js:90 | `toFixed(2)` in hundredths: within half a hundredth, a tie rounding away from zero |
| `Detail.CalculatePercentChange` | country.js:86-91 | 0 exactly when there are fewer than two records |
| `Detail.ShownChangeMeaning` | country.js:86-91 | `NaN` exactly when a value is missing or both are zero; `±Infinity` exactly when only the previous value is zero, signed like the latest value; otherwise within half a hundredth of the true percent change |
| `Detail.ChangeClass` | country.js:133 | the class is `positive-change` exactly when the shown change compares above zero, and `negative-change` otherwise |
| `Detail.PositiveChangeIff` | country.js:133 | `positive-change` exactly when there are two records with both values and the change rounds to at least 0.01%, which for a negative previous value means a fall, or when the previous value is zero and the latest is positive |
| `Detail.VariableDefinition` | country.js:170-182 | the definition is nonempty exactly for the eight chart variables, and it is the listed text for each |
| `Detail.BuildRows` | country.js:96-111 | one row per variable, with its name, the last record's value, the percent change and `getVariableDefinition`'s text, which is nonempty exactly for the charted variables |
| `Detail.TablesProperties` | country.js:94-111 | each table has four rows: the first table covers the first four chart variables, the second the last four, each row has a definition and the last record's value |
| `Detail.ChartOf` | country.js:196-197 | the labels are the years and the values the variable's values of the records, index by index |
| `Detail.ChartSeries` | country.js:192-197 | the year sort permutes the records and keeps same-year records in data order; labels never decrease, and the chart plots exactly the data's (year, value) points |
| `Detail.RenderBasicCharts` | country.js:185-197 | sorts `countryData` in place by year and builds one chart per variable from the sorted array |
| `Detail.ChartsProperties` | country.js:194-197 | one chart per variable, each with one point per record, nondecreasing years and the data's points |
| `Detail.CountryOverview` | country.js:43-54 | the header shows the country's name and the last record's year, with the happiness score and change a table row for "Life Ladder" would show; the change is 0 exactly when there is one record |
| `Detail.DetailPage` | country.js:2-40 | nothing is rendered exactly when the country is missing or has no records; otherwise the page is built from that country's records |
| `Detail.FetchAndRenderCountryDetails` | country.js:2-40 | the page the driver renders is `DetailPage` |
| `Detail.RowsAgreeWithCharts` | country.js:34-35 | for year-ordered records, the row's current value is the chart's last point, and the change is computed between the chart's last two points |
| `Detail.RowsCanDisagreeWithCharts` | country.js:34-35 | for two records listed newest first, the table's current value differs from the chart's last point |

## Left out

- Network, DOM and the page lifecycle are not modelled. This covers `fetch('data.json')`, which becomes a parameter, along with `response.json()`, `URLSearchParams`, `renderSection`, `createCard`, the `innerHTML` templates, click navigation and the `try`/`catch` logging. The `country` query parameter becomes an `Option<string>`.
- `renderCountryOverview` is modelled only for the header values it writes (`Detail.CountryOverview`): the name, the last record's year, its Life Ladder score and that score's change. The Leaflet map and the Nominatim geocoding lookup are external services and are left out.
- Landing: `Scored` requires every record to have a nonzero Life Ladder score. The source breaks when a country's prior (second-newest entry's) score is missing or zero, or its newest score is missing: a missing or zero prior score gives `NaN` or `Infinity` at script.js:73; a missing newest score gives a `NaN` change at script.js:73 that passes the `!== 'N/A'` filter at script.js:97 and 105, and an `undefined` `latestScore` that makes the score comparators at script.js:90 and 113 return `NaN`, also for a single-record country. A comparator that returns `NaN` is inconsistent. `Scored` also excludes inputs the source handles without `NaN` or `Infinity`: a zero newest score with a nonzero prior one (a change of -100%), a zero score of a single-record country, and a zero or missing score in records older than a country's two newest entries, which the source never reads. IEEE floating point is not modelled.
- `Landing.WithChange`: the filter's order is stated by `Landing.WithChangeAppend` and `Landing.WithChangeInOrder`. The rankings state their order by change but not which of two countries with equal changes comes first; that follows from `Sorting.SortStable` applied to the filtered order.
- Landing: the cards' `percentChange.toFixed(2)` (script.js:165) is display only and is not modelled. Scores and changes are exact reals, not doubles.
- `Detail.ToFixed2` models rounding on exact reals. It does not model doubles, the exponent form that `toFixed` uses for magnitudes of 1e21 or more, or the `"-0.00"` shown for tiny negative changes.
- `Landing.AliasedSortsAgree` assumes, through `CollationOrder`, that `localeCompare` is a consistent order that ties only identical names. Real locale collation may tie distinct strings.
- `Search.Lower` folds case one character at a time. Unicode case mappings that change a string's length are not modelled.
- `Object.keys` lists integer-like keys first in ascending order, and `countryMap[name]` can find inherited properties such as `"constructor"`. The model uses insertion order and a plain map, which assumes country names are ordinary names.
- `Detail.VariableDefinition`: `definitions[variable] || ''` on an object literal returns an inherited member, a truthy non-string, for names such as `"constructor"`, `"toString"` or `"__proto__"`. The model returns `""` for every name outside the eight listed ones. The page only ever passes the eight listed names.
- Record values are reals or absent. JSON `null`, which JavaScript turns into 0 in arithmetic, is not distinguished from a number.
- The `setupSearch` in country.js is never called by that page. It is modelled once in `Search`, because it is identical to the landing page's handler.
