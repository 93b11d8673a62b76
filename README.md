# Brazilian municipal election dashboard — verified model

This project models the data pipeline behind a Streamlit dashboard of
Brazilian election results (2016–2024). One compressed CSV file exists per
election year and state. The dashboard builds its link from a 27-entry table
of state codes and names. It loads the file, projects it, tags every row
with the year and filters it. It groups and sums the votes and shows the
result on four pages:

- **the export page** (`gerar_dados_dos_candidatos.py`): it loads the
  selected years, applies four optional membership filters, builds the export
  filename and shows the vote total with dots as thousands separators;
- **the general charts** (`pages/graficos_gerais.py`): it loads every cycle,
  normalises names and offices and draws one candidate's votes per year,
  the ten neighbourhoods and municipalities with the most votes, and the
  votes per office;
- **the presence page** (`pages/identificar_presenca_dos_candidatos.py`): for
  one name on the ballot it builds a name × year table of Sim/Não cells;
- **the comparison page** (`pages/comparacao_de_candidatos_por_votos.py`): it
  shows per-candidate totals, the ten most voted (candidate, neighbourhood)
  pairs and a party × municipality heatmap limited to the ten most voted
  parties and municipalities.

The Dafny modules follow that structure:

- `Seqs`: `Option`, filtering, flattening and distinct values.
- `Text`: join, first-occurrence replace, upper-casing, strip, decimal digits,
  the thousands format and string order.
- `Locator`: the state table, UTF-8 and percent encoding as `quote` does it,
  and the file URL.
- `Frames`: records, frames, loading one year, projection, the four filters
  and the name normaliser.
- `Aggregate`: group-and-sum over (key, votes) pairs, sorting by votes and
  the top N.
- `GenerateData`, `GeneralCharts`, `Presence` and `Comparison`: one module
  per page.

The remote store is a parameter `Source` (locator ↦ parsed rows, or `None`).
Every property below therefore holds whatever the files contain.

Behaviour of the code that the model keeps as it is:

- The presence search has no `try` around `executor.map`
  (`pages/identificar_presenca_dos_candidatos.py:62-63`), so one failing year
  makes the whole search raise. In the model, `Presence.Gather` fails as a
  whole.
- The general charts apply the normaliser twice: once in `read_csv` and once
  more after the concatenation in `load_all_years`. The normaliser replaces
  only the first occurrence, so it is not idempotent. The model applies it
  twice, and `GeneralCharts.NormalizeTwiceChangesName` shows the difference.
- The comparison page defines a normaliser but never calls it, so names there
  pass through unchanged.
- On the export page, a selected year that cannot be fetched makes
  `load_filter_options` return `None`. Unpacking that result raises before the
  four filter values are bound, and the bare `except` swallows the error. The
  handler's first use of a filter value then raises `NameError`, and that is
  the error it shows. The model reports `UnboundFilters` for it
  (`GenerateData.SelectionFails`).

Modelling choices:

- Polars `unique` and `group_by` do not promise an order. The model keeps
  first-seen order and promises nothing about that order in any contract.
- Ties in polars `sort` and in pandas `sort_values` (quicksort, not stable)
  have no specified order. There the contracts promise only non-increasing
  votes and which keys are missing.
- Ties in pandas `nlargest` do have an order. `groupby` sorts its keys, and
  `nlargest(keep='first')` keeps the first of equal values, so among tied
  parties (or municipalities) the smallest name is kept. The model groups
  by ascending key (`Comparison.PartGroups`) and takes the top ten with a
  stable sort (`Aggregate.SortTiesOrdered`, `Aggregate.TopKeepsFirst`).
  `Comparison.TopOfFirst` proves that a value left out with the same votes
  as a kept one comes after it in string order.
- The export page and the presence page sort years as strings. The model
  sorts them as numbers and proves the two orders agree for four-digit
  years (`GenerateData.SortedYearTexts`, `Presence.ReorderTextOrder`).
- Table cells are the datatype `Mark`. `Presence.Label` gives the displayed
  text "Sim" or "Não".
- The concurrent `executor.map` is modelled as a sequential map that keeps
  input order, which is what `map` returns.

## Model

| member | source | states |
|---|---|---|
| Locator.StateName | gerar_dados_dos_candidatos.py:14-42 | a code is known iff its upper-cased form is a key of the 27-entry state table |
| Locator.Lookup | gerar_dados_dos_candidatos.py:48 | dictionary lookup: `None` iff no entry has the key, otherwise the value of the first entry with that key |
| Locator.StateNameOfEntry | gerar_dados_dos_candidatos.py:14-42 | the table has 27 entries, and a code matching entry i (case-insensitively) names that entry's state |
| Locator.CodesDistinctLow | gerar_dados_dos_candidatos.py:14-42 | the codes of the first 14 entries are pairwise distinct (the dictionary keys are unique) |
| Locator.CodesDistinctHigh | gerar_dados_dos_candidatos.py:14-42 | the codes of the last 13 entries are pairwise distinct |
| Locator.CodesDistinctAcross | gerar_dados_dos_candidatos.py:14-42 | no code of the first 14 entries equals one of the last 13 |
| Locator.Url | gerar_dados_dos_candidatos.py:48 | a link exists iff the state code is known |
| Locator.UrlRoundTrip | gerar_dados_dos_candidatos.py:48 | the year and the state name can be parsed back out of every generated link, so distinct (year, state) give distinct links |
| Locator.UnknownCodeHasNoUrl | gerar_dados_dos_candidatos.py:48 | a code that is not a table key gives no link (the source's `KeyError`) |
| Locator.RioDeJaneiro | pages/graficos_gerais.py:27 | the link for the default state RJ is the prefix, the year, the separator, `quote("Rio de Janeiro")` and `.csv.gz` |
| Locator.PrefixEncodesElections | gerar_dados_dos_candidatos.py:48 | the hard-coded `Elei%C3%A7%C3%B5es%20` is exactly the percent encoding of "Eleições " |
| Locator.QuoteRoundTrip | gerar_dados_dos_candidatos.py:48 | `quote` is injective: percent-decoding then UTF-8-decoding gives the state name back |
| Locator.Utf8RoundTrip | gerar_dados_dos_candidatos.py:48 | the UTF-8 encoding inside `quote` decodes back to the original string |
| Locator.PercentRoundTrip | gerar_dados_dos_candidatos.py:48 | percent-encoding of bytes decodes back to the same bytes |
| Locator.PercentEncode | gerar_dados_dos_candidatos.py:48 | every character of the output is an unreserved character, `/` or `%` |
| Locator.QuoteSafe | gerar_dados_dos_candidatos.py:48 | ASCII letters, digits and `-._~/` pass through `quote` unchanged |
| Locator.QuoteSpace | gerar_dados_dos_candidatos.py:48 | a space becomes `%20` between the encodings of the two sides |
| Locator.QuoteAppend | gerar_dados_dos_candidatos.py:48 | `quote` distributes over concatenation |
| Locator.QuoteTwoByte | gerar_dados_dos_candidatos.py:48 | a character in U+0080..U+07FF becomes two `%XX` escapes of its UTF-8 bytes |
| Locator.QuoteCedilla | gerar_dados_dos_candidatos.py:48 | `quote("ç") == "%C3%A7"` |
| Locator.QuoteOTilde | gerar_dados_dos_candidatos.py:48 | `quote("õ") == "%C3%B5"` |
| Frames.Fetch | gerar_dados_dos_candidatos.py:48-49 | `UnknownState` iff the code is not in the table; otherwise the rows the store holds at the link, or `Unavailable` |
| Frames.Tag | gerar_dados_dos_candidatos.py:55 | one record per file line, each carrying that line's fields and the literal year |
| Frames.TagYear | gerar_dados_dos_candidatos.py:55 | every tagged record has the requested year, and dropping the year gives the file line back |
| Frames.Project | gerar_dados_dos_candidatos.py:51-52 | a `select` succeeds iff its columns are distinct and present in the file, and keeps their order |
| Frames.LoadedColumns | gerar_dados_dos_candidatos.py:51-55 | a successful projection ends with the year column and has distinct columns; no projection gives every file column plus the year |
| Frames.Load | gerar_dados_dos_candidatos.py:48-55 | succeeds iff the fetch and the projection succeed; then the rows are the tagged file lines and the columns are the projected ones |
| Frames.LoadYear | gerar_dados_dos_candidatos.py:55 | every loaded row carries the loaded year |
| Frames.KeepIn | gerar_dados_dos_candidatos.py:57-58 | an empty list is no filter; otherwise the filter needs the column and keeps exactly the rows whose value is in the list |
| Frames.KeepRows | gerar_dados_dos_candidatos.py:58 | `is_in` keeps exactly the rows whose column value is in the list |
| Frames.ApplyFiltersChain | gerar_dados_dos_candidatos.py:57-67 | the chain of four filters succeeds iff every non-empty filter's column is present; then it yields the chained rows |
| Frames.ChainIsPassing | gerar_dados_dos_candidatos.py:57-67 | the four filters applied one after another equal one pass that keeps the rows passing all four |
| Frames.FiltersAreConjunction | gerar_dados_dos_candidatos.py:57-67 | the filtered frame keeps its columns, and a row survives iff it was there and passes every filter, in the original order |
| Frames.PassingIsSubseq | gerar_dados_dos_candidatos.py:57-67 | filtering keeps the surviving rows in their original order |
| Frames.FiltersIdempotent | gerar_dados_dos_candidatos.py:57-67 | applying the same filters twice is the same as applying them once |
| Frames.NoFiltersIdentity | gerar_dados_dos_candidatos.py:57-67 | with every filter empty the frame is unchanged |
| Frames.CanonicalName | pages/graficos_gerais.py:20 | replaces the first occurrence of "PEDRO DUARTE JR" by "PEDRO DUARTE", and changes nothing when there is no occurrence |
| Frames.JuniorIsCanonicalised | pages/graficos_gerais.py:20 | "PEDRO DUARTE JR" becomes "PEDRO DUARTE" |
| Frames.CanonicalNameNotIdempotent | pages/graficos_gerais.py:20 | the rewrite is not idempotent: a second pass can change the name again |
| Text.ReplaceFirst | pages/graficos_gerais.py:20 | Polars `str.replace` rewrites only the first occurrence of the pattern and leaves strings without one unchanged |
| Text.Upper | pages/graficos_gerais.py:21 | `str.to_uppercase` leaves no lower-case ASCII letter, and its result is upper case |
| Text.UpperIdempotent | pages/graficos_gerais.py:21 | upper-casing twice equals upper-casing once |
| Text.Strip | pages/identificar_presenca_dos_candidatos.py:14 | `strip()` removes exactly the leading and trailing whitespace and returns a contiguous slice |
| Text.VoteTotalRoundTrip | gerar_dados_dos_candidatos.py:180 | the displayed total `f'{n:,}'.replace(',', '.')` reads back as exactly n, for negative n too |
| Text.GroupPositions | gerar_dados_dos_candidatos.py:180 | the `,` format puts a separator before every group of three digits counted from the right |
| Text.ReplaceChar | gerar_dados_dos_candidatos.py:180 | `replace(',', '.')` changes exactly the commas |
| Text.SortedUnique | gerar_dados_dos_candidatos.py:120-123 | `sorted(unique)` is strictly increasing and has exactly the input's values |
| Text.LessTotal | gerar_dados_dos_candidatos.py:120-123 | the string order used by `sorted` is total |
| Text.LessTransitive | gerar_dados_dos_candidatos.py:120-123 | the string order is transitive |
| Text.FourDigitOrder | gerar_dados_dos_candidatos.py:131 | for four-digit years the string order of the year texts agrees with numeric order |
| Text.ValueOfDigits | gerar_dados_dos_candidatos.py:131 | a year's decimal text reads back as the year |
| Seqs.Where | pages/comparacao_de_candidatos_por_votos.py:46 | a boolean filter keeps exactly the rows that satisfy it |
| Seqs.WhereIsSubseq | pages/comparacao_de_candidatos_por_votos.py:46 | a filter keeps the original row order |
| Seqs.Unique | pages/comparacao_de_candidatos_por_votos.py:44 | `unique()` has no duplicates and exactly the input's values |
| Seqs.Flatten | gerar_dados_dos_candidatos.py:173 | `concat` contains exactly the rows of its parts |
| Seqs.Head | pages/graficos_gerais.py:109 | `head(n)` is the first min(n, length) rows |
| Aggregate.GroupSum | pages/comparacao_de_candidatos_por_votos.py:59 | `group_by(key).sum()` has each key once, exactly the input's keys, and each key's summed votes |
| Aggregate.GroupSumPreserves | pages/comparacao_de_candidatos_por_votos.py:59 | grouping keeps the sum of votes over any set of keys |
| Aggregate.GroupSumTotal | pages/comparacao_de_candidatos_por_votos.py:59 | grouping keeps the total of votes |
| Aggregate.SortDesc | pages/comparacao_de_candidatos_por_votos.py:53 | a descending sort is a permutation of its input, in non-increasing order of the sort key |
| Aggregate.Top | pages/comparacao_de_candidatos_por_votos.py:60 | `nlargest(n)` / `sort(desc).head(n)` returns at most n of the input's entries, in non-increasing order of votes |
| Aggregate.TopIsLargest | pages/comparacao_de_candidatos_por_votos.py:60 | no entry left out of the top n has more votes than an entry kept |
| Aggregate.TopSize | pages/comparacao_de_candidatos_por_votos.py:60 | the top n has exactly min(n, length) entries |
| Aggregate.TopGroupsUnique | pages/comparacao_de_candidatos_por_votos.py:60 | the top groups have pairwise distinct keys |
| Aggregate.TopGroupsSums | pages/comparacao_de_candidatos_por_votos.py:60 | each top group is a key of the input with its summed votes |
| Aggregate.TopMembers | pages/comparacao_de_candidatos_por_votos.py:60-61 | every pair in the top n is a pair of the input, and every top key a key of it |
| Aggregate.TopUnique | pages/comparacao_de_candidatos_por_votos.py:60-61 | the top n of pairs with distinct keys has distinct keys |
| Aggregate.TopLeavesOut | pages/comparacao_de_candidatos_por_votos.py:60-61 | a key left out of the top n implies the top n is full and every kept pair has at least its votes |
| Aggregate.SortTiesOrdered | pages/comparacao_de_candidatos_por_votos.py:60-61 | the descending sort is stable: input in key order leaves equal-vote pairs in key order |
| Aggregate.TopKeepsFirst | pages/comparacao_de_candidatos_por_votos.py:60-61 | with input in key order, a pair left out with the same votes as a kept one has a later key (`keep='first'`) |
| Aggregate.TopAgainst | pages/comparacao_de_candidatos_por_votos.py:60-61 | for input in key order with distinct keys, a left-out pair has no more votes than any kept one, and on a tie a later key |
| Aggregate.TopGroupsLargest | pages/comparacao_de_candidatos_por_votos.py:60 | a key left out of the top n implies the top n is full and every kept group has at least its votes |
| Aggregate.KeepKeys | pages/comparacao_de_candidatos_por_votos.py:62 | a key filter keeps exactly the entries whose key passes |
| Aggregate.TotalKeepKeys | pages/graficos_gerais.py:105 | after a key filter, the total is the sum over the kept keys |
| Aggregate.RegroupSums | pages/graficos_gerais.py:105-106 | regrouping (year, value) groups by value gives, for each value, the sum over the selected years |
| Aggregate.RegroupKeys | pages/graficos_gerais.py:105-106 | the regrouped keys are exactly the values of the kept groups |
| Aggregate.TotalPermutation | pages/graficos_gerais.py:106 | sorting keeps the total |
| Aggregate.SumWherePermutation | pages/graficos_gerais.py:106 | sorting keeps the sum over any set of keys |
| GenerateData.LoadData | gerar_dados_dos_candidatos.py:46-69 | succeeds iff the load succeeds and every non-empty filter's column is present; then it yields the loaded columns and the rows passing all four filters |
| GenerateData.LoadDataRows | gerar_dados_dos_candidatos.py:46-69 | the result rows are exactly the loaded rows that pass every filter, in file order, all of the requested year |
| GenerateData.LoadAll | gerar_dados_dos_candidatos.py:168-170 | one load per year, in order; it succeeds iff every year loads |
| GenerateData.LoadYears | gerar_dados_dos_candidatos.py:166-170 | the loop appending one frame per year computes `LoadAll`, stopping at the first failure |
| GenerateData.FirstFailureStops | gerar_dados_dos_candidatos.py:168-170 | once a prefix of the years fails, later years change nothing: the error is the first one |
| GenerateData.LoadAllRows | gerar_dados_dos_candidatos.py:168-173 | every concatenated row is of a selected year and passes the filters |
| GenerateData.LoadAllInOrder | gerar_dados_dos_candidatos.py:167-173 | for ascending years the concatenation is ordered by year |
| GenerateData.SortYears | gerar_dados_dos_candidatos.py:167 | `sorted` gives an ascending permutation of the selected years |
| GenerateData.SortedYearTexts | gerar_dados_dos_candidatos.py:131-167 | sorting the four-digit years numerically leaves their texts in string order, so it agrees with the source's sort of year strings |
| GenerateData.GenerateFilename | gerar_dados_dos_candidatos.py:73-96 | the method that appends one part per non-empty list computes `Filename` |
| GenerateData.FilterPartsCount | gerar_dados_dos_candidatos.py:79-89 | one part per non-empty filter list, and none iff every list is empty |
| GenerateData.PartyPartLast | gerar_dados_dos_candidatos.py:88-89 | the party part comes last and is parenthesised |
| GenerateData.FilenameShape | gerar_dados_dos_candidatos.py:91-94 | the name starts with `ELEIÇÕES <years> <state>`, ends with `.xlsx`, and is just that with no filter |
| GenerateData.Choices | gerar_dados_dos_candidatos.py:120-123 | each option list is strictly sorted and holds exactly the values of its column |
| GenerateData.OptionsOf | gerar_dados_dos_candidatos.py:108-127 | options exist iff some year is selected and every year loads; then they are the sorted distinct neighbourhoods, municipalities, parties and names |
| GenerateData.LoadFilterOptions | gerar_dados_dos_candidatos.py:108-127 | the loop over the selected years computes `FilterOptions`, with `None` for any failure including an empty concat |
| GenerateData.OptionsFailWithLoad | gerar_dados_dos_candidatos.py:108-127 | for a non-empty selection, the options fail iff the unfiltered load of the selection fails |
| GenerateData.LoadSelection | gerar_dados_dos_candidatos.py:138-192 | the page run (filter options first, then the button's sorted years, loop, filename, concat and total) computes `Selection` |
| GenerateData.HandleOutcome | gerar_dados_dos_candidatos.py:165-192 | with something selected, the handler fails iff some selected year fails to load, and then with the error of the earliest failing year (the first failure of the loop over the sorted years); otherwise it shows the export of the sorted years' frames |
| GenerateData.FirstError | gerar_dados_dos_candidatos.py:167-170 | a failing load of a year list fails with the error of a failing year before which every year loaded |
| GenerateData.SelectionFails | gerar_dados_dos_candidatos.py:126-192 | the page fails iff no year or no state is selected or some selected year's file cannot be fetched; the error is the empty-selection warning, or else the `NameError` of the filter values left unbound when the options failed to load |
| GenerateData.SelectionContents | gerar_dados_dos_candidatos.py:165-180 | exported rows are of selected years and pass the filters, in year order, and the displayed total reads back as their vote sum |
| GenerateData.HandleContents | gerar_dados_dos_candidatos.py:165-180 | the same for any year loader that tags and filters |
| GeneralCharts.NormalizeRows | pages/graficos_gerais.py:17-22 | the normaliser maps each row on its own and keeps the number of rows |
| GeneralCharts.Normalize | pages/graficos_gerais.py:17-22 | it needs the name and office columns, keeps every other field and upper-cases the office |
| GeneralCharts.NormalizeTwice | pages/graficos_gerais.py:33-60 | normalising twice keeps the office; it keeps the name too when no "PEDRO DUARTE JR" is left |
| GeneralCharts.NormalizeTwiceChangesName | pages/graficos_gerais.py:33-60 | a file name "PEDRO DUARTE JR JR" becomes "PEDRO DUARTE JR" after `read_csv` and "PEDRO DUARTE" after `load_all_years` |
| GeneralCharts.ReadCsv | pages/graficos_gerais.py:25-36 | succeeds iff the load succeeds with name and office columns; rows are of the year and have upper-case offices |
| GeneralCharts.Kept | pages/graficos_gerais.py:53-58 | the frames kept by the try/except loop: none iff every year fails |
| GeneralCharts.KeptRows | pages/graficos_gerais.py:53-58 | a row is kept iff some year read successfully and contains it |
| GeneralCharts.KeptInOrder | pages/graficos_gerais.py:53-58 | kept rows of ascending years are ordered by year |
| GeneralCharts.CollectYears | pages/graficos_gerais.py:53-58 | the loop that swallows failing years computes `Kept` |
| GeneralCharts.Concat | pages/graficos_gerais.py:60 | `concat` of no frame fails |
| GeneralCharts.LoadAllYears | pages/graficos_gerais.py:52-60 | the method computes `AllYears` |
| GeneralCharts.AllYearsFails | pages/graficos_gerais.py:52-60 | loading all cycles fails (with `NothingToConcat`) iff every cycle fails; otherwise the columns are the loaded ones |
| GeneralCharts.AllYearsRows | pages/graficos_gerais.py:52-60 | every row is of a cycle with an upper-case office, every row read is present once normalised, and the rows are in year order |
| GeneralCharts.GroupByToCharts | pages/graficos_gerais.py:63-67 | succeeds iff the selected columns are present and distinct; groups are sorted descending, by year or by votes |
| GeneralCharts.ChartGroupKeys | pages/graficos_gerais.py:63-67 | each (year, value) group appears once, and exactly for the candidate's rows |
| GeneralCharts.ChartGroupVotes | pages/graficos_gerais.py:63-67 | each group's votes are the candidate's votes in that year with that value |
| GeneralCharts.View | pages/graficos_gerais.py:104-106 | the per-value view exists iff the chart groups do, and is sorted by votes, descending |
| GeneralCharts.ViewVotes | pages/graficos_gerais.py:104-106 | each value appears once, with the candidate's votes for it over the selected years |
| GeneralCharts.ViewValues | pages/graficos_gerais.py:104-106 | the values shown are exactly those of the candidate's rows in the selected years |
| GeneralCharts.ViewTotal | pages/graficos_gerais.py:132-134 | the per-office slices add up to the candidate's votes over the selected years |
| GeneralCharts.TopTenIsLargest | pages/graficos_gerais.py:109 | no value beyond the first ten has more votes than one of the ten |
| GeneralCharts.ParamOptions | pages/graficos_gerais.py:46-48 | the candidate options are distinct and exactly the names in the frame |
| GeneralCharts.DefaultIndex | pages/graficos_gerais.py:77 | the default is the first position of "PEDRO DUARTE" when listed, else 0 |
| GeneralCharts.DefaultIsCanonical | pages/graficos_gerais.py:73-77 | if any cycle lists "PEDRO DUARTE JR", the default selection is "PEDRO DUARTE" |
| GeneralCharts.AliasReadsOnce | pages/graficos_gerais.py:25-36 | a "PEDRO DUARTE JR" line reads as "PEDRO DUARTE" |
| GeneralCharts.CandidateYears | pages/graficos_gerais.py:92 | the year choices are distinct and exactly the years the candidate appears in |
| GeneralCharts.FullFrameCharts | pages/graficos_gerais.py:84-134 | on a frame with every column all four charts can be drawn |
| GeneralCharts.PageOf | pages/graficos_gerais.py:81-134 | failure iff the load failed; nothing without a candidate; the warning iff no year is selected; once a candidate is chosen the growth chart is `groupby_to_charts` by year; with years selected the neighbourhood and municipality charts are the first ten entries of their views, the office pie is the office view, growth is by year descending, and the office slices sum to the candidate's votes |
| GeneralCharts.PageGrowth | pages/graficos_gerais.py:83-89 | the growth chart has one point per year the candidate has rows in, each with the candidate's votes that year |
| GeneralCharts.PageOffices | pages/graficos_gerais.py:131-134 | the office pie has one slice per office the candidate ran for in the selected years, each with the candidate's votes for it there |
| GeneralCharts.PageTopTen | pages/graficos_gerais.py:104-122 | no neighbourhood or municipality left off its chart has more of the candidate's votes in the selected years than one shown |
| GeneralCharts.Dashboard | pages/graficos_gerais.py:52-134 | the page fails iff every cycle fails to read |
| Presence.Label | pages/identificar_presenca_dos_candidatos.py:41-71 | a cell reads "Sim" iff present and "Não" iff absent |
| Presence.CellStyle | pages/identificar_presenca_dos_candidatos.py:13-19 | green iff the stripped text is "Sim", red iff "Não", no style otherwise |
| Presence.PresentIsGreen | pages/identificar_presenca_dos_candidatos.py:13-19 | a present cell is coloured green |
| Presence.AbsentIsRed | pages/identificar_presenca_dos_candidatos.py:13-19 | an absent cell is coloured red |
| Presence.Sightings | pages/identificar_presenca_dos_candidatos.py:39-41 | one sighting per line: the normalised name, the year, present |
| Presence.Detect | pages/identificar_presenca_dos_candidatos.py:28-43 | as written, it succeeds iff the file loads with a name column; every sighting is of that year and present |
| Presence.DetectFinds | pages/identificar_presenca_dos_candidatos.py:34-41 | as written, a search finds something iff some line's raw name equals the searched name |
| Presence.DetectCanonical | pages/identificar_presenca_dos_candidatos.py:28-43 | the corrected detector has the same success condition and year tagging |
| Presence.DetectCanonicalFinds | pages/identificar_presenca_dos_candidatos.py:34-41 | corrected: a search finds something iff some line's normalised name equals the searched name |
| Presence.AliasIsMissed | pages/identificar_presenca_dos_candidatos.py:34-39 | a file whose only line is "PEDRO DUARTE JR" finds nothing as written for "PEDRO DUARTE", and finds it once corrected |
| Presence.Gather | pages/identificar_presenca_dos_candidatos.py:62-63 | the executor map succeeds iff every year succeeds, with results in year order |
| Presence.GatheredYears | pages/identificar_presenca_dos_candidatos.py:62-65 | every gathered sighting is of a searched year and present |
| Presence.NameList | pages/identificar_presenca_dos_candidatos.py:47-54 | the candidate list exists iff every year loads, and is strictly sorted |
| Presence.NameListMembers | pages/identificar_presenca_dos_candidatos.py:47-54 | a name is offered iff some year's sighting has it once normalised again |
| Presence.CandidateNames | pages/identificar_presenca_dos_candidatos.py:47-54 | the offered names are sorted and exactly the twice-normalised names of the lines of the five cycles |
| Presence.Pivot | pages/identificar_presenca_dos_candidatos.py:66-71 | the pivot has one line per name and one column per year seen; a cell is present iff that name was seen that year |
| Presence.AddColumn | pages/identificar_presenca_dos_candidatos.py:86 | adds one year column filled with the same cell on every line |
| Presence.AddColumnFaithful | pages/identificar_presenca_dos_candidatos.py:86 | a "Não" column for a year without sightings keeps the table faithful |
| Presence.Missing | pages/identificar_presenca_dos_candidatos.py:84 | the missing years are exactly the cycles without a column |
| Presence.FillMissingFaithful | pages/identificar_presenca_dos_candidatos.py:78-89 | back-filling distinct missing years keeps every cell faithful to the sightings |
| Presence.BackFill | pages/identificar_presenca_dos_candidatos.py:78-89 | the loop adding one "Não" column per missing cycle computes `FillMissing` |
| Presence.Reorder | pages/identificar_presenca_dos_candidatos.py:92-93 | the year columns become ascending, the same years, with the lines and names kept |
| Presence.ReorderTextOrder | pages/identificar_presenca_dos_candidatos.py:92 | for four-digit years the reordered year columns are also in string order, as `sorted` of the column names gives |
| Presence.ReorderMoves | pages/identificar_presenca_dos_candidatos.py:92-93 | each cell moves with its year column |
| Presence.ReorderFaithful | pages/identificar_presenca_dos_candidatos.py:92-93 | reordering keeps the table faithful and keeps its years |
| Presence.SearchOf | pages/identificar_presenca_dos_candidatos.py:58-93 | the search yields a table iff every year loads, and the table is rectangular |
| Presence.Search | pages/identificar_presenca_dos_candidatos.py:58-93 | the method (map, pivot, back-fill loop, reorder) computes `SearchOf` |
| Presence.SearchShape | pages/identificar_presenca_dos_candidatos.py:58-93 | the table is faithful to the sightings and its columns are exactly the five cycles, ascending |
| Presence.SingleNameTable | pages/identificar_presenca_dos_candidatos.py:58-93 | a detector that only finds one name gives one line, with that name, iff it found it in some year (no line otherwise), present exactly in the years it was found |
| Presence.CanonicalSearch | pages/identificar_presenca_dos_candidatos.py:58-93 | corrected: the columns are the searched years in order; there is a line iff some year has a line whose normalised name matches, and it is present exactly in those years |
| Presence.AsWrittenSearch | pages/identificar_presenca_dos_candidatos.py:58-93 | as written: there is a line iff some year has a line with the raw name, and it is present exactly in those years |
| Presence.CandidatePresence | pages/identificar_presenca_dos_candidatos.py:58-104 | the corrected page has the five cycles as columns and a line for the name iff some cycle's file names the candidate once normalised; that line shows "Sim" in exactly those cycles |
| Presence.PresenceAsWritten | pages/identificar_presenca_dos_candidatos.py:58-104 | the page as written has a line iff some cycle's file has a line with exactly the searched raw name; that line shows "Sim" in exactly those cycles |
| Comparison.ReadCsv | pages/comparacao_de_candidatos_por_votos.py:20-28 | a frame iff the file can be fetched; one record per line, tagged with the year |
| Comparison.CandidateOptions | pages/comparacao_de_candidatos_por_votos.py:44 | the options are distinct and exactly the names in the file |
| Comparison.Chosen | pages/comparacao_de_candidatos_por_votos.py:46 | `isin(candidatos)` keeps exactly the chosen candidates' rows, in order |
| Comparison.PerCandidate | pages/comparacao_de_candidatos_por_votos.py:47 | one bar per chosen candidate present in the file, names in ascending order |
| Comparison.PerCandidateVotes | pages/comparacao_de_candidatos_por_votos.py:47 | each bar is that candidate's total votes |
| Comparison.PerCandidateTotal | pages/comparacao_de_candidatos_por_votos.py:46-47 | the bars add up to the votes of every chosen candidate in the file |
| Comparison.TopNeighborhoods | pages/comparacao_de_candidatos_por_votos.py:53 | at most ten (candidate, neighbourhood) pairs, each once, sorted by votes, descending |
| Comparison.TopNeighborhoodsVotes | pages/comparacao_de_candidatos_por_votos.py:53 | each pair occurs in the rows, with its summed votes |
| Comparison.TopNeighborhoodsLargest | pages/comparacao_de_candidatos_por_votos.py:53 | a pair left out implies ten were shown, each with at least its votes |
| Comparison.PartyPlaceVotes | pages/comparacao_de_candidatos_por_votos.py:59 | each (party, municipality) cell appears once |
| Comparison.PartyPlaceCells | pages/comparacao_de_candidatos_por_votos.py:59 | the cells are exactly the pairs occurring in the rows, with their summed votes |
| Comparison.PartGroups | pages/comparacao_de_candidatos_por_votos.py:60-61 | `groupby(as_index=False).sum()`: one group per party (or municipality) of the cells, keys in ascending string order, each with its summed votes |
| Comparison.TopOf | pages/comparacao_de_candidatos_por_votos.py:60-61 | at most ten distinct parties (or municipalities), taken by `nlargest` from the key-sorted groups |
| Comparison.RegroupVotes | pages/comparacao_de_candidatos_por_votos.py:60-61 | regrouping the cells by party (or municipality) gives its total votes |
| Comparison.TopOfLargest | pages/comparacao_de_candidatos_por_votos.py:60-61 | a value left out of the top ten implies ten were kept, each with at least its votes |
| Comparison.TopOfFirst | pages/comparacao_de_candidatos_por_votos.py:60-61 | a value left out with the same votes as a kept one comes after it in string order, as `keep='first'` over sorted groups gives |
| Comparison.TopPartiesLargest | pages/comparacao_de_candidatos_por_votos.py:60 | a party left out implies ten parties kept, each with at least its votes, and on equal votes the kept party's initials come first in string order |
| Comparison.TopPlacesLargest | pages/comparacao_de_candidatos_por_votos.py:61 | a municipality left out implies ten kept, each with at least its votes, and on equal votes the kept name comes first in string order |
| Comparison.TopPartiesAndPlacesOccur | pages/comparacao_de_candidatos_por_votos.py:60-61 | every top party and municipality occurs in the chosen rows |
| Comparison.Heatmap | pages/comparacao_de_candidatos_por_votos.py:62 | a cell is drawn iff it is a (party, municipality) cell whose party and municipality are both in the top ten |
| Comparison.HeatmapVotes | pages/comparacao_de_candidatos_por_votos.py:62 | each drawn cell carries that party's votes in that municipality |
| Comparison.HeatmapComplete | pages/comparacao_de_candidatos_por_votos.py:62 | every row of a top party in a top municipality has its cell drawn |
| Comparison.ComparisonPage | pages/comparacao_de_candidatos_por_votos.py:39-62 | nothing is drawn iff the file cannot be fetched; the bars are exactly the selected names present in the file; the charts are those of the chosen rows |

## Left out

- Streamlit widgets, layout, spinners, warnings and `st.stop()` are left out. The page
  functions take the widget values as parameters.
- The caches (`st.cache_data`, disk persistence, time-to-live) are left out. They do not
  change what is computed.
- Thread pools are left out: `executor.map` is modelled as an in-order sequential map.
- Fetching and CSV parsing are left out. The store is the parameter `Source`, and
  gzip, schema inference, column types and lazy scanning are not modelled.
- `generate_excel` (the Excel buffer) and the download button are left out. They are
  I/O without logic of their own.
- Plotly figures, axis ranges (`max_votes * 1.15`, which is floating point), the unused
  ECDF figure at line 67 of the comparison page and colours other than the two cell
  styles are left out.
- The `print` calls (line 64 of the comparison page, line 89 of the presence page) are
  left out.
- Missing (`null`/`NaN`) values in the files are left out. Every field is a string or an
  integer, so pandas dropping `NaN` group keys is not modelled.
- The type of the exported `Ano` column is left out. The export page's years are
  strings (`anos`, line 131 of `gerar_dados_dos_candidatos.py`), so `pl.lit(ano)` at line
  55 writes the year as text such as "2024"; `Frames.Record` holds it as an integer.
- The `Int32` cast of the year column in the general charts is left out. The years are
  small.
- Text.Upper: covers ASCII and the Latin-1 block only; other scripts are left unchanged,
  because the state names and offices use no other characters.
- Comparison.ReadCsv: returns `None` for an unknown state code, where the source's
  `except` block raises `KeyError` again; the code always comes from the state
  selectbox.
- GeneralCharts.GroupByToCharts: promises only non-increasing order, not the order of
  ties, because polars leaves it unspecified.
- GeneralCharts.GroupByToCharts: sorts only by year or by votes; the source's `ascending`
  argument may name any column, but no call passes anything other than the default.
- Comparison.TopNeighborhoods: promises only non-increasing order and which pairs are
  kept, not the order of ties, because `sort_values` uses an unstable quicksort before
  `head(10)`.
- GeneralCharts.Dashboard: states only when the page fails; the charts themselves are
  stated by `GeneralCharts.PageOf`, which it calls.

## Findings

| source | as written | input that shows it | evidently intended | confidence | as-written member | corrected member |
|---|---|---|---|---|---|---|
| pages/identificar_presenca_dos_candidatos.py:34-39 | the search filters on the raw name first and normalises afterwards, while the offered names are already normalised | a year whose file holds the line "PEDRO DUARTE JR", searched for the offered name "PEDRO DUARTE": the year shows "Não" | filter on the normalised name, so every year the candidate stood in shows "Sim" | not executed | Presence.AliasIsMissed | Presence.CandidatePresence |
