# Amazon job reviews explorer: the filtering and aggregation pipeline in Dafny

`app2.py` is a Streamlit page for exploring a table of Amazon employee reviews.
Each row has numeric ratings, a year, a country, free-text pros, cons and advice, and
categorical answers such as CEO Approval and Recommended. Behind the widgets and charts,
the page runs a small pipeline of pandas expressions. This project models that pipeline
as pure Dafny functions over an in-memory table and proves what each step delivers.

The pipeline steps are:

- **Schema normalisation**: column labels are stripped of surrounding whitespace. A
  `Location` column stands in for a missing `Country` column. The page stops when
  neither label is present. The rating metrics are the numeric columns other than
  `Year` and `ID number`.
- **Filter**: a row stays in the view when its year lies within the slider's bounds,
  both ends included, and its country is one of the selected countries.
- **Grouped means**: per year, and per year and country, of the selected metrics. This
  includes the long ("melted") form of the yearly table that feeds the multi-line chart.
- **Word-cloud text**: the chosen review column of one country's rows, with missing
  entries dropped, joined with single spaces. If this text is blank once stripped, the
  page shows a "No text available" warning instead of a cloud.
- **Categorical distribution**: `value_counts` of a categorical column, plus each
  value's percentage of the total.
- **Explanatory notes**: a dictionary lookup that falls back to a fixed sentence.

Tables are modelled positionally. A `Frame` holds a header, which is a sequence of
`Column(name, numeric)`, and a sequence of rows. Each row is a sequence of
`Cell = Missing | Num(real) | Str(string)`. `Missing` stands for pandas' NaN. Numbers are
exact `real`s, so the means and percentages here are the exact values that pandas
approximates in floating point. Widget choices enter as plain parameters:

- the year bounds;
- the selected countries;
- the positions of the selected metric columns;
- the chosen country and review type.

Files, one module each:

| file | module | models |
|---|---|---|
| `wrappers.dfy` | `Wrappers` | `Option` and `Result` |
| `order.dfy` | `Order` | strict total orders and the lexicographic order on sequences |
| `text.dfy` | `Text` | `str.strip()`, Python whitespace, `" ".join` |
| `seqs.dfy` | `Seqs` | order-preserving selection (boolean-mask indexing) |
| `table.dfy` | `Table` | cells, columns, frames, column lookup, the sort order of key cells |
| `schema.dfy` | `Schema` | label stripping, the Country/Location rule, the metric list |
| `filter.dfy` | `Filter` | the sidebar filter |
| `grouping.dfy` | `Grouping` | groupby-mean by Year and by (Year, Country), melt |
| `categorical.dfy` | `Categorical` | value_counts and percentages |
| `corpus.dfy` | `Corpus` | the word-cloud text and its blank check |
| `insights.dfy` | `Insights` | note lookups with fallback |
| `scenarios.dfy` | `Scenarios` | worked examples on small tables |

## Model

| member | source | states |
|---|---|---|
| Text.Strip | app2.py:486 | the result is a contiguous slice of the input with only whitespace around it, and it neither starts nor ends with whitespace; it is empty exactly when the input is all whitespace |
| Text.StripIdempotent | app2.py:38 | stripping an already stripped label changes nothing |
| Text.JoinSpace | app2.py:477-483 | joining no parts gives the empty string; joining one part gives that part |
| Text.JoinSpaceLength | app2.py:477-483 | the joined text is the parts' total length plus one separator between each neighbouring pair |
| Text.JoinSpaceAppend | app2.py:477-483 | joining two non-empty runs of parts is joining each run, then putting one space between them |
| Text.JoinSpaceBlank | app2.py:477-486 | the joined text is blank if and only if every part is blank |
| Seqs.SelectPicks | app2.py:85-88 | mask indexing keeps the rows at the selected positions, in increasing order |
| Seqs.SelectedPositionsExact | app2.py:85-88 | a position is selected if and only if its row passes the test |
| Seqs.SelectNone | app2.py:85-88 | a test no row passes selects nothing |
| Seqs.SelectHas | app2.py:85-88 | a row that passes the test is in the selection |
| Table.ColumnIndex | app2.py:478-480 | column lookup by label finds the first column with that label, and fails exactly when no column has it |
| Table.CellOrder | app2.py:236-242 | the order in which groupby sorts key cells is a strict total order |
| Order.LexTotal | app2.py:339-344 | any two distinct keys are ordered one way or the other under the lexicographic order |
| Schema.StripNames | app2.py:38 | every label becomes its strip and is trimmed; each column keeps its position and numeric flag |
| Schema.RenameLocation | app2.py:45-46 | every Location column is relabelled Country; no Location label remains; all other columns are unchanged |
| Schema.EnsureCountry | app2.py:43-49 | fails exactly when neither Country nor Location is a label; leaves the header alone when Country is present; otherwise only Location labels change, to Country; Country is present on success |
| Schema.StrippedLabels | app2.py:38 | a label is present after stripping if and only if some original label strips to it |
| Schema.Normalise | app2.py:38-49 | fails exactly when no label strips to Country or Location; on success rows are untouched, Country is present, numeric flags are kept, and each label is its original stripped, except that a label stripping to Location becomes Country when no label strips to Country; when some label strips to Country, the result is just the stripped header |
| Schema.MetricColumns | app2.py:54-55 | neither Year nor ID number is ever a metric |
| Schema.MetricColumnsExact | app2.py:54-55 | the metric list is the header's labels at the selected positions, in header order, and a position is selected if and only if its column is numeric and labelled neither Year nor ID number |
| Filter.FilterRows | app2.py:85-88 | every kept row has a numeric year within the bounds, both ends included, and a selected country |
| Filter.FilterExact | app2.py:85-88 | the view is the table's rows at the selected positions, in table order, and a row is selected if and only if its year is a number within the bounds and its country is selected |
| Filter.EmptySelectionEmptyView | app2.py:85-88 | selecting no country, or a year range whose upper bound is below the lower, gives an empty view |
| Filter.DefaultSelectionKeepsAll | app2.py:66-88 | when every row has a numeric year within the bounds and a selected country, the view is the whole table; under the sidebar's defaults this holds only if no row's year is missing |
| Grouping.KeyOf | app2.py:341 | a row has a group key exactly when none of its key cells is missing; the key is those cells, in order |
| Grouping.GroupKeys | app2.py:236-242 | the group keys are strictly ascending, and a key is listed if and only if some row has it |
| Grouping.Mean | app2.py:239 | the mean is present exactly when there is a value, and the mean times the count of values is their sum |
| Grouping.MeanBetween | app2.py:239 | a mean lies between any lower and upper bound of its values |
| Grouping.GroupMeans | app2.py:236-242 | one output group per group key, in key order, each holding its key and the means of its own rows |
| Grouping.GroupMeansKeys | app2.py:236-242 | output keys are strictly ascending, and a key appears if and only if some row of the view has it |
| Grouping.GroupAt | app2.py:236-242 | every output group has a key of the grouping's width and one mean per metric, and comes from at least one row |
| Grouping.GroupMeanAt | app2.py:236-242 | a group's mean for a metric is present exactly when the group has a non-missing value for it, and then equals the sum of those values divided by their count |
| Grouping.GroupsPartitionRows | app2.py:236-242 | the group sizes add up to the number of rows that have a key, so every such row is in exactly one group |
| Grouping.RowInOneGroup | app2.py:236-242 | a row with a key belongs to exactly one output group, the one with its key |
| Grouping.YearMeans | app2.py:236-242 | the yearly table has a one-cell key and one mean per selected metric per row, with years strictly ascending |
| Grouping.YearsAscending | app2.py:236-242 | when every year in the view is a number, the yearly table's years are numbers in strictly increasing order |
| Grouping.YearCountryMeans | app2.py:309-344 | no selected metric (the selector's None) is the KeyError of `groupby(...)[None]`; otherwise the year-by-country table has (Year, Country) keys, one mean each, strictly ascending |
| Grouping.Melt | app2.py:399 | the long table has one row per metric per year group |
| Grouping.MeltAt | app2.py:399 | the row for metric a and year group g sits at position a times the number of groups plus g, and holds that group's year, the metric's name and its average |
| Grouping.YearMeansLong | app2.py:394-400 | the long yearly table has one row per selected metric per year present in the view |
| Categorical.CountValues | app2.py:533-536 | each present value appears exactly once, Missing never appears, each count is the value's number of occurrences and is positive, and the counts add up to the number of non-missing cells |
| Categorical.InsertByCountSorted | app2.py:535 | inserting a tally into a list ordered by non-increasing count keeps that order |
| Categorical.SortByCount | app2.py:535 | the sorted tallies are a permutation of the input, ordered by non-increasing count |
| Categorical.PermutationKeepsDistinct | app2.py:535 | reordering tallies with distinct values keeps the values distinct |
| Categorical.SortKeepsTotal | app2.py:535 | sorting keeps the total of the counts |
| Categorical.Ranked | app2.py:533-537 | value_counts lists each present value once, with its number of occurrences, ordered by non-increasing count, and the counts add up to the number of non-missing cells |
| Categorical.Distribution | app2.py:533-543 | each present value of the column appears exactly once, with its count; counts are non-increasing; they add up to the number of non-missing cells; each percentage is the count over that total, times 100 |
| Categorical.CategoryTable | app2.py:534 | selecting a categorical column the table lacks fails; otherwise the result is the distribution of a column with that label |
| Categorical.DistributionEmpty | app2.py:533-543 | the distribution is empty if and only if the column has no present value in the view, so an empty view gives an empty table |
| Categorical.PercentagesSumTo100 | app2.py:541-543 | before rounding, the percentages of a non-empty distribution add up to exactly 100 |
| Corpus.PartsExact | app2.py:477-483 | the joined parts are the rendered review cells of the rows whose country equals the chosen one and whose review is present, one each, in view order |
| Corpus.TextBlankExactly | app2.py:477-486 | the joined text is blank if and only if every contributing row's review renders as blank |
| Corpus.WordCloud | app2.py:468-488 | fails exactly when the Country column or the review type's column is absent; otherwise it warns "No text" exactly when the joined text is blank, and otherwise builds the cloud from the joined text itself |
| Corpus.NoTextExactly | app2.py:486-487 | with both columns present, the warning appears if and only if every contributing review is blank; an empty view or a missing country always warns |
| Insights.FallbackExactly | app2.py:503-506 | when no note equals the fallback, the fallback is returned if and only if the key has no note |
| Insights.MetricInsight | app2.py:309-331 | the chart note is the selected metric's conclusion if it has one, else (also with no metric selected, i.e. None) "Compares rating distributions across countries." |
| Insights.WordCloudInsight | app2.py:503-506 | the word-cloud note is the one keyed by the country's name and the review type's label; a country with no note, or a missing one, gets the fixed fallback sentence |
| Insights.WordCloudInsightSpecific | app2.py:90-108 | with the page's keys, the word-cloud note is specific exactly for the USA and India, for every review type |
| Insights.MetricInsightSpecific | app2.py:125-132 | with the page's conclusions, the chart note is specific exactly when one of the six listed metrics is selected |
| Scenarios.YearMeansExample | app2.py:236-242 | reviews from 2010 rated 4 and 2 and from 2011 rated 5 give the yearly means 3 for 2010 and 5 for 2011 |
| Scenarios.DistributionExample | app2.py:533-543 | answers Yes, No, Yes and one missing give Yes 2 (200/3 %) then No 1 (100/3 %) |
| Scenarios.CorpusExample | app2.py:477-488 | USA rows with pros "good pay", a missing review and "team" (India's row aside) give the cloud text "good pay team" |

## Left out

- The Streamlit page: tabs, sidebar widgets, `st.*` output and the title (app2.py:14-28, 64-83, 113-123). Widget values are parameters.
- CSV loading and `@st.cache_data` (app2.py:35-41). The model starts from a `Frame` in memory, with each column's numeric dtype given as a flag.
- The Pearson correlation matrix (app2.py:280), because it is floating-point numerics inside pandas.
- Rounding to two decimals (app2.py:240, 543). Means and percentages are exact `real`s, before rounding.
- Word-cloud generation, stop words and tokenisation (app2.py:489-494), which happen inside the external WordCloud library. The model ends at the text handed to it.
- All plotting (plotly, seaborn, matplotlib, `st.image`) and the narrative prose. The notes' texts are a parameter; only their keys and the fallback sentences are constants.
- The text-column heuristic at app2.py:59. Its value is never used, since the word-cloud tab overwrites it, but evaluating it raises IndexError when no label contains "review" or "text" (ignoring case), which stops the page as the Country check does. That halt is not modelled.
- Corpus.AsText: how `astype(str)` prints a number is a `render` parameter. Python's float formatting is not modelled.
- Grouping.YearMeans, Grouping.YearCountryMeans, Grouping.YearMeansLong, Categorical.Distribution, Filter.FilterRows: columns are passed by position. Looking up the selected metric labels is not modelled; the page only offers labels present in the table. For Grouping.YearMeansLong the metric names are a separate parameter, and nothing ties them to the labels of the metric columns. No member composes Schema.Normalise, the column lookup and the filter, so the KeyError that a table without a `Year` column raises at app2.py:68 and app2.py:86 is not modelled.
- Categorical.SortByCount: among equal counts, values keep their order of first appearance. pandas does not promise any tie order, so that order is a modelling choice.
- Schema.Normalise: the header's numeric flags are taken as given.
- Table.ColumnIndex: a label held by several columns (possible after stripping, e.g. "Country" and "Country ") resolves to the first of them. pandas' `df[label]` instead returns all those columns as a table, and the code that follows would then fail or behave differently; that case is not modelled.
- Grouping.YearCountryMeans: with no metric selected, the box plot at app2.py:318-323 is drawn with `y=None` before the grouping. Plotting is not modelled, so the model's first failure is the KeyError of `groupby(...)[None]` at app2.py:341. With no metric selected, the yearly table (Grouping.YearMeans) still has one row per year and no mean columns; this tab instead stops at that KeyError, and the model follows the code.
- Grouping.GroupMeanAt: a group whose values for a metric are all missing keeps its row with no mean (pandas' NaN). The row is not dropped, since pandas keeps every group that has a key.
