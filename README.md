# A verified model of the pandas semantic view

This project models the query engine of the pandas semantic-layer plugin:
`PandasSemanticView` in `backend/src/pandas_semantic_layer/semantic_view.py`.
The view answers three kinds of semantic query over an in-memory sales table.
Each non-empty query carries a one-line textual trace; a `get_dataframe` or
`get_row_count` request with neither metrics nor dimensions returns early with
no trace at all:

- `get_values`: the distinct values of one dimension;
- `get_dataframe`: metrics by dimensions, filtered, optionally
  limited to the top-N groups, ordered and paginated;
- `get_row_count`: the row count of the same query.

The model has two layers.

- **Functions of the request.** One module per stage of the pipeline gives each
  stage as a function and proves what the stage promises:
  - `Filters`: the predicate evaluator (`_apply_filters`);
  - `GroupLimits`: top-N group limiting (`_apply_group_limit`);
  - `Aggregation`: the three aggregation modes of `get_dataframe`;
  - `Ordering`: the ordering and pagination step;
  - `Description`: the query description (`_describe_query`);
  - `Pipeline`: the three entry points composed from the stages.

  Supporting modules hold the data model:
  - `Values`: cells and their two orders;
  - `Tables`: positional rows, selection, distinct, Python slices and
    insertion-ordered dictionaries;
  - `Sorting`: a stable multi-key sort;
  - `SemanticTypes`: the catalog, filters, order tuples, group limits,
    requests and errors.
- **The view's own code.** `SemanticViews.SemanticView` is a class holding the
  view's name, its copy of the dataset and the catalog (`DIMENSION_COLUMNS`
  and `METRIC_DEFINITIONS`). Its methods are the step-by-step code of the
  source: the filter loop, the `agg_dict` / `rename_map` / `agg_results`
  loops, the `sort_cols` / `order_parts` loops and the `parts.append`
  sequence. Each method is proved to compute the function of its stage. The
  fields never change after construction, so the methods modify nothing.

Errors the source lets escape become an `Outcome` (`Result`) value:
- a `KeyError` on an unknown dimension id, an unknown metric id or a missing
  column label;
- the error pandas raises when a group limit names no dimension.

## Model

| member | source | states |
|---|---|---|
| SemanticViews.SemanticView.constructor | backend/src/pandas_semantic_layer/semantic_view.py:41-45 | a view holds its name and the dataset and catalog it is given |
| SemanticViews.SemanticView.Uid | backend/src/pandas_semantic_layer/semantic_view.py:47-48 | the identifier is `pandas.` followed by exactly the view's name |
| SemanticViews.UidIdentifiesView | backend/src/pandas_semantic_layer/semantic_view.py:47-48 | two views have the same identifier exactly when they have the same name |
| SemanticViews.SemanticView.ApplyFilters | backend/src/pandas_semantic_layer/semantic_view.py:90-131 | the filter loop leaves the table `FilterSpec` describes: skips ADHOC and non-WHERE filters, fails on the first missing column, otherwise narrows the rows one filter at a time (loop invariant: the rows passing every filter seen so far) |
| SemanticViews.SkippedFilterStep | backend/src/pandas_semantic_layer/semantic_view.py:98-102 | a skipped filter neither adds a missing column nor removes a row |
| SemanticViews.MissingColumnStep | backend/src/pandas_semantic_layer/semantic_view.py:104-109 | an evaluable filter on an absent column makes that column the first missing one |
| SemanticViews.AppliedFilterStep | backend/src/pandas_semantic_layer/semantic_view.py:104-129 | narrowing the rows that pass the earlier filters by one operator gives the rows that pass the extended set |
| Filters.FilterSelects | backend/src/pandas_semantic_layer/semantic_view.py:90-131 | the filtered table keeps the header; its rows are a subsequence of the input, and a row is kept exactly when it passes every evaluable filter |
| Filters.FilterFailsOnMissingColumn | backend/src/pandas_semantic_layer/semantic_view.py:104-129 | filtering fails exactly when some evaluable filter names a column the table lacks, and then with a column-not-found error |
| Filters.InertFiltersIgnored | backend/src/pandas_semantic_layer/semantic_view.py:98-102 | dropping ADHOC and non-WHERE filters changes neither the outcome nor the rows |
| Filters.FilterIdempotent | backend/src/pandas_semantic_layer/semantic_view.py:90-131 | filtering an already filtered table with the same set changes nothing |
| Filters.FilterOrderIrrelevant | backend/src/pandas_semantic_layer/semantic_view.py:98-131 | two iteration orders of the same filter set succeed together and then leave the same table |
| Filters.InNotInPartition | backend/src/pandas_semantic_layer/semantic_view.py:112-117 | `IN v` and `NOT IN v` on the same column split the rows between them, as multisets, with no row in both |
| Filters.ScalarActsAsSingleton | backend/src/pandas_semantic_layer/semantic_view.py:113-116 | `IN`/`NOT IN` on a single value behave as on the one-element set of that value |
| SemanticViews.SemanticView.GetValues | backend/src/pandas_semantic_layer/semantic_view.py:133-145 | returns what `ValuesSpec` describes: the filtered column's values, distinct and in first-appearance order, under the dimension's name, with a `SELECT DISTINCT` trace |
| Pipeline.ValuesAreDistinct | backend/src/pandas_semantic_layer/semantic_view.py:133-145 | the values table has one column named after the dimension, no value twice, and holds a value exactly when some dataset row passing the filters has it in the dimension's column |
| SemanticViews.SemanticView.ApplyGroupLimit | backend/src/pandas_semantic_layer/semantic_view.py:266-291 | returns what `GroupLimitSpec` describes: the rows of the working table whose key is among the first `top` ranked keys |
| GroupLimits.GroupLimitSelects | backend/src/pandas_semantic_layer/semantic_view.py:272-291 | the limited table keeps the header; its rows are a subsequence of the working table, and a row is kept exactly when its key is among the top ranked keys |
| GroupLimits.GroupLimitKeepsTopRows | backend/src/pandas_semantic_layer/semantic_view.py:290-291 | every working row whose key survives the cut is kept: the inner join is a filter, not an aggregation |
| GroupLimits.GroupLimitBound | backend/src/pandas_semantic_layer/semantic_view.py:290-291 | with `top >= 0` the limited table carries at most `top` distinct key combinations |
| GroupLimits.GroupLimitKeepsTopGroups | backend/src/pandas_semantic_layer/semantic_view.py:274-291 | ranking the working table itself (no filters of the limit's own), `top >= 0` keeps exactly `min(top, number of ranked keys)` distinct key combinations |
| GroupLimits.GroupLimitKeepsAllWhenTopCovers | backend/src/pandas_semantic_layer/semantic_view.py:286-291 | without a metric or filters of its own, a limit whose `top` covers every distinct key combination (`drop_duplicates`) returns the working table unchanged |
| GroupLimits.MetricLimitDropsMissingKeys | backend/src/pandas_semantic_layer/semantic_view.py:280-291 | a limit ranked by a metric drops every working row whose key has a missing part, since `groupby` leaves such keys out of the ranking and the inner merge then matches nothing |
| GroupLimits.RankedKeysCarried | backend/src/pandas_semantic_layer/semantic_view.py:280-288 | the ranked keys are distinct and each is carried by a row of the ranked population; ranked by a metric, none has a missing part |
| GroupLimits.MetricRankingIsGroups | backend/src/pandas_semantic_layer/semantic_view.py:280-285 | ranking by a metric ranks a permutation of the `groupby` groups, none twice |
| GroupLimits.MetricRankingOrder | backend/src/pandas_semantic_layer/semantic_view.py:280-285 | ranking by a metric orders the groups by their aggregate of the metric's source column in the requested direction, missing aggregates last |
| GroupLimits.RankedByMetric | backend/src/pandas_semantic_layer/semantic_view.py:280-285 | with a metric, the ranked keys are the `groupby` groups, none twice, and for `i < j` the aggregate of key `i` does not come after that of key `j` in the requested direction |
| GroupLimits.RankedByFirstDimension | backend/src/pandas_semantic_layer/semantic_view.py:286-288 | without a metric, the ranked keys are exactly the distinct key projections of the population, none twice, each as long as the dimension list, ordered by their first component in the requested direction, missing values last |
| SemanticViews.SemanticView.BuildAggDict | backend/src/pandas_semantic_layer/semantic_view.py:168-171 | the `agg_dict` loop computes `AggDictOf`: fails on the first unknown metric id, otherwise one entry per source column |
| Aggregation.AggDictKeys | backend/src/pandas_semantic_layer/semantic_view.py:168-171 | the aggregation dictionary's keys are the metrics' distinct source columns in order of first appearance |
| Aggregation.AggDictOfExtends | backend/src/pandas_semantic_layer/semantic_view.py:169-171 | the first unknown metric decides the failure of the whole loop |
| SemanticViews.SemanticView.BuildRenameMap | backend/src/pandas_semantic_layer/semantic_view.py:174-181 | the `rename_map` loops compute the metric renames overridden by the dimension renames |
| Aggregation.MetricRenamesLookup | backend/src/pandas_semantic_layer/semantic_view.py:175-177 | the metric renames map exactly the source columns, and with distinct source columns each one to its metric's name |
| Aggregation.DimensionRenamesLookup | backend/src/pandas_semantic_layer/semantic_view.py:178-181 | dimension renames leave other columns alone; a dimension column whose display name differs maps to that name, and one whose name is the same is left as it was |
| Aggregation.RenamedGroupHeader | backend/src/pandas_semantic_layer/semantic_view.py:174-182 | with distinct dimension columns, distinct metric source columns and no overlap, renaming turns the grouped header into the dimension names followed by the metric names |
| Aggregation.GroupKeysFacts | backend/src/pandas_semantic_layer/semantic_view.py:172 | the groups are distinct and ascending; a key is a group exactly when it has no missing part and some row carries it; there are no more groups than rows |
| Aggregation.GroupAggregateRows | backend/src/pandas_semantic_layer/semantic_view.py:172 | `groupby(...).agg(...)` gives the key columns then the dictionary's columns, and one row per group: the rows' leading cells are exactly the groups in order, and after a row's key, cell `j` is the `j`-th entry's aggregation over that entry's source column, taken over exactly the input rows carrying that key |
| Aggregation.GroupModeFacts | backend/src/pandas_semantic_layer/semantic_view.py:166-182 | with dimensions and metrics, the leading cells of the rows are exactly the null-free key combinations present in the data, each once and ascending; no more rows than the input; after the renaming each row still carries, per `agg_dict` entry, that entry's aggregation over the rows of its group |
| Aggregation.GroupModeHeader | backend/src/pandas_semantic_layer/semantic_view.py:166-182 | under the same distinctness conditions the output header is the dimension names followed by the metric names |
| Aggregation.DimensionsOnlyDistinct | backend/src/pandas_semantic_layer/semantic_view.py:183-192 | dimensions alone give the distinct projection of the dimension columns: each projected input row once, nothing else |
| Aggregation.DimensionsOnlyHeader | backend/src/pandas_semantic_layer/semantic_view.py:183-192 | with distinct dimension columns, the projected header is the dimension names |
| SemanticViews.SemanticView.BuildMetricTotals | backend/src/pandas_semantic_layer/semantic_view.py:195-198 | the `agg_results` loop computes `MetricTotals`: fails on the first unknown metric or missing source column |
| Aggregation.MetricTotalsKeys | backend/src/pandas_semantic_layer/semantic_view.py:195-198 | the totals dictionary has one key per distinct metric name, in order of first appearance |
| Aggregation.MetricTotalsEntries | backend/src/pandas_semantic_layer/semantic_view.py:195-199 | with distinct metric names the totals are each metric's name paired with its aggregate over the whole table, in metric order |
| Aggregation.MetricTotalsExtends | backend/src/pandas_semantic_layer/semantic_view.py:196-198 | the first metric that cannot be totalled decides the failure of the whole loop |
| Aggregation.MetricsOnlyOneRow | backend/src/pandas_semantic_layer/semantic_view.py:193-199 | metrics alone give exactly one row, one cell per distinct metric name, holding the totals |
| Aggregation.SumOf | backend/src/pandas_semantic_layer/semantic_view.py:198 | `sum()` (here and per group at :172) adds the integer cells and skips missing ones; it is 0 when there is no integer cell |
| Aggregation.SumOfConcat | backend/src/pandas_semantic_layer/semantic_view.py:198 | the sum of a column split in two is the sum of the two sums |
| Aggregation.SumOfSkipsMissing | backend/src/pandas_semantic_layer/semantic_view.py:198 | dropping the missing cells does not change the sum |
| Aggregation.CountOf | backend/src/pandas_semantic_layer/semantic_view.py:198 | `count()` (here and per group at :172) is the number of cells that are not missing |
| Aggregation.Aggregate | backend/src/pandas_semantic_layer/semantic_view.py:198 | the aggregations of `getattr(..., agg_func)()` and of `.agg` at :172: `sum` and `count` give an integer, the count at most the column's length; `min` and `max` give one of the column's cells, missing for an empty column |
| Aggregation.Extreme | backend/src/pandas_semantic_layer/semantic_view.py:198 | `min()`/`max()` return a cell of the column that no cell precedes in the sort direction, missing when the column is empty |
| Aggregation.ExtremeSkipsMissing | backend/src/pandas_semantic_layer/semantic_view.py:198 | `min()`/`max()` are missing exactly when every cell is missing, and otherwise are at most (`min`) or at least (`max`) every present cell |
| SemanticViews.SemanticView.AggregateFrame | backend/src/pandas_semantic_layer/semantic_view.py:166-199 | the three aggregation branches compute `AggregateSpec` |
| SemanticViews.SemanticView.CollectSortColumns | backend/src/pandas_semantic_layer/semantic_view.py:203-208 | the `sort_cols`/`ascending` loop computes `SortColumns` |
| Ordering.SortColumnsAreSortable | backend/src/pandas_semantic_layer/semantic_view.py:203-208 | the sort columns are the names and directions of exactly the dimension and metric elements, in order; there are none exactly when no element is one |
| Ordering.OrderIgnoresOthers | backend/src/pandas_semantic_layer/semantic_view.py:205-208 | order elements that are neither dimensions nor metrics have no effect |
| Ordering.OrderWithoutKeysIsIdentity | backend/src/pandas_semantic_layer/semantic_view.py:202-210 | with no dimension or metric element the table is unchanged |
| SemanticViews.SemanticView.OrderFrame | backend/src/pandas_semantic_layer/semantic_view.py:201-210 | the ordering step computes `OrderSpec` |
| Ordering.OrderPermutes | backend/src/pandas_semantic_layer/semantic_view.py:209-210 | a successful sort keeps the header, permutes the rows and leaves them sorted by the named columns, each in its direction |
| Ordering.OrderKeepsRows | backend/src/pandas_semantic_layer/semantic_view.py:201-210 | whether or not it sorts, ordering keeps the header and the rows as a multiset |
| Ordering.OrderFailsOnMissingColumn | backend/src/pandas_semantic_layer/semantic_view.py:209-210 | ordering fails exactly when a sort column is missing from the table |
| Sorting.SortRows | backend/src/pandas_semantic_layer/semantic_view.py:210 | the sort returns a permutation of its input, sorted by the keys |
| Sorting.SortSortedIsIdentity | backend/src/pandas_semantic_layer/semantic_view.py:210 | sorting rows already sorted by the same keys moves nothing |
| Sorting.SortTwiceIsSortOnce | backend/src/pandas_semantic_layer/semantic_view.py:210 | re-sorting a sorted table by the same keys gives the identical row order |
| Sorting.SortKeepsTies | backend/src/pandas_semantic_layer/semantic_view.py:210 | the model's sort is stable: rows that are all equal on the keys come out in the order they went in (pandas promises this only for a stable `kind`, see below) |
| Ordering.PaginateWindow | backend/src/pandas_semantic_layer/semantic_view.py:213-216 | a non-negative offset and limit give the window `[offset, offset + limit)` clamped to the table |
| Ordering.PaginateIdentity | backend/src/pandas_semantic_layer/semantic_view.py:213-216 | no offset (or offset zero) and no limit leave the rows unchanged |
| Ordering.PaginateIsWindow | backend/src/pandas_semantic_layer/semantic_view.py:213-216 | whatever the offset and limit, negative ones included, the page is a contiguous run of the rows |
| Ordering.PageOfRows | backend/src/pandas_semantic_layer/semantic_view.py:213-216 | a page holds no more rows than the table, only its rows, and no row twice when the table has none twice |
| Ordering.Paginate | backend/src/pandas_semantic_layer/semantic_view.py:212-216 | `iloc[offset:]` when the offset is truthy, then `iloc[:limit]` when a limit is given; the page is never longer than the table, nor, whatever the offset, than a non-negative limit |
| SemanticViews.SemanticView.CollectOrderParts | backend/src/pandas_semantic_layer/semantic_view.py:310-313 | the `order_parts` loop computes `OrderItems` |
| Description.OrderItemsMatchSortColumns | backend/src/pandas_semantic_layer/semantic_view.py:310-313 | the described order items name the same columns, in the same order and with the same directions, as the orderer sorts by |
| SemanticViews.SemanticView.DescribeQuery | backend/src/pandas_semantic_layer/semantic_view.py:293-320 | the `parts.append` sequence yields `Describe`: the present clauses' texts joined by single spaces |
| Description.PartsRenderClauses | backend/src/pandas_semantic_layer/semantic_view.py:302-319 | the description's parts are the clause list rendered clause by clause |
| Description.ClausesInFixedOrder | backend/src/pandas_semantic_layer/semantic_view.py:302-319 | the clauses come in the fixed order SELECT, DIMENSIONS, METRICS, FILTERS, ORDER BY, LIMIT, OFFSET, SELECT first, each at most once |
| Description.ClausePresence | backend/src/pandas_semantic_layer/semantic_view.py:302-319 | each clause is present exactly when its guard holds (a limit or offset of zero still counts) |
| Description.ClausesMembers | backend/src/pandas_semantic_layer/semantic_view.py:302-319 | the clauses are exactly SELECT and, for each guard that holds, its clause carrying the dimension names, the metric names, the filter count, the order items, the limit or the offset |
| Description.OrderClausePresence | backend/src/pandas_semantic_layer/semantic_view.py:309-315 | ORDER BY appears exactly when the orderer has a column to sort by, and then carries the order items |
| Description.DescriptionStartsWithSelect | backend/src/pandas_semantic_layer/semantic_view.py:302-320 | every description starts with `SELECT` |
| Description.JoinStartsWithFirst | backend/src/pandas_semantic_layer/semantic_view.py:320 | a space-joined string starts with its first part |
| Description.NatToStringRoundTrip | backend/src/pandas_semantic_layer/semantic_view.py:308 | the decimal text of a non-negative number (the filter count, a limit or an offset) reads back as the same number |
| SemanticViews.SemanticView.GetDataframe | backend/src/pandas_semantic_layer/semantic_view.py:147-231 | `get_dataframe` computes `DataframeSpec`: filter, group-limit when dimensions are asked for, aggregate, order, paginate and describe |
| Pipeline.EmptyRequest | backend/src/pandas_semantic_layer/semantic_view.py:158-159 | neither metrics nor dimensions: an empty table with no trace, and a COUNT of zero with no trace |
| Pipeline.OneTraceEntry | backend/src/pandas_semantic_layer/semantic_view.py:220-231 | any other successful request carries one `pandas` trace entry holding the description, which starts with `SELECT`, and returns a table |
| Pipeline.LimitBoundsRows | backend/src/pandas_semantic_layer/semantic_view.py:215-216 | a non-negative limit bounds the number of rows returned |
| Pipeline.OrderedPageFromRows | backend/src/pandas_semantic_layer/semantic_view.py:201-216 | ordering then paginating returns only rows of the aggregated table, no more of them, and none twice when it had none twice |
| Pipeline.InertFiltersDoNotChangeRows | backend/src/pandas_semantic_layer/semantic_view.py:161 | ADHOC and non-WHERE filters do not change the returned rows or whether the query fails |
| Pipeline.MetricsOnlyAtMostOneRow | backend/src/pandas_semantic_layer/semantic_view.py:193-216 | metrics alone return at most one row, and exactly one without offset and limit |
| Pipeline.DimensionsOnlyRowsComeFromData | backend/src/pandas_semantic_layer/semantic_view.py:160-192 | dimensions alone, with or without a group limit, return no row twice, each the projection of a dataset row that passes the filters |
| SemanticViews.SemanticView.GetRowCount | backend/src/pandas_semantic_layer/semantic_view.py:233-264 | `get_row_count` computes `RowCountSpec` |
| Pipeline.RowCountMatchesDataframe | backend/src/pandas_semantic_layer/semantic_view.py:250-264 | the row count succeeds exactly when `get_dataframe` does, and is then the number of rows it returns, with the same trace |

## Left out

- The dataset and the catalog (`SALES_DATA`, `DIMENSION_COLUMNS`, `METRIC_DEFINITIONS`) are not part of this model. The view takes them as constructor parameters, and every result is stated for any dataset and catalog.
- `get_dimensions` and `get_metrics` only build catalog records for display; the model takes dimensions and metrics as given.
- `__repr__` is the same as `uid` and is not repeated.
- The `features` set of the view is not part of this model.
- The other files of the plugin are not part of this model: the package setup, the data module, the semantic layer wrapper and the front end.
- `AVG`/`mean` is left out, because it produces floating-point values. The aggregations are `sum`, `count`, `min` and `max`.
- Numeric cells, decimal prices included, are modelled as integers. Dates are modelled as their ISO text, which orders the same way.
- Cell integers are unbounded in the model, whereas pandas stores quantities as `int64`, whose sums wrap silently, and prices as `float64`. Only `limit`, `offset` and `top` are Python integers, which are unbounded as the model's are.
- `Aggregation.SumOf`: skips string cells, where pandas would concatenate them or raise; the sales data sums only numeric columns.
- `Filters.Holds`: an ordering comparison (`>`, `<`, `>=`, `<=`) between a missing cell or values of different kinds is false, where pandas gives false for missing cells but raises `TypeError` for mixed kinds.
- The filter set is a Python `set`. The model takes it as a sequence in its iteration order, holding each filter once as a set does; the description's filter count is that sequence's length. `Filters.FilterOrderIrrelevant` shows that the rows do not depend on that order; only which missing column is reported does.
- `Sorting.SortRows`: every `sort_values` is modelled as a stable sort. pandas' default single-key sort is quicksort, which is not stable, so rows equal on the keys may come out in another order there.
- `Sorting.SortRows`: a column that mixes numbers and strings is sorted by the model's total order (numbers before strings), where pandas' `sort_values` raises `TypeError` (:210, :283, :288).
- `Aggregation.Extreme`: `min()`/`max()` over a column mixing numbers and strings return a cell in the same total order, where pandas raises `TypeError` (:172, :198).
- `Ordering.OrderSpec`: with duplicate column labels, the model sorts on the first column bearing the label, where `sort_values` raises `ValueError` for a label that is not unique (:210).
- Missing values sort last in both directions, as pandas' default `na_position` places them.
- `Pipeline.RowCountSpec`: the row count has two shapes. The empty case returns a one-cell `COUNT` table holding zero (backend/src/pandas_semantic_layer/semantic_view.py:244-248), while the other path returns the integer row count (:259-264). The model keeps both shapes as the code has them.
- Order directions are rendered as `ASC` and `DESC`, the values of the host's direction enumeration. That enumeration is not part of this model.
- GroupLimits.GroupLimitBound: states at most `top` groups, not exactly `top`, because the source can keep fewer. A limit ranked by a metric always drops the rows whose key has a missing part: `groupby` leaves those keys out (:282) and the inner merge (:291) then matches nothing, as GroupLimits.MetricLimitDropsMissingKeys states. A limit with filters of its own (:274-275) ranks a different population, so a top key that no working row carries leaves fewer than `top` groups. Only without such filters is the count exactly `min(top, ranked keys)` (GroupLimits.GroupLimitKeepsTopGroups).
- The inner merge in `_apply_group_limit` is modelled as keeping, in their order, the working rows whose key is among the top keys. That is the order pandas 2.2 and later give an inner merge (the left frame's order); earlier pandas versions returned the rows grouped by key. The repository pins no pandas version, and the model follows 2.2 and later. The top keys are distinct, so no row is duplicated. The merge also matches missing key parts to missing key parts, and the model compares keys with equality to match.
- The index (`reset_index`, `as_index=False`) is not modelled: tables are positional.
- Duplicate column labels, which pandas allows after a rename, are represented. The header lemmas state their results under distinctness conditions.
- `SemanticViews.SemanticView.BuildRenameMap`: requires the metric and dimension ids to be known, which `get_dataframe` has already established on its path by the time it builds the map.
- The copy of the dataset (`self._data.copy()`) is not modelled, because the model's tables are values.
