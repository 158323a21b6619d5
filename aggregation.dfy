/** The aggregator: pandas' column aggregations, `groupby(...).agg(...)`,
    `drop_duplicates` over the dimension columns, whole-table aggregation, and
    the renaming of source columns to display names, with the three modes
    `get_dataframe` chooses between. */
module Aggregation {
  import opened Wrappers
  import opened Values
  import opened Tables
  import opened Sorting
  import opened SemanticTypes

  // ---------------------------------------------------------------------
  // Column aggregations

  /** A cell that is not missing. */
  predicate Present(v: Value)
  {
    !v.Null?
  }

  /** `Series.sum()` over the integer cells; missing cells are skipped. */
  function SumOf(vs: seq<Value>): (s: int)
    ensures (forall k :: 0 <= k < |vs| ==> !vs[k].Int?) ==> s == 0
  {
    if vs == [] then 0
    else
      assert forall k :: 1 <= k < |vs| ==> vs[1..][k - 1] == vs[k];
      (if vs[0].Int? then vs[0].i else 0) + SumOf(vs[1..])
  }

  /** The sum of a column split in two is the sum of the two sums. */
  lemma {:induction false} SumOfConcat(a: seq<Value>, b: seq<Value>)
    ensures SumOf(a + b) == SumOf(a) + SumOf(b)
  {
    if a != [] {
      SumOfConcat(a[1..], b);
      assert (a + b)[1..] == a[1..] + b;
    } else {
      assert a + b == b;
    }
  }

  /** Dropping the missing cells does not change the sum. */
  lemma {:induction false} SumOfSkipsMissing(vs: seq<Value>)
    ensures SumOf(Select(vs, Present)) == SumOf(vs)
  {
    if vs != [] {
      SumOfSkipsMissing(vs[1..]);
      var head := if Present(vs[0]) then [vs[0]] else [];
      SumOfConcat(head, Select(vs[1..], Present));
    }
  }

  /** `Series.count()`: the number of cells that are not missing. */
  function CountOf(vs: seq<Value>): (n: nat)
    ensures n == |Select(vs, Present)|
  {
    if vs == [] then 0 else (if vs[0].Null? then 0 else 1) + CountOf(vs[1..])
  }

  /** The first value in sort order: `min()` ascending, `max()` descending.
      Missing cells sort last, so the result is missing only when every cell
      is (or there is none). */
  function Extreme(vs: seq<Value>, ascending: bool): (r: Value)
    ensures vs == [] ==> r == Null
    ensures vs != [] ==> r in vs
    ensures forall k :: 0 <= k < |vs| ==> Precedes(r, vs[k], ascending)
  {
    if vs == [] then Null
    else if |vs| == 1 then
      PrecedesTotal(vs[0], vs[0], ascending);
      vs[0]
    else
      var m := Extreme(vs[1..], ascending);
      PrecedesTotal(vs[0], m, ascending);
      PrecedesTotal(vs[0], vs[0], ascending);
      assert forall k :: 1 <= k < |vs| ==> vs[k] == vs[1..][k - 1];
      if Precedes(vs[0], m, ascending) then
        assert forall k :: 1 <= k < |vs| ==> Precedes(vs[0], vs[k], ascending) by {
          forall k | 1 <= k < |vs| ensures Precedes(vs[0], vs[k], ascending) {
            PrecedesTransitive(vs[0], m, vs[k], ascending);
          }
        }
        vs[0]
      else
        m
  }

  /** `min()` and `max()` skip missing cells: the result is missing exactly
      when no cell is present, and otherwise is a present cell no other
      present cell beats. */
  lemma ExtremeSkipsMissing(vs: seq<Value>, ascending: bool)
    ensures Extreme(vs, ascending).Null? <==> forall k :: 0 <= k < |vs| ==> vs[k].Null?
    ensures !Extreme(vs, ascending).Null? ==>
      forall k :: 0 <= k < |vs| && !vs[k].Null? ==> (if ascending then ValLe(Extreme(vs, ascending), vs[k]) else ValLe(vs[k], Extreme(vs, ascending)))
  {
    var r := Extreme(vs, ascending);
    if vs != [] && r.Null? {
      forall k | 0 <= k < |vs| ensures vs[k].Null? {
        assert Precedes(r, vs[k], ascending);
      }
    }
  }

  /** The value an aggregation computes over a column: `sum` and `count`
      give an integer, the count at most the column's length; `min` and
      `max` give one of the column's cells, missing for an empty column. */
  function Aggregate(fn: AggFunc, vs: seq<Value>): (r: Value)
    ensures (fn.Sum? || fn.Count?) ==> r.Int?
    ensures fn.Count? ==> 0 <= r.i <= |vs|
    ensures (fn.Min? || fn.Max?) ==> (if vs == [] then r.Null? else r in vs)
  {
    match fn
    case Sum => Int(SumOf(vs))
    case Count => Int(CountOf(vs))
    case Min => Extreme(vs, true)
    case Max => Extreme(vs, false)
  }

  // ---------------------------------------------------------------------
  // Grouping

  /** All key columns ascending: the order `groupby(sort=True)` gives groups. */
  function AscendingKeys(n: nat): (keys: seq<SortKey>)
    ensures |keys| == n
  {
    seq(n, j requires 0 <= j < n => SortKey(j, true))
  }

  /** The groups of `groupby` on the columns at `keyIdx`: each distinct key
      combination without a missing part (`dropna=True`), ascending. */
  function GroupKeys(rows: seq<Row>, keyIdx: seq<nat>): seq<Row>
  {
    SortRows(Distinct(Select(KeyRows(rows, keyIdx), NoNull)), AscendingKeys(|keyIdx|))
  }

  /** The groups are distinct and ascending; a key is a group exactly when it
      has no missing part and some row carries it; there are no more groups
      than rows. */
  lemma GroupKeysFacts(rows: seq<Row>, keyIdx: seq<nat>)
    ensures NoDuplicates(GroupKeys(rows, keyIdx))
    ensures SortedBy(GroupKeys(rows, keyIdx), AscendingKeys(|keyIdx|))
    ensures forall g :: g in GroupKeys(rows, keyIdx) <==> NoNull(g) && exists r :: r in rows && KeyOf(r, keyIdx) == g
    ensures forall g :: g in GroupKeys(rows, keyIdx) ==> |g| == |keyIdx|
    ensures |GroupKeys(rows, keyIdx)| <= |rows|
  {
    var ks := KeyRows(rows, keyIdx);
    var present := Select(ks, NoNull);
    var d := Distinct(present);
    var gs := GroupKeys(rows, keyIdx);
    KeyRowsMembers(rows, keyIdx);
    SelectMembers(ks, NoNull);
    PermutationKeepsNoDuplicates(d, gs);
    forall g ensures g in gs <==> g in d {
      assert g in gs <==> g in multiset(gs);
    }
  }

  /** The rows of one group. */
  function GroupRows(rows: seq<Row>, keyIdx: seq<nat>, g: Row): seq<Row>
  {
    Select(rows, r => KeyOf(r, keyIdx) == g)
  }

  /** One group's aggregates, in the order of the aggregation dictionary. */
  function AggregateRow(members: seq<Row>, aggIdx: seq<nat>, aggDict: seq<(string, AggFunc)>): (r: Row)
    requires |aggIdx| == |aggDict|
    ensures |r| == |aggDict|
  {
    seq(|aggDict|, j requires 0 <= j < |aggDict| => Aggregate(aggDict[j].1, ColumnValues(members, aggIdx[j])))
  }

  /** `df.groupby(dimCols, as_index=False).agg(aggDict)`: one row per group,
      the key columns first, then one aggregate per dictionary entry. */
  function GroupAggregate(df: Table, dimCols: seq<string>, aggDict: seq<(string, AggFunc)>): Outcome<Table>
  {
    var keyIdx :- ColumnIndices(df.columns, dimCols);
    var aggIdx :- ColumnIndices(df.columns, Keys(aggDict));
    Ok(Table(dimCols + Keys(aggDict), GroupedRows(df.rows, keyIdx, aggIdx, aggDict, GroupKeys(df.rows, keyIdx))))
  }

  /** One row per group: its key, then its members' aggregates. */
  function GroupedRows(src: seq<Row>, keyIdx: seq<nat>, aggIdx: seq<nat>, aggDict: seq<(string, AggFunc)>, groups: seq<Row>): (rows: seq<Row>)
    requires |aggIdx| == |aggDict|
    ensures |rows| == |groups|
  {
    seq(|groups|, k requires 0 <= k < |groups| =>
      groups[k] + AggregateRow(GroupRows(src, keyIdx, groups[k]), aggIdx, aggDict))
  }

  /** `df[dimCols].drop_duplicates()`. */
  function DistinctProjection(df: Table, dimCols: seq<string>): Outcome<Table>
  {
    var keyIdx :- ColumnIndices(df.columns, dimCols);
    Ok(Table(dimCols, Distinct(KeyRows(df.rows, keyIdx))))
  }

  // ---------------------------------------------------------------------
  // The dictionaries `get_dataframe` builds

  /** `agg_dict`: each metric's source column mapped to its aggregation; a
      later metric on the same column replaces the aggregation in place. */
  function AggDictOf(cat: Catalog, metrics: seq<Metric>): (r: Outcome<seq<(string, AggFunc)>>)
    ensures r.Ok? <==> forall m :: m in metrics ==> m.id in cat.metricDefinitions
  {
    if metrics == [] then Ok([])
    else
      var last := metrics[|metrics| - 1];
      assert metrics == metrics[..|metrics| - 1] + [last];
      var d :- AggDictOf(cat, metrics[..|metrics| - 1]);
      var def :- MetricDefinitionOf(cat, last);
      Ok(DictPut(d, def.sourceColumn, def.aggregation))
  }

  /** The first unknown metric decides the failure of the whole list. */
  lemma {:induction false} AggDictOfExtends(cat: Catalog, metrics: seq<Metric>, i: nat)
    requires i <= |metrics| && AggDictOf(cat, metrics[..i]).Err?
    ensures AggDictOf(cat, metrics) == AggDictOf(cat, metrics[..i])
    decreases |metrics|
  {
    if i < |metrics| {
      var init := metrics[..|metrics| - 1];
      assert init[..i] == metrics[..i];
      AggDictOfExtends(cat, init, i);
    } else {
      assert metrics[..i] == metrics;
    }
  }

  /** The metric half of `rename_map`: source column to metric name, the last
      metric on a column winning. */
  function MetricRenames(cat: Catalog, metrics: seq<Metric>): map<string, string>
  {
    if metrics == [] then map[]
    else
      var last := metrics[|metrics| - 1];
      var m := MetricRenames(cat, metrics[..|metrics| - 1]);
      if last.id in cat.metricDefinitions then m[cat.metricDefinitions[last.id].sourceColumn := last.name] else m
  }

  /** Adds each dimension whose display name differs from its source column
      to `base`, overriding what is there. */
  function DimensionRenames(cat: Catalog, dims: seq<Dimension>, base: map<string, string>): map<string, string>
  {
    if dims == [] then base
    else
      var last := dims[|dims| - 1];
      var m := DimensionRenames(cat, dims[..|dims| - 1], base);
      if last.id in cat.dimensionColumns && cat.dimensionColumns[last.id] != last.name
      then m[cat.dimensionColumns[last.id] := last.name]
      else m
  }

  /** `rename(columns=rn)`: relabels the header, nothing else. */
  function Renamed(rn: map<string, string>, cols: seq<string>): (r: seq<string>)
    ensures |r| == |cols|
  {
    seq(|cols|, i requires 0 <= i < |cols| => if cols[i] in rn then rn[cols[i]] else cols[i])
  }

  /** `agg_results`: each metric's name mapped to its aggregate over the whole
      table; fails on the first unknown metric or missing source column. */
  function MetricTotals(cat: Catalog, df: Table, metrics: seq<Metric>): (r: Outcome<seq<(string, Value)>>)
    ensures r.Ok? <==> forall m :: m in metrics ==> Totalable(cat, df, m)
  {
    if metrics == [] then Ok([])
    else
      var last := metrics[|metrics| - 1];
      assert metrics == metrics[..|metrics| - 1] + [last];
      assert forall m :: m in metrics <==> m in metrics[..|metrics| - 1] || m == last;
      var d :- MetricTotals(cat, df, metrics[..|metrics| - 1]);
      if last.id !in cat.metricDefinitions then
        assert !Totalable(cat, df, last);
        Err(UnknownMetric(last.id))
      else if cat.metricDefinitions[last.id].sourceColumn !in df.columns then
        assert !Totalable(cat, df, last);
        Err(ColumnNotFound(cat.metricDefinitions[last.id].sourceColumn))
      else
        Ok(DictPut(d, last.name, MetricTotal(cat, df, last)))
  }

  /** The first metric that cannot be totalled decides the failure of the
      whole list. */
  lemma {:induction false} MetricTotalsExtends(cat: Catalog, df: Table, metrics: seq<Metric>, i: nat)
    requires i <= |metrics| && MetricTotals(cat, df, metrics[..i]).Err?
    ensures MetricTotals(cat, df, metrics) == MetricTotals(cat, df, metrics[..i])
    decreases |metrics|
  {
    if i < |metrics| {
      var init := metrics[..|metrics| - 1];
      assert init[..i] == metrics[..i];
      MetricTotalsExtends(cat, df, init, i);
    } else {
      assert metrics[..i] == metrics;
    }
  }

  /** The metric is in the catalog and its source column in the table. */
  predicate Totalable(cat: Catalog, df: Table, m: Metric)
  {
    m.id in cat.metricDefinitions && cat.metricDefinitions[m.id].sourceColumn in df.columns
  }

  /** One metric's aggregate over the whole table. */
  function MetricTotal(cat: Catalog, df: Table, m: Metric): Value
    requires Totalable(cat, df, m)
  {
    var def := cat.metricDefinitions[m.id];
    Aggregate(def.aggregation, ColumnValues(df.rows, IndexOf(df.columns, def.sourceColumn).value))
  }

  // ---------------------------------------------------------------------
  // The three modes

  /** The aggregation step of `get_dataframe`: group and aggregate when both
      dimensions and metrics are asked for, distinct projection for
      dimensions alone, a single row of totals for metrics alone. */
  function AggregateSpec(cat: Catalog, df: Table, metrics: seq<Metric>, dims: seq<Dimension>): Outcome<Table>
  {
    if |dims| > 0 && |metrics| > 0 then
      var dimCols :- ResolveDimensions(cat, dims);
      var aggDict :- AggDictOf(cat, metrics);
      var grouped :- GroupAggregate(df, dimCols, aggDict);
      Ok(Table(Renamed(DimensionRenames(cat, dims, MetricRenames(cat, metrics)), grouped.columns), grouped.rows))
    else if |dims| > 0 then
      var dimCols :- ResolveDimensions(cat, dims);
      var projected :- DistinctProjection(df, dimCols);
      Ok(Table(Renamed(DimensionRenames(cat, dims, map[]), projected.columns), projected.rows))
    else
      var totals :- MetricTotals(cat, df, metrics);
      Ok(if totals == [] then Table([], []) else Table(Keys(totals), [Entries(totals)]))
  }

  // ---------------------------------------------------------------------
  // What each mode promises

  lemma DictPutNewKey<V>(d: seq<(string, V)>, k: string, v: V)
    requires k !in Keys(d)
    ensures DictPut(d, k, v) == d + [(k, v)]
  {
    if d != [] {
      assert Keys(d) == [d[0].0] + Keys(d[1..]);
      DictPutNewKey(d[1..], k, v);
      assert d == [d[0]] + d[1..];
    }
  }

  lemma MetricTotalsStep(cat: Catalog, df: Table, metrics: seq<Metric>)
    requires metrics != [] && MetricTotals(cat, df, metrics).Ok?
    ensures MetricTotals(cat, df, metrics[..|metrics| - 1]).Ok?
    ensures Totalable(cat, df, metrics[|metrics| - 1])
    ensures MetricTotals(cat, df, metrics).value ==
      DictPut(MetricTotals(cat, df, metrics[..|metrics| - 1]).value, metrics[|metrics| - 1].name,
        MetricTotal(cat, df, metrics[|metrics| - 1]))
  {
  }

  /** The totals dictionary has one entry per distinct metric name, in order
      of first appearance. */
  lemma {:induction false} MetricTotalsKeys(cat: Catalog, df: Table, metrics: seq<Metric>)
    requires MetricTotals(cat, df, metrics).Ok?
    ensures Keys(MetricTotals(cat, df, metrics).value) == Distinct(MetricNames(metrics))
  {
    if metrics != [] {
      var init, last := metrics[..|metrics| - 1], metrics[|metrics| - 1];
      var names := MetricNames(metrics);
      assert MetricNames(init) == names[..|names| - 1];
      assert names[|names| - 1] == last.name;
      MetricTotalsStep(cat, df, metrics);
      MetricTotalsKeys(cat, df, init);
      assert Distinct(names) == var p := Distinct(MetricNames(init)); if last.name in p then p else p + [last.name];
    }
  }

  /** Each metric's name paired with its total, in metric order. */
  function TotalsList(cat: Catalog, df: Table, metrics: seq<Metric>): (d: seq<(string, Value)>)
    requires forall m :: m in metrics ==> Totalable(cat, df, m)
    ensures |d| == |metrics|
  {
    seq(|metrics|, i requires 0 <= i < |metrics| => (metrics[i].name, MetricTotal(cat, df, metrics[i])))
  }

  lemma TotalsListSnoc(cat: Catalog, df: Table, metrics: seq<Metric>)
    requires metrics != [] && forall m :: m in metrics ==> Totalable(cat, df, m)
    ensures var last := metrics[|metrics| - 1];
      TotalsList(cat, df, metrics) == TotalsList(cat, df, metrics[..|metrics| - 1]) + [(last.name, MetricTotal(cat, df, last))]
  {
  }

  lemma LastNameFresh(cat: Catalog, df: Table, metrics: seq<Metric>)
    requires metrics != [] && MetricTotals(cat, df, metrics).Ok?
    requires NoDuplicates(MetricNames(metrics))
    ensures MetricTotals(cat, df, metrics[..|metrics| - 1]).Ok?
    ensures NoDuplicates(MetricNames(metrics[..|metrics| - 1]))
    ensures metrics[|metrics| - 1].name !in Keys(MetricTotals(cat, df, metrics[..|metrics| - 1]).value)
  {
    var names := MetricNames(metrics);
    assert MetricNames(metrics[..|metrics| - 1]) == names[..|names| - 1];
    NoDuplicatesSnoc(names);
    MetricTotalsStep(cat, df, metrics);
    MetricTotalsKeys(cat, df, metrics[..|metrics| - 1]);
  }

  /** With distinct metric names the totals dictionary is every metric's name
      paired with its aggregate over the whole table, in metric order. */
  lemma {:induction false} MetricTotalsEntries(cat: Catalog, df: Table, metrics: seq<Metric>)
    requires MetricTotals(cat, df, metrics).Ok?
    requires NoDuplicates(MetricNames(metrics))
    ensures MetricTotals(cat, df, metrics).value == TotalsList(cat, df, metrics)
  {
    if metrics != [] {
      var init, last := metrics[..|metrics| - 1], metrics[|metrics| - 1];
      LastNameFresh(cat, df, metrics);
      MetricTotalsEntries(cat, df, init);
      MetricTotalsStep(cat, df, metrics);
      DictPutNewKey(MetricTotals(cat, df, init).value, last.name, MetricTotal(cat, df, last));
      TotalsListSnoc(cat, df, metrics);
    }
  }

  /** Metrics alone yield exactly one row, with one column per distinct
      metric name and one cell per column. */
  lemma MetricsOnlyOneRow(cat: Catalog, df: Table, metrics: seq<Metric>)
    requires |metrics| > 0
    requires AggregateSpec(cat, df, metrics, []).Ok?
    ensures var t := AggregateSpec(cat, df, metrics, []).value;
      && |t.rows| == 1
      && t.columns == Distinct(MetricNames(metrics))
      && |t.rows[0]| == |t.columns|
      && (NoDuplicates(MetricNames(metrics)) ==>
            t.rows[0] == Entries(TotalsList(cat, df, metrics)))
  {
    MetricTotalsKeys(cat, df, metrics);
    if NoDuplicates(MetricNames(metrics)) {
      MetricTotalsEntries(cat, df, metrics);
    }
    var totals := MetricTotals(cat, df, metrics).value;
    assert MetricNames(metrics)[0] == metrics[0].name;
    assert metrics[0].name in Distinct(MetricNames(metrics));
    assert totals != [];
  }

  /** Dimensions alone yield the distinct projection of the dimension
      columns: no row twice, every row the projection of an input row, every
      input row's projection present, labelled by display name. */
  lemma DimensionsOnlyDistinct(cat: Catalog, df: Table, dims: seq<Dimension>)
    requires |dims| > 0
    requires AggregateSpec(cat, df, [], dims).Ok?
    ensures ResolveDimensions(cat, dims).Ok?
    ensures var dimCols := ResolveDimensions(cat, dims).value;
      var keyIdx := ColumnIndices(df.columns, dimCols).value;
      var t := AggregateSpec(cat, df, [], dims).value;
      && ColumnIndices(df.columns, dimCols).Ok?
      && NoDuplicates(t.rows)
      && (forall k :: k in t.rows <==> exists r :: r in df.rows && KeyOf(r, keyIdx) == k)
      && |t.rows| <= |df.rows|
      && t.columns == Renamed(DimensionRenames(cat, dims, map[]), dimCols)
  {
    var dimCols := ResolveDimensions(cat, dims).value;
    var keyIdx := ColumnIndices(df.columns, dimCols).value;
    KeyRowsMembers(df.rows, keyIdx);
  }

  /** The first `n` cells of each row. */
  function Prefixes(rows: seq<Row>, n: nat): (ps: seq<Row>)
    ensures |ps| == |rows|
  {
    seq(|rows|, k requires 0 <= k < |rows| => rows[k][..MinOf(n, |rows[k]|)])
  }

  /** `groupby(...).agg(...)` yields one row per group, the group key followed
      by one aggregate per dictionary entry. */
  lemma GroupAggregateRows(df: Table, dimCols: seq<string>, aggDict: seq<(string, AggFunc)>)
    requires GroupAggregate(df, dimCols, aggDict).Ok?
    ensures ColumnIndices(df.columns, dimCols).Ok? && ColumnIndices(df.columns, Keys(aggDict)).Ok?
    ensures GroupAggregate(df, dimCols, aggDict).value.columns == dimCols + Keys(aggDict)
    ensures var t := GroupAggregate(df, dimCols, aggDict).value;
      Prefixes(t.rows, |dimCols|) == GroupKeys(df.rows, ColumnIndices(df.columns, dimCols).value)
    ensures RowsCarryAggregates(GroupAggregate(df, dimCols, aggDict).value.rows, |dimCols|, df.rows,
      ColumnIndices(df.columns, dimCols).value, ColumnIndices(df.columns, Keys(aggDict)).value, aggDict)
  {
    var keyIdx := ColumnIndices(df.columns, dimCols).value;
    var aggIdx := ColumnIndices(df.columns, Keys(aggDict)).value;
    var groups := GroupKeys(df.rows, keyIdx);
    assert forall g :: g in groups ==> |g| == |dimCols| by {
      GroupKeysFacts(df.rows, keyIdx);
    }
    assert GroupAggregate(df, dimCols, aggDict).value.rows == GroupedRows(df.rows, keyIdx, aggIdx, aggDict, groups);
    GroupedRowsShape(df.rows, keyIdx, aggIdx, aggDict, groups, |dimCols|);
  }

  /** Every row is `n` key cells followed by one cell per dictionary entry:
      the entry's aggregation over the column at `aggIdx` of the source rows
      whose key (the cells at `keyIdx`) is the row's leading `n` cells. */
  predicate RowsCarryAggregates(rows: seq<Row>, n: nat, src: seq<Row>, keyIdx: seq<nat>, aggIdx: seq<nat>,
                                aggDict: seq<(string, AggFunc)>)
  {
    && |aggIdx| == |aggDict|
    && forall k :: 0 <= k < |rows| ==>
         && |rows[k]| == n + |aggDict|
         && forall j :: 0 <= j < |aggDict| ==>
              rows[k][n + j] == Aggregate(aggDict[j].1, ColumnValues(GroupRows(src, keyIdx, rows[k][..n]), aggIdx[j]))
  }

  /** Rows built as key then aggregates, one per group, start with the groups
      and carry each group's aggregates after its key. */
  lemma GroupedRowsShape(src: seq<Row>, keyIdx: seq<nat>, aggIdx: seq<nat>, aggDict: seq<(string, AggFunc)>,
                         groups: seq<Row>, n: nat)
    requires |aggIdx| == |aggDict|
    requires forall g :: g in groups ==> |g| == n
    ensures Prefixes(GroupedRows(src, keyIdx, aggIdx, aggDict, groups), n) == groups
    ensures RowsCarryAggregates(GroupedRows(src, keyIdx, aggIdx, aggDict, groups), n, src, keyIdx, aggIdx, aggDict)
  {
    var rows := GroupedRows(src, keyIdx, aggIdx, aggDict, groups);
    forall k | 0 <= k < |rows|
      ensures |rows[k]| == n + |aggDict| && Prefixes(rows, n)[k] == groups[k] && rows[k][..n] == groups[k]
      ensures forall j :: 0 <= j < |aggDict| ==>
        rows[k][n + j] == Aggregate(aggDict[j].1, ColumnValues(GroupRows(src, keyIdx, groups[k]), aggIdx[j]))
    {
      var members := GroupRows(src, keyIdx, groups[k]);
      assert groups[k] in groups;
      assert rows[k] == groups[k] + AggregateRow(members, aggIdx, aggDict);
      GroupRowShape(groups[k], members, aggIdx, aggDict, rows[k]);
    }
  }

  /** A group's row: its key, then the aggregates of its members. */
  lemma GroupRowShape(g: Row, members: seq<Row>, aggIdx: seq<nat>, aggDict: seq<(string, AggFunc)>, row: Row)
    requires |aggIdx| == |aggDict| && row == g + AggregateRow(members, aggIdx, aggDict)
    ensures |row| == |g| + |aggDict| && row[..|g|] == g
    ensures forall j :: 0 <= j < |aggDict| ==> row[|g| + j] == Aggregate(aggDict[j].1, ColumnValues(members, aggIdx[j]))
  {
  }

  /** Grouping with metrics yields one row per group: the leading cells are
      the group key (distinct, ascending, none missing, carried by some input
      row, every such key present), followed by one aggregate per source
      column; never more rows than the input. */
  lemma GroupModeFacts(cat: Catalog, df: Table, metrics: seq<Metric>, dims: seq<Dimension>)
    requires |dims| > 0 && |metrics| > 0
    requires AggregateSpec(cat, df, metrics, dims).Ok?
    ensures ResolveDimensions(cat, dims).Ok? && AggDictOf(cat, metrics).Ok?
    ensures ColumnIndices(df.columns, ResolveDimensions(cat, dims).value).Ok?
    ensures var keyIdx := ColumnIndices(df.columns, ResolveDimensions(cat, dims).value).value;
      var t := AggregateSpec(cat, df, metrics, dims).value;
      var keys := Prefixes(t.rows, |dims|);
      && |t.columns| == |dims| + |AggDictOf(cat, metrics).value|
      && |t.rows| <= |df.rows|
      && NoDuplicates(keys)
      && SortedBy(keys, AscendingKeys(|dims|))
      && (forall g :: g in keys <==> NoNull(g) && exists r :: r in df.rows && KeyOf(r, keyIdx) == g)
    ensures ColumnIndices(df.columns, Keys(AggDictOf(cat, metrics).value)).Ok?
    ensures RowsCarryAggregates(AggregateSpec(cat, df, metrics, dims).value.rows, |dims|, df.rows,
      ColumnIndices(df.columns, ResolveDimensions(cat, dims).value).value,
      ColumnIndices(df.columns, Keys(AggDictOf(cat, metrics).value)).value, AggDictOf(cat, metrics).value)
  {
    var dimCols := ResolveDimensions(cat, dims).value;
    var aggDict := AggDictOf(cat, metrics).value;
    var grouped := GroupAggregate(df, dimCols, aggDict).value;
    assert AggregateSpec(cat, df, metrics, dims).value.rows == grouped.rows;
    GroupAggregateRows(df, dimCols, aggDict);
    GroupKeysFacts(df.rows, ColumnIndices(df.columns, dimCols).value);
  }

  // ---------------------------------------------------------------------
  // Display names

  /** The source column of each dimension. */
  function DimensionSources(cat: Catalog, dims: seq<Dimension>): (cols: seq<string>)
    requires forall d :: d in dims ==> d.id in cat.dimensionColumns
    ensures |cols| == |dims|
  {
    seq(|dims|, i requires 0 <= i < |dims| => cat.dimensionColumns[dims[i].id])
  }

  /** The source column of each metric. */
  function MetricSources(cat: Catalog, metrics: seq<Metric>): (cols: seq<string>)
    requires forall m :: m in metrics ==> m.id in cat.metricDefinitions
    ensures |cols| == |metrics|
  {
    seq(|metrics|, i requires 0 <= i < |metrics| => cat.metricDefinitions[metrics[i].id].sourceColumn)
  }

  /** Assigning the next key of `srcs` to a dictionary keyed by the distinct
      earlier keys keys it by the distinct keys of all of `srcs`. */
  lemma PutKeepsDistinctKeys<V>(d: seq<(string, V)>, srcs: seq<string>, k: string, v: V)
    requires srcs != [] && srcs[|srcs| - 1] == k
    requires Keys(d) == Distinct(srcs[..|srcs| - 1])
    ensures Keys(DictPut(d, k, v)) == Distinct(srcs)
  {
  }

  /** The aggregation dictionary has one entry per distinct source column,
      in order of first appearance. */
  lemma {:induction false} AggDictKeys(cat: Catalog, metrics: seq<Metric>)
    requires AggDictOf(cat, metrics).Ok?
    ensures Keys(AggDictOf(cat, metrics).value) == Distinct(MetricSources(cat, metrics))
  {
    if metrics != [] {
      var init, last := metrics[..|metrics| - 1], metrics[|metrics| - 1];
      var srcs := MetricSources(cat, metrics);
      assert AggDictOf(cat, init).Ok? by {
        assert forall m :: m in init ==> m in metrics;
      }
      AggDictKeys(cat, init);
      var d := AggDictOf(cat, init).value;
      var def := cat.metricDefinitions[last.id];
      assert AggDictOf(cat, metrics).value == DictPut(d, def.sourceColumn, def.aggregation);
      assert Keys(d) == Distinct(srcs[..|srcs| - 1]) by {
        assert MetricSources(cat, init) == srcs[..|srcs| - 1];
      }
      PutKeepsDistinctKeys(d, srcs, def.sourceColumn, def.aggregation);
    }
  }

  /** The metric renames map exactly the source columns; with distinct
      source columns each maps to its metric's name. */
  lemma {:induction false} MetricRenamesLookup(cat: Catalog, metrics: seq<Metric>)
    requires forall m :: m in metrics ==> m.id in cat.metricDefinitions
    ensures forall c :: c in MetricRenames(cat, metrics) <==> c in MetricSources(cat, metrics)
    ensures NoDuplicates(MetricSources(cat, metrics)) ==>
      forall j :: 0 <= j < |metrics| ==> MetricRenames(cat, metrics)[MetricSources(cat, metrics)[j]] == metrics[j].name
  {
    if metrics != [] {
      var init, last := metrics[..|metrics| - 1], metrics[|metrics| - 1];
      assert metrics == init + [last];
      var srcs := MetricSources(cat, metrics);
      assert MetricSources(cat, init) == srcs[..|srcs| - 1];
      assert srcs == srcs[..|srcs| - 1] + [srcs[|srcs| - 1]];
      MetricRenamesLookup(cat, init);
      NoDuplicatesSnoc(srcs);
      var m := MetricRenames(cat, init);
      assert MetricRenames(cat, metrics) == m[srcs[|srcs| - 1] := last.name];
      if NoDuplicates(srcs) {
        forall j | 0 <= j < |metrics| ensures MetricRenames(cat, metrics)[srcs[j]] == metrics[j].name {
          if j < |init| {
            assert srcs[j] != srcs[|srcs| - 1];
            assert srcs[j] == MetricSources(cat, init)[j] && metrics[j] == init[j];
          }
        }
      }
    }
  }

  /** Dimension renames leave every column that is not a dimension column as
      `base` has it; with distinct dimension columns, each column whose
      display name differs maps to that name, and each whose name is the
      same stays as `base` has it. */
  lemma {:induction false} DimensionRenamesLookup(cat: Catalog, dims: seq<Dimension>, base: map<string, string>)
    requires forall d :: d in dims ==> d.id in cat.dimensionColumns
    ensures var rn := DimensionRenames(cat, dims, base);
      forall c :: c !in DimensionSources(cat, dims) ==> (c in rn <==> c in base) && (c in base ==> rn[c] == base[c])
    ensures var rn := DimensionRenames(cat, dims, base);
      var cols := DimensionSources(cat, dims);
      NoDuplicates(cols) ==> forall i :: 0 <= i < |dims| ==>
        && (cols[i] != dims[i].name ==> cols[i] in rn && rn[cols[i]] == dims[i].name)
        && (cols[i] == dims[i].name ==> (cols[i] in rn <==> cols[i] in base) && (cols[i] in base ==> rn[cols[i]] == base[cols[i]]))
  {
    if dims != [] {
      var init, last := dims[..|dims| - 1], dims[|dims| - 1];
      assert dims == init + [last];
      var cols := DimensionSources(cat, dims);
      assert DimensionSources(cat, init) == cols[..|cols| - 1];
      assert cols == cols[..|cols| - 1] + [cols[|cols| - 1]];
      DimensionRenamesLookup(cat, init, base);
      NoDuplicatesSnoc(cols);
      var m := DimensionRenames(cat, init, base);
      var c := cols[|cols| - 1];
      assert DimensionRenames(cat, dims, base) == if c != last.name then m[c := last.name] else m;
      if NoDuplicates(cols) {
        var rn := DimensionRenames(cat, dims, base);
        forall i | 0 <= i < |dims|
          ensures cols[i] != dims[i].name ==> cols[i] in rn && rn[cols[i]] == dims[i].name
          ensures cols[i] == dims[i].name ==> (cols[i] in rn <==> cols[i] in base) && (cols[i] in base ==> rn[cols[i]] == base[cols[i]])
        {
          if i < |init| {
            assert cols[i] != c;
            assert cols[i] == DimensionSources(cat, init)[i] && dims[i] == init[i];
          }
        }
      }
    }
  }

  /** Renaming the grouped header: dimension columns then metric source
      columns become dimension names then metric names, when the columns
      involved are distinct. */
  lemma RenamedGroupHeader(cat: Catalog, metrics: seq<Metric>, dims: seq<Dimension>)
    requires forall d :: d in dims ==> d.id in cat.dimensionColumns
    requires forall m :: m in metrics ==> m.id in cat.metricDefinitions
    requires NoDuplicates(DimensionSources(cat, dims)) && NoDuplicates(MetricSources(cat, metrics))
    requires forall c :: c in MetricSources(cat, metrics) ==> c !in DimensionSources(cat, dims)
    ensures Renamed(DimensionRenames(cat, dims, MetricRenames(cat, metrics)), DimensionSources(cat, dims) + MetricSources(cat, metrics))
      == DimensionNames(dims) + MetricNames(metrics)
  {
    var dimCols := DimensionSources(cat, dims);
    var srcs := MetricSources(cat, metrics);
    var mr := MetricRenames(cat, metrics);
    var rn := DimensionRenames(cat, dims, mr);
    MetricRenamesLookup(cat, metrics);
    DimensionRenamesLookup(cat, dims, mr);
    var header := dimCols + srcs;
    var names := DimensionNames(dims) + MetricNames(metrics);
    forall i | 0 <= i < |header| ensures Renamed(rn, header)[i] == names[i] {
      if i < |dims| {
        var c := dimCols[i];
        assert header[i] == c && names[i] == dims[i].name;
        if c == dims[i].name {
          assert c !in srcs;
        }
      } else {
        var j := i - |dims|;
        var c := srcs[j];
        assert header[i] == c && names[i] == metrics[j].name;
        assert c in srcs;
        assert c !in dimCols;
      }
    }
  }

  /** Grouping renames the output header to display names: when the
      dimension columns are distinct, the metric source columns are distinct,
      and no metric reads a dimension column, the header is the dimension
      names followed by the metric names. */
  lemma GroupModeHeader(cat: Catalog, df: Table, metrics: seq<Metric>, dims: seq<Dimension>)
    requires |dims| > 0 && |metrics| > 0
    requires AggregateSpec(cat, df, metrics, dims).Ok?
    requires forall d :: d in dims ==> d.id in cat.dimensionColumns
    requires forall m :: m in metrics ==> m.id in cat.metricDefinitions
    requires NoDuplicates(DimensionSources(cat, dims)) && NoDuplicates(MetricSources(cat, metrics))
    requires forall c :: c in MetricSources(cat, metrics) ==> c !in DimensionSources(cat, dims)
    ensures AggregateSpec(cat, df, metrics, dims).value.columns == DimensionNames(dims) + MetricNames(metrics)
  {
    var dimCols := DimensionSources(cat, dims);
    assert ResolveDimensions(cat, dims).value == dimCols;
    var aggDict := AggDictOf(cat, metrics).value;
    AggDictKeys(cat, metrics);
    GroupAggregateRows(df, dimCols, aggDict);
    RenamedGroupHeader(cat, metrics, dims);
  }

  /** Projecting distinct dimensions renames each dimension column to its
      display name, given distinct dimension columns. */
  lemma DimensionsOnlyHeader(cat: Catalog, df: Table, dims: seq<Dimension>)
    requires |dims| > 0
    requires AggregateSpec(cat, df, [], dims).Ok?
    requires forall d :: d in dims ==> d.id in cat.dimensionColumns
    requires NoDuplicates(DimensionSources(cat, dims))
    ensures AggregateSpec(cat, df, [], dims).value.columns == DimensionNames(dims)
  {
    var dimCols := DimensionSources(cat, dims);
    assert ResolveDimensions(cat, dims).value == dimCols;
    DimensionRenamesLookup(cat, dims, map[]);
  }
}
