/** `PandasSemanticView`: a named view over one in-memory dataset and the
    catalog that maps its dimensions and metrics to source columns. Each
    method is the view's own step-by-step code, proved to compute the
    function of the same stage that the lemmas of the other modules
    describe. The view's fields are never reassigned after construction, so
    the methods change nothing. */
module SemanticViews {
  import opened Wrappers
  import opened Values
  import opened Tables
  import opened Sorting
  import opened SemanticTypes
  import opened Filters
  import opened Aggregation
  import opened GroupLimits
  import opened Ordering
  import opened Description
  import opened Pipeline

  /** The prefix every view identifier carries. */
  const UidPrefix: string := "pandas."

  class SemanticView {
    const name: string
    /** The dataset the view queries (its private copy of the sales data). */
    const data: Table
    /** `DIMENSION_COLUMNS` and `METRIC_DEFINITIONS`. */
    const catalog: Catalog

    constructor(name: string, data: Table, catalog: Catalog)
      ensures this.name == name && this.data == data && this.catalog == catalog
    {
      this.name := name;
      this.data := data;
      this.catalog := catalog;
    }

    /** `uid()`: the view's name under the `pandas.` prefix. */
    function Uid(): (u: string)
      ensures |u| == |UidPrefix| + |name|
      ensures u[..|UidPrefix|] == UidPrefix && u[|UidPrefix|..] == name
    {
      UidPrefix + name
    }

    /** `_apply_filters(df, filters)`: no filters returns the table as it is;
        otherwise each evaluable filter in turn narrows the rows, and the
        first one naming a missing column raises. */
    method ApplyFilters(t: Table, fs: seq<Filter>) returns (r: Outcome<Table>)
      ensures r == FilterSpec(catalog, t, fs)
    {
      if fs == [] {
        return Ok(t);
      }
      var rows := t.rows;
      SelectAll(t.rows, row => Passes(catalog, t.columns, fs[..0], row));
      for i := 0 to |fs|
        invariant FirstMissing(catalog, t.columns, fs[..i]) == None
        invariant rows == Select(t.rows, row => Passes(catalog, t.columns, fs[..i], row))
      {
        var f := fs[i];
        assert fs[..i + 1] == fs[..i] + [f];
        if f.operator == Adhoc || f.kind != Where || f.operator.OtherOperator? {
          SkippedFilterStep(catalog, t, fs[..i], f);
        } else {
          var col := FilterColumn(catalog, f);
          match IndexOf(t.columns, col)
          case None =>
            MissingColumnStep(catalog, t, fs[..i], f);
            FirstMissingExtends(catalog, t.columns, fs, i + 1);
            return Err(ColumnNotFound(col));
          case Some(c) =>
            AppliedFilterStep(catalog, t, fs[..i], f, c);
            rows := Select(rows, row => Holds(f.operator, f.value, Cell(row, c)));
        }
      }
      assert fs[..|fs|] == fs;
      return Ok(Table(t.columns, rows));
    }

    /** `get_values(dimension, filters)`: the distinct values of the
        dimension's column over the filtered dataset. */
    method GetValues(dim: Dimension, filters: seq<Filter>) returns (r: Outcome<SemanticResult>)
      ensures r == ValuesSpec(catalog, data, dim, filters)
    {
      var df :- ApplyFilters(data, filters);
      var col :- DimensionColumn(catalog, dim);
      var i :- ColumnIndex(df.columns, col);
      var values := Distinct(ColumnValues(df.rows, i));
      return Ok(SemanticResult(
        [SemanticRequest(RequestType, "SELECT DISTINCT " + col)],
        Rows(Table([dim.name], SingleCellRows(values)))));
    }

    /** `_apply_group_limit(df, group_limit)`: resolve the limit's dimensions,
        rank their key combinations over the chosen population, and keep the
        rows of `df` whose key is among the first `top`. */
    method ApplyGroupLimit(df: Table, gl: GroupLimit) returns (r: Outcome<Table>)
      ensures r == GroupLimitSpec(catalog, data, df, gl)
    {
      var dimCols :- ResolveDimensions(catalog, gl.dimensions);
      var pop := df;
      if gl.filters.Some? {
        pop :- ApplyFilters(data, gl.filters.value);
      }
      var ascending := gl.direction == Asc;
      var ranked :- RankedKeys(catalog, pop, dimCols, gl.metric, ascending);
      var top := SliceTo(ranked, gl.top);
      var keyIdx :- ColumnIndices(df.columns, dimCols);
      return Ok(Table(df.columns, Select(df.rows, row => KeyOf(row, keyIdx) in top)));
    }

    /** The `agg_dict` loop: each metric's source column mapped to its
        aggregation; an unknown metric raises. */
    method BuildAggDict(metrics: seq<Metric>) returns (r: Outcome<seq<(string, AggFunc)>>)
      ensures r == AggDictOf(catalog, metrics)
    {
      var d: seq<(string, AggFunc)> := [];
      for i := 0 to |metrics|
        invariant AggDictOf(catalog, metrics[..i]) == Ok(d)
      {
        var m := metrics[i];
        assert metrics[..i + 1][..i] == metrics[..i];
        if m.id !in catalog.metricDefinitions {
          AggDictOfExtends(catalog, metrics, i + 1);
          return Err(UnknownMetric(m.id));
        }
        var def := catalog.metricDefinitions[m.id];
        d := DictPut(d, def.sourceColumn, def.aggregation);
      }
      assert metrics[..|metrics|] == metrics;
      return Ok(d);
    }

    /** The two `rename_map` loops: each metric's source column to the
        metric's name, then each dimension whose source column differs from
        its name. Both lookups already succeeded earlier in `get_dataframe`. */
    method BuildRenameMap(metrics: seq<Metric>, dims: seq<Dimension>) returns (rn: map<string, string>)
      requires forall m :: m in metrics ==> m.id in catalog.metricDefinitions
      requires forall d :: d in dims ==> d.id in catalog.dimensionColumns
      ensures rn == DimensionRenames(catalog, dims, MetricRenames(catalog, metrics))
    {
      rn := map[];
      for i := 0 to |metrics|
        invariant rn == MetricRenames(catalog, metrics[..i])
      {
        assert metrics[..i + 1][..i] == metrics[..i];
        var m := metrics[i];
        rn := rn[catalog.metricDefinitions[m.id].sourceColumn := m.name];
      }
      assert metrics[..|metrics|] == metrics;
      var base := rn;
      for j := 0 to |dims|
        invariant rn == DimensionRenames(catalog, dims[..j], base)
      {
        assert dims[..j + 1][..j] == dims[..j];
        var d := dims[j];
        var col := catalog.dimensionColumns[d.id];
        if col != d.name {
          rn := rn[col := d.name];
        }
      }
      assert dims[..|dims|] == dims;
    }

    /** The `agg_results` loop: each metric's name mapped to its aggregate
        over the whole table; an unknown metric or a missing source column
        raises. */
    method BuildMetricTotals(df: Table, metrics: seq<Metric>) returns (r: Outcome<seq<(string, Value)>>)
      ensures r == MetricTotals(catalog, df, metrics)
    {
      var totals: seq<(string, Value)> := [];
      for i := 0 to |metrics|
        invariant MetricTotals(catalog, df, metrics[..i]) == Ok(totals)
      {
        var m := metrics[i];
        assert metrics[..i + 1][..i] == metrics[..i];
        if m.id !in catalog.metricDefinitions {
          MetricTotalsExtends(catalog, df, metrics, i + 1);
          return Err(UnknownMetric(m.id));
        }
        var def := catalog.metricDefinitions[m.id];
        var src := IndexOf(df.columns, def.sourceColumn);
        if src.None? {
          MetricTotalsExtends(catalog, df, metrics, i + 1);
          return Err(ColumnNotFound(def.sourceColumn));
        }
        totals := DictPut(totals, m.name, Aggregate(def.aggregation, ColumnValues(df.rows, src.value)));
      }
      assert metrics[..|metrics|] == metrics;
      return Ok(totals);
    }

    /** The `sort_cols` / `ascending` loop: one entry per dimension or metric
        element of the order list. */
    method CollectSortColumns(order: seq<OrderTuple>) returns (sortCols: seq<string>, ascending: seq<bool>)
      ensures (sortCols, ascending) == SortColumns(order)
    {
      sortCols, ascending := [], [];
      for i := 0 to |order|
        invariant (sortCols, ascending) == SortColumns(order[..i])
      {
        assert order[..i + 1][..i] == order[..i];
        var t := order[i];
        if !t.element.ByOther? {
          sortCols := sortCols + [ElementName(t.element)];
          ascending := ascending + [t.direction == Asc];
        }
      }
      assert order[..|order|] == order;
    }

    /** The `order_parts` loop of `_describe_query`: `name direction` for each
        dimension or metric element. */
    method CollectOrderParts(order: seq<OrderTuple>) returns (parts: seq<string>)
      ensures parts == OrderItems(order)
    {
      parts := [];
      for i := 0 to |order|
        invariant parts == OrderItems(order[..i])
      {
        assert order[..i + 1][..i] == order[..i];
        var t := order[i];
        if !t.element.ByOther? {
          parts := parts + [ElementName(t.element) + " " + DirectionText(t.direction)];
        }
      }
      assert order[..|order|] == order;
    }

    /** `_describe_query(...)`: the clauses whose guards hold, joined by
        spaces. */
    method DescribeQuery(metrics: seq<Metric>, dims: seq<Dimension>, filters: seq<Filter>, order: seq<OrderTuple>,
                         limit: Option<int>, offset: Option<int>) returns (s: string)
      ensures s == Describe(metrics, dims, filters, order, limit, offset)
    {
      var parts := [Render(SelectClause)];
      ghost var before := parts;
      var text := Render(DimensionsClause(DimensionNames(dims)));
      if dims != [] {
        parts := parts + [text];
      }
      assert parts == AddTextIf(before, dims != [], text);
      before := parts;
      text := Render(MetricsClause(MetricNames(metrics)));
      if metrics != [] {
        parts := parts + [text];
      }
      assert parts == AddTextIf(before, metrics != [], text);
      before := parts;
      text := Render(FiltersClause(|filters|));
      if filters != [] {
        parts := parts + [text];
      }
      assert parts == AddTextIf(before, filters != [], text);
      before := parts;
      var orderParts := [];
      if order != [] {
        orderParts := CollectOrderParts(order);
      }
      assert orderParts == OrderItems(order);
      text := Render(OrderByClause(orderParts));
      if orderParts != [] {
        parts := parts + [text];
      }
      assert parts == AddTextIf(before, orderParts != [], text);
      before := parts;
      text := Render(LimitClause(if limit.Some? then limit.value else 0));
      if limit.Some? {
        parts := parts + [text];
      }
      assert parts == AddTextIf(before, limit.Some?, text);
      before := parts;
      text := Render(OffsetClause(if offset.Some? then offset.value else 0));
      if offset.Some? {
        parts := parts + [text];
      }
      assert parts == AddTextIf(before, offset.Some?, text);
      return Join(" ", parts);
    }

    /** The aggregation step of `get_dataframe`: group and aggregate, project
        distinct dimension values, or total the metrics. */
    method AggregateFrame(df: Table, metrics: seq<Metric>, dims: seq<Dimension>) returns (r: Outcome<Table>)
      ensures r == AggregateSpec(catalog, df, metrics, dims)
    {
      if dims != [] && metrics != [] {
        var dimCols :- ResolveDimensions(catalog, dims);
        var aggDict :- BuildAggDict(metrics);
        var grouped :- GroupAggregate(df, dimCols, aggDict);
        var rn := BuildRenameMap(metrics, dims);
        return Ok(Table(Renamed(rn, grouped.columns), grouped.rows));
      } else if dims != [] {
        var dimCols :- ResolveDimensions(catalog, dims);
        var projected :- DistinctProjection(df, dimCols);
        var rn := DimensionRenames(catalog, dims, map[]);
        return Ok(Table(Renamed(rn, projected.columns), projected.rows));
      } else {
        var totals :- BuildMetricTotals(df, metrics);
        return Ok(if totals == [] then Table([], []) else Table(Keys(totals), [Entries(totals)]));
      }
    }

    /** The ordering step of `get_dataframe`: sort by the dimension and
        metric elements of the order list, when there are any. */
    method OrderFrame(t: Table, order: seq<OrderTuple>) returns (r: Outcome<Table>)
      ensures r == OrderSpec(t, order)
    {
      if order != [] {
        var sortCols, ascending := CollectSortColumns(order);
        if sortCols != [] {
          var idx :- ColumnIndices(t.columns, sortCols);
          return Ok(Table(t.columns, SortRows(t.rows, SortKeysOf(idx, ascending))));
        }
      }
      return Ok(t);
    }

    /** `get_dataframe(...)`. */
    method GetDataframe(req: Request) returns (r: Outcome<SemanticResult>)
      ensures r == DataframeSpec(catalog, data, req)
    {
      if req.metrics == [] && req.dimensions == [] {
        return Ok(SemanticResult([], Rows(Table([], []))));
      }
      var df :- ApplyFilters(data, req.filters);
      if req.groupLimit.Some? && req.dimensions != [] {
        df :- ApplyGroupLimit(df, req.groupLimit.value);
      }
      assert Limited(catalog, data, req) == Ok(df);
      var result :- AggregateFrame(df, req.metrics, req.dimensions);
      assert Aggregated(catalog, data, req) == Ok(result);
      result :- OrderFrame(result, req.order);
      var rows := result.rows;
      if req.offset.Some? && req.offset.value != 0 {
        rows := SliceFrom(rows, req.offset.value);
      }
      if req.limit.Some? {
        rows := SliceTo(rows, req.limit.value);
      }
      assert Page(catalog, data, req) == Ok(Table(result.columns, rows));
      var description := DescribeQuery(req.metrics, req.dimensions, req.filters, req.order, req.limit, req.offset);
      return Ok(SemanticResult([SemanticRequest(RequestType, description)], Rows(Table(result.columns, rows))));
    }

    /** `get_row_count(...)`: a one-cell COUNT table of zero for an empty
        request, otherwise the number of rows `get_dataframe` returns, with
        its trace. */
    method GetRowCount(req: Request) returns (r: Outcome<SemanticResult>)
      ensures r == RowCountSpec(catalog, data, req)
    {
      if req.metrics == [] && req.dimensions == [] {
        return Ok(SemanticResult([], Rows(Table(["COUNT"], [[Int(0)]]))));
      }
      var result :- GetDataframe(req);
      OneTraceEntry(catalog, data, req);
      return Ok(SemanticResult(result.requests, RowCount(|result.results.table.rows|)));
    }
  }

  /** A filter the evaluator skips leaves the selection and the missing
      column as they were. */
  lemma SkippedFilterStep(cat: Catalog, t: Table, fs: seq<Filter>, f: Filter)
    requires !ReadsColumn(f)
    ensures FirstMissing(cat, t.columns, fs + [f]) == FirstMissing(cat, t.columns, fs)
    ensures Select(t.rows, row => Passes(cat, t.columns, fs + [f], row)) == Select(t.rows, row => Passes(cat, t.columns, fs, row))
  {
    assert (fs + [f])[..|fs|] == fs;
    forall row ensures Passes(cat, t.columns, fs + [f], row) == Passes(cat, t.columns, fs, row) {
      assert Survives(cat, t.columns, f, row);
    }
    SelectSame(t.rows, row => Passes(cat, t.columns, fs + [f], row), row => Passes(cat, t.columns, fs, row));
  }

  /** A filter whose column is missing is the first missing one when none
      before it was. */
  lemma MissingColumnStep(cat: Catalog, t: Table, fs: seq<Filter>, f: Filter)
    requires ReadsColumn(f) && FilterColumn(cat, f) !in t.columns
    requires FirstMissing(cat, t.columns, fs) == None
    ensures FirstMissing(cat, t.columns, fs + [f]) == Some(FilterColumn(cat, f))
  {
    assert (fs + [f])[..|fs|] == fs;
  }

  /** A filter on the column at `c` narrows the rows kept so far by its own
      operator. */
  lemma AppliedFilterStep(cat: Catalog, t: Table, fs: seq<Filter>, f: Filter, c: nat)
    requires ReadsColumn(f) && IndexOf(t.columns, FilterColumn(cat, f)) == Some(c)
    ensures FirstMissing(cat, t.columns, fs + [f]) == FirstMissing(cat, t.columns, fs)
    ensures Select(Select(t.rows, row => Passes(cat, t.columns, fs, row)), row => Holds(f.operator, f.value, Cell(row, c)))
      == Select(t.rows, row => Passes(cat, t.columns, fs + [f], row))
  {
    assert (fs + [f])[..|fs|] == fs;
    var before := row => Passes(cat, t.columns, fs, row);
    var keep := row => Holds(f.operator, f.value, Cell(row, c));
    var after := row => Passes(cat, t.columns, fs + [f], row);
    forall row ensures after(row) == (before(row) && keep(row)) {
      assert FilterCell(cat, t.columns, f, row) == Cell(row, c);
      assert Survives(cat, t.columns, f, row) == keep(row);
      assert forall g :: g in fs + [f] <==> g in fs || g == f;
      assert Passes(cat, t.columns, fs + [f], row) == (Passes(cat, t.columns, fs, row) && Survives(cat, t.columns, f, row));
    }
    SelectSelect(t.rows, before, keep, after);
  }

  /** Two views have the same identifier exactly when they have the same
      name. */
  lemma UidIdentifiesView(a: SemanticView, b: SemanticView)
    ensures a.Uid() == b.Uid() <==> a.name == b.name
  {
    if a.Uid() == b.Uid() {
      assert a.name == a.Uid()[|UidPrefix|..];
    }
  }
}
