/** The engine facade as functions of the dataset, the catalog and the
    request: `get_values`, `get_dataframe` and `get_row_count`, and what the
    whole pipeline promises. */
module Pipeline {
  import opened Wrappers
  import opened Values
  import opened Tables
  import opened Sorting
  import opened SemanticTypes
  import opened Filters
  import opened GroupLimits
  import opened Aggregation
  import opened Ordering
  import opened Description

  /** Each value as a one-cell row. */
  function SingleCellRows(vs: seq<Value>): (rows: seq<Row>)
    ensures |rows| == |vs|
  {
    seq(|vs|, i requires 0 <= i < |vs| => [vs[i]])
  }

  /** `get_values(dim, filters)`: the distinct values of the dimension's
      column over the filtered dataset, in order of first appearance, as a
      one-column table named after the dimension. */
  function ValuesSpec(cat: Catalog, data: Table, dim: Dimension, filters: seq<Filter>): Outcome<SemanticResult>
  {
    var df :- FilterSpec(cat, data, filters);
    var col :- DimensionColumn(cat, dim);
    var i :- ColumnIndex(df.columns, col);
    Ok(SemanticResult(
      [SemanticRequest(RequestType, "SELECT DISTINCT " + col)],
      Rows(Table([dim.name], SingleCellRows(Distinct(ColumnValues(df.rows, i)))))))
  }

  /** The distinct-values query yields one column named after the dimension,
      no value twice, and exactly the values the column takes on rows that
      pass the filters. */
  lemma ValuesAreDistinct(cat: Catalog, data: Table, dim: Dimension, filters: seq<Filter>)
    requires ValuesSpec(cat, data, dim, filters).Ok?
    ensures FilterSpec(cat, data, filters).Ok? && dim.id in cat.dimensionColumns
    ensures cat.dimensionColumns[dim.id] in data.columns
    ensures var t := ValuesSpec(cat, data, dim, filters).value.results.table;
      var i := IndexOf(data.columns, cat.dimensionColumns[dim.id]).value;
      && t.columns == [dim.name]
      && NoDuplicates(t.rows)
      && (forall v :: [v] in t.rows <==> exists r :: r in data.rows && Passes(cat, data.columns, filters, r) && Cell(r, i) == v)
      && (forall row :: row in t.rows ==> |row| == 1)
  {
    FilterSelects(cat, data, filters);
    var df := FilterSpec(cat, data, filters).value;
    var i := IndexOf(data.columns, cat.dimensionColumns[dim.id]).value;
    var cv := ColumnValues(df.rows, i);
    SingleCellRowsFacts(Distinct(cv));
    ColumnValuesMembers(df.rows, i);
    forall v ensures v in cv <==> exists r :: r in data.rows && Passes(cat, data.columns, filters, r) && Cell(r, i) == v {
      if v in cv {
        var r :| r in df.rows && Cell(r, i) == v;
        assert r in data.rows && Passes(cat, data.columns, filters, r);
      }
    }
  }

  /** Wrapping distinct values one per row keeps them distinct and loses none. */
  lemma SingleCellRowsFacts(vs: seq<Value>)
    requires NoDuplicates(vs)
    ensures NoDuplicates(SingleCellRows(vs))
    ensures forall v :: [v] in SingleCellRows(vs) <==> v in vs
    ensures forall row :: row in SingleCellRows(vs) ==> |row| == 1
  {
    var rows := SingleCellRows(vs);
    forall a, b | 0 <= a < b < |rows| ensures rows[a] != rows[b] {
      assert rows[a][0] == vs[a] && rows[b][0] == vs[b];
    }
    forall v ensures [v] in rows <==> v in vs {
      if [v] in rows {
        var k :| 0 <= k < |rows| && rows[k] == [v];
        assert vs[k] == v;
      }
      if v in vs {
        var k :| 0 <= k < |vs| && vs[k] == v;
        assert rows[k] == [v];
      }
    }
  }

  /** The values of column `i` are the cells some row holds there. */
  lemma ColumnValuesMembers(rows: seq<Row>, i: nat)
    ensures forall v :: v in ColumnValues(rows, i) <==> exists r :: r in rows && Cell(r, i) == v
  {
    forall v | exists r :: r in rows && Cell(r, i) == v ensures v in ColumnValues(rows, i) {
      var r :| r in rows && Cell(r, i) == v;
      var j :| 0 <= j < |rows| && rows[j] == r;
      assert ColumnValues(rows, i)[j] == v;
    }
  }

  /** The working table after the filters and, when there is a group limit
      and dimensions are asked for, after the group limit. */
  function Limited(cat: Catalog, data: Table, req: Request): Outcome<Table>
  {
    var df :- FilterSpec(cat, data, req.filters);
    if req.groupLimit.Some? && req.dimensions != [] then GroupLimitSpec(cat, data, df, req.groupLimit.value) else Ok(df)
  }

  /** The aggregated table. */
  function Aggregated(cat: Catalog, data: Table, req: Request): Outcome<Table>
  {
    var limited :- Limited(cat, data, req);
    AggregateSpec(cat, limited, req.metrics, req.dimensions)
  }

  /** The aggregated table ordered and paginated. */
  function Page(cat: Catalog, data: Table, req: Request): Outcome<Table>
  {
    var aggregated :- Aggregated(cat, data, req);
    var ordered :- OrderSpec(aggregated, req.order);
    Ok(Table(ordered.columns, Paginate(ordered.rows, req.offset, req.limit)))
  }

  /** `get_dataframe(...)`: empty when neither metrics nor dimensions are
      asked for; otherwise filter, group-limit, aggregate, order, paginate,
      and describe. */
  function DataframeSpec(cat: Catalog, data: Table, req: Request): Outcome<SemanticResult>
  {
    if req.metrics == [] && req.dimensions == [] then Ok(SemanticResult([], Rows(Table([], []))))
    else
      var page :- Page(cat, data, req);
      Ok(SemanticResult(
        [SemanticRequest(RequestType, Describe(req.metrics, req.dimensions, req.filters, req.order, req.limit, req.offset))],
        Rows(page)))
  }

  /** `get_row_count(...)`: a one-cell COUNT table of zero with no requests
      when neither metrics nor dimensions are asked for; otherwise the row
      count of `get_dataframe`'s result with its requests. */
  function RowCountSpec(cat: Catalog, data: Table, req: Request): Outcome<SemanticResult>
  {
    if req.metrics == [] && req.dimensions == [] then Ok(SemanticResult([], Rows(Table(["COUNT"], [[Int(0)]]))))
    else
      var result :- DataframeSpec(cat, data, req);
      Ok(SemanticResult(result.requests, RowCount(if result.results.Rows? then |result.results.table.rows| else 0)))
  }

  /** A request for neither metrics nor dimensions is answered without a
      trace: an empty table, and a COUNT of zero. */
  lemma EmptyRequest(cat: Catalog, data: Table, req: Request)
    requires req.metrics == [] && req.dimensions == []
    ensures DataframeSpec(cat, data, req) == Ok(SemanticResult([], Rows(Table([], []))))
    ensures RowCountSpec(cat, data, req).Ok? && RowCountSpec(cat, data, req).value.requests == []
    ensures RowCountSpec(cat, data, req).value.results.table.rows == [[Int(0)]]
  {
  }

  /** Any other successful request carries exactly one trace entry, of the
      pandas kind, whose text is the description of the request and starts
      with SELECT; its payload is a table. */
  lemma OneTraceEntry(cat: Catalog, data: Table, req: Request)
    requires req.metrics != [] || req.dimensions != []
    requires DataframeSpec(cat, data, req).Ok?
    ensures var res := DataframeSpec(cat, data, req).value;
      && res.results.Rows?
      && |res.requests| == 1
      && res.requests[0].kind == "pandas"
      && res.requests[0].definition == Describe(req.metrics, req.dimensions, req.filters, req.order, req.limit, req.offset)
      && |res.requests[0].definition| >= 6 && res.requests[0].definition[..6] == "SELECT"
  {
    DescriptionStartsWithSelect(req.metrics, req.dimensions, req.filters, req.order, req.limit, req.offset);
  }

  /** The row count is the number of rows `get_dataframe` returns for the
      same request, with the same trace; both succeed or fail together. */
  lemma RowCountMatchesDataframe(cat: Catalog, data: Table, req: Request)
    requires req.metrics != [] || req.dimensions != []
    ensures RowCountSpec(cat, data, req).Ok? <==> DataframeSpec(cat, data, req).Ok?
    ensures DataframeSpec(cat, data, req).Ok? ==>
      && RowCountSpec(cat, data, req).value.results == RowCount(|DataframeSpec(cat, data, req).value.results.table.rows|)
      && RowCountSpec(cat, data, req).value.requests == DataframeSpec(cat, data, req).value.requests
  {
  }

  /** A non-negative limit bounds the number of rows returned. */
  lemma LimitBoundsRows(cat: Catalog, data: Table, req: Request)
    requires req.metrics != [] || req.dimensions != []
    requires req.limit.Some? && req.limit.value >= 0
    requires DataframeSpec(cat, data, req).Ok?
    ensures |DataframeSpec(cat, data, req).value.results.table.rows| <= req.limit.value
  {
    var page := Page(cat, data, req).value;
    assert DataframeSpec(cat, data, req).value.results.table == page;
    var ordered := OrderSpec(Aggregated(cat, data, req).value, req.order).value;
    assert page.rows == Paginate(ordered.rows, req.offset, req.limit);
  }

  /** ADHOC and non-WHERE filters change nothing in the rows returned (only
      the filter count in the description). */
  lemma InertFiltersDoNotChangeRows(cat: Catalog, data: Table, req: Request)
    ensures var req' := req.(filters := EvaluableOnly(req.filters));
      && (DataframeSpec(cat, data, req).Ok? <==> DataframeSpec(cat, data, req').Ok?)
      && (DataframeSpec(cat, data, req).Ok? ==>
            DataframeSpec(cat, data, req).value.results == DataframeSpec(cat, data, req').value.results)
  {
    var req' := req.(filters := EvaluableOnly(req.filters));
    InertFiltersIgnored(cat, data, req.filters);
    assert Limited(cat, data, req) == Limited(cat, data, req');
    assert Aggregated(cat, data, req) == Aggregated(cat, data, req');
    assert Page(cat, data, req) == Page(cat, data, req');
  }

  /** Ordering and paginating a table returns some of its rows, no more of
      them, and no row twice when the table had none twice. */
  lemma OrderedPageFromRows(t: Table, order: seq<OrderTuple>, offset: Option<int>, limit: Option<int>)
    requires OrderSpec(t, order).Ok?
    ensures var page := Paginate(OrderSpec(t, order).value.rows, offset, limit);
      && |page| <= |t.rows|
      && (forall k :: k in page ==> k in t.rows)
      && (NoDuplicates(t.rows) ==> NoDuplicates(page))
  {
    var ordered := OrderSpec(t, order).value;
    OrderKeepsRows(t, order);
    PageOfRows(ordered.rows, offset, limit);
    assert |ordered.rows| == |multiset(ordered.rows)| == |multiset(t.rows)| == |t.rows|;
    forall k | k in ordered.rows ensures k in t.rows {
      assert k in multiset(ordered.rows);
    }
    if NoDuplicates(t.rows) {
      PermutationKeepsNoDuplicates(t.rows, ordered.rows);
    }
  }

  /** Asking for metrics alone yields at most one row (one when there is no
      offset and no limit). */
  lemma MetricsOnlyAtMostOneRow(cat: Catalog, data: Table, req: Request)
    requires req.dimensions == [] && req.metrics != []
    requires DataframeSpec(cat, data, req).Ok?
    ensures DataframeSpec(cat, data, req).value.results.Rows?
    ensures |DataframeSpec(cat, data, req).value.results.table.rows| <= 1
    ensures req.offset.None? && req.limit.None? ==> |DataframeSpec(cat, data, req).value.results.table.rows| == 1
  {
    var df := Limited(cat, data, req).value;
    MetricsOnlyOneRow(cat, df, req.metrics);
    var aggregated := Aggregated(cat, data, req).value;
    var ordered := OrderSpec(aggregated, req.order).value;
    OrderKeepsRows(aggregated, req.order);
    assert |ordered.rows| == |multiset(ordered.rows)| == |multiset(aggregated.rows)| == 1;
    PageOfRows(ordered.rows, req.offset, req.limit);
    assert DataframeSpec(cat, data, req).value.results.table == Page(cat, data, req).value;
  }

  /** Every row returned with dimensions alone is the projection of a
      dataset row that passes the filters; no row is returned twice. */
  lemma DimensionsOnlyRowsComeFromData(cat: Catalog, data: Table, req: Request)
    requires req.metrics == [] && req.dimensions != []
    requires DataframeSpec(cat, data, req).Ok?
    ensures DataframeSpec(cat, data, req).value.results.Rows?
    ensures ResolveDimensions(cat, req.dimensions).Ok?
    ensures ColumnIndices(data.columns, ResolveDimensions(cat, req.dimensions).value).Ok?
    ensures var keyIdx := ColumnIndices(data.columns, ResolveDimensions(cat, req.dimensions).value).value;
      var rows := DataframeSpec(cat, data, req).value.results.table.rows;
      && NoDuplicates(rows)
      && forall k :: k in rows ==> exists r :: r in data.rows && Passes(cat, data.columns, req.filters, r) && KeyOf(r, keyIdx) == k
  {
    FilterSelects(cat, data, req.filters);
    var f := FilterSpec(cat, data, req.filters).value;
    var df := Limited(cat, data, req).value;
    if req.groupLimit.Some? { GroupLimitSelects(cat, data, f, req.groupLimit.value); }
    DimensionsOnlyDistinct(cat, df, req.dimensions);
    var aggregated := Aggregated(cat, data, req).value;
    OrderedPageFromRows(aggregated, req.order, req.offset, req.limit);
    var rows := Page(cat, data, req).value.rows;
    assert DataframeSpec(cat, data, req).value.results.table.rows == rows;
    var keyIdx := ColumnIndices(data.columns, ResolveDimensions(cat, req.dimensions).value).value;
    forall k | k in rows ensures exists r :: r in data.rows && Passes(cat, data.columns, req.filters, r) && KeyOf(r, keyIdx) == k {
      assert k in aggregated.rows;
      var r :| r in df.rows && KeyOf(r, keyIdx) == k;
      assert r in f.rows;
      assert r in data.rows && Passes(cat, data.columns, req.filters, r);
    }
  }
}
