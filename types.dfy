/** The vocabulary a semantic view speaks: catalog entries, filters, order
    tuples, group limits, requests and results, the errors the view raises,
    and the catalog lookups that raise them. */
module SemanticTypes {
  import opened Wrappers
  import opened Values
  import opened Tables

  /** A dimension: its catalog id and its display name. */
  datatype Dimension = Dimension(id: string, name: string)

  /** A metric: its catalog id and its display name. */
  datatype Metric = Metric(id: string, name: string)

  /** The pandas aggregation a metric applies to its source column. */
  datatype AggFunc = Sum | Count | Min | Max

  datatype MetricDefinition = MetricDefinition(sourceColumn: string, aggregation: AggFunc)

  /** `DIMENSION_COLUMNS` (dimension id to source column) and
      `METRIC_DEFINITIONS` (metric id to source column and aggregation). */
  datatype Catalog = Catalog(
    dimensionColumns: map<string, string>,
    metricDefinitions: map<string, MetricDefinition>)

  /** The exceptions the view lets escape: a `KeyError` on an unknown
      dimension id, metric id or column label, and the error pandas raises
      when a group limit names no dimension. */
  datatype Error =
    | UnknownDimension(id: string)
    | UnknownMetric(id: string)
    | ColumnNotFound(column: string)
    | NoGroupKeys

  type Outcome<T> = Result<T, Error>

  /** Filter operators; `OtherOperator` is any further member of the host's
      operator enumeration, which the evaluator passes over. */
  datatype Operator =
    | Equals | NotEquals | Greater | Less | GreaterOrEqual | LessOrEqual
    | In | NotIn | IsNull | IsNotNull | Adhoc | OtherOperator(symbol: string)

  datatype PredicateKind = Where | Having

  /** A filter's right-hand side: one value, or a Python set of values. */
  datatype FilterValue = Scalar(v: Value) | ValueSet(vs: set<Value>)

  /** The dimension or metric a filter names. */
  datatype ColumnRef = ColumnRef(id: string, name: string)

  datatype Filter = Filter(column: ColumnRef, operator: Operator, value: FilterValue, kind: PredicateKind)

  datatype Direction = Asc | Desc

  /** What an order tuple sorts by; `ByOther` is any element that is neither a
      dimension nor a metric. */
  datatype OrderElement = ByDimension(dimension: Dimension) | ByMetric(metric: Metric) | ByOther(text: string)

  datatype OrderTuple = OrderTuple(element: OrderElement, direction: Direction)

  /** Keep only the `top` best-ranked combinations of `dimensions`. */
  datatype GroupLimit = GroupLimit(
    dimensions: seq<Dimension>,
    metric: Option<Metric>,
    direction: Direction,
    top: int,
    filters: Option<seq<Filter>>)

  /** The arguments of `get_dataframe` and `get_row_count`. The filter set is
      given in its iteration order, each filter once as a set holds it;
      `None` and the empty set are both `[]`. */
  datatype Request = Request(
    metrics: seq<Metric>,
    dimensions: seq<Dimension>,
    filters: seq<Filter>,
    order: seq<OrderTuple>,
    limit: Option<int>,
    offset: Option<int>,
    groupLimit: Option<GroupLimit>)

  /** A trace entry: the request type and a description of the query. */
  datatype SemanticRequest = SemanticRequest(kind: string, definition: string)

  datatype Payload = Rows(table: Table) | RowCount(n: int)

  datatype SemanticResult = SemanticResult(requests: seq<SemanticRequest>, results: Payload)

  const RequestType: string := "pandas"

  function DimensionNames(dims: seq<Dimension>): (names: seq<string>)
    ensures |names| == |dims|
  {
    seq(|dims|, i requires 0 <= i < |dims| => dims[i].name)
  }

  function MetricNames(metrics: seq<Metric>): (names: seq<string>)
    ensures |names| == |metrics|
  {
    seq(|metrics|, i requires 0 <= i < |metrics| => metrics[i].name)
  }

  /** `DIMENSION_COLUMNS[d.id]`. */
  function DimensionColumn(cat: Catalog, d: Dimension): (r: Outcome<string>)
    ensures r.Ok? <==> d.id in cat.dimensionColumns
  {
    if d.id in cat.dimensionColumns then Ok(cat.dimensionColumns[d.id]) else Err(UnknownDimension(d.id))
  }

  /** `[DIMENSION_COLUMNS[d.id] for d in dims]`: fails on the first unknown id. */
  function ResolveDimensions(cat: Catalog, dims: seq<Dimension>): (r: Outcome<seq<string>>)
    ensures r.Ok? <==> forall d :: d in dims ==> d.id in cat.dimensionColumns
    ensures r.Ok? ==> |r.value| == |dims|
    ensures r.Ok? ==> forall i :: 0 <= i < |dims| ==> r.value[i] == cat.dimensionColumns[dims[i].id]
    ensures r.Err? ==> exists d :: d in dims && r.error == UnknownDimension(d.id) && d.id !in cat.dimensionColumns
  {
    if dims == [] then Ok([])
    else
      var col :- DimensionColumn(cat, dims[0]);
      var rest :- ResolveDimensions(cat, dims[1..]);
      assert forall d :: d in dims ==> d == dims[0] || d in dims[1..];
      assert forall i :: 1 <= i < |dims| ==> dims[i] == dims[1..][i - 1];
      Ok([col] + rest)
  }

  /** `METRIC_DEFINITIONS[m.id]`. */
  function MetricDefinitionOf(cat: Catalog, m: Metric): (r: Outcome<MetricDefinition>)
    ensures r.Ok? <==> m.id in cat.metricDefinitions
  {
    if m.id in cat.metricDefinitions then Ok(cat.metricDefinitions[m.id]) else Err(UnknownMetric(m.id))
  }

  /** `df[name]`: the position of the column, or a `KeyError`. */
  function ColumnIndex(cols: seq<string>, name: string): (r: Outcome<nat>)
    ensures r.Ok? <==> name in cols
    ensures r.Ok? ==> r.value < |cols| && cols[r.value] == name
    ensures r.Err? ==> r.error == ColumnNotFound(name)
  {
    match IndexOf(cols, name)
    case Some(i) => Ok(i)
    case None => Err(ColumnNotFound(name))
  }

  /** The positions of several columns; fails on the first missing label. */
  function ColumnIndices(cols: seq<string>, names: seq<string>): (r: Outcome<seq<nat>>)
    ensures r.Ok? <==> forall n :: n in names ==> n in cols
    ensures r.Ok? ==> |r.value| == |names|
    ensures r.Ok? ==> forall j :: 0 <= j < |names| ==> r.value[j] < |cols| && cols[r.value[j]] == names[j]
  {
    if names == [] then Ok([])
    else
      var i :- ColumnIndex(cols, names[0]);
      var rest :- ColumnIndices(cols, names[1..]);
      assert names == [names[0]] + names[1..];
      Ok([i] + rest)
  }
}
