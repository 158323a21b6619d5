/** The predicate evaluator: which filters take part, what each operator keeps,
    and the table a filter set leaves. `FilterSpec` is what the view's
    `ApplyFilters` loop computes; the lemmas state what it promises. */
module Filters {
  import opened Wrappers
  import opened Values
  import opened Tables
  import opened SemanticTypes

  /** Filters the evaluator skips: ADHOC ones and those not of WHERE kind. */
  predicate Evaluable(f: Filter)
  {
    f.operator != Adhoc && f.kind == Where
  }

  /** An evaluable filter with one of the ten operators the evaluator knows:
      the only filters whose column is looked up in the table. */
  predicate ReadsColumn(f: Filter)
  {
    Evaluable(f) && !f.operator.OtherOperator?
  }

  /** `DIMENSION_COLUMNS.get(id, name)`: an unknown id falls back to the
      filter column's own name rather than failing. */
  function FilterColumn(cat: Catalog, f: Filter): string
  {
    if f.column.id in cat.dimensionColumns then cat.dimensionColumns[f.column.id] else f.column.name
  }

  /** The values `IN` and `NOT IN` test against: a set as it is, anything else
      as a one-element list. */
  function Members(v: FilterValue): set<Value>
  {
    match v
    case Scalar(x) => {x}
    case ValueSet(vs) => vs
  }

  /** Whether a cell passes one operator. `=` never holds of a missing cell or
      against a set; the ordering operators hold only between comparable
      values. */
  predicate Holds(op: Operator, v: FilterValue, cell: Value)
  {
    match op
    case IsNull => cell.Null?
    case IsNotNull => !cell.Null?
    case In => cell in Members(v)
    case NotIn => cell !in Members(v)
    case Equals => v.Scalar? && !cell.Null? && cell == v.v
    case NotEquals => !(v.Scalar? && !cell.Null? && cell == v.v)
    case Greater => v.Scalar? && CmpLt(v.v, cell)
    case Less => v.Scalar? && CmpLt(cell, v.v)
    case GreaterOrEqual => v.Scalar? && CmpLe(v.v, cell)
    case LessOrEqual => v.Scalar? && CmpLe(cell, v.v)
    case Adhoc => true
    case OtherOperator(_) => true
  }

  /** The cell a filter reads in a row of a table with header `cols`. */
  function FilterCell(cat: Catalog, cols: seq<string>, f: Filter, r: Row): Value
  {
    match IndexOf(cols, FilterColumn(cat, f))
    case Some(i) => Cell(r, i)
    case None => Null
  }

  /** A row survives one filter: the filter is skipped, or its operator holds. */
  predicate Survives(cat: Catalog, cols: seq<string>, f: Filter, r: Row)
  {
    !Evaluable(f) || Holds(f.operator, f.value, FilterCell(cat, cols, f, r))
  }

  /** A row survives the conjunction of a filter set. */
  predicate Passes(cat: Catalog, cols: seq<string>, fs: seq<Filter>, r: Row)
  {
    forall f :: f in fs ==> Survives(cat, cols, f, r)
  }

  /** The column of the first filter, in iteration order, that reads a column
      the table lacks. */
  function FirstMissing(cat: Catalog, cols: seq<string>, fs: seq<Filter>): (m: Option<string>)
    ensures m.None? <==> forall f :: f in fs && ReadsColumn(f) ==> FilterColumn(cat, f) in cols
  {
    if fs == [] then None
    else
      var last := fs[|fs| - 1];
      assert fs == fs[..|fs| - 1] + [last];
      match FirstMissing(cat, cols, fs[..|fs| - 1])
      case Some(c) => Some(c)
      case None =>
        if ReadsColumn(last) && FilterColumn(cat, last) !in cols then Some(FilterColumn(cat, last)) else None
  }

  /** Once a prefix of the filters names a missing column, the whole set
      reports that column. */
  lemma {:induction false} FirstMissingExtends(cat: Catalog, cols: seq<string>, fs: seq<Filter>, i: nat)
    requires i <= |fs| && FirstMissing(cat, cols, fs[..i]).Some?
    ensures FirstMissing(cat, cols, fs) == FirstMissing(cat, cols, fs[..i])
    decreases |fs|
  {
    if i < |fs| {
      var init := fs[..|fs| - 1];
      assert init[..i] == fs[..i];
      FirstMissingExtends(cat, cols, init, i);
    } else {
      assert fs[..i] == fs;
    }
  }

  /** `_apply_filters(t, fs)`: no filters returns the table as it is;
      otherwise a `KeyError` on the first missing column, or the rows that
      pass every filter, in their order. */
  function FilterSpec(cat: Catalog, t: Table, fs: seq<Filter>): Outcome<Table>
  {
    if fs == [] then Ok(t)
    else
      match FirstMissing(cat, t.columns, fs)
      case Some(c) => Err(ColumnNotFound(c))
      case None => Ok(Table(t.columns, Select(t.rows, r => Passes(cat, t.columns, fs, r))))
  }

  /** The filtered table keeps the header; its rows are the input rows that
      pass every evaluable filter (both directions), in their input order. */
  lemma FilterSelects(cat: Catalog, t: Table, fs: seq<Filter>)
    requires FilterSpec(cat, t, fs).Ok?
    ensures FilterSpec(cat, t, fs).value.columns == t.columns
    ensures IsSubsequence(FilterSpec(cat, t, fs).value.rows, t.rows)
    ensures forall r :: r in FilterSpec(cat, t, fs).value.rows <==> r in t.rows && Passes(cat, t.columns, fs, r)
  {
    var p := r => Passes(cat, t.columns, fs, r);
    if fs == [] {
      SelectAll(t.rows, p);
    }
    SelectIsSubsequence(t.rows, p);
    SelectMembers(t.rows, p);
  }

  /** A filter set fails exactly when one of its evaluable filters names a
      column the table lacks. */
  lemma FilterFailsOnMissingColumn(cat: Catalog, t: Table, fs: seq<Filter>)
    ensures FilterSpec(cat, t, fs).Err? <==> exists f :: f in fs && ReadsColumn(f) && FilterColumn(cat, f) !in t.columns
    ensures FilterSpec(cat, t, fs).Err? ==> FilterSpec(cat, t, fs).error.ColumnNotFound?
  {
  }

  /** The evaluable filters of a set, in order. */
  function EvaluableOnly(fs: seq<Filter>): (es: seq<Filter>)
    ensures forall f :: f in es <==> f in fs && Evaluable(f)
  {
    if fs == [] then []
    else
      var last := fs[|fs| - 1];
      assert fs == fs[..|fs| - 1] + [last];
      EvaluableOnly(fs[..|fs| - 1]) + (if Evaluable(last) then [last] else [])
  }

  lemma {:induction false} FirstMissingIgnoresInert(cat: Catalog, cols: seq<string>, fs: seq<Filter>)
    ensures FirstMissing(cat, cols, EvaluableOnly(fs)) == FirstMissing(cat, cols, fs)
  {
    if fs != [] {
      var init, last := fs[..|fs| - 1], fs[|fs| - 1];
      FirstMissingIgnoresInert(cat, cols, init);
      var ei := EvaluableOnly(init);
      var es := EvaluableOnly(fs);
      if Evaluable(last) {
        assert es == ei + [last];
        assert es[..|es| - 1] == ei && es[|es| - 1] == last;
        assert FirstMissing(cat, cols, es) == match FirstMissing(cat, cols, ei)
          case Some(c) => Some(c)
          case None => if ReadsColumn(last) && FilterColumn(cat, last) !in cols then Some(FilterColumn(cat, last)) else None;
      } else {
        assert es == ei;
        assert !ReadsColumn(last);
      }
    }
  }

  /** ADHOC and non-WHERE filters have no effect: dropping them gives the same
      outcome. */
  lemma InertFiltersIgnored(cat: Catalog, t: Table, fs: seq<Filter>)
    ensures FilterSpec(cat, t, fs) == FilterSpec(cat, t, EvaluableOnly(fs))
  {
    var es := EvaluableOnly(fs);
    FirstMissingIgnoresInert(cat, t.columns, fs);
    if FirstMissing(cat, t.columns, fs).None? {
      var p := r => Passes(cat, t.columns, fs, r);
      var q := r => Passes(cat, t.columns, es, r);
      forall r ensures p(r) == q(r) {
        assert forall f :: f in fs && !Evaluable(f) ==> Survives(cat, t.columns, f, r);
      }
      SelectSame(t.rows, p, q);
      if es == [] {
        SelectAll(t.rows, q);
      }
      if fs == [] {
        SelectAll(t.rows, p);
      }
    }
  }

  /** Filtering twice with the same set is filtering once. */
  lemma FilterIdempotent(cat: Catalog, t: Table, fs: seq<Filter>)
    requires FilterSpec(cat, t, fs).Ok?
    ensures FilterSpec(cat, FilterSpec(cat, t, fs).value, fs) == FilterSpec(cat, t, fs)
  {
    if fs != [] {
      var p := r => Passes(cat, t.columns, fs, r);
      SelectSelect(t.rows, p, p, p);
    }
  }

  /** The iteration order of the filter set does not matter: two orders of the
      same filters leave the same table. */
  lemma FilterOrderIrrelevant(cat: Catalog, t: Table, fs: seq<Filter>, gs: seq<Filter>)
    requires forall f :: f in fs <==> f in gs
    ensures FilterSpec(cat, t, fs).Ok? <==> FilterSpec(cat, t, gs).Ok?
    ensures FilterSpec(cat, t, fs).Ok? ==> FilterSpec(cat, t, fs) == FilterSpec(cat, t, gs)
  {
    if fs != [] {
      assert fs[0] in gs;
    }
    if gs != [] {
      assert gs[0] in fs;
    }
    var p := r => Passes(cat, t.columns, fs, r);
    var q := r => Passes(cat, t.columns, gs, r);
    SelectSame(t.rows, p, q);
  }

  /** `NOT IN` keeps exactly the rows `IN` drops: the two results split the
      table's rows between them. A single value acts as a one-element set. */
  lemma InNotInPartition(cat: Catalog, t: Table, f: Filter)
    requires Evaluable(f) && f.operator == In
    requires FilterColumn(cat, f) in t.columns
    ensures var g := f.(operator := NotIn);
      && FilterSpec(cat, t, [f]).Ok? && FilterSpec(cat, t, [g]).Ok?
      && multiset(FilterSpec(cat, t, [f]).value.rows) + multiset(FilterSpec(cat, t, [g]).value.rows) == multiset(t.rows)
      && (forall r :: r in t.rows ==> (r in FilterSpec(cat, t, [g]).value.rows <==> r !in FilterSpec(cat, t, [f]).value.rows))
  {
    var g := f.(operator := NotIn);
    var p := r => Passes(cat, t.columns, [f], r);
    var q := r => Passes(cat, t.columns, [g], r);
    forall r ensures q(r) == !p(r) {
      assert Survives(cat, t.columns, g, r) == !Survives(cat, t.columns, f, r);
    }
    SelectPartition(t.rows, p, q);
    SelectMembers(t.rows, p);
    SelectMembers(t.rows, q);
  }

  /** `IN v` and `NOT IN v` on a value that is not a set behave as on the
      one-element set `{v}`. */
  lemma ScalarActsAsSingleton(cat: Catalog, t: Table, f: Filter, v: Value)
    requires f.operator == In || f.operator == NotIn
    ensures FilterSpec(cat, t, [f.(value := Scalar(v))]) == FilterSpec(cat, t, [f.(value := ValueSet({v}))])
  {
    var f1, f2 := f.(value := Scalar(v)), f.(value := ValueSet({v}));
    var p := r => Passes(cat, t.columns, [f1], r);
    var q := r => Passes(cat, t.columns, [f2], r);
    forall r ensures p(r) == q(r) {
      assert Survives(cat, t.columns, f1, r) == Survives(cat, t.columns, f2, r);
    }
    SelectSame(t.rows, p, q);
  }
}
