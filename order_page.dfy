/** The orderer and the paginator: `sort_values` over the dimension and metric
    elements of the order list, then `iloc[offset:]` and `iloc[:limit]`. */
module Ordering {
  import opened Wrappers
  import opened Values
  import opened Tables
  import opened Sorting
  import opened SemanticTypes

  /** An order element the orderer acts on: a dimension or a metric. */
  predicate Sortable(t: OrderTuple)
  {
    !t.element.ByOther?
  }

  /** The display name an order element sorts by. */
  function ElementName(e: OrderElement): string
  {
    match e
    case ByDimension(d) => d.name
    case ByMetric(m) => m.name
    case ByOther(text) => text
  }

  /** `sort_cols` and `ascending`: one entry per dimension or metric element,
      in order; every other element is dropped. */
  function SortColumns(order: seq<OrderTuple>): (r: (seq<string>, seq<bool>))
    ensures |r.0| == |r.1| <= |order|
  {
    if order == [] then ([], [])
    else
      var last := order[|order| - 1];
      var prev := SortColumns(order[..|order| - 1]);
      if Sortable(last) then (prev.0 + [ElementName(last.element)], prev.1 + [last.direction == Asc])
      else prev
  }

  /** The order list without the elements the orderer drops. */
  function SortableOnly(order: seq<OrderTuple>): (r: seq<OrderTuple>)
    ensures forall t :: t in r <==> t in order && Sortable(t)
  {
    if order == [] then []
    else
      var last := order[|order| - 1];
      assert order == order[..|order| - 1] + [last];
      SortableOnly(order[..|order| - 1]) + (if Sortable(last) then [last] else [])
  }

  /** The sort columns name exactly the sortable elements, in order and with
      their directions; there are none exactly when no element is sortable. */
  lemma {:induction false} SortColumnsAreSortable(order: seq<OrderTuple>)
    ensures var cols := SortColumns(order);
      var keep := SortableOnly(order);
      && |cols.0| == |keep|
      && (forall j :: 0 <= j < |keep| ==> cols.0[j] == ElementName(keep[j].element) && cols.1[j] == (keep[j].direction == Asc))
    ensures SortColumns(order).0 == [] <==> forall t :: t in order ==> !Sortable(t)
  {
    if order != [] {
      SortColumnsAreSortable(order[..|order| - 1]);
      assert order == order[..|order| - 1] + [order[|order| - 1]];
    }
  }

  /** The sort keys for columns at `idx`, each with its own direction. */
  function SortKeysOf(idx: seq<nat>, ascending: seq<bool>): (keys: seq<SortKey>)
    requires |idx| == |ascending|
    ensures |keys| == |idx|
  {
    seq(|idx|, j requires 0 <= j < |idx| => SortKey(idx[j], ascending[j]))
  }

  /** The ordering stage: nothing to sort by leaves the table as it is;
      otherwise a `KeyError` on a sort column the table lacks, or the rows
      sorted by the columns, first key primary. */
  function OrderSpec(t: Table, order: seq<OrderTuple>): Outcome<Table>
  {
    var cols := SortColumns(order);
    if cols.0 == [] then Ok(t)
    else
      var idx :- ColumnIndices(t.columns, cols.0);
      Ok(Table(t.columns, SortRows(t.rows, SortKeysOf(idx, cols.1))))
  }

  /** With no dimension or metric element, the table is unchanged. */
  lemma OrderWithoutKeysIsIdentity(t: Table, order: seq<OrderTuple>)
    requires forall e :: e in order ==> !Sortable(e)
    ensures OrderSpec(t, order) == Ok(t)
  {
    SortColumnsAreSortable(order);
  }

  /** Elements that are neither dimensions nor metrics have no effect. */
  lemma {:induction false} OrderIgnoresOthers(t: Table, order: seq<OrderTuple>)
    ensures OrderSpec(t, order) == OrderSpec(t, SortableOnly(order))
  {
    SortColumnsSortableOnly(order);
  }

  lemma {:induction false} SortColumnsSortableOnly(order: seq<OrderTuple>)
    ensures SortColumns(SortableOnly(order)) == SortColumns(order)
  {
    if order != [] {
      var init, last := order[..|order| - 1], order[|order| - 1];
      SortColumnsSortableOnly(init);
      var k := SortableOnly(order);
      if Sortable(last) {
        assert k == SortableOnly(init) + [last];
        assert k[..|k| - 1] == SortableOnly(init) && k[|k| - 1] == last;
        var prev := SortColumns(SortableOnly(init));
        assert SortColumns(k) == (prev.0 + [ElementName(last.element)], prev.1 + [last.direction == Asc]);
      } else {
        assert k == SortableOnly(init);
      }
    }
  }

  /** A successful ordering keeps the header and the rows, as a multiset,
      and leaves them sorted by the named columns with their directions. */
  lemma OrderPermutes(t: Table, order: seq<OrderTuple>)
    requires OrderSpec(t, order).Ok?
    requires SortColumns(order).0 != []
    ensures ColumnIndices(t.columns, SortColumns(order).0).Ok?
    ensures var r := OrderSpec(t, order).value;
      var idx := ColumnIndices(t.columns, SortColumns(order).0).value;
      && r.columns == t.columns
      && multiset(r.rows) == multiset(t.rows)
      && SortedBy(r.rows, SortKeysOf(idx, SortColumns(order).1))
      && (forall j :: 0 <= j < |idx| ==> t.columns[idx[j]] == SortColumns(order).0[j])
  {
  }

  /** Whether or not it sorts, a successful ordering keeps the header and the
      rows as a multiset. */
  lemma OrderKeepsRows(t: Table, order: seq<OrderTuple>)
    requires OrderSpec(t, order).Ok?
    ensures OrderSpec(t, order).value.columns == t.columns
    ensures multiset(OrderSpec(t, order).value.rows) == multiset(t.rows)
  {
    if SortColumns(order).0 != [] {
      OrderPermutes(t, order);
    }
  }

  /** Ordering fails exactly when a sort column is missing from the table. */
  lemma OrderFailsOnMissingColumn(t: Table, order: seq<OrderTuple>)
    ensures OrderSpec(t, order).Err? <==> exists c :: c in SortColumns(order).0 && c !in t.columns
  {
  }

  // ---------------------------------------------------------------------
  // Pagination

  /** `iloc[offset:]` when the offset is given and not zero, then
      `iloc[:limit]` when the limit is given. The page is never longer than
      the table, nor, whatever the offset, than a non-negative limit. */
  function Paginate<T>(rows: seq<T>, offset: Option<int>, limit: Option<int>): (page: seq<T>)
    ensures |page| <= |rows|
    ensures limit.Some? && limit.value >= 0 ==> |page| <= limit.value
  {
    var skipped := if offset.Some? && offset.value != 0 then SliceFrom(rows, offset.value) else rows;
    if limit.Some? then SliceTo(skipped, limit.value) else skipped
  }

  /** With a non-negative offset and limit, the page is the window
      `[offset, offset + limit)` clamped to the table. */
  lemma PaginateWindow<T>(rows: seq<T>, o: nat, l: nat)
    ensures Paginate(rows, Some(o), Some(l)) == rows[MinOf(o, |rows|)..MinOf(o + l, |rows|)]
    ensures Paginate(rows, None, Some(l)) == rows[..MinOf(l, |rows|)]
    ensures Paginate(rows, Some(o), None) == rows[MinOf(o, |rows|)..]
  {
  }

  /** No offset (or offset zero) and no limit leaves the rows unchanged. */
  lemma PaginateIdentity<T>(rows: seq<T>, offset: Option<int>)
    requires offset == None || offset == Some(0)
    ensures Paginate(rows, offset, None) == rows
  {
  }

  /** Whatever the offset and limit, negative ones counting from the end, the
      page is a contiguous run of the rows. */
  lemma PaginateIsWindow<T>(rows: seq<T>, offset: Option<int>, limit: Option<int>)
    ensures exists i, j :: 0 <= i <= j <= |rows| && Paginate(rows, offset, limit) == rows[i..j]
  {
    var i := if offset.Some? && offset.value != 0 then
      (if offset.value >= 0 then MinOf(offset.value, |rows|) else MaxOf(0, |rows| + offset.value)) else 0;
    var skipped := rows[i..];
    var j := if limit.Some? then
      (if limit.value >= 0 then i + MinOf(limit.value, |skipped|) else i + MaxOf(0, |skipped| + limit.value)) else |rows|;
    assert Paginate(rows, offset, limit) == rows[i..j];
  }

  /** A page holds no more rows than the table, only rows of the table, and
      no row twice when the table has none twice. */
  lemma PageOfRows<T>(rows: seq<T>, offset: Option<int>, limit: Option<int>)
    ensures var page := Paginate(rows, offset, limit);
      && |page| <= |rows|
      && (forall k :: k in page ==> k in rows)
      && (NoDuplicates(rows) ==> NoDuplicates(page))
  {
    PaginateIsWindow(rows, offset, limit);
    var page := Paginate(rows, offset, limit);
    var i, j :| 0 <= i <= j <= |rows| && page == rows[i..j];
    WindowOfRows(rows, i, j);
  }

  /** A window holds only rows of the table, and no row twice when the table
      has none twice. */
  lemma WindowOfRows<T>(rows: seq<T>, i: nat, j: nat)
    requires i <= j <= |rows|
    ensures forall k :: k in rows[i..j] ==> k in rows
    ensures NoDuplicates(rows) ==> NoDuplicates(rows[i..j])
  {
    var w := rows[i..j];
    if NoDuplicates(rows) {
      forall a, b | 0 <= a < b < |w| ensures w[a] != w[b] {
        assert w[a] == rows[i + a] && w[b] == rows[i + b];
      }
    }
  }
}
