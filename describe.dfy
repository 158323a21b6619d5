/** The query describer: the trace string `_describe_query` renders, as a
    sequence of clauses in a fixed order, each present only when its guard
    holds. */
module Description {
  import opened Wrappers
  import opened SemanticTypes
  import opened Ordering

  /** `sep.join(parts)`. */
  function Join(sep: string, parts: seq<string>): string
  {
    if parts == [] then ""
    else if |parts| == 1 then parts[0]
    else Join(sep, parts[..|parts| - 1]) + sep + parts[|parts| - 1]
  }

  /** A joined string starts with its first part. */
  lemma {:induction false} JoinStartsWithFirst(sep: string, parts: seq<string>)
    requires parts != []
    ensures |parts[0]| <= |Join(sep, parts)| && Join(sep, parts)[..|parts[0]|] == parts[0]
  {
    if |parts| > 1 {
      var init := parts[..|parts| - 1];
      JoinStartsWithFirst(sep, init);
      assert init[0] == parts[0];
      var j := Join(sep, init);
      assert Join(sep, parts) == j + sep + parts[|parts| - 1];
      assert (j + sep + parts[|parts| - 1])[..|parts[0]|] == j[..|parts[0]|];
    }
  }

  /** Decimal digits of a natural number, most significant first, without
      leading zeros. */
  function NatToString(n: nat): (s: string)
    ensures |s| >= 1
    ensures forall k :: 0 <= k < |s| ==> '0' <= s[k] <= '9'
  {
    if n < 10 then [DigitChar(n)] else NatToString(n / 10) + [DigitChar(n % 10)]
  }

  function DigitChar(d: nat): (c: char)
    requires d < 10
    ensures '0' <= c <= '9'
  {
    ['0', '1', '2', '3', '4', '5', '6', '7', '8', '9'][d]
  }

  /** Reads a string of decimal digits. */
  function ParseNat(s: string): nat
    requires forall k :: 0 <= k < |s| ==> '0' <= s[k] <= '9'
  {
    if s == [] then 0 else 10 * ParseNat(s[..|s| - 1]) + (s[|s| - 1] - '0') as nat
  }

  /** The decimal rendering loses nothing: reading it back gives the number. */
  lemma {:induction false} NatToStringRoundTrip(n: nat)
    ensures ParseNat(NatToString(n)) == n
  {
    var s := NatToString(n);
    if n < 10 {
      assert s[..0] == [];
      DigitValue(n);
    } else {
      NatToStringRoundTrip(n / 10);
      assert s[..|s| - 1] == NatToString(n / 10);
      DigitValue(n % 10);
      assert ParseNat(s) == 10 * (n / 10) + n % 10;
    }
  }

  lemma DigitValue(d: nat)
    requires d < 10
    ensures (DigitChar(d) - '0') as nat == d
  {
  }

  /** `str(i)` for a Python int. */
  function IntToString(i: int): string
  {
    if i < 0 then "-" + NatToString(-i) else NatToString(i)
  }

  /** The text of an order direction. */
  function DirectionText(d: Direction): string
  {
    match d
    case Asc => "ASC"
    case Desc => "DESC"
  }

  /** `order_parts`: `name direction` for each dimension or metric element. */
  function OrderItems(order: seq<OrderTuple>): seq<string>
  {
    if order == [] then []
    else
      var last := order[|order| - 1];
      OrderItems(order[..|order| - 1]) + (if Sortable(last) then [ElementName(last.element) + " " + DirectionText(last.direction)] else [])
  }

  /** The described order names the same columns, in the same order and with
      the same directions, as the orderer sorts by. */
  lemma {:induction false} OrderItemsMatchSortColumns(order: seq<OrderTuple>)
    ensures |OrderItems(order)| == |SortColumns(order).0|
    ensures forall j :: 0 <= j < |OrderItems(order)| ==>
      OrderItems(order)[j] == SortColumns(order).0[j] + " " + (if SortColumns(order).1[j] then "ASC" else "DESC")
  {
    if order != [] {
      OrderItemsMatchSortColumns(order[..|order| - 1]);
    }
  }

  /** One clause of the description. */
  datatype Clause =
    | SelectClause
    | DimensionsClause(names: seq<string>)
    | MetricsClause(names: seq<string>)
    | FiltersClause(count: nat)
    | OrderByClause(items: seq<string>)
    | LimitClause(limit: int)
    | OffsetClause(offset: int)

  /** The position of a clause kind in the fixed clause order. */
  function Rank(c: Clause): nat
  {
    match c
    case SelectClause => 0
    case DimensionsClause(_) => 1
    case MetricsClause(_) => 2
    case FiltersClause(_) => 3
    case OrderByClause(_) => 4
    case LimitClause(_) => 5
    case OffsetClause(_) => 6
  }

  function Render(c: Clause): string
  {
    match c
    case SelectClause => "SELECT"
    case DimensionsClause(names) => "DIMENSIONS " + Join(", ", names)
    case MetricsClause(names) => "METRICS " + Join(", ", names)
    case FiltersClause(n) => "FILTERS (" + NatToString(n) + " applied)"
    case OrderByClause(items) => "ORDER BY " + Join(", ", items)
    case LimitClause(n) => "LIMIT " + IntToString(n)
    case OffsetClause(n) => "OFFSET " + IntToString(n)
  }

  /** `cs` with `c` appended when `b` holds: an `if ...: parts.append(...)`
      at the level of clauses. */
  function AddIf(cs: seq<Clause>, b: bool, c: Clause): seq<Clause>
  {
    if b then cs + [c] else cs
  }

  /** The clauses a request is described by. */
  function Clauses(metrics: seq<Metric>, dims: seq<Dimension>, filters: seq<Filter>, items: seq<string>,
                   limit: Option<int>, offset: Option<int>): seq<Clause>
  {
    OptionalClauses(SelectClause,
      dims != [], DimensionsClause(DimensionNames(dims)),
      metrics != [], MetricsClause(MetricNames(metrics)),
      filters != [], FiltersClause(|filters|),
      items != [], OrderByClause(items),
      limit.Some?, LimitClause(if limit.Some? then limit.value else 0),
      offset.Some?, OffsetClause(if offset.Some? then offset.value else 0))
  }

  /** A head clause followed by six clauses, each present when its flag
      holds. */
  function OptionalClauses(c0: Clause, b1: bool, c1: Clause, b2: bool, c2: Clause, b3: bool, c3: Clause,
                           b4: bool, c4: Clause, b5: bool, c5: Clause, b6: bool, c6: Clause): seq<Clause>
  {
    AddIf(AddIf(AddIf(AddIf(AddIf(AddIf([c0], b1, c1), b2, c2), b3, c3), b4, c4), b5, c5), b6, c6)
  }

  /** Each clause rendered, in order. */
  function RenderAll(cs: seq<Clause>): (parts: seq<string>)
    ensures |parts| == |cs|
  {
    if cs == [] then [] else RenderAll(cs[..|cs| - 1]) + [Render(cs[|cs| - 1])]
  }

  /** Rendering a clause list and then an optional clause. */
  lemma RenderAddIf(cs: seq<Clause>, b: bool, c: Clause)
    ensures RenderAll(AddIf(cs, b, c)) == AddTextIf(RenderAll(cs), b, Render(c))
  {
    if b {
      assert (cs + [c])[..|cs|] == cs;
    }
  }


  /** `ts` with `t` appended when `b` holds: one `if ...: parts.append(t)`. */
  function AddTextIf(ts: seq<string>, b: bool, t: string): seq<string>
  {
    if b then ts + [t] else ts
  }

  /** A head part followed by six parts, each present when its flag holds. */
  function OptionalTexts(t0: string, b1: bool, t1: string, b2: bool, t2: string, b3: bool, t3: string,
                         b4: bool, t4: string, b5: bool, t5: string, b6: bool, t6: string): seq<string>
  {
    AddTextIf(AddTextIf(AddTextIf(AddTextIf(AddTextIf(AddTextIf([t0], b1, t1), b2, t2), b3, t3), b4, t4), b5, t5), b6, t6)
  }

  /** `parts` as `_describe_query` builds it: each clause's text, present
      when its guard holds. */
  function Parts(metrics: seq<Metric>, dims: seq<Dimension>, filters: seq<Filter>, items: seq<string>,
                 limit: Option<int>, offset: Option<int>): seq<string>
  {
    OptionalTexts(Render(SelectClause),
      dims != [], Render(DimensionsClause(DimensionNames(dims))),
      metrics != [], Render(MetricsClause(MetricNames(metrics))),
      filters != [], Render(FiltersClause(|filters|)),
      items != [], Render(OrderByClause(items)),
      limit.Some?, Render(LimitClause(if limit.Some? then limit.value else 0)),
      offset.Some?, Render(OffsetClause(if offset.Some? then offset.value else 0)))
  }

  /** `_describe_query(...)`: the parts joined by spaces. */
  function Describe(metrics: seq<Metric>, dims: seq<Dimension>, filters: seq<Filter>, order: seq<OrderTuple>,
                    limit: Option<int>, offset: Option<int>): string
  {
    Join(" ", Parts(metrics, dims, filters, OrderItems(order), limit, offset))
  }

  /** The parts are the clause list rendered clause by clause, so what is
      proved of the clauses holds of the described text. */
  lemma PartsRenderClauses(metrics: seq<Metric>, dims: seq<Dimension>, filters: seq<Filter>, items: seq<string>,
                           limit: Option<int>, offset: Option<int>)
    ensures Parts(metrics, dims, filters, items, limit, offset) == RenderAll(Clauses(metrics, dims, filters, items, limit, offset))
  {
    RenderOptionalClauses(SelectClause,
      dims != [], DimensionsClause(DimensionNames(dims)),
      metrics != [], MetricsClause(MetricNames(metrics)),
      filters != [], FiltersClause(|filters|),
      items != [], OrderByClause(items),
      limit.Some?, LimitClause(if limit.Some? then limit.value else 0),
      offset.Some?, OffsetClause(if offset.Some? then offset.value else 0));
  }

  /** Rendering a head clause and six optional ones renders each present
      clause in turn. */
  lemma RenderOptionalClauses(c0: Clause, b1: bool, c1: Clause, b2: bool, c2: Clause, b3: bool, c3: Clause,
                              b4: bool, c4: Clause, b5: bool, c5: Clause, b6: bool, c6: Clause)
    ensures RenderAll(OptionalClauses(c0, b1, c1, b2, c2, b3, c3, b4, c4, b5, c5, b6, c6))
      == OptionalTexts(Render(c0), b1, Render(c1), b2, Render(c2), b3, Render(c3), b4, Render(c4), b5, Render(c5), b6, Render(c6))
  {
    var s0 := [c0];
    var s1 := AddIf(s0, b1, c1);
    var s2 := AddIf(s1, b2, c2);
    var s3 := AddIf(s2, b3, c3);
    var s4 := AddIf(s3, b4, c4);
    var s5 := AddIf(s4, b5, c5);
    assert RenderAll(s0) == [Render(c0)] by { assert s0[..0] == []; }
    RenderAddIf(s0, b1, c1);
    RenderAddIf(s1, b2, c2);
    RenderAddIf(s2, b3, c3);
    RenderAddIf(s3, b4, c4);
    RenderAddIf(s4, b5, c5);
    RenderAddIf(s5, b6, c6);
  }

  /** The clauses come in the fixed order SELECT, DIMENSIONS, METRICS,
      FILTERS, ORDER BY, LIMIT, OFFSET, each at most once, SELECT first. */
  lemma ClausesInFixedOrder(metrics: seq<Metric>, dims: seq<Dimension>, filters: seq<Filter>, items: seq<string>,
                            limit: Option<int>, offset: Option<int>)
    ensures var cs := Clauses(metrics, dims, filters, items, limit, offset);
      && cs[0] == SelectClause
      && RanksIncrease(cs)
  {
    RankedOptionalClauses(SelectClause,
      dims != [], DimensionsClause(DimensionNames(dims)),
      metrics != [], MetricsClause(MetricNames(metrics)),
      filters != [], FiltersClause(|filters|),
      items != [], OrderByClause(items),
      limit.Some?, LimitClause(if limit.Some? then limit.value else 0),
      offset.Some?, OffsetClause(if offset.Some? then offset.value else 0));
  }

  /** A head clause followed by six optional ones of increasing rank have
      increasing ranks, the head first. */
  lemma RankedOptionalClauses(c0: Clause, b1: bool, c1: Clause, b2: bool, c2: Clause, b3: bool, c3: Clause,
                              b4: bool, c4: Clause, b5: bool, c5: Clause, b6: bool, c6: Clause)
    requires Rank(c0) < Rank(c1) < Rank(c2) < Rank(c3) < Rank(c4) < Rank(c5) < Rank(c6)
    ensures var cs := OptionalClauses(c0, b1, c1, b2, c2, b3, c3, b4, c4, b5, c5, b6, c6);
      cs[0] == c0 && RanksIncrease(cs)
  {
    var s0 := [c0];
    var s1 := AddIf(s0, b1, c1);
    var s2 := AddIf(s1, b2, c2);
    var s3 := AddIf(s2, b3, c3);
    var s4 := AddIf(s3, b4, c4);
    var s5 := AddIf(s4, b5, c5);
    RankedAddIf(s0, b1, c1);
    RankedAddIf(s1, b2, c2);
    RankedAddIf(s2, b3, c3);
    RankedAddIf(s3, b4, c4);
    RankedAddIf(s4, b5, c5);
    RankedAddIf(s5, b6, c6);
  }

  /** Each clause ranks strictly after the one before it. */
  predicate RanksIncrease(cs: seq<Clause>)
  {
    forall i, j :: 0 <= i < j < |cs| ==> Rank(cs[i]) < Rank(cs[j])
  }

  /** Appending an optional clause that ranks after every clause so far keeps
      the ranks increasing, and its rank bounds them all. */
  lemma RankedAddIf(cs: seq<Clause>, b: bool, c: Clause)
    requires RanksIncrease(cs)
    requires forall k :: 0 <= k < |cs| ==> Rank(cs[k]) < Rank(c)
    ensures RanksIncrease(AddIf(cs, b, c))
    ensures forall k :: 0 <= k < |AddIf(cs, b, c)| ==> Rank(AddIf(cs, b, c)[k]) <= Rank(c)
    ensures cs != [] ==> AddIf(cs, b, c)[0] == cs[0]
  {
  }

  /** Some clause of the given rank is present. */
  predicate HasClause(cs: seq<Clause>, rank: nat)
  {
    exists c :: c in cs && Rank(c) == rank
  }

  /** Each clause is present exactly when its guard holds: dimensions or
      metrics asked for, filters given, some order item, a limit or an
      offset given (even zero). */
  lemma ClausePresence(metrics: seq<Metric>, dims: seq<Dimension>, filters: seq<Filter>, items: seq<string>,
                       limit: Option<int>, offset: Option<int>)
    ensures var cs := Clauses(metrics, dims, filters, items, limit, offset);
      && HasClause(cs, 0)
      && (HasClause(cs, 1) <==> dims != [])
      && (HasClause(cs, 2) <==> metrics != [])
      && (HasClause(cs, 3) <==> filters != [])
      && (HasClause(cs, 4) <==> items != [])
      && (HasClause(cs, 5) <==> limit.Some?)
      && (HasClause(cs, 6) <==> offset.Some?)
  {
    var c1, c2, c3 := DimensionsClause(DimensionNames(dims)), MetricsClause(MetricNames(metrics)), FiltersClause(|filters|);
    var c4 := OrderByClause(items);
    var c5 := LimitClause(if limit.Some? then limit.value else 0);
    var c6 := OffsetClause(if offset.Some? then offset.value else 0);
    OptionalClausesPresence(SelectClause, dims != [], c1, metrics != [], c2, filters != [], c3,
      items != [], c4, limit.Some?, c5, offset.Some?, c6);
  }

  /** A head clause of rank 0 followed by optional clauses of ranks 1 to 6:
      a rank is present exactly when the head has it or its flag holds. */
  lemma OptionalClausesPresence(c0: Clause, b1: bool, c1: Clause, b2: bool, c2: Clause, b3: bool, c3: Clause,
                                b4: bool, c4: Clause, b5: bool, c5: Clause, b6: bool, c6: Clause)
    requires Rank(c0) == 0 && Rank(c1) == 1 && Rank(c2) == 2 && Rank(c3) == 3
    requires Rank(c4) == 4 && Rank(c5) == 5 && Rank(c6) == 6
    ensures var cs := OptionalClauses(c0, b1, c1, b2, c2, b3, c3, b4, c4, b5, c5, b6, c6);
      && HasClause(cs, 0)
      && (HasClause(cs, 1) <==> b1) && (HasClause(cs, 2) <==> b2) && (HasClause(cs, 3) <==> b3)
      && (HasClause(cs, 4) <==> b4) && (HasClause(cs, 5) <==> b5) && (HasClause(cs, 6) <==> b6)
  {
    forall r: nat | r <= 6
      ensures HasClause(OptionalClauses(c0, b1, c1, b2, c2, b3, c3, b4, c4, b5, c5, b6, c6), r) <==>
        || r == 0 || (b1 && r == 1) || (b2 && r == 2) || (b3 && r == 3)
        || (b4 && r == 4) || (b5 && r == 5) || (b6 && r == 6)
    {
      OptionalClauseRanks(c0, b1, c1, b2, c2, b3, c3, b4, c4, b5, c5, b6, c6, r);
    }
  }

  /** The members of the clause list, one per guard that holds. */
  lemma ClausesMembers(metrics: seq<Metric>, dims: seq<Dimension>, filters: seq<Filter>, items: seq<string>,
                       limit: Option<int>, offset: Option<int>)
    ensures forall c :: c in Clauses(metrics, dims, filters, items, limit, offset) <==>
      || c == SelectClause
      || (dims != [] && c == DimensionsClause(DimensionNames(dims)))
      || (metrics != [] && c == MetricsClause(MetricNames(metrics)))
      || (filters != [] && c == FiltersClause(|filters|))
      || (items != [] && c == OrderByClause(items))
      || (limit.Some? && c == LimitClause(limit.value))
      || (offset.Some? && c == OffsetClause(offset.value))
  {
    OptionalClauseMembers(SelectClause,
      dims != [], DimensionsClause(DimensionNames(dims)),
      metrics != [], MetricsClause(MetricNames(metrics)),
      filters != [], FiltersClause(|filters|),
      items != [], OrderByClause(items),
      limit.Some?, LimitClause(if limit.Some? then limit.value else 0),
      offset.Some?, OffsetClause(if offset.Some? then offset.value else 0));
  }

  /** A clause is in a head clause followed by six optional ones exactly when
      it is the head or a present optional clause. */
  lemma OptionalClauseMembers(c0: Clause, b1: bool, c1: Clause, b2: bool, c2: Clause, b3: bool, c3: Clause,
                              b4: bool, c4: Clause, b5: bool, c5: Clause, b6: bool, c6: Clause)
    ensures forall c :: c in OptionalClauses(c0, b1, c1, b2, c2, b3, c3, b4, c4, b5, c5, b6, c6) <==>
      c == c0 || (b1 && c == c1) || (b2 && c == c2) || (b3 && c == c3) || (b4 && c == c4) || (b5 && c == c5) || (b6 && c == c6)
  {
    var s0 := [c0];
    var s1 := AddIf(s0, b1, c1);
    var s2 := AddIf(s1, b2, c2);
    var s3 := AddIf(s2, b3, c3);
    var s4 := AddIf(s3, b4, c4);
    var s5 := AddIf(s4, b5, c5);
    MembersAddIf(s0, b1, c1);
    MembersAddIf(s1, b2, c2);
    MembersAddIf(s2, b3, c3);
    MembersAddIf(s3, b4, c4);
    MembersAddIf(s4, b5, c5);
    MembersAddIf(s5, b6, c6);
  }

  lemma MembersAddIf(cs: seq<Clause>, b: bool, c: Clause)
    ensures forall x :: x in AddIf(cs, b, c) <==> x in cs || (b && x == c)
  {
  }

  /** A rank is present in such a list exactly when the head or a present
      optional clause has it. */
  lemma OptionalClauseRanks(c0: Clause, b1: bool, c1: Clause, b2: bool, c2: Clause, b3: bool, c3: Clause,
                            b4: bool, c4: Clause, b5: bool, c5: Clause, b6: bool, c6: Clause, r: nat)
    ensures HasClause(OptionalClauses(c0, b1, c1, b2, c2, b3, c3, b4, c4, b5, c5, b6, c6), r) <==>
      || r == Rank(c0) || (b1 && r == Rank(c1)) || (b2 && r == Rank(c2)) || (b3 && r == Rank(c3))
      || (b4 && r == Rank(c4)) || (b5 && r == Rank(c5)) || (b6 && r == Rank(c6))
  {
    var s0 := [c0];
    var s1 := AddIf(s0, b1, c1);
    var s2 := AddIf(s1, b2, c2);
    var s3 := AddIf(s2, b3, c3);
    var s4 := AddIf(s3, b4, c4);
    var s5 := AddIf(s4, b5, c5);
    assert HasClause(s0, r) <==> r == Rank(c0) by {
      if r == Rank(c0) { assert c0 in s0; }
    }
    HasClauseAddIf(s0, b1, c1, r);
    HasClauseAddIf(s1, b2, c2, r);
    HasClauseAddIf(s2, b3, c3, r);
    HasClauseAddIf(s3, b4, c4, r);
    HasClauseAddIf(s4, b5, c5, r);
    HasClauseAddIf(s5, b6, c6, r);
  }

  lemma HasClauseAddIf(cs: seq<Clause>, b: bool, c: Clause, r: nat)
    ensures HasClause(AddIf(cs, b, c), r) <==> HasClause(cs, r) || (b && Rank(c) == r)
  {
    var t := AddIf(cs, b, c);
    if HasClause(t, r) {
      var x :| x in t && Rank(x) == r;
      if x !in cs { assert b && x == c; }
    }
    if HasClause(cs, r) {
      var x :| x in cs && Rank(x) == r;
      assert x in t;
    }
    if b && Rank(c) == r {
      assert c in t;
    }
  }

  /** The ORDER BY clause is present exactly when the orderer has a column to
      sort by (by `SortColumnsAreSortable`, when some order element is a
      dimension or a metric), and then it carries the order items. */
  lemma OrderClausePresence(metrics: seq<Metric>, dims: seq<Dimension>, filters: seq<Filter>, order: seq<OrderTuple>,
                            limit: Option<int>, offset: Option<int>)
    ensures var cs := Clauses(metrics, dims, filters, OrderItems(order), limit, offset);
      && (HasClause(cs, 4) <==> SortColumns(order).0 != [])
      && (HasClause(cs, 4) ==> OrderByClause(OrderItems(order)) in cs)
  {
    ClausePresence(metrics, dims, filters, OrderItems(order), limit, offset);
    ClausesMembers(metrics, dims, filters, OrderItems(order), limit, offset);
    OrderItemsEmpty(order);
  }

  /** No order item exactly when no sort column. */
  lemma OrderItemsEmpty(order: seq<OrderTuple>)
    ensures OrderItems(order) == [] <==> SortColumns(order).0 == []
  {
    OrderItemsMatchSortColumns(order);
  }

  /** Every description starts with `SELECT`. */
  lemma DescriptionStartsWithSelect(metrics: seq<Metric>, dims: seq<Dimension>, filters: seq<Filter>, order: seq<OrderTuple>,
                                    limit: Option<int>, offset: Option<int>)
    ensures var s := Describe(metrics, dims, filters, order, limit, offset);
      |s| >= 6 && s[..6] == "SELECT"
  {
    var parts := Parts(metrics, dims, filters, OrderItems(order), limit, offset);
    assert |parts| >= 1 && parts[0] == "SELECT" by {
      OptionalTextsHead(Render(SelectClause),
        dims != [], Render(DimensionsClause(DimensionNames(dims))),
        metrics != [], Render(MetricsClause(MetricNames(metrics))),
        filters != [], Render(FiltersClause(|filters|)),
        OrderItems(order) != [], Render(OrderByClause(OrderItems(order))),
        limit.Some?, Render(LimitClause(if limit.Some? then limit.value else 0)),
        offset.Some?, Render(OffsetClause(if offset.Some? then offset.value else 0)));
    }
    JoinStartsWithFirst(" ", parts);
  }

  /** The head part stays first. */
  lemma OptionalTextsHead(t0: string, b1: bool, t1: string, b2: bool, t2: string, b3: bool, t3: string,
                          b4: bool, t4: string, b5: bool, t5: string, b6: bool, t6: string)
    ensures var ts := OptionalTexts(t0, b1, t1, b2, t2, b3, t3, b4, t4, b5, t5, b6, t6);
      |ts| >= 1 && ts[0] == t0
  {
  }
}
