/** Top-N-per-group limiting: rank the distinct key combinations of the
    group-limit dimensions, keep the first `top`, and inner-join the working
    table against them. */
module GroupLimits {
  import opened Wrappers
  import opened Values
  import opened Tables
  import opened Sorting
  import opened SemanticTypes
  import opened Filters
  import opened Aggregation

  /** The population the groups are ranked over: the whole dataset under the
      limit's own filters when it has a filter set (an empty set filters
      nothing), otherwise the working table. */
  function RankingPopulation(cat: Catalog, data: Table, df: Table, gl: GroupLimit): Outcome<Table>
  {
    if gl.filters.Some? then FilterSpec(cat, data, gl.filters.value) else Ok(df)
  }

  /** A group's aggregate of the metric's source column. */
  function GroupScore(rows: seq<Row>, keyIdx: seq<nat>, src: nat, fn: AggFunc, g: Row): Value
  {
    Aggregate(fn, ColumnValues(GroupRows(rows, keyIdx, g), src))
  }

  /** Each group key followed by its aggregate of the metric's source column. */
  function ScoredGroups(rows: seq<Row>, keyIdx: seq<nat>, src: nat, fn: AggFunc): (scored: seq<Row>)
    ensures |scored| == |GroupKeys(rows, keyIdx)|
  {
    var groups := GroupKeys(rows, keyIdx);
    seq(|groups|, k requires 0 <= k < |groups| => groups[k] + [GroupScore(rows, keyIdx, src, fn, groups[k])])
  }

  /** The distinct key combinations of `pop` in rank order. With a metric:
      the groups of `groupby` ordered by their aggregate. Without one: the
      distinct projections ordered by the first dimension. No dimension at
      all is an error in both cases. */
  function RankedKeys(cat: Catalog, pop: Table, dimCols: seq<string>, metric: Option<Metric>, ascending: bool): Outcome<seq<Row>>
  {
    if metric.Some? then
      var def :- MetricDefinitionOf(cat, metric.value);
      if dimCols == [] then Err(NoGroupKeys)
      else
        var keyIdx :- ColumnIndices(pop.columns, dimCols);
        var src :- ColumnIndex(pop.columns, def.sourceColumn);
        var scored := ScoredGroups(pop.rows, keyIdx, src, def.aggregation);
        Ok(Prefixes(SortRows(scored, [SortKey(|dimCols|, ascending)]), |dimCols|))
    else
      var keyIdx :- ColumnIndices(pop.columns, dimCols);
      if dimCols == [] then Err(NoGroupKeys)
      else Ok(SortRows(Distinct(KeyRows(pop.rows, keyIdx)), [SortKey(0, ascending)]))
  }

  /** The ranked key combinations of a group limit: its dimensions resolved,
      its population chosen, its keys ranked. */
  function Ranking(cat: Catalog, data: Table, df: Table, gl: GroupLimit): (r: Outcome<seq<Row>>)
    ensures r.Ok? ==> ResolveDimensions(cat, gl.dimensions).Ok?
  {
    var dimCols :- ResolveDimensions(cat, gl.dimensions);
    var pop :- RankingPopulation(cat, data, df, gl);
    RankedKeys(cat, pop, dimCols, gl.metric, gl.direction == Asc)
  }

  /** `_apply_group_limit(df, gl)`: the rows of `df` whose key combination is
      among the first `gl.top` ranked ones (`head(top)`), in `df`'s order. */
  function GroupLimitSpec(cat: Catalog, data: Table, df: Table, gl: GroupLimit): Outcome<Table>
  {
    var ranked :- Ranking(cat, data, df, gl);
    var keyIdx :- ColumnIndices(df.columns, ResolveDimensions(cat, gl.dimensions).value);
    var top := SliceTo(ranked, gl.top);
    Ok(Table(df.columns, Select(df.rows, r => KeyOf(r, keyIdx) in top)))
  }

  /** The distinct key combinations a table's rows carry. */
  function KeySet(rows: seq<Row>, keyIdx: seq<nat>): set<Row>
  {
    set r | r in rows :: KeyOf(r, keyIdx)
  }

  /** The limited table keeps the header; its rows are a subsequence of the
      working table: exactly the rows whose key is among the top keys. */
  lemma GroupLimitSelects(cat: Catalog, data: Table, df: Table, gl: GroupLimit)
    requires GroupLimitSpec(cat, data, df, gl).Ok?
    ensures Ranking(cat, data, df, gl).Ok? && ResolveDimensions(cat, gl.dimensions).Ok?
    ensures ColumnIndices(df.columns, ResolveDimensions(cat, gl.dimensions).value).Ok?
    ensures var t := GroupLimitSpec(cat, data, df, gl).value;
      var keyIdx := ColumnIndices(df.columns, ResolveDimensions(cat, gl.dimensions).value).value;
      var top := SliceTo(Ranking(cat, data, df, gl).value, gl.top);
      && t.columns == df.columns
      && IsSubsequence(t.rows, df.rows)
      && (forall r :: r in t.rows <==> r in df.rows && KeyOf(r, keyIdx) in top)
  {
    var keyIdx := ColumnIndices(df.columns, ResolveDimensions(cat, gl.dimensions).value).value;
    var top := SliceTo(Ranking(cat, data, df, gl).value, gl.top);
    var p := r => KeyOf(r, keyIdx) in top;
    SelectIsSubsequence(df.rows, p);
    SelectMembers(df.rows, p);
  }

  lemma SubsetCardinality<T>(a: set<T>, b: set<T>)
    requires a <= b
    ensures |a| <= |b|
  {
    assert b == a + (b - a);
  }

  /** Rows whose keys all come from `top` carry at most `|top|` distinct keys. */
  lemma KeySetBound(rows: seq<Row>, keyIdx: seq<nat>, top: seq<Row>)
    requires forall r :: r in rows ==> KeyOf(r, keyIdx) in top
    ensures |KeySet(rows, keyIdx)| <= |top|
  {
    ElementsCardinality(top);
    SubsetCardinality(KeySet(rows, keyIdx), set x | x in top);
  }

  /** With a non-negative `top`, the limited table carries at most `top`
      distinct key combinations. It can carry fewer: a metric ranking drops
      keys with a missing part (`MetricLimitDropsMissingKeys`), and a
      population filtered on its own can rank keys no working row carries;
      without such filters the count is exact (`GroupLimitKeepsTopGroups`). */
  lemma GroupLimitBound(cat: Catalog, data: Table, df: Table, gl: GroupLimit)
    requires gl.top >= 0
    requires GroupLimitSpec(cat, data, df, gl).Ok?
    ensures ResolveDimensions(cat, gl.dimensions).Ok?
    ensures ColumnIndices(df.columns, ResolveDimensions(cat, gl.dimensions).value).Ok?
    ensures var keyIdx := ColumnIndices(df.columns, ResolveDimensions(cat, gl.dimensions).value).value;
      |KeySet(GroupLimitSpec(cat, data, df, gl).value.rows, keyIdx)| <= gl.top
  {
    GroupLimitSelects(cat, data, df, gl);
    var keyIdx := ColumnIndices(df.columns, ResolveDimensions(cat, gl.dimensions).value).value;
    var top := SliceTo(Ranking(cat, data, df, gl).value, gl.top);
    KeySetBound(GroupLimitSpec(cat, data, df, gl).value.rows, keyIdx, top);
  }

  /** Ranking by a metric ranks exactly the groups of `groupby`: distinct,
      without missing parts, each carried by some row of the population. */
  lemma MetricRankingIsGroups(pop: Table, dimCols: seq<string>, keyIdx: seq<nat>, src: nat, fn: AggFunc, ascending: bool)
    requires |keyIdx| == |dimCols|
    ensures var ranked := Prefixes(SortRows(ScoredGroups(pop.rows, keyIdx, src, fn), [SortKey(|dimCols|, ascending)]), |dimCols|);
      && multiset(ranked) == multiset(GroupKeys(pop.rows, keyIdx))
      && NoDuplicates(ranked)
  {
    var groups := GroupKeys(pop.rows, keyIdx);
    var scored := ScoredGroups(pop.rows, keyIdx, src, fn);
    var sorted := SortRows(scored, [SortKey(|dimCols|, ascending)]);
    GroupKeysFacts(pop.rows, keyIdx);
    assert Prefixes(scored, |dimCols|) == groups by {
      forall k | 0 <= k < |groups| ensures Prefixes(scored, |dimCols|)[k] == groups[k] {
        assert groups[k] in groups;
      }
    }
    PrefixesPermutation(scored, sorted, |dimCols|);
    PermutationKeepsNoDuplicates(groups, Prefixes(sorted, |dimCols|));
  }

  /** A scored row: `n` key cells, then the aggregate of that key's group. */
  predicate ScoredRow(rows: seq<Row>, keyIdx: seq<nat>, src: nat, fn: AggFunc, n: nat, x: Row)
  {
    |x| == n + 1 && x[n] == GroupScore(rows, keyIdx, src, fn, x[..n])
  }

  /** Ranking by a metric orders the groups by their aggregate in the
      requested direction, groups whose aggregate is missing last. */
  lemma MetricRankingOrder(pop: Table, dimCols: seq<string>, keyIdx: seq<nat>, src: nat, fn: AggFunc, ascending: bool)
    requires |keyIdx| == |dimCols|
    ensures var ranked := Prefixes(SortRows(ScoredGroups(pop.rows, keyIdx, src, fn), [SortKey(|dimCols|, ascending)]), |dimCols|);
      forall i, j :: 0 <= i < j < |ranked| ==>
        Precedes(GroupScore(pop.rows, keyIdx, src, fn, ranked[i]), GroupScore(pop.rows, keyIdx, src, fn, ranked[j]), ascending)
  {
    var n := |dimCols|;
    var scored := ScoredGroups(pop.rows, keyIdx, src, fn);
    var key := SortKey(n, ascending);
    var sorted := SortRows(scored, [key]);
    var ranked := Prefixes(sorted, n);
    assert forall x :: x in scored ==> ScoredRow(pop.rows, keyIdx, src, fn, n, x) by {
      ScoredGroupsAreScored(pop.rows, keyIdx, src, fn, n);
    }
    assert forall i :: 0 <= i < |sorted| ==> ScoredRow(pop.rows, keyIdx, src, fn, n, sorted[i]) by {
      forall i | 0 <= i < |sorted| ensures ScoredRow(pop.rows, keyIdx, src, fn, n, sorted[i]) {
        assert sorted[i] in multiset(scored);
      }
    }
    SortedColumnOrder(sorted, key);
    forall i, j | 0 <= i < j < |ranked|
      ensures Precedes(GroupScore(pop.rows, keyIdx, src, fn, ranked[i]), GroupScore(pop.rows, keyIdx, src, fn, ranked[j]), ascending)
    {
      ScoredPrefix(pop.rows, keyIdx, src, fn, sorted, n, i);
      ScoredPrefix(pop.rows, keyIdx, src, fn, sorted, n, j);
    }
  }

  /** Every scored group is a scored row. */
  lemma ScoredGroupsAreScored(rows: seq<Row>, keyIdx: seq<nat>, src: nat, fn: AggFunc, n: nat)
    requires |keyIdx| == n
    ensures forall x :: x in ScoredGroups(rows, keyIdx, src, fn) ==> ScoredRow(rows, keyIdx, src, fn, n, x)
  {
    var groups := GroupKeys(rows, keyIdx);
    var scored := ScoredGroups(rows, keyIdx, src, fn);
    GroupKeysFacts(rows, keyIdx);
    forall x | x in scored ensures ScoredRow(rows, keyIdx, src, fn, n, x) {
      var k :| 0 <= k < |scored| && scored[k] == x;
      assert groups[k] in groups;
      assert x[..n] == groups[k];
    }
  }

  /** The key of a scored row is its prefix, and its score the cell after. */
  lemma ScoredPrefix(rows: seq<Row>, keyIdx: seq<nat>, src: nat, fn: AggFunc, sorted: seq<Row>, n: nat, i: nat)
    requires i < |sorted| && ScoredRow(rows, keyIdx, src, fn, n, sorted[i])
    ensures Prefixes(sorted, n)[i] == sorted[i][..n]
    ensures Cell(sorted[i], n) == GroupScore(rows, keyIdx, src, fn, Prefixes(sorted, n)[i])
  {
  }

  /** The ranked keys with a metric: the `groupby` groups, each once,
      ordered by their aggregate of the metric's source column in the
      requested direction, missing aggregates last. */
  lemma RankedByMetric(cat: Catalog, pop: Table, dimCols: seq<string>, metric: Metric, ascending: bool)
    requires RankedKeys(cat, pop, dimCols, Some(metric), ascending).Ok?
    ensures MetricDefinitionOf(cat, metric).Ok? && dimCols != [] && ColumnIndices(pop.columns, dimCols).Ok?
    ensures ColumnIndex(pop.columns, MetricDefinitionOf(cat, metric).value.sourceColumn).Ok?
    ensures var def := MetricDefinitionOf(cat, metric).value;
      var keyIdx := ColumnIndices(pop.columns, dimCols).value;
      var src := ColumnIndex(pop.columns, def.sourceColumn).value;
      var ranked := RankedKeys(cat, pop, dimCols, Some(metric), ascending).value;
      && multiset(ranked) == multiset(GroupKeys(pop.rows, keyIdx))
      && NoDuplicates(ranked)
      && forall i, j :: 0 <= i < j < |ranked| ==>
           Precedes(GroupScore(pop.rows, keyIdx, src, def.aggregation, ranked[i]),
                    GroupScore(pop.rows, keyIdx, src, def.aggregation, ranked[j]), ascending)
  {
    var def := MetricDefinitionOf(cat, metric).value;
    var keyIdx := ColumnIndices(pop.columns, dimCols).value;
    var src := ColumnIndex(pop.columns, def.sourceColumn).value;
    MetricRankingIsGroups(pop, dimCols, keyIdx, src, def.aggregation, ascending);
    MetricRankingOrder(pop, dimCols, keyIdx, src, def.aggregation, ascending);
  }

  /** The ranked keys without a metric: the distinct key projections of the
      population, each once, ordered by their first component in the
      requested direction, missing values last. */
  lemma RankedByFirstDimension(cat: Catalog, pop: Table, dimCols: seq<string>, ascending: bool)
    requires RankedKeys(cat, pop, dimCols, None, ascending).Ok?
    ensures dimCols != [] && ColumnIndices(pop.columns, dimCols).Ok?
    ensures var keyIdx := ColumnIndices(pop.columns, dimCols).value;
      var ranked := RankedKeys(cat, pop, dimCols, None, ascending).value;
      && NoDuplicates(ranked)
      && (forall k :: k in ranked <==> exists r :: r in pop.rows && KeyOf(r, keyIdx) == k)
      && (forall k :: k in ranked ==> |k| == |dimCols|)
      && forall i, j :: 0 <= i < j < |ranked| ==> Precedes(Cell(ranked[i], 0), Cell(ranked[j], 0), ascending)
  {
    var keyIdx := ColumnIndices(pop.columns, dimCols).value;
    var d := Distinct(KeyRows(pop.rows, keyIdx));
    var key := SortKey(0, ascending);
    var ranked := SortRows(d, [key]);
    assert RankedKeys(cat, pop, dimCols, None, ascending).value == ranked;
    PermutationKeepsNoDuplicates(d, ranked);
    assert forall k :: k in ranked <==> k in d by {
      forall k ensures k in ranked <==> k in d {
        assert k in ranked <==> k in multiset(ranked);
      }
    }
    assert forall k :: k in d <==> exists r :: r in pop.rows && KeyOf(r, keyIdx) == k by {
      KeyRowsMembers(pop.rows, keyIdx);
    }
    assert forall k :: k in ranked ==> |k| == |dimCols|;
    SortedColumnOrder(ranked, key);
  }

  lemma MultisetRemove(a: seq<Row>, b: seq<Row>, i: nat)
    requires multiset(a) == multiset(b) && a != [] && i < |b| && b[i] == a[0]
    ensures multiset(a[1..]) == multiset(b[..i] + b[i + 1..])
  {
    assert a == [a[0]] + a[1..];
    assert b == b[..i] + [b[i]] + b[i + 1..];
    assert multiset(a) == multiset{a[0]} + multiset(a[1..]);
    assert multiset(b) == multiset(b[..i]) + multiset{b[i]} + multiset(b[i + 1..]);
    assert multiset(b[..i] + b[i + 1..]) == multiset(b[..i]) + multiset(b[i + 1..]);
    forall y ensures multiset(a[1..])[y] == multiset(b[..i] + b[i + 1..])[y] {
      assert multiset(a)[y] == multiset(b)[y];
    }
  }

  lemma PrefixesRemove(s: seq<Row>, i: nat, n: nat)
    requires i < |s|
    ensures multiset(Prefixes(s, n)) == multiset(Prefixes(s[..i] + s[i + 1..], n)) + multiset{Prefixes(s, n)[i]}
  {
    var ps := Prefixes(s, n);
    assert ps == ps[..i] + [ps[i]] + ps[i + 1..];
    assert Prefixes(s[..i] + s[i + 1..], n) == ps[..i] + ps[i + 1..];
  }

  /** Reordering rows reorders their prefixes the same way. */
  lemma {:induction false} PrefixesPermutation(a: seq<Row>, b: seq<Row>, n: nat)
    requires multiset(a) == multiset(b)
    ensures multiset(Prefixes(a, n)) == multiset(Prefixes(b, n))
    decreases |a|
  {
    if a == [] {
      assert |multiset(b)| == 0;
    } else {
      assert a[0] in multiset(b);
      var i :| 0 <= i < |b| && b[i] == a[0];
      var rest := b[..i] + b[i + 1..];
      MultisetRemove(a, b, i);
      PrefixesPermutation(a[1..], rest, n);
      var pa, pb := Prefixes(a, n), Prefixes(b, n);
      assert pa[0] == pb[i];
      assert multiset(pa) == multiset(Prefixes(a[1..], n)) + multiset{pa[0]} by {
        PrefixesRemove(a, 0, n);
        assert a[..0] + a[1..] == a[1..];
      }
      assert multiset(pb) == multiset(Prefixes(rest, n)) + multiset{pb[i]} by {
        PrefixesRemove(b, i, n);
      }
    }
  }

  /** Every working row whose key survives the cut is kept. */
  lemma GroupLimitKeepsTopRows(cat: Catalog, data: Table, df: Table, gl: GroupLimit, r: Row)
    requires GroupLimitSpec(cat, data, df, gl).Ok?
    requires r in df.rows
    requires Ranking(cat, data, df, gl).Ok? && ResolveDimensions(cat, gl.dimensions).Ok?
    requires ColumnIndices(df.columns, ResolveDimensions(cat, gl.dimensions).value).Ok?
    requires KeyOf(r, ColumnIndices(df.columns, ResolveDimensions(cat, gl.dimensions).value).value)
      in SliceTo(Ranking(cat, data, df, gl).value, gl.top)
    ensures r in GroupLimitSpec(cat, data, df, gl).value.rows
  {
    GroupLimitSelects(cat, data, df, gl);
  }

  /** Whatever ranks them, the ranked keys are distinct and each is carried
      by some row of the population; ranked by a metric, none has a missing
      part (the groups of `groupby` drop those). */
  lemma RankedKeysCarried(cat: Catalog, pop: Table, dimCols: seq<string>, metric: Option<Metric>, ascending: bool)
    requires RankedKeys(cat, pop, dimCols, metric, ascending).Ok?
    ensures ColumnIndices(pop.columns, dimCols).Ok?
    ensures var keyIdx := ColumnIndices(pop.columns, dimCols).value;
      var ranked := RankedKeys(cat, pop, dimCols, metric, ascending).value;
      && NoDuplicates(ranked)
      && (forall k :: k in ranked ==> exists r :: r in pop.rows && KeyOf(r, keyIdx) == k)
      && (metric.Some? ==> forall k :: k in ranked ==> NoNull(k))
  {
    if metric.Some? {
      RankedByMetric(cat, pop, dimCols, metric.value, ascending);
      var keyIdx := ColumnIndices(pop.columns, dimCols).value;
      var ranked := RankedKeys(cat, pop, dimCols, metric, ascending).value;
      GroupKeysFacts(pop.rows, keyIdx);
      forall k | k in ranked ensures k in GroupKeys(pop.rows, keyIdx) {
        assert k in multiset(ranked);
      }
    } else {
      RankedByFirstDimension(cat, pop, dimCols, ascending);
    }
  }

  /** Without a metric and without filters of its own, a limit whose `top`
      covers every distinct key combination keeps the working table whole:
      each row's key is one of the ranked ones. */
  lemma GroupLimitKeepsAllWhenTopCovers(cat: Catalog, data: Table, df: Table, gl: GroupLimit)
    requires gl.filters.None? && gl.metric.None?
    requires GroupLimitSpec(cat, data, df, gl).Ok?
    requires Ranking(cat, data, df, gl).Ok? && gl.top >= |Ranking(cat, data, df, gl).value|
    ensures GroupLimitSpec(cat, data, df, gl).value == df
  {
    GroupLimitSelects(cat, data, df, gl);
    var dimCols := ResolveDimensions(cat, gl.dimensions).value;
    var ranked := Ranking(cat, data, df, gl).value;
    assert ranked == RankedKeys(cat, df, dimCols, None, gl.direction == Asc).value;
    RankedByFirstDimension(cat, df, dimCols, gl.direction == Asc);
    var keyIdx := ColumnIndices(df.columns, dimCols).value;
    SliceToPrefix(ranked, gl.top);
    var p := r => KeyOf(r, keyIdx) in SliceTo(ranked, gl.top);
    assert forall r :: r in df.rows ==> p(r);
    SelectAll(df.rows, p);
  }

  /** A limit ranked by a metric never keeps a row whose key has a missing
      part, whatever `top` is and whichever population was ranked. */
  lemma MetricLimitDropsMissingKeys(cat: Catalog, data: Table, df: Table, gl: GroupLimit, r: Row)
    requires gl.metric.Some?
    requires GroupLimitSpec(cat, data, df, gl).Ok?
    requires ResolveDimensions(cat, gl.dimensions).Ok?
    requires ColumnIndices(df.columns, ResolveDimensions(cat, gl.dimensions).value).Ok?
    requires r in df.rows
    requires !NoNull(KeyOf(r, ColumnIndices(df.columns, ResolveDimensions(cat, gl.dimensions).value).value))
    ensures r !in GroupLimitSpec(cat, data, df, gl).value.rows
  {
    GroupLimitSelects(cat, data, df, gl);
    var dimCols := ResolveDimensions(cat, gl.dimensions).value;
    var pop := RankingPopulation(cat, data, df, gl).value;
    var ranked := Ranking(cat, data, df, gl).value;
    assert ranked == RankedKeys(cat, pop, dimCols, gl.metric, gl.direction == Asc).value;
    RankedKeysCarried(cat, pop, dimCols, gl.metric, gl.direction == Asc);
    SliceToPrefix(ranked, gl.top);
  }

  /** Ranking the working table itself, a non-negative `top` keeps exactly
      `min(top, |ranked|)` distinct key combinations: every ranked key is
      carried by a working row, so none of the first `top` goes unmatched. */
  lemma GroupLimitKeepsTopGroups(cat: Catalog, data: Table, df: Table, gl: GroupLimit)
    requires gl.filters.None? && gl.top >= 0
    requires GroupLimitSpec(cat, data, df, gl).Ok?
    ensures Ranking(cat, data, df, gl).Ok? && ResolveDimensions(cat, gl.dimensions).Ok?
    ensures ColumnIndices(df.columns, ResolveDimensions(cat, gl.dimensions).value).Ok?
    ensures var keyIdx := ColumnIndices(df.columns, ResolveDimensions(cat, gl.dimensions).value).value;
      |KeySet(GroupLimitSpec(cat, data, df, gl).value.rows, keyIdx)| == MinOf(gl.top, |Ranking(cat, data, df, gl).value|)
  {
    GroupLimitSelects(cat, data, df, gl);
    var dimCols := ResolveDimensions(cat, gl.dimensions).value;
    var keyIdx := ColumnIndices(df.columns, dimCols).value;
    var ranked := Ranking(cat, data, df, gl).value;
    var rows := GroupLimitSpec(cat, data, df, gl).value.rows;
    assert ranked == RankedKeys(cat, df, dimCols, gl.metric, gl.direction == Asc).value;
    RankedKeysCarried(cat, df, dimCols, gl.metric, gl.direction == Asc);
    var top := SliceTo(ranked, gl.top);
    SliceToPrefix(ranked, gl.top);
    assert KeySet(rows, keyIdx) == set x | x in top by {
      forall k | k in top ensures k in KeySet(rows, keyIdx) {
        var r :| r in df.rows && KeyOf(r, keyIdx) == k;
        assert r in rows;
      }
    }
    ElementsCardinality(top);
  }
}
