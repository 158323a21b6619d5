/** Multi-key row sorting, the model of `DataFrame.sort_values` and of the key
    order `groupby(sort=True)` produces. pandas sorts a single key with an
    unstable quicksort; the model fixes one algorithm, a stable insertion sort,
    and proves of it what every correct sort satisfies (a permutation, ordered
    by the keys) plus stability. */
module Sorting {
  import opened Values
  import opened Tables

  /** One sort key: the position of the column and its direction. */
  datatype SortKey = SortKey(index: nat, ascending: bool)

  /** `a` may stand before `b` in a table sorted by `keys`: the first key on
      which the two rows differ decides, in that key's direction. */
  predicate RowLe(a: Row, b: Row, keys: seq<SortKey>)
    decreases |keys|
  {
    if keys == [] then true
    else
      var x := Cell(a, keys[0].index);
      var y := Cell(b, keys[0].index);
      if x == y then RowLe(a, b, keys[1..]) else Precedes(x, y, keys[0].ascending)
  }

  lemma {:induction false} RowLeTotal(a: Row, b: Row, keys: seq<SortKey>)
    ensures RowLe(a, b, keys) || RowLe(b, a, keys)
    decreases |keys|
  {
    if keys != [] {
      var x, y := Cell(a, keys[0].index), Cell(b, keys[0].index);
      if x == y { RowLeTotal(a, b, keys[1..]); } else { PrecedesTotal(x, y, keys[0].ascending); }
    }
  }

  lemma {:induction false} RowLeTransitive(a: Row, b: Row, c: Row, keys: seq<SortKey>)
    requires RowLe(a, b, keys) && RowLe(b, c, keys)
    ensures RowLe(a, c, keys)
    decreases |keys|
  {
    if keys != [] {
      var asc := keys[0].ascending;
      var x, y, z := Cell(a, keys[0].index), Cell(b, keys[0].index), Cell(c, keys[0].index);
      if x == y && y == z {
        RowLeTransitive(a, b, c, keys[1..]);
      } else if x != y && y != z {
        PrecedesTransitive(x, y, z, asc);
        if x == z { PrecedesAntisymmetric(x, y, asc); }
      }
    }
  }

  /** Under a single key, rows in order have their cells in that key's order. */
  lemma SingleKeyOrder(a: Row, b: Row, key: SortKey)
    requires RowLe(a, b, [key])
    ensures Precedes(Cell(a, key.index), Cell(b, key.index), key.ascending)
  {
    var x := Cell(a, key.index);
    PrecedesTotal(x, x, key.ascending);
  }

  /** A table sorted by a single key has that key's column in order. */
  lemma SortedColumnOrder(s: seq<Row>, key: SortKey)
    requires SortedBy(s, [key])
    ensures forall i, j :: 0 <= i < j < |s| ==> Precedes(Cell(s[i], key.index), Cell(s[j], key.index), key.ascending)
  {
    forall i, j | 0 <= i < j < |s| ensures Precedes(Cell(s[i], key.index), Cell(s[j], key.index), key.ascending) {
      SingleKeyOrder(s[i], s[j], key);
    }
  }

  /** Every row may stand before every later row. */
  predicate SortedBy(s: seq<Row>, keys: seq<SortKey>)
  {
    forall i, j :: 0 <= i < j < |s| ==> RowLe(s[i], s[j], keys)
  }

  /** Places `x` before the first row it may stand before: after every row
      that must precede it and in front of every row equal to it on the keys. */
  function Insert(x: Row, s: seq<Row>, keys: seq<SortKey>): (r: seq<Row>)
    ensures multiset(r) == multiset(s) + multiset{x}
  {
    if s == [] then [x]
    else if RowLe(x, s[0], keys) then [x] + s
    else
      var rest := Insert(x, s[1..], keys);
      assert s == [s[0]] + s[1..];
      [s[0]] + rest
  }

  lemma {:induction false} InsertSorted(x: Row, s: seq<Row>, keys: seq<SortKey>)
    requires SortedBy(s, keys)
    ensures SortedBy(Insert(x, s, keys), keys)
    ensures |Insert(x, s, keys)| == |s| + 1
  {
    if s != [] {
      if RowLe(x, s[0], keys) {
        PrependSorted(x, s, keys);
      } else {
        RowLeTotal(x, s[0], keys);
        SortedTail(s, keys);
        InsertSorted(x, s[1..], keys);
        InsertBehindSorted(x, s, Insert(x, s[1..], keys), keys);
      }
    }
  }

  lemma SortedTail(s: seq<Row>, keys: seq<SortKey>)
    requires s != [] && SortedBy(s, keys)
    ensures SortedBy(s[1..], keys)
  {
    forall i, j | 0 <= i < j < |s[1..]| ensures RowLe(s[1..][i], s[1..][j], keys) {
      assert s[1..][i] == s[i + 1] && s[1..][j] == s[j + 1];
    }
  }

  /** A row that may stand before the first row of a sorted table may lead it. */
  lemma PrependSorted(x: Row, s: seq<Row>, keys: seq<SortKey>)
    requires s != [] && SortedBy(s, keys) && RowLe(x, s[0], keys)
    ensures SortedBy([x] + s, keys)
  {
    var r := [x] + s;
    forall i, j | 0 <= i < j < |r| ensures RowLe(r[i], r[j], keys) {
      if i == 0 && j > 1 { RowLeTransitive(x, s[0], s[j - 1], keys); }
    }
  }

  /** The first row of a sorted table may lead the sorted insertion of `x`
      into the rest, when it may stand before `x`. */
  lemma InsertBehindSorted(x: Row, s: seq<Row>, rest: seq<Row>, keys: seq<SortKey>)
    requires s != [] && SortedBy(s, keys) && RowLe(s[0], x, keys)
    requires SortedBy(rest, keys) && multiset(rest) == multiset(s[1..]) + multiset{x}
    ensures SortedBy([s[0]] + rest, keys)
  {
    var r := [s[0]] + rest;
    forall i, j | 0 <= i < j < |r| ensures RowLe(r[i], r[j], keys) {
      if i == 0 {
        var y := rest[j - 1];
        assert y in multiset(rest);
        if y != x {
          assert y in multiset(s[1..]);
          var k :| 0 <= k < |s[1..]| && s[1..][k] == y;
          assert RowLe(s[0], s[k + 1], keys);
        }
      } else {
        assert r[i] == rest[i - 1] && r[j] == rest[j - 1];
      }
    }
  }

  /** The rows reordered by `keys`: a permutation of the input, sorted by the
      keys, with rows equal on the keys left in their input order. */
  function SortRows(s: seq<Row>, keys: seq<SortKey>): (r: seq<Row>)
    ensures multiset(r) == multiset(s)
    ensures |r| == |s|
    ensures SortedBy(r, keys)
  {
    if s == [] then []
    else
      var rest := SortRows(s[1..], keys);
      SortStep(s, rest, keys);
      Insert(s[0], rest, keys)
  }

  /** Inserting the first row into the sorted rest sorts the whole table. */
  lemma SortStep(s: seq<Row>, rest: seq<Row>, keys: seq<SortKey>)
    requires s != [] && SortedBy(rest, keys) && multiset(rest) == multiset(s[1..])
    ensures var r := Insert(s[0], rest, keys);
      multiset(r) == multiset(s) && |r| == |s| && SortedBy(r, keys)
  {
    InsertSorted(s[0], rest, keys);
    assert s == [s[0]] + s[1..];
  }

  /** Sorting a table that is already sorted by the same keys leaves every row
      where it was; in particular sorting twice is sorting once. */
  lemma {:induction false} SortSortedIsIdentity(s: seq<Row>, keys: seq<SortKey>)
    requires SortedBy(s, keys)
    ensures SortRows(s, keys) == s
  {
    if s != [] {
      SortedTail(s, keys);
      SortSortedIsIdentity(s[1..], keys);
      if |s| > 1 {
        assert RowLe(s[0], s[1], keys);
      }
      assert s == [s[0]] + s[1..];
    }
  }

  lemma SortTwiceIsSortOnce(s: seq<Row>, keys: seq<SortKey>)
    ensures SortRows(SortRows(s, keys), keys) == SortRows(s, keys)
  {
    SortSortedIsIdentity(SortRows(s, keys), keys);
  }

  /** Stability: the rows a predicate picks out, when they are all equal on
      the keys, come out of the sort in the order they went in. */
  lemma {:induction false} SortKeepsTies(s: seq<Row>, keys: seq<SortKey>, p: Row -> bool)
    requires forall a, b :: p(a) && p(b) ==> RowLe(a, b, keys)
    ensures Select(SortRows(s, keys), p) == Select(s, p)
  {
    if s != [] {
      SortKeepsTies(s[1..], keys, p);
      InsertKeepsTies(s[0], SortRows(s[1..], keys), keys, p);
    }
  }

  /** Inserting `x` puts it in front of every row equal to it on the keys. */
  lemma {:induction false} InsertKeepsTies(x: Row, s: seq<Row>, keys: seq<SortKey>, p: Row -> bool)
    requires forall a, b :: p(a) && p(b) ==> RowLe(a, b, keys)
    ensures Select(Insert(x, s, keys), p) == (if p(x) then [x] else []) + Select(s, p)
  {
    if s == [] {
    } else if RowLe(x, s[0], keys) {
      assert ([x] + s)[1..] == s;
    } else {
      var rest := Insert(x, s[1..], keys);
      InsertKeepsTies(x, s[1..], keys, p);
      assert !(p(x) && p(s[0]));
      var head, mid := if p(s[0]) then [s[0]] else [], if p(x) then [x] else [];
      assert Select([s[0]] + rest, p) == head + Select(rest, p) by {
        assert ([s[0]] + rest)[1..] == rest;
      }
      var tail := Select(s[1..], p);
      if p(s[0]) {
        assert mid == [] && mid + tail == tail && mid + (head + tail) == head + tail;
      } else {
        assert head == [] && head + (mid + tail) == mid + tail && head + tail == tail;
      }
    }
  }

  /** A permutation keeps the absence of duplicates. */
  lemma PermutationKeepsNoDuplicates(a: seq<Row>, b: seq<Row>)
    requires multiset(a) == multiset(b) && NoDuplicates(a)
    ensures NoDuplicates(b)
  {
    NoDuplicatesMultiplicity(a);
    NoDuplicatesMultiplicity(b);
  }
}
