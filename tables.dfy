/** Tables as pandas holds them: a header of column labels and positional rows.
    Also the sequence operations the query stages are built from (boolean-mask
    selection, first-occurrence de-duplication, Python slices, insertion-ordered
    dictionaries) with the facts proved about them. */
module Tables {
  import opened Wrappers
  import opened Values

  /** One row: the cell under each column, by position. */
  type Row = seq<Value>

  /** A DataFrame. Renaming a column changes `columns` only. */
  datatype Table = Table(columns: seq<string>, rows: seq<Row>)

  /** The cell at position `i`; a short row reads as missing there. */
  function Cell(r: Row, i: nat): Value
  {
    if i < |r| then r[i] else Null
  }

  /** The column at position `i`, top to bottom. */
  function ColumnValues(rows: seq<Row>, i: nat): (vs: seq<Value>)
    ensures |vs| == |rows|
  {
    seq(|rows|, k requires 0 <= k < |rows| => Cell(rows[k], i))
  }

  /** The projection of a row onto the columns at `idx`, in that order. */
  function KeyOf(r: Row, idx: seq<nat>): (k: Row)
    ensures |k| == |idx|
  {
    seq(|idx|, j requires 0 <= j < |idx| => Cell(r, idx[j]))
  }

  /** `df[cols]`: every row projected onto the columns at `idx`. */
  function KeyRows(rows: seq<Row>, idx: seq<nat>): (ks: seq<Row>)
    ensures |ks| == |rows|
  {
    seq(|rows|, i requires 0 <= i < |rows| => KeyOf(rows[i], idx))
  }

  lemma KeyRowsMembers(rows: seq<Row>, idx: seq<nat>)
    ensures forall k :: k in KeyRows(rows, idx) <==> exists r :: r in rows && KeyOf(r, idx) == k
  {
    forall k | k in KeyRows(rows, idx)
      ensures exists r :: r in rows && KeyOf(r, idx) == k
    {
      var i :| 0 <= i < |rows| && KeyRows(rows, idx)[i] == k;
      assert rows[i] in rows;
    }
    forall r | r in rows
      ensures KeyOf(r, idx) in KeyRows(rows, idx)
    {
      var i :| 0 <= i < |rows| && rows[i] == r;
      assert KeyRows(rows, idx)[i] == KeyOf(r, idx);
    }
  }

  /** No cell of the row is missing. */
  predicate NoNull(r: Row)
  {
    forall j :: 0 <= j < |r| ==> !r[j].Null?
  }

  /** Position of the first column labelled `c`. */
  function IndexOf(cols: seq<string>, c: string): (r: Option<nat>)
    ensures r.Some? <==> c in cols
    ensures r.Some? ==> r.value < |cols| && cols[r.value] == c && c !in cols[..r.value]
  {
    if cols == [] then None
    else if cols[0] == c then Some(0)
    else match IndexOf(cols[1..], c)
      case None => None
      case Some(i) =>
        assert cols[..i + 1] == [cols[0]] + cols[1..][..i];
        Some(i + 1)
  }

  // ---------------------------------------------------------------------
  // Boolean-mask selection `df[mask]`

  /** The elements of `s` on which `p` holds, in their original order. */
  function Select<T>(s: seq<T>, p: T -> bool): (r: seq<T>)
    ensures |r| <= |s|
  {
    if s == [] then [] else (if p(s[0]) then [s[0]] else []) + Select(s[1..], p)
  }

  /** `a` is `b` with some elements removed, order kept. */
  predicate IsSubsequence<T(==)>(a: seq<T>, b: seq<T>)
    decreases |b|
  {
    a == [] || (b != [] && ((a[0] == b[0] && IsSubsequence(a[1..], b[1..])) || IsSubsequence(a, b[1..])))
  }

  lemma {:induction false} SelectMembers<T>(s: seq<T>, p: T -> bool)
    ensures forall x :: x in Select(s, p) <==> x in s && p(x)
  {
    if s != [] {
      SelectMembers(s[1..], p);
      assert s == [s[0]] + s[1..];
    }
  }

  lemma {:induction false} SelectIsSubsequence<T>(s: seq<T>, p: T -> bool)
    ensures IsSubsequence(Select(s, p), s)
  {
    if s != [] {
      SelectIsSubsequence(s[1..], p);
      var a := Select(s, p);
      if p(s[0]) {
        assert a == [s[0]] + Select(s[1..], p);
        assert a[0] == s[0] && a[1..] == Select(s[1..], p);
      } else {
        assert a == Select(s[1..], p);
      }
    }
  }

  lemma {:induction false} SelectSelect<T>(s: seq<T>, p: T -> bool, q: T -> bool, pq: T -> bool)
    requires forall x :: pq(x) == (p(x) && q(x))
    ensures Select(Select(s, p), q) == Select(s, pq)
  {
    if s != [] {
      SelectSelect(s[1..], p, q, pq);
      if p(s[0]) {
        var sp := Select(s, p);
        assert sp == [s[0]] + Select(s[1..], p);
        assert sp[0] == s[0] && sp[1..] == Select(s[1..], p);
        assert Select(sp, q) == (if q(s[0]) then [s[0]] else []) + Select(Select(s[1..], p), q);
      } else {
        assert Select(s, p) == Select(s[1..], p);
      }
    }
  }

  lemma {:induction false} SelectSame<T>(s: seq<T>, p: T -> bool, q: T -> bool)
    requires forall x :: x in s ==> p(x) == q(x)
    ensures Select(s, p) == Select(s, q)
  {
    if s != [] {
      assert forall x :: x in s[1..] ==> x in s;
      SelectSame(s[1..], p, q);
    }
  }

  lemma {:induction false} SelectAll<T>(s: seq<T>, p: T -> bool)
    requires forall x :: x in s ==> p(x)
    ensures Select(s, p) == s
  {
    if s != [] {
      assert forall x :: x in s[1..] ==> x in s;
      SelectAll(s[1..], p);
      assert s == [s[0]] + s[1..];
    }
  }

  lemma {:induction false} SelectPartition<T>(s: seq<T>, p: T -> bool, q: T -> bool)
    requires forall x :: q(x) == !p(x)
    ensures multiset(Select(s, p)) + multiset(Select(s, q)) == multiset(s)
  {
    if s != [] {
      SelectPartition(s[1..], p, q);
      SelectHeadMultiset(s, p);
      SelectHeadMultiset(s, q);
      assert multiset(s) == multiset{s[0]} + multiset(s[1..]) by {
        assert s == [s[0]] + s[1..];
      }
      assert q(s[0]) == !p(s[0]);
    }
  }

  /** The multiset `Select` keeps: the head if it passes, plus the tail's. */
  lemma SelectHeadMultiset<T>(s: seq<T>, p: T -> bool)
    requires s != []
    ensures multiset(Select(s, p)) == (if p(s[0]) then multiset{s[0]} else multiset{}) + multiset(Select(s[1..], p))
  {
    assert Select(s, p) == (if p(s[0]) then [s[0]] else []) + Select(s[1..], p);
  }


  // ---------------------------------------------------------------------
  // De-duplication keeping first occurrences (`drop_duplicates`, `unique`)

  predicate NoDuplicates<T(==)>(s: seq<T>)
  {
    forall i, j :: 0 <= i < j < |s| ==> s[i] != s[j]
  }

  /** The distinct elements of `s` in order of first occurrence. */
  function Distinct<T(==,!new)>(s: seq<T>): (d: seq<T>)
    ensures NoDuplicates(d)
    ensures forall x :: x in d <==> x in s
    ensures |d| <= |s|
    ensures NoDuplicates(s) ==> d == s
  {
    if s == [] then []
    else
      var p := Distinct(s[..|s| - 1]);
      var x := s[|s| - 1];
      assert s == s[..|s| - 1] + [x];
      NoDuplicatesSnoc(s);
      if x in p then p else p + [x]
  }

  lemma {:induction false} ElementsCardinality<T>(s: seq<T>)
    ensures |set x | x in s| <= |s|
    ensures NoDuplicates(s) ==> |set x | x in s| == |s|
  {
    if s != [] {
      ElementsCardinality(s[1..]);
      assert s == [s[0]] + s[1..];
      assert (set x | x in s) == (set x | x in s[1..]) + {s[0]};
      if NoDuplicates(s) {
        assert NoDuplicates(s[1..]) by {
          forall i, j | 0 <= i < j < |s[1..]| ensures s[1..][i] != s[1..][j] {
            assert s[1..][i] == s[i + 1] && s[1..][j] == s[j + 1];
          }
        }
        assert s[0] !in s[1..] by {
          forall j | 0 <= j < |s[1..]| ensures s[1..][j] != s[0] {
            assert s[1..][j] == s[j + 1];
          }
        }
      }
    }
  }

  lemma NoDuplicatesCons<T>(s: seq<T>)
    requires s != []
    ensures NoDuplicates(s) <==> NoDuplicates(s[1..]) && s[0] !in s[1..]
  {
    if NoDuplicates(s[1..]) && s[0] !in s[1..] {
      forall i, j | 0 <= i < j < |s| ensures s[i] != s[j] {
        assert s[j] == s[1..][j - 1];
        if i > 0 { assert s[i] == s[1..][i - 1]; }
      }
    }
    if NoDuplicates(s) {
      forall i, j | 0 <= i < j < |s[1..]| ensures s[1..][i] != s[1..][j] {
        assert s[1..][i] == s[i + 1] && s[1..][j] == s[j + 1];
      }
      forall j | 0 <= j < |s[1..]| ensures s[1..][j] != s[0] {
        assert s[1..][j] == s[j + 1];
      }
    }
  }

  lemma NoDuplicatesSnoc<T>(s: seq<T>)
    requires s != []
    ensures NoDuplicates(s) ==> NoDuplicates(s[..|s| - 1]) && s[|s| - 1] !in s[..|s| - 1]
  {
  }

  /** No duplicates means every element occurs at most once. */
  lemma {:induction false} NoDuplicatesMultiplicity<T>(s: seq<T>)
    ensures NoDuplicates(s) <==> forall x :: multiset(s)[x] <= 1
  {
    if s != [] {
      NoDuplicatesMultiplicity(s[1..]);
      NoDuplicatesCons(s);
      assert s == [s[0]] + s[1..];
      assert multiset(s) == multiset{s[0]} + multiset(s[1..]);
      if forall x :: multiset(s)[x] <= 1 {
        forall x ensures multiset(s[1..])[x] <= 1 {
          assert multiset(s)[x] <= 1;
        }
        assert multiset(s)[s[0]] <= 1;
      }
    }
  }

  // ---------------------------------------------------------------------
  // Python slices, as `DataFrame.iloc` and `head` apply them

  function MinOf(a: int, b: int): int { if a <= b then a else b }

  function MaxOf(a: int, b: int): int { if a <= b then b else a }

  /** `s[o:]`: a negative `o` counts from the end. */
  function SliceFrom<T>(s: seq<T>, o: int): seq<T>
  {
    if o >= 0 then s[MinOf(o, |s|)..] else s[MaxOf(0, |s| + o)..]
  }

  /** `s[:l]`, also `head(l)`: a negative `l` drops that many from the end. */
  function SliceTo<T>(s: seq<T>, l: int): seq<T>
  {
    if l >= 0 then s[..MinOf(l, |s|)] else s[..MaxOf(0, |s| + l)]
  }

  /** `s[:l]` is a prefix of `s`: it holds only elements of `s`, keeps their
      distinctness, has `min(l, |s|)` elements for `l >= 0`, and is all of
      `s` when `l >= |s|`. */
  lemma SliceToPrefix<T>(s: seq<T>, l: int)
    ensures forall x :: x in SliceTo(s, l) ==> x in s
    ensures NoDuplicates(s) ==> NoDuplicates(SliceTo(s, l))
    ensures l >= 0 ==> |SliceTo(s, l)| == MinOf(l, |s|)
    ensures l >= |s| ==> SliceTo(s, l) == s
  {
    var n := if l >= 0 then MinOf(l, |s|) else MaxOf(0, |s| + l);
    assert SliceTo(s, l) == s[..n];
    if NoDuplicates(s) {
      forall i, j | 0 <= i < j < n ensures s[..n][i] != s[..n][j] {
        assert s[..n][i] == s[i] && s[..n][j] == s[j];
      }
    }
    if l >= |s| {
      assert s[..n] == s;
    }
  }

  // ---------------------------------------------------------------------
  // Python dictionaries: insertion-ordered, assignment to a present key keeps
  // its position

  function Keys<K, V>(d: seq<(K, V)>): (ks: seq<K>)
    ensures |ks| == |d|
  {
    seq(|d|, i requires 0 <= i < |d| => d[i].0)
  }

  function Entries<K, V>(d: seq<(K, V)>): (vs: seq<V>)
    ensures |vs| == |d|
  {
    seq(|d|, i requires 0 <= i < |d| => d[i].1)
  }

  /** `d[k] = v`. */
  function DictPut<K(==), V>(d: seq<(K, V)>, k: K, v: V): (r: seq<(K, V)>)
    ensures Keys(r) == if k in Keys(d) then Keys(d) else Keys(d) + [k]
    ensures (k, v) in r
  {
    if d == [] then [(k, v)]
    else if d[0].0 == k then
      assert Keys(d)[0] == k;
      assert Keys([(k, v)] + d[1..]) == Keys(d);
      [(k, v)] + d[1..]
    else
      var rest := DictPut(d[1..], k, v);
      assert Keys([d[0]] + rest) == [d[0].0] + Keys(rest);
      assert Keys(d) == [d[0].0] + Keys(d[1..]);
      [d[0]] + rest
  }
}
