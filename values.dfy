/** Cell values of the in-memory sales table and the two orders pandas uses on
    them: the one a filter comparison applies, and the one a sort applies. */
module Values {

  /** One cell. `Null` is pandas' missing value (NaN or None); `Int` stands for
      every numeric column; `Str` for text and ISO dates. */
  datatype Value = Null | Int(i: int) | Str(s: string)

  /** Python's `<=` on strings: lexicographic by code point. */
  predicate StrLe(a: string, b: string)
  {
    if a == [] then true
    else if b == [] then false
    else if a[0] != b[0] then a[0] < b[0]
    else StrLe(a[1..], b[1..])
  }

  lemma {:induction false} StrLeTotal(a: string, b: string)
    ensures StrLe(a, b) || StrLe(b, a)
  {
    if a != [] && b != [] && a[0] == b[0] {
      StrLeTotal(a[1..], b[1..]);
    }
  }

  lemma {:induction false} StrLeAntisymmetric(a: string, b: string)
    requires StrLe(a, b) && StrLe(b, a)
    ensures a == b
  {
    if a != [] && b != [] {
      StrLeAntisymmetric(a[1..], b[1..]);
      assert a == [a[0]] + a[1..] && b == [b[0]] + b[1..];
    }
  }

  lemma {:induction false} StrLeTransitive(a: string, b: string, c: string)
    requires StrLe(a, b) && StrLe(b, c)
    ensures StrLe(a, c)
  {
    if a != [] && b != [] && c != [] && a[0] == b[0] && b[0] == c[0] {
      StrLeTransitive(a[1..], b[1..], c[1..]);
    }
  }

  /** A total order on all values: missing first, then integers, then strings.
      Only its restriction to non-missing values of one kind is Python's. */
  predicate ValLe(a: Value, b: Value)
  {
    match a
    case Null => true
    case Int(x) => (b.Int? && x <= b.i) || b.Str?
    case Str(x) => b.Str? && StrLe(x, b.s)
  }

  lemma ValLeTotal(a: Value, b: Value)
    ensures ValLe(a, b) || ValLe(b, a)
  {
    if a.Str? && b.Str? { StrLeTotal(a.s, b.s); }
  }

  lemma ValLeAntisymmetric(a: Value, b: Value)
    requires ValLe(a, b) && ValLe(b, a)
    ensures a == b
  {
    if a.Str? && b.Str? { StrLeAntisymmetric(a.s, b.s); }
  }

  lemma ValLeTransitive(a: Value, b: Value, c: Value)
    requires ValLe(a, b) && ValLe(b, c)
    ensures ValLe(a, c)
  {
    if a.Str? && b.Str? && c.Str? { StrLeTransitive(a.s, b.s, c.s); }
  }

  /** Two cells a filter can compare with `<`, `>`, `<=`, `>=`: both integers
      or both strings. */
  predicate Comparable(a: Value, b: Value)
  {
    (a.Int? && b.Int?) || (a.Str? && b.Str?)
  }

  /** The comparison a filter applies: false on a missing cell or on values of
      different kinds. */
  predicate CmpLe(a: Value, b: Value)
  {
    Comparable(a, b) && ValLe(a, b)
  }

  predicate CmpLt(a: Value, b: Value)
  {
    CmpLe(a, b) && a != b
  }

  /** The position order of a sort in one direction: missing values go last
      whatever the direction, as pandas' `na_position='last'` places them. */
  predicate Precedes(a: Value, b: Value, ascending: bool)
  {
    if a.Null? then b.Null?
    else if b.Null? then true
    else if ascending then ValLe(a, b)
    else ValLe(b, a)
  }

  lemma PrecedesTotal(a: Value, b: Value, ascending: bool)
    ensures Precedes(a, b, ascending) || Precedes(b, a, ascending)
  {
    ValLeTotal(a, b);
  }

  lemma PrecedesAntisymmetric(a: Value, b: Value, ascending: bool)
    requires Precedes(a, b, ascending) && Precedes(b, a, ascending)
    ensures a == b
  {
    if !a.Null? && !b.Null? { ValLeAntisymmetric(a, b); }
  }

  lemma PrecedesTransitive(a: Value, b: Value, c: Value, ascending: bool)
    requires Precedes(a, b, ascending) && Precedes(b, c, ascending)
    ensures Precedes(a, c, ascending)
  {
    if !a.Null? && !b.Null? && !c.Null? {
      if ascending { ValLeTransitive(a, b, c); } else { ValLeTransitive(c, b, a); }
    }
  }
}
