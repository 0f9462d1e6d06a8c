/** The order SQLite's ORDER BY ... ASC uses on text columns: the BINARY
    collation compares the UTF-8 bytes with memcmp and puts a proper prefix
    first. UTF-8 byte order is code point order, so on `seq<char>` this is
    the lexicographic order on characters. NULL sorts before every text. */
module Ordering {
  import opened Results

  /** `a` sorts at or before `b` under the BINARY collation. */
  predicate TextLe(a: string, b: string)
    decreases |a|
  {
    |a| == 0 || (|b| > 0 && (a[0] < b[0] || (a[0] == b[0] && TextLe(a[1..], b[1..]))))
  }

  lemma {:induction false} TextLeReflexive(a: string)
    ensures TextLe(a, a)
    decreases |a|
  {
    if |a| > 0 {
      TextLeReflexive(a[1..]);
    }
  }

  lemma {:induction false} TextLeAntisymmetric(a: string, b: string)
    requires TextLe(a, b) && TextLe(b, a)
    ensures a == b
    decreases |a|
  {
    if |a| > 0 {
      TextLeAntisymmetric(a[1..], b[1..]);
      assert a == [a[0]] + a[1..];
      assert b == [b[0]] + b[1..];
    }
  }

  lemma {:induction false} TextLeTransitive(a: string, b: string, c: string)
    requires TextLe(a, b) && TextLe(b, c)
    ensures TextLe(a, c)
    decreases |a|
  {
    if |a| > 0 && a[0] == b[0] && b[0] == c[0] {
      TextLeTransitive(a[1..], b[1..], c[1..]);
    }
  }

  lemma {:induction false} TextLeTotal(a: string, b: string)
    ensures TextLe(a, b) || TextLe(b, a)
    decreases |a|
  {
    if |a| > 0 && |b| > 0 && a[0] == b[0] {
      TextLeTotal(a[1..], b[1..]);
    }
  }

  /** ORDER BY on a nullable text column, ascending: NULL first, then text order. */
  predicate NullableLe(a: Option<string>, b: Option<string>)
  {
    a.None? || (b.Some? && TextLe(a.value, b.value))
  }

  lemma NullableLeAntisymmetric(a: Option<string>, b: Option<string>)
    requires NullableLe(a, b) && NullableLe(b, a)
    ensures a == b
  {
    if a.Some? {
      TextLeAntisymmetric(a.value, b.value);
    }
  }

  lemma NullableLeTransitive(a: Option<string>, b: Option<string>, c: Option<string>)
    requires NullableLe(a, b) && NullableLe(b, c)
    ensures NullableLe(a, c)
  {
    if a.Some? {
      TextLeTransitive(a.value, b.value, c.value);
    }
  }

  lemma NullableLeTotal(a: Option<string>, b: Option<string>)
    ensures NullableLe(a, b) || NullableLe(b, a)
  {
    if a.Some? && b.Some? {
      TextLeTotal(a.value, b.value);
    }
  }
}
