/**
 * The order `sort_values` puts rows in
 * (subdaily_data_for_RCMs/cmip6-variable-search.py, line 87): column by
 * column, each column compared as Python compares strings (by code point),
 * with a missing value (NaN) after every string.
 */
module Ordering {

  /** Python's `a <= b` on strings: lexicographic by code point. */
  predicate StrLe(a: string, b: string)
  {
    |a| == 0 || (|b| > 0 && (a[0] < b[0] || (a[0] == b[0] && StrLe(a[1..], b[1..]))))
  }

  lemma {:induction false} StrLeTotal(a: string, b: string)
    ensures StrLe(a, b) || StrLe(b, a)
  {
    if |a| > 0 && |b| > 0 && a[0] == b[0] {
      StrLeTotal(a[1..], b[1..]);
    }
  }

  lemma {:induction false} StrLeAntisymmetric(a: string, b: string)
    requires StrLe(a, b) && StrLe(b, a)
    ensures a == b
  {
    if |a| > 0 && |b| > 0 {
      StrLeAntisymmetric(a[1..], b[1..]);
      assert a == [a[0]] + a[1..];
      assert b == [b[0]] + b[1..];
    }
  }

  lemma {:induction false} StrLeTransitive(a: string, b: string, c: string)
    requires StrLe(a, b) && StrLe(b, c)
    ensures StrLe(a, c)
  {
    if |a| > 0 && |b| > 0 && |c| > 0 && a[0] == b[0] == c[0] {
      StrLeTransitive(a[1..], b[1..], c[1..]);
    }
  }

  /** One column of a sort key: the row's text in that column, or NaN when it has none. */
  datatype Cell = Present(text: string) | NaN

  /** The column order of `sort_values` with `na_position='last'`. */
  predicate CellLe(x: Cell, y: Cell)
  {
    match (x, y)
    case (Present(a), Present(b)) => StrLe(a, b)
    case (Present(_), NaN) => true
    case (NaN, Present(_)) => false
    case (NaN, NaN) => true
  }

  predicate CellLt(x: Cell, y: Cell)
  {
    CellLe(x, y) && x != y
  }

  lemma CellLeTotal(x: Cell, y: Cell)
    ensures CellLe(x, y) || CellLe(y, x)
  {
    if x.Present? && y.Present? {
      StrLeTotal(x.text, y.text);
    }
  }

  lemma CellLeAntisymmetric(x: Cell, y: Cell)
    requires CellLe(x, y) && CellLe(y, x)
    ensures x == y
  {
    if x.Present? && y.Present? {
      StrLeAntisymmetric(x.text, y.text);
    }
  }

  lemma CellLeTransitive(x: Cell, y: Cell, z: Cell)
    requires CellLe(x, y) && CellLe(y, z)
    ensures CellLe(x, z)
  {
    if x.Present? && y.Present? && z.Present? {
      StrLeTransitive(x.text, y.text, z.text);
    }
  }

  /** Lexicographic order on sort keys: the first column that differs decides. */
  predicate KeyLe(a: seq<Cell>, b: seq<Cell>)
  {
    |a| == 0 || (|b| > 0 && (CellLt(a[0], b[0]) || (a[0] == b[0] && KeyLe(a[1..], b[1..]))))
  }

  /** Any two sort keys are comparable. */
  lemma {:induction false} KeyLeTotal(a: seq<Cell>, b: seq<Cell>)
    ensures KeyLe(a, b) || KeyLe(b, a)
  {
    if |a| > 0 && |b| > 0 {
      if a[0] == b[0] {
        KeyLeTotal(a[1..], b[1..]);
      } else {
        CellLeTotal(a[0], b[0]);
      }
    }
  }

  /** Two sort keys each at most the other are equal: sorting leaves only equal keys in either order. */
  lemma {:induction false} KeyLeAntisymmetric(a: seq<Cell>, b: seq<Cell>)
    requires KeyLe(a, b) && KeyLe(b, a)
    ensures a == b
  {
    if |a| > 0 && |b| > 0 {
      if a[0] == b[0] {
        KeyLeAntisymmetric(a[1..], b[1..]);
        assert a == [a[0]] + a[1..];
        assert b == [b[0]] + b[1..];
      } else {
        CellLeAntisymmetric(a[0], b[0]);
      }
    }
  }

  /** The key order is transitive, so sorting by it is well defined. */
  lemma {:induction false} KeyLeTransitive(a: seq<Cell>, b: seq<Cell>, c: seq<Cell>)
    requires KeyLe(a, b) && KeyLe(b, c)
    ensures KeyLe(a, c)
  {
    if |a| > 0 {
      if a[0] == b[0] && b[0] == c[0] {
        KeyLeTransitive(a[1..], b[1..], c[1..]);
      } else if CellLt(a[0], b[0]) && CellLt(b[0], c[0]) {
        CellLeTransitive(a[0], b[0], c[0]);
        if a[0] == c[0] {
          CellLeAntisymmetric(a[0], b[0]);
        }
      }
    }
  }
}
