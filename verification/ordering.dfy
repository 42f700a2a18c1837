/** ORDER BY: how the server compares values and rows, and the order in which a
    sorted SELECT hands its rows back. */
module Ordering {
  import opened Values
  import opened Sql

  /** Values of different kinds are ordered by kind; NULL sorts after everything, so it
      comes last under ASC and first under DESC, as PostgreSQL does by default. */
  function Rank(v: Value): nat
  {
    match v
    case Int(_) => 0
    case Bool(_) => 1
    case Text(_) => 2
    case Date(_) => 3
    case Time(_) => 4
    case Stamp(_) => 5
    case Null => 6
  }

  function Sign(a: int, b: int): int
  {
    if a < b then -1 else if a > b then 1 else 0
  }

  function BoolRank(b: bool): int
  {
    if b then 1 else 0
  }

  /** Text comparison by code point (the "C" collation). */
  function CompareText(a: string, b: string): int
  {
    if a == [] then (if b == [] then 0 else -1)
    else if b == [] then 1
    else if a[0] < b[0] then -1
    else if a[0] > b[0] then 1
    else CompareText(a[1..], b[1..])
  }

  function Compare(a: Value, b: Value): int
  {
    if Rank(a) != Rank(b) then Sign(Rank(a), Rank(b))
    else match (a, b)
      case (Int(x), Int(y)) => Sign(x, y)
      case (Bool(x), Bool(y)) => Sign(BoolRank(x), BoolRank(y))
      case (Text(x), Text(y)) => CompareText(x, y)
      case (Date(x), Date(y)) => Sign(x, y)
      case (Time(x), Time(y)) => Sign(x, y)
      case (Stamp(x), Stamp(y)) => Sign(x, y)
      case _ => 0
  }

  lemma {:induction false} CompareTextLaws(a: string, b: string)
    ensures CompareText(a, b) == -CompareText(b, a)
    ensures CompareText(a, b) == 0 <==> a == b
  {
    if a != [] && b != [] && a[0] == b[0] {
      CompareTextLaws(a[1..], b[1..]);
      if a[1..] == b[1..] {
        assert a == [a[0]] + a[1..] && b == [b[0]] + b[1..];
      }
    }
  }

  lemma {:induction false} CompareTextTransitive(a: string, b: string, c: string)
    requires CompareText(a, b) < 0 && CompareText(b, c) < 0
    ensures CompareText(a, c) < 0
  {
    if a != [] && b != [] && c != [] && a[0] == b[0] && b[0] == c[0] {
      CompareTextTransitive(a[1..], b[1..], c[1..]);
    }
  }

  /** Compare is a total order: antisymmetric, zero exactly on equal values, transitive. */
  lemma CompareLaws(a: Value, b: Value)
    ensures Compare(a, b) == -Compare(b, a)
    ensures Compare(a, b) == 0 <==> a == b
  {
    if a.Text? && b.Text? {
      CompareTextLaws(a.s, b.s);
    }
  }

  lemma CompareTransitive(a: Value, b: Value, c: Value)
    requires Compare(a, b) < 0 && Compare(b, c) < 0
    ensures Compare(a, c) < 0
  {
    if a.Text? && b.Text? && c.Text? {
      CompareTextTransitive(a.s, b.s, c.s);
    }
  }

  function KeyCompare(a: Record, b: Record, k: SortKey): int
  {
    match k
    case Asc(c) => Compare(Field(a, c), Field(b, c))
    case Desc(c) => Compare(Field(b, c), Field(a, c))
  }

  /** ORDER BY k1, k2, ...: the first key that tells the rows apart decides. */
  function RowCompare(a: Record, b: Record, keys: seq<SortKey>): int
  {
    if keys == [] then 0
    else
      var c := KeyCompare(a, b, keys[0]);
      if c != 0 then c else RowCompare(a, b, keys[1..])
  }

  lemma KeyCompareLaws(a: Record, b: Record, k: SortKey)
    ensures KeyCompare(a, b, k) == -KeyCompare(b, a, k)
    ensures KeyCompare(a, b, k) == 0 <==> Field(a, k.column) == Field(b, k.column)
  {
    CompareLaws(Field(a, k.column), Field(b, k.column));
  }

  lemma {:induction false} RowCompareAntisymmetric(a: Record, b: Record, keys: seq<SortKey>)
    ensures RowCompare(a, b, keys) == -RowCompare(b, a, keys)
  {
    if keys != [] {
      KeyCompareLaws(a, b, keys[0]);
      RowCompareAntisymmetric(a, b, keys[1..]);
    }
  }

  lemma {:induction false} RowCompareTransitive(a: Record, b: Record, c: Record, keys: seq<SortKey>)
    requires RowCompare(a, b, keys) <= 0 && RowCompare(b, c, keys) <= 0
    ensures RowCompare(a, c, keys) <= 0
  {
    if keys != [] {
      var k := keys[0];
      KeyCompareLaws(a, b, k);
      KeyCompareLaws(b, c, k);
      KeyCompareLaws(a, c, k);
      var x, y := KeyCompare(a, b, k), KeyCompare(b, c, k);
      if x == 0 && y == 0 {
        RowCompareTransitive(a, b, c, keys[1..]);
      } else if x < 0 && y < 0 {
        match k
        case Asc(col) => CompareTransitive(Field(a, col), Field(b, col), Field(c, col));
        case Desc(col) => CompareTransitive(Field(c, col), Field(b, col), Field(a, col));
      }
    }
  }

  /** Every row is at or before every later row. */
  predicate SortedBy(rows: seq<Record>, keys: seq<SortKey>)
  {
    forall i, j :: 0 <= i < j < |rows| ==> RowCompare(rows[i], rows[j], keys) <= 0
  }

  /** Places `x` before the first row it does not sort after, so that rows that compare
      equal keep their relative order. */
  function InsertRow(x: Record, rows: seq<Record>, keys: seq<SortKey>): seq<Record>
  {
    if rows == [] then [x]
    else if RowCompare(x, rows[0], keys) <= 0 then [x] + rows
    else [rows[0]] + InsertRow(x, rows[1..], keys)
  }

  /** A stable sort of `rows` by `keys`. */
  function SortRows(rows: seq<Record>, keys: seq<SortKey>): seq<Record>
  {
    if rows == [] then [] else InsertRow(rows[0], SortRows(rows[1..], keys), keys)
  }

  lemma {:induction false} InsertRowPermutation(x: Record, rows: seq<Record>, keys: seq<SortKey>)
    ensures multiset(InsertRow(x, rows, keys)) == multiset(rows) + multiset{x}
  {
    if rows != [] && RowCompare(x, rows[0], keys) > 0 {
      InsertRowPermutation(x, rows[1..], keys);
      assert rows == [rows[0]] + rows[1..];
    }
  }

  lemma {:induction false} InsertRowSorted(x: Record, rows: seq<Record>, keys: seq<SortKey>)
    requires SortedBy(rows, keys)
    ensures SortedBy(InsertRow(x, rows, keys), keys)
  {
    if rows == [] {
    } else if RowCompare(x, rows[0], keys) <= 0 {
      forall j | 0 <= j < |rows| ensures RowCompare(x, rows[j], keys) <= 0 {
        if j > 0 {
          RowCompareTransitive(x, rows[0], rows[j], keys);
        }
      }
      SortedCons(x, rows, keys);
    } else {
      RowCompareAntisymmetric(x, rows[0], keys);
      var tail := InsertRow(x, rows[1..], keys);
      InsertRowSorted(x, rows[1..], keys);
      InsertRowPermutation(x, rows[1..], keys);
      forall j | 0 <= j < |tail| ensures RowCompare(rows[0], tail[j], keys) <= 0 {
        var y := tail[j];
        assert y in multiset(tail);
        assert y in multiset(rows[1..]) || y == x;
        if y != x {
          var m :| 0 <= m < |rows[1..]| && rows[1..][m] == y;
          assert rows[m + 1] == y;
        }
      }
      SortedCons(rows[0], tail, keys);
    }
  }

  /** A row that sorts before every row of a sorted sequence can be put in front of it. */
  lemma SortedCons(x: Record, rows: seq<Record>, keys: seq<SortKey>)
    requires SortedBy(rows, keys)
    requires forall j :: 0 <= j < |rows| ==> RowCompare(x, rows[j], keys) <= 0
    ensures SortedBy([x] + rows, keys)
  {
    var r := [x] + rows;
    forall i, j | 0 <= i < j < |r| ensures RowCompare(r[i], r[j], keys) <= 0 {
      assert r[j] == rows[j - 1];
      if i > 0 {
        assert r[i] == rows[i - 1];
      }
    }
  }

  /** The sorted result is ordered by the keys and is a rearrangement of the input. */
  lemma {:induction false} SortRowsCorrect(rows: seq<Record>, keys: seq<SortKey>)
    ensures SortedBy(SortRows(rows, keys), keys)
    ensures multiset(SortRows(rows, keys)) == multiset(rows)
  {
    if rows != [] {
      SortRowsCorrect(rows[1..], keys);
      InsertRowSorted(rows[0], SortRows(rows[1..], keys), keys);
      InsertRowPermutation(rows[0], SortRows(rows[1..], keys), keys);
      assert rows == [rows[0]] + rows[1..];
    }
  }
}
