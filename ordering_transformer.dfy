/** `OrderingTransformer`: sorts the rows in place by one column, with a
    null-aware comparator, ascending or descending. */
module OrderingTransformer {
  import opened Values
  import Strings
  import StableSort

  datatype Order = Asc | Desc

  datatype Transformer = Transformer(orderByColumn: string, orderDirection: Order)

  const MissingColumn := "OrderingTransformer requires 'orderByColumn' parameter."

  /** The constructor: the sort column is required and a missing direction
      means ascending. */
  function New(orderByColumn: Option<string>, orderDirection: Option<Order>): (r: Result<Transformer, string>)
    ensures r.Success? <==> orderByColumn.Some?
    ensures r.Success? ==> r.value.orderByColumn == orderByColumn.value
    ensures r.Success? ==> r.value.orderDirection == if orderDirection.Some? then orderDirection.value else Asc
    ensures r.Failure? ==> r.error == MissingColumn
  {
    var direction := if orderDirection.Some? then orderDirection.value else Asc;
    if orderByColumn.None? then Failure(MissingColumn)
    else Success(Transformer(orderByColumn.value, direction))
  }

  /** `Double.compare` on two numbers: its sign is the order of `x` and
      `y`. */
  function CompareNumbers(x: real, y: real): (r: int)
    ensures r < 0 <==> x < y
    ensures r == 0 <==> x == y
    ensures r > 0 <==> x > y
  {
    if x < y then -1 else if x > y then 1 else 0
  }

  /** The comparator lambda on two sort values. `direction` only decides
      where a single null goes: before the other value under ASC, after it
      under DESC (which the reversal then turns round). */
  function CompareCells(lib: Library, direction: Order, v1: Value, v2: Value): (r: int)
    ensures v1 == v2 ==> r == 0
    ensures v1 == Null && v2 != Null ==> if direction == Asc then r < 0 else r > 0
    ensures v1 != Null && v2 == Null ==> if direction == Asc then r > 0 else r < 0
  {
    if v1 == Null && v2 == Null then 0
    else if v1 == Null then (if direction == Asc then -1 else 1)
    else if v2 == Null then (if direction == Asc then 1 else -1)
    else if v1.Num? && v2.Num? then CompareNumbers(v1.number, v2.number)
    else Strings.CompareText(ToText(lib, v1), ToText(lib, v2))
  }

  /** The comparator handed to `rows.sort`: the lambda on the rows' sort
      values, `reversed()` under DESC. */
  function Compare(lib: Library, t: Transformer, r1: Row, r2: Row): (r: int)
    ensures Get(r1, t.orderByColumn) == Get(r2, t.orderByColumn) ==> r == 0
    ensures Get(r1, t.orderByColumn) == Null && Get(r2, t.orderByColumn) != Null ==> r < 0
  {
    var v1, v2 := Get(r1, t.orderByColumn), Get(r2, t.orderByColumn);
    if t.orderDirection == Asc then CompareCells(lib, Asc, v1, v2)
    else CompareCells(lib, Desc, v2, v1)
  }

  /** The comparator as a function value; every row ties with itself. */
  function Comparator(lib: Library, t: Transformer): (cmp: (Row, Row) -> int)
    ensures forall r: Row :: cmp(r, r) == 0
  {
    (r1: Row, r2: Row) => Compare(lib, t, r1, r2)
  }

  /** The rows after the transform: untouched when there are none or when
      the first row lacks the sort column, else stably sorted. */
  function Ordered(lib: Library, t: Transformer, rows: seq<Row>): (r: seq<Row>)
    ensures multiset(r) == multiset(rows) && |r| == |rows|
    ensures |rows| == 0 || t.orderByColumn !in rows[0] ==> r == rows
  {
    if |rows| == 0 || t.orderByColumn !in rows[0] then rows
    else
      StableSort.SortPermutes(Comparator(lib, t), rows);
      StableSort.Sort(Comparator(lib, t), rows)
  }

  /** `transform`: reorders the dataset in place. */
  method Transform(lib: Library, t: Transformer, ds: Dataset)
    modifies ds
    ensures ds.rows == Ordered(lib, t, old(ds.rows))
    ensures multiset(ds.rows) == multiset(old(ds.rows))
  {
    if |ds.rows| == 0 {
      return;
    }
    if t.orderByColumn !in ds.rows[0] {
      return;
    }
    StableSort.SortPermutes(Comparator(lib, t), ds.rows);
    ds.rows := StableSort.Sort(Comparator(lib, t), ds.rows);
  }

  /** Null sort values come first under both directions, and two nulls tie. */
  lemma NullsFirst(lib: Library, t: Transformer, r1: Row, r2: Row)
    ensures Get(r1, t.orderByColumn) == Null && Get(r2, t.orderByColumn) == Null ==> Compare(lib, t, r1, r2) == 0
    ensures Get(r1, t.orderByColumn) == Null && Get(r2, t.orderByColumn) != Null ==>
      Compare(lib, t, r1, r2) < 0 && Compare(lib, t, r2, r1) > 0
  {
  }

  /** On two non-null sort values DESC is ASC with the sign turned round. */
  lemma DescendingReversesAscending(lib: Library, column: string, r1: Row, r2: Row)
    requires Get(r1, column) != Null && Get(r2, column) != Null
    ensures Compare(lib, Transformer(column, Desc), r1, r2) == -Compare(lib, Transformer(column, Asc), r1, r2)
  {
    var v1, v2 := Get(r1, column), Get(r2, column);
    if !(v1.Num? && v2.Num?) {
      Strings.CompareTextAntisymmetric(ToText(lib, v1), ToText(lib, v2));
    }
  }

  /** Swapping two sort values flips the lambda's sign, in either direction. */
  lemma CellsFlip(lib: Library, direction: Order, a: Value, b: Value)
    ensures CompareCells(lib, direction, a, b) < 0 <==> CompareCells(lib, direction, b, a) > 0
  {
    if a != Null && b != Null && !(a.Num? && b.Num?) {
      Strings.CompareTextAntisymmetric(ToText(lib, a), ToText(lib, b));
    }
  }

  /** Sort values that are all numbers or all texts (nulls aside). */
  predicate SameKind(a: Value, b: Value, c: Value)
  {
    (!a.Str? && !b.Str? && !c.Str?) || (!a.Num? && !b.Num? && !c.Num?)
  }

  /** On values of one kind the lambda's "not after" is transitive. */
  lemma CellsChain(lib: Library, direction: Order, a: Value, b: Value, c: Value)
    requires SameKind(a, b, c)
    requires CompareCells(lib, direction, a, b) <= 0 && CompareCells(lib, direction, b, c) <= 0
    ensures CompareCells(lib, direction, a, c) <= 0
  {
    if a.Str? && b.Str? && c.Str? {
      Strings.CompareTextTransitive(a.text, b.text, c.text);
    }
  }

  /** The sort column holds only numbers or only texts, nulls aside. */
  predicate Homogeneous(column: string, rows: seq<Row>)
  {
    || (forall r | r in rows :: !Get(r, column).Str?)
    || (forall r | r in rows :: !Get(r, column).Num?)
  }

  function Elements(rows: seq<Row>): set<Row>
  {
    set r | r in rows
  }

  /** On a homogeneous column the comparator meets `Comparator`'s contract,
      so `List.sort` is bound to sort stably. */
  lemma {:induction false} HomogeneousIsTotalPreorder(lib: Library, t: Transformer, rows: seq<Row>)
    requires Homogeneous(t.orderByColumn, rows)
    ensures StableSort.TotalPreorder(Comparator(lib, t), Elements(rows))
  {
    var cmp, dom, col := Comparator(lib, t), Elements(rows), t.orderByColumn;
    forall a, b | a in dom && b in dom ensures StableSort.Flips(cmp, a, b) {
      if t.orderDirection == Asc {
        CellsFlip(lib, Asc, Get(a, col), Get(b, col));
      } else {
        CellsFlip(lib, Desc, Get(b, col), Get(a, col));
      }
    }
    forall a, b, c | a in dom && b in dom && c in dom ensures StableSort.Chains(cmp, a, b, c) {
      var va, vb, vc := Get(a, col), Get(b, col), Get(c, col);
      assert SameKind(va, vb, vc);
      if cmp(a, b) <= 0 && cmp(b, c) <= 0 {
        if t.orderDirection == Asc {
          CellsChain(lib, Asc, va, vb, vc);
        } else {
          CellsChain(lib, Desc, vc, vb, va);
        }
      }
    }
  }

  /** On a homogeneous column the transform leaves the rows in comparator
      order. */
  lemma OrderedIsSorted(lib: Library, t: Transformer, rows: seq<Row>)
    requires Homogeneous(t.orderByColumn, rows)
    requires |rows| > 0 && t.orderByColumn in rows[0]
    ensures forall i, j :: 0 <= i < j < |rows| ==>
      Compare(lib, t, Ordered(lib, t, rows)[i], Ordered(lib, t, rows)[j]) <= 0
  {
    HomogeneousIsTotalPreorder(lib, t, rows);
    StableSort.SortSorted(Comparator(lib, t), Elements(rows), rows);
    var r := Ordered(lib, t, rows);
    forall i, j | 0 <= i < j < |rows| ensures Compare(lib, t, r[i], r[j]) <= 0 {
      assert Comparator(lib, t)(r[i], r[j]) <= 0;
    }
  }

  /** On a homogeneous column the sort is stable: the rows that tie with
      any row `y` keep their relative order. */
  lemma OrderedIsStable(lib: Library, t: Transformer, rows: seq<Row>, y: Row)
    requires Homogeneous(t.orderByColumn, rows) && y in rows
    ensures StableSort.Equivalents(Comparator(lib, t), Ordered(lib, t, rows), y)
         == StableSort.Equivalents(Comparator(lib, t), rows, y)
  {
    if |rows| > 0 && t.orderByColumn in rows[0] {
      HomogeneousIsTotalPreorder(lib, t, rows);
      StableSort.SortStable(Comparator(lib, t), Elements(rows), rows, y);
    }
  }

  /** After sorting a homogeneous column, every row with a null sort value
      comes before every row with a non-null one, under ASC and DESC. */
  lemma NullsLead(lib: Library, t: Transformer, rows: seq<Row>, i: int, j: int)
    requires Homogeneous(t.orderByColumn, rows)
    requires |rows| > 0 && t.orderByColumn in rows[0]
    requires 0 <= i < |rows| && 0 <= j < |rows|
    requires Get(Ordered(lib, t, rows)[i], t.orderByColumn) == Null
    requires Get(Ordered(lib, t, rows)[j], t.orderByColumn) != Null
    ensures i < j
  {
    OrderedIsSorted(lib, t, rows);
    var r := Ordered(lib, t, rows);
    NullsFirst(lib, t, r[i], r[j]);
  }

  /** Sort values null, "3", "1": ascending gives null, "1", "3". */
  lemma AscendingExample(lib: Library, c: string, r1: Row, r2: Row, r3: Row)
    requires c in r1 && r1[c] == Null
    requires c in r2 && r2[c] == Str("3") && c in r3 && r3[c] == Str("1")
    ensures Ordered(lib, Transformer(c, Asc), [r1, r2, r3]) == [r1, r3, r2]
  {
    var t := Transformer(c, Asc);
    var cmp := Comparator(lib, t);
    assert cmp(r1, r2) < 0 && cmp(r1, r3) < 0 && cmp(r2, r3) > 0 by {
      assert Strings.CompareText("3", "1") > 0;
    }
    assert Ordered(lib, t, [r1, r2, r3]) == StableSort.Sort(cmp, [r1, r2, r3]);
    StableSort.SortThreeFirst(cmp, r1, r2, r3);
  }

  /** Sort values null, "3", "1": descending gives null, "3", "1", the
      null staying in front. */
  lemma DescendingExample(lib: Library, c: string, r1: Row, r2: Row, r3: Row)
    requires c in r1 && r1[c] == Null
    requires c in r2 && r2[c] == Str("3") && c in r3 && r3[c] == Str("1")
    ensures Ordered(lib, Transformer(c, Desc), [r1, r2, r3]) == [r1, r2, r3]
  {
    var t := Transformer(c, Desc);
    var cmp := Comparator(lib, t);
    assert cmp(r1, r2) < 0 && cmp(r1, r3) < 0 && cmp(r2, r3) < 0 by {
      assert Strings.CompareText("1", "3") < 0;
    }
    assert Ordered(lib, t, [r1, r2, r3]) == StableSort.Sort(cmp, [r1, r2, r3]);
    StableSort.SortThreeFirst(cmp, r1, r2, r3);
  }

  /** On a column that mixes numbers and texts the comparator is not
      transitive: with `Double.toString` giving "9.0" and "10.0", the
      values 9, 10 and "5" compare 9 < 10 < "5" < 9, so `List.sort` is
      owed no particular order there. */
  lemma MixedKindsCycle(lib: Library)
    requires lib.doubleText(9.0) == "9.0" && lib.doubleText(10.0) == "10.0"
    ensures var t := Transformer("v", Asc);
      var a, b, c := map["v" := Num(9.0)], map["v" := Num(10.0)], map["v" := Str("5")];
      Compare(lib, t, a, b) < 0 && Compare(lib, t, b, c) < 0 && Compare(lib, t, c, a) < 0
  {
    assert Strings.CompareText("10.0", "5") < 0;
    assert Strings.CompareText("5", "9.0") < 0;
  }
}
