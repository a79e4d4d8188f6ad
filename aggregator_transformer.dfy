/** `AggregatorTransformer`: groups the rows by one column, dropping rows
    whose group value is null, computes SUM/AVG/MIN/MAX/COUNT per group, and
    replaces the dataset's rows with one row per group. */
module AggregatorTransformer {
  import opened Values
  import Strings
  import MathOperationTransformer

  datatype Method = Sum | Avg | Min | Max | Count

  /** One aggregation: the column it reads, how, and the column it writes. */
  datatype AggregateBy = AggregateBy(input: string, operation: Method, output: string)

  datatype Transformer = Transformer(groupByColumn: string, aggregateColumns: seq<AggregateBy>)

  const NullGroupBy := "Group By column cannot be null"
  const NullDefinitions := "Aggregate By list cannot be null"
  const NoDefinitions := "At least one AggregateBy definition is required."

  /** The constructor: null checks in argument order, then a non-empty
      definition list. */
  function New(groupByColumn: Option<string>, aggregateColumns: Option<seq<AggregateBy>>): (r: Result<Transformer, string>)
    ensures r.Success? <==> groupByColumn.Some? && aggregateColumns.Some? && |aggregateColumns.value| > 0
    ensures r.Success? ==> r.value == Transformer(groupByColumn.value, aggregateColumns.value)
    ensures groupByColumn.None? ==> r == Failure(NullGroupBy)
    ensures groupByColumn.Some? && aggregateColumns.None? ==> r == Failure(NullDefinitions)
    ensures groupByColumn.Some? && aggregateColumns.Some? && |aggregateColumns.value| == 0 ==> r == Failure(NoDefinitions)
  {
    if groupByColumn.None? then Failure(NullGroupBy)
    else if aggregateColumns.None? then Failure(NullDefinitions)
    else if |aggregateColumns.value| == 0 then Failure(NoDefinitions)
    else Success(Transformer(groupByColumn.value, aggregateColumns.value))
  }

  /** `tryParseDouble`: a number is itself; text is trimmed, its commas
      become points, and it is parsed unless empty; `None` for null, empty
      and unparsable values. */
  function TryParseDouble(lib: Library, v: Value): (r: Option<real>)
    ensures v == Null ==> r == None
    ensures v.Num? ==> r == Some(v.number)
    ensures v.Str? && Strings.Trim(v.text) == "" ==> r == None
    ensures v.Str? && Strings.Trim(v.text) != "" ==> r == lib.parseDouble(Strings.Normalize(v.text))
  {
    match v
    case Null => None
    case Num(x) => Some(x)
    case Str(s) =>
      var text := Strings.Normalize(s);
      if text == "" then None else lib.parseDouble(text)
  }

  /** The positions, in increasing order, of exactly the rows of a group
      whose column coerces to a number. */
  function CoercibleIndices(lib: Library, group: seq<Row>, column: string): (idx: seq<int>)
    ensures forall k | 0 <= k < |idx| :: 0 <= idx[k] < |group| && TryParseDouble(lib, Get(group[idx[k]], column)).Some?
    ensures forall a, b | 0 <= a < b < |idx| :: idx[a] < idx[b]
    ensures forall i | 0 <= i < |group| && TryParseDouble(lib, Get(group[i], column)).Some? :: i in idx
  {
    if group == [] then []
    else
      var n := |group| - 1;
      var prefix := CoercibleIndices(lib, group[..n], column);
      if TryParseDouble(lib, Get(group[n], column)).Some? then prefix + [n] else prefix
  }

  /** The values of a group's column that take part in SUM/AVG/MIN/MAX:
      the non-null ones that coerce, in row order, one per such row. */
  function Coerced(lib: Library, group: seq<Row>, column: string): (xs: seq<real>)
    ensures |xs| <= |group|
    ensures forall x | x in xs :: exists row | row in group :: TryParseDouble(lib, Get(row, column)) == Some(x)
    ensures forall row | row in group && TryParseDouble(lib, Get(row, column)).Some? ::
      TryParseDouble(lib, Get(row, column)).value in xs
  {
    if group == [] then []
    else
      var n := |group| - 1;
      var prefix := Coerced(lib, group[..n], column);
      assert forall row | row in group :: row in group[..n] || row == group[n];
      match TryParseDouble(lib, Get(group[n], column))
      case Some(x) => prefix + [x]
      case None => prefix
  }

  /** The coerced values are those of the coercible rows, position by
      position: one value per row, duplicates kept, in row order. */
  lemma {:induction false} CoercedByPosition(lib: Library, group: seq<Row>, column: string)
    ensures var xs, idx := Coerced(lib, group, column), CoercibleIndices(lib, group, column);
      && |xs| == |idx|
      && forall k | 0 <= k < |xs| :: Some(xs[k]) == TryParseDouble(lib, Get(group[idx[k]], column))
  {
    if group != [] {
      var n := |group| - 1;
      var prefix := group[..n];
      CoercedByPosition(lib, prefix, column);
      CoercedSnoc(lib, group, column);
      var xs, idx := Coerced(lib, prefix, column), CoercibleIndices(lib, prefix, column);
      forall k | 0 <= k < |idx|
        ensures TryParseDouble(lib, Get(group[idx[k]], column)) == TryParseDouble(lib, Get(prefix[idx[k]], column))
      {
        assert prefix[idx[k]] == group[idx[k]];
      }
    }
  }

  /** Both lists grow by the last row when, and only when, it coerces. */
  lemma CoercedSnoc(lib: Library, group: seq<Row>, column: string)
    requires group != []
    ensures var n := |group| - 1;
      var parsed := TryParseDouble(lib, Get(group[n], column));
      && Coerced(lib, group, column) == Coerced(lib, group[..n], column) + (if parsed.Some? then [parsed.value] else [])
      && CoercibleIndices(lib, group, column) == CoercibleIndices(lib, group[..n], column) + (if parsed.Some? then [n] else [])
  {
  }

  /** The number of rows of a group whose column holds a non-null value. */
  function NonNullCount(group: seq<Row>, column: string): (n: nat)
    ensures n <= |group|
    ensures n == 0 <==> forall row | row in group :: Get(row, column) == Null
  {
    if group == [] then 0
    else
      var n := |group| - 1;
      assert forall row | row in group :: row in group[..n] || row == group[n];
      NonNullCount(group[..n], column) + if Get(group[n], column) != Null then 1 else 0
  }

  /** `DoubleStream.sum`, over the reals. */
  function SumOf(xs: seq<real>): real
  {
    if xs == [] then 0.0 else xs[0] + SumOf(xs[1..])
  }

  /** The smallest element: one of them, and no larger than any. */
  function MinOf(xs: seq<real>): (m: real)
    requires xs != []
    ensures m in xs && forall x | x in xs :: m <= x
  {
    if |xs| == 1 then xs[0]
    else
      var rest := MinOf(xs[1..]);
      assert forall x | x in xs :: x == xs[0] || x in xs[1..];
      if xs[0] <= rest then xs[0] else rest
  }

  /** The largest element: one of them, and no smaller than any. */
  function MaxOf(xs: seq<real>): (m: real)
    requires xs != []
    ensures m in xs && forall x | x in xs :: x <= m
  {
    if |xs| == 1 then xs[0]
    else
      var rest := MaxOf(xs[1..]);
      assert forall x | x in xs :: x == xs[0] || x in xs[1..];
      if xs[0] >= rest then xs[0] else rest
  }

  /** One definition's result for one group. With no coercible value every
      method but COUNT gives 0.0; COUNT counts the non-null raw values,
      coercible or not. */
  function AggregateValue(lib: Library, group: seq<Row>, def: AggregateBy): (v: real)
    ensures def.operation == Count ==> v == NonNullCount(group, def.input) as real
    ensures Coerced(lib, group, def.input) == [] && def.operation != Count ==> v == 0.0
  {
    var values := Coerced(lib, group, def.input);
    if values == [] && def.operation != Count then 0.0
    else match def.operation
      case Sum => SumOf(values)
      case Avg => SumOf(values) / (|values| as real)
      case Min => MinOf(values)
      case Max => MaxOf(values)
      case Count => NonNullCount(group, def.input) as real
  }

  /** The outputs of a list of definitions. */
  function Outputs(defs: seq<AggregateBy>): set<string>
  {
    set d | d in defs :: d.output
  }

  /** `calculateAggregates` as a value: one entry per output column, each
      written in definition order, so a later definition with the same
      output column overwrites an earlier one. */
  function Aggregates(lib: Library, group: seq<Row>, defs: seq<AggregateBy>): (r: map<string, Value>)
    ensures r.Keys == Outputs(defs)
    ensures forall k | k in r :: r[k].Num?
  {
    if defs == [] then map[]
    else
      var def := defs[|defs| - 1];
      assert forall d | d in defs :: d in defs[..|defs| - 1] || d == def;
      Aggregates(lib, group, defs[..|defs| - 1])[def.output := Num(AggregateValue(lib, group, def))]
  }

  /** `calculateAggregates`: fills a result map definition by definition. */
  method CalculateAggregates(lib: Library, group: seq<Row>, defs: seq<AggregateBy>) returns (results: map<string, Value>)
    ensures results == Aggregates(lib, group, defs)
  {
    results := map[];
    var i := 0;
    while i < |defs|
      invariant 0 <= i <= |defs|
      invariant results == Aggregates(lib, group, defs[..i])
    {
      var def := defs[i];
      assert defs[..i + 1][..i] == defs[..i];
      results := results[def.output := Num(AggregateValue(lib, group, def))];
      i := i + 1;
    }
    assert defs[..|defs|] == defs;
  }

  /** The distinct non-null group values, in order of first appearance. */
  function GroupKeys(rows: seq<Row>, key: string): (r: seq<Value>)
    ensures forall i, j :: 0 <= i < j < |r| ==> r[i] != r[j]
    ensures forall v :: v in r <==> v != Null && exists row | row in rows :: Get(row, key) == v
  {
    if rows == [] then []
    else
      var prefix := GroupKeys(rows[..|rows| - 1], key);
      var last := rows[|rows| - 1];
      var v := Get(last, key);
      assert forall row | row in rows :: row in rows[..|rows| - 1] || row == last;
      if v == Null || v in prefix then prefix else prefix + [v]
  }

  /** The rows of group `g`, in row order. */
  function Members(rows: seq<Row>, key: string, g: Value): (r: seq<Row>)
    ensures forall row | row in r :: Get(row, key) == g
    ensures r == [] <==> forall row | row in rows :: Get(row, key) != g
  {
    if rows == [] then []
    else
      var last := rows[|rows| - 1];
      assert forall row | row in rows :: row in rows[..|rows| - 1] || row == last;
      Members(rows[..|rows| - 1], key, g) + if Get(last, key) == g then [last] else []
  }

  /** The new row of group `g`: the group value under the group-by key,
      then every aggregate, which overwrites the group value if it is
      written to the group-by key. */
  function AggregatedRow(lib: Library, t: Transformer, rows: seq<Row>, g: Value): (r: Row)
    ensures r.Keys == {t.groupByColumn} + Outputs(t.aggregateColumns)
  {
    map[t.groupByColumn := g] + Aggregates(lib, Members(rows, t.groupByColumn, g), t.aggregateColumns)
  }

  /** The rows after the transform: untouched when there are none or when
      the first row lacks the group-by key, else one row per group. */
  function Aggregated(lib: Library, t: Transformer, rows: seq<Row>): (r: seq<Row>)
    ensures |rows| == 0 || t.groupByColumn !in rows[0] ==> r == rows
    ensures |rows| > 0 && t.groupByColumn in rows[0] ==>
      var keys := GroupKeys(rows, t.groupByColumn);
      |r| == |keys| && forall i | 0 <= i < |r| :: r[i] == AggregatedRow(lib, t, rows, keys[i])
  {
    if |rows| == 0 || t.groupByColumn !in rows[0] then rows
    else
      var keys := GroupKeys(rows, t.groupByColumn);
      seq(|keys|, i requires 0 <= i < |keys| => AggregatedRow(lib, t, rows, keys[i]))
  }

  /** `transform`: groups the rows by their non-null group value (the
      `groupingBy` collector), builds one new row per group, and replaces
      the dataset's rows with them. */
  method Transform(lib: Library, t: Transformer, ds: Dataset)
    modifies ds
    ensures ds.rows == Aggregated(lib, t, old(ds.rows))
  {
    if |ds.rows| == 0 {
      return;
    }
    var key := t.groupByColumn;
    if key !in ds.rows[0] {
      return;
    }
    var rows := ds.rows;
    var keys := GroupKeys(rows, key);
    var aggregatedRows: seq<Row> := [];
    var j := 0;
    while j < |keys|
      invariant 0 <= j <= |keys|
      invariant |aggregatedRows| == j
      invariant forall m :: 0 <= m < j ==> aggregatedRows[m] == AggregatedRow(lib, t, rows, keys[m])
    {
      var results := CalculateAggregates(lib, Members(rows, key, keys[j]), t.aggregateColumns);
      var newRow := map[key := keys[j]] + results;
      aggregatedRows := aggregatedRows + [newRow];
      j := j + 1;
    }
    assert aggregatedRows == Aggregated(lib, t, rows);
    ds.rows := aggregatedRows;
  }

  /** The aggregator's coercion is the math transformer's on every value
      except null and blank text, which it discards where the math
      transformer reads 0. */
  lemma CoercionAgreesWithMath(lib: Library, v: Value)
    ensures v == Null || (v.Str? && Strings.Trim(v.text) == "") ==>
      TryParseDouble(lib, v) == None && MathOperationTransformer.ParseDouble(lib, v) == Some(0.0)
    ensures !(v == Null || (v.Str? && Strings.Trim(v.text) == "")) ==>
      TryParseDouble(lib, v) == MathOperationTransformer.ParseDouble(lib, v)
  {
  }

  /** Every value that coerces is non-null, so the values that SUM, AVG,
      MIN and MAX use never outnumber what COUNT counts. */
  lemma {:induction false} CoercedNotMoreThanCount(lib: Library, group: seq<Row>, column: string)
    ensures |Coerced(lib, group, column)| <= NonNullCount(group, column)
  {
    if group != [] {
      CoercedNotMoreThanCount(lib, group[..|group| - 1], column);
    }
  }

  /** COUNT counts the non-null raw values, whether they coerce or not,
      and is zero only for a column that is null throughout the group. */
  lemma CountCountsNonNull(lib: Library, group: seq<Row>, def: AggregateBy)
    requires def.operation == Count
    ensures AggregateValue(lib, group, def) == NonNullCount(group, def.input) as real
    ensures AggregateValue(lib, group, def) >= |Coerced(lib, group, def.input)| as real
    ensures AggregateValue(lib, group, def) == 0.0 <==> forall row | row in group :: Get(row, def.input) == Null
  {
    CoercedNotMoreThanCount(lib, group, def.input);
  }

  /** With no coercible value every method but COUNT gives 0.0. */
  lemma NoValuesGiveZero(lib: Library, group: seq<Row>, def: AggregateBy)
    requires def.operation != Count
    requires forall row | row in group :: TryParseDouble(lib, Get(row, def.input)).None?
    ensures AggregateValue(lib, group, def) == 0.0
  {
    NothingCoerces(lib, group, def.input);
  }

  lemma {:induction false} NothingCoerces(lib: Library, group: seq<Row>, column: string)
    requires forall row | row in group :: TryParseDouble(lib, Get(row, column)).None?
    ensures Coerced(lib, group, column) == []
  {
    if group != [] {
      var n := |group| - 1;
      assert forall row | row in group[..n] :: row in group;
      NothingCoerces(lib, group[..n], column);
    }
  }

  lemma MeanAtLeast(xs: seq<real>, lo: real, s: real)
    requires xs != [] && |xs| as real * lo <= s
    ensures lo <= s / (|xs| as real)
  {
  }

  lemma MeanAtMost(xs: seq<real>, hi: real, s: real)
    requires xs != [] && s <= |xs| as real * hi
    ensures s / (|xs| as real) <= hi
  {
  }

  /** A sum of `n` values none below `lo` is at least `n * lo`. */
  lemma {:induction false} SumAtLeast(xs: seq<real>, lo: real)
    requires forall x | x in xs :: lo <= x
    ensures |xs| as real * lo <= SumOf(xs)
  {
    if xs != [] {
      assert forall x | x in xs[1..] :: x in xs;
      SumAtLeast(xs[1..], lo);
      assert xs[0] in xs;
    }
  }

  /** A sum of `n` values none above `hi` is at most `n * hi`. */
  lemma {:induction false} SumAtMost(xs: seq<real>, hi: real)
    requires forall x | x in xs :: x <= hi
    ensures SumOf(xs) <= |xs| as real * hi
  {
    if xs != [] {
      assert forall x | x in xs[1..] :: x in xs;
      SumAtMost(xs[1..], hi);
      assert xs[0] in xs;
    }
  }

  /** The mean lies between the minimum and the maximum. */
  lemma MeanBounds(xs: seq<real>)
    requires xs != []
    ensures MinOf(xs) <= SumOf(xs) / (|xs| as real) <= MaxOf(xs)
  {
    var lo, hi, s := MinOf(xs), MaxOf(xs), SumOf(xs);
    SumAtLeast(xs, lo);
    MeanAtLeast(xs, lo, s);
    SumAtMost(xs, hi);
    MeanAtMost(xs, hi, s);
  }

  /** On the same column the minimum, the mean and the maximum are in
      order. */
  lemma MinAvgMax(lib: Library, group: seq<Row>, column: string)
    requires Coerced(lib, group, column) != []
    ensures AggregateValue(lib, group, AggregateBy(column, Min, column))
         <= AggregateValue(lib, group, AggregateBy(column, Avg, column))
         <= AggregateValue(lib, group, AggregateBy(column, Max, column))
  {
    var xs := Coerced(lib, group, column);
    MeanBounds(xs);
    assert AggregateValue(lib, group, AggregateBy(column, Min, column)) == MinOf(xs);
    assert AggregateValue(lib, group, AggregateBy(column, Avg, column)) == SumOf(xs) / (|xs| as real);
    assert AggregateValue(lib, group, AggregateBy(column, Max, column)) == MaxOf(xs);
  }

  /** The entry of an output column is the value of the last definition
      that writes it. */
  lemma {:induction false} LastDefinitionWins(lib: Library, group: seq<Row>, defs: seq<AggregateBy>, k: int)
    requires 0 <= k < |defs|
    requires forall j :: k < j < |defs| ==> defs[j].output != defs[k].output
    ensures Aggregates(lib, group, defs)[defs[k].output] == Num(AggregateValue(lib, group, defs[k]))
  {
    if k < |defs| - 1 {
      var prefix := defs[..|defs| - 1];
      assert prefix[k] == defs[k];
      LastDefinitionWins(lib, group, prefix, k);
    }
  }

  /** Each occurrence of a row belongs to exactly one group: the group of
      its own non-null value. */
  lemma {:induction false} MembersPartition(rows: seq<Row>, key: string, g: Value, row: Row)
    ensures multiset(Members(rows, key, g))[row] == if Get(row, key) == g then multiset(rows)[row] else 0
  {
    if rows != [] {
      var prefix, last := rows[..|rows| - 1], rows[|rows| - 1];
      MembersPartition(prefix, key, g, row);
      assert rows == prefix + [last];
    } else if Get(row, key) != g {
      assert row !in Members(rows, key, g);
    }
  }

  /** Without an output column of the same name, the new row of group
      `g` holds `g` under the group-by key. */
  lemma KeyHoldsGroup(lib: Library, t: Transformer, rows: seq<Row>, g: Value)
    requires t.groupByColumn !in Outputs(t.aggregateColumns)
    ensures AggregatedRow(lib, t, rows, g)[t.groupByColumn] == g
  {
    var aggregates := Aggregates(lib, Members(rows, t.groupByColumn, g), t.aggregateColumns);
    assert t.groupByColumn !in aggregates;
  }

  /** The new rows line up with the group values: row `i` is the row of
      the `i`-th group and, without an output column of the same name,
      holds that group's value under the group-by key. */
  lemma AggregatedKeys(lib: Library, t: Transformer, rows: seq<Row>)
    requires |rows| > 0 && t.groupByColumn in rows[0]
    requires t.groupByColumn !in Outputs(t.aggregateColumns)
    ensures var r, keys := Aggregated(lib, t, rows), GroupKeys(rows, t.groupByColumn);
      && |r| == |keys|
      && forall i | 0 <= i < |r| :: r[i].Keys == {t.groupByColumn} + Outputs(t.aggregateColumns) && r[i][t.groupByColumn] == keys[i]
  {
    var r, keys := Aggregated(lib, t, rows), GroupKeys(rows, t.groupByColumn);
    forall i | 0 <= i < |r|
      ensures r[i].Keys == {t.groupByColumn} + Outputs(t.aggregateColumns) && r[i][t.groupByColumn] == keys[i]
    {
      assert r[i] == AggregatedRow(lib, t, rows, keys[i]);
      KeyHoldsGroup(lib, t, rows, keys[i]);
    }
  }

  /** When no output column is named like the group-by key, the transform
      yields exactly one row per distinct non-null group value, keyed by
      that value, each with the group-by key and every output column. */
  lemma OneRowPerGroup(lib: Library, t: Transformer, rows: seq<Row>)
    requires |rows| > 0 && t.groupByColumn in rows[0]
    requires t.groupByColumn !in Outputs(t.aggregateColumns)
    ensures var r, key := Aggregated(lib, t, rows), t.groupByColumn;
      && (forall i | 0 <= i < |r| :: r[i].Keys == {key} + Outputs(t.aggregateColumns))
      && (forall i | 0 <= i < |r| :: r[i][key] != Null && exists row | row in rows :: Get(row, key) == r[i][key])
      && (forall i, j | 0 <= i < j < |r| :: r[i][key] != r[j][key])
      && (forall row | row in rows && Get(row, key) != Null :: exists i | 0 <= i < |r| :: r[i][key] == Get(row, key))
  {
    var r, key := Aggregated(lib, t, rows), t.groupByColumn;
    var keys := GroupKeys(rows, key);
    AggregatedKeys(lib, t, rows);
    forall i | 0 <= i < |r| ensures r[i][key] != Null && exists row | row in rows :: Get(row, key) == r[i][key] {
      assert r[i][key] == keys[i] && keys[i] in keys;
    }
    forall i, j | 0 <= i < j < |r| ensures r[i][key] != r[j][key] {
      assert r[i][key] == keys[i] && r[j][key] == keys[j];
    }
    forall row | row in rows && Get(row, key) != Null ensures exists i | 0 <= i < |r| :: r[i][key] == Get(row, key) {
      assert Get(row, key) in keys;
      var i :| 0 <= i < |keys| && keys[i] == Get(row, key);
      assert r[i][key] == Get(row, key);
    }
  }

  /** An output column named like the group-by key overwrites the group
      value with a number in every new row. */
  lemma GroupValueOverwritten(lib: Library, t: Transformer, rows: seq<Row>)
    requires |rows| > 0 && t.groupByColumn in rows[0]
    requires t.groupByColumn in Outputs(t.aggregateColumns)
    ensures forall r: Row | r in Aggregated(lib, t, rows) :: r[t.groupByColumn].Num?
  {
  }

  /** The entry of output column `defs[k].output` in the new row of the
      `i`-th group is definition `k` applied to exactly that group's rows,
      unless a later definition writes the same column. */
  lemma GroupAggregate(lib: Library, t: Transformer, rows: seq<Row>, i: int, k: int)
    requires |rows| > 0 && t.groupByColumn in rows[0]
    requires 0 <= i < |GroupKeys(rows, t.groupByColumn)|
    requires 0 <= k < |t.aggregateColumns|
    requires forall j :: k < j < |t.aggregateColumns| ==> t.aggregateColumns[j].output != t.aggregateColumns[k].output
    ensures var g := GroupKeys(rows, t.groupByColumn)[i];
      Aggregated(lib, t, rows)[i][t.aggregateColumns[k].output]
        == Num(AggregateValue(lib, Members(rows, t.groupByColumn, g), t.aggregateColumns[k]))
  {
    var g := GroupKeys(rows, t.groupByColumn)[i];
    LastDefinitionWins(lib, Members(rows, t.groupByColumn, g), t.aggregateColumns, k);
  }
}
