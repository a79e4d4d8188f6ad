/** `MathOperationTransformer`: writes the sum or difference of two input
    columns into an output column, row by row, with a lenient number
    coercion and a per-row error marker. */
module MathOperationTransformer {
  import opened Values
  import Strings

  datatype MathOperation = Add | Subtract

  datatype Transformer = Transformer(inputs: seq<string>, operation: MathOperation, output: string)

  /** The marker written into the output column of a row that fails. */
  const CalcError := "Calc Error!"

  const NullInputs := "Inputs cannot be null"
  const NullOperation := "Operation cannot be null"
  const NullOutput := "Output column cannot be null"
  const TooFewInputs := "ADD/SUBTRACT operations require at least two input columns."

  /** What a constructed transformer guarantees: both operations are binary. */
  predicate Valid(t: Transformer)
  {
    |t.inputs| >= 2
  }

  /** The constructor: null checks in argument order, then at least two
      inputs for ADD and SUBTRACT. */
  function New(inputs: Option<seq<string>>, operation: Option<MathOperation>, output: Option<string>): (r: Result<Transformer, string>)
    ensures r.Success? <==> inputs.Some? && operation.Some? && output.Some? && |inputs.value| >= 2
    ensures r.Success? ==> Valid(r.value) && r.value == Transformer(inputs.value, operation.value, output.value)
    ensures inputs.None? ==> r == Failure(NullInputs)
    ensures inputs.Some? && operation.None? ==> r == Failure(NullOperation)
    ensures inputs.Some? && operation.Some? && output.None? ==> r == Failure(NullOutput)
  {
    if inputs.None? then Failure(NullInputs)
    else if operation.None? then Failure(NullOperation)
    else if output.None? then Failure(NullOutput)
    else if |inputs.value| < 2 then Failure(TooFewInputs)
    else Success(Transformer(inputs.value, operation.value, output.value))
  }

  /** `parseDouble`: null and blank text read as 0, a number as itself,
      other text is trimmed, its commas become points, and it is parsed;
      `None` is the NumberFormatException. */
  function ParseDouble(lib: Library, v: Value): (r: Option<real>)
    ensures v == Null ==> r == Some(0.0)
    ensures v.Num? ==> r == Some(v.number)
    ensures v.Str? && Strings.Trim(v.text) == "" ==> r == Some(0.0)
    ensures v.Str? && Strings.Trim(v.text) != "" ==> r == lib.parseDouble(Strings.Normalize(v.text))
  {
    match v
    case Null => Some(0.0)
    case Num(x) => Some(x)
    case Str(s) =>
      var text := Strings.Normalize(s);
      if text == "" then Some(0.0) else lib.parseDouble(text)
  }

  /** The number a row's output column receives, or `CalcError`: a number
      exactly when both of the first two inputs coerce. */
  function Calculate(lib: Library, t: Transformer, row: Row): (v: Value)
    requires Valid(t)
    ensures v.Num? <==> ParseDouble(lib, Get(row, t.inputs[0])).Some? && ParseDouble(lib, Get(row, t.inputs[1])).Some?
    ensures !v.Num? ==> v == Str(CalcError)
  {
    Combine(t.operation, ParseDouble(lib, Get(row, t.inputs[0])), ParseDouble(lib, Get(row, t.inputs[1])))
  }

  /** The operation applied to the two coerced inputs; a failed coercion
      gives the marker. */
  function Combine(operation: MathOperation, a: Option<real>, b: Option<real>): (v: Value)
    ensures v.Num? <==> a.Some? && b.Some?
    ensures !v.Num? ==> v == Str(CalcError)
    ensures v.Num? && operation == Add ==> v.number - a.value == b.value
    ensures v.Num? && operation == Subtract ==> v.number + b.value == a.value
  {
    if a.None? || b.None? then Str(CalcError)
    else if operation == Add then Num(a.value + b.value)
    else Num(a.value - b.value)
  }

  /** One row after the transform: only the output column is written. */
  function CalcRow(lib: Library, t: Transformer, row: Row): (r: Row)
    requires Valid(t)
    ensures r.Keys == row.Keys + {t.output}
    ensures forall k | k in row && k != t.output :: r[k] == row[k]
    ensures r[t.output] == Calculate(lib, t, row)
  {
    row[t.output := Calculate(lib, t, row)]
  }

  /** The rows after the transform: every row keeps its other columns and
      gets its calculated output cell. */
  function Apply(lib: Library, t: Transformer, rows: seq<Row>): (r: seq<Row>)
    requires Valid(t)
    ensures |r| == |rows|
    ensures forall i | 0 <= i < |rows| :: r[i].Keys == rows[i].Keys + {t.output}
    ensures forall i, k | 0 <= i < |rows| && k in rows[i] && k != t.output :: r[i][k] == rows[i][k]
    ensures forall i | 0 <= i < |rows| :: r[i][t.output] == Calculate(lib, t, rows[i])
  {
    seq(|rows|, i requires 0 <= i < |rows| => CalcRow(lib, t, rows[i]))
  }

  /** `transform`: writes the output column of every row in place; row
      count, row order and every other column stay as they were. */
  method Transform(lib: Library, t: Transformer, ds: Dataset)
    requires Valid(t)
    modifies ds
    ensures ds.rows == Apply(lib, t, old(ds.rows))
    ensures |ds.rows| == |old(ds.rows)|
    ensures forall i, k :: 0 <= i < |ds.rows| && k in old(ds.rows)[i] && k != t.output ==>
      k in ds.rows[i] && ds.rows[i][k] == old(ds.rows)[i][k]
  {
    if |ds.rows| == 0 {
      return;
    }
    var i := 0;
    while i < |ds.rows|
      invariant 0 <= i <= |ds.rows| == |old(ds.rows)|
      invariant forall k :: 0 <= k < i ==> ds.rows[k] == CalcRow(lib, t, old(ds.rows)[k])
      invariant forall k :: i <= k < |ds.rows| ==> ds.rows[k] == old(ds.rows)[k]
    {
      var row := ds.rows[i];
      ds.rows := ds.rows[i := CalcRow(lib, t, row)];
      i := i + 1;
    }
  }

  /** On success the output holds `v1 + v2` for ADD and `v1 - v2` for
      SUBTRACT; whenever either input fails to coerce it holds the marker. */
  lemma CalculateCases(lib: Library, t: Transformer, row: Row)
    requires Valid(t)
    ensures var a, b := ParseDouble(lib, Get(row, t.inputs[0])), ParseDouble(lib, Get(row, t.inputs[1]));
      && (a.Some? && b.Some? && t.operation == Add ==> Calculate(lib, t, row) == Num(a.value + b.value))
      && (a.Some? && b.Some? && t.operation == Subtract ==> Calculate(lib, t, row) == Num(a.value - b.value))
      && (a.None? || b.None? <==> Calculate(lib, t, row) == Str(CalcError))
  {
  }

  /** Only the first two inputs are read: rows that agree on them get the
      same result, and extra configured inputs make no difference. */
  lemma OnlyFirstTwoInputs(lib: Library, t: Transformer, extra: seq<string>, row1: Row, row2: Row)
    requires Valid(t)
    requires Get(row1, t.inputs[0]) == Get(row2, t.inputs[0]) && Get(row1, t.inputs[1]) == Get(row2, t.inputs[1])
    ensures Calculate(lib, t, row1) == Calculate(lib, t, row2)
    ensures Calculate(lib, t.(inputs := t.inputs[..2] + extra), row1) == Calculate(lib, t, row1)
  {
    SameInputsSameResult(lib, t, t, row1, row2);
    var t2 := t.(inputs := t.inputs[..2] + extra);
    assert t2.inputs[0] == t.inputs[0] && t2.inputs[1] == t.inputs[1];
    SameInputsSameResult(lib, t2, t, row1, row1);
  }

  /** Two transformers with the same operation give the same result on
      rows whose first two configured inputs hold the same values. */
  lemma SameInputsSameResult(lib: Library, t1: Transformer, t2: Transformer, row1: Row, row2: Row)
    requires Valid(t1) && Valid(t2) && t1.operation == t2.operation
    requires Get(row1, t1.inputs[0]) == Get(row2, t2.inputs[0]) && Get(row1, t1.inputs[1]) == Get(row2, t2.inputs[1])
    ensures Calculate(lib, t1, row1) == Calculate(lib, t2, row2)
  {
  }

  /** A null input counts as zero: SUBTRACT with a null first input and a
      coercible second input `x` yields `-x`. */
  lemma NullCountsAsZero(lib: Library, t: Transformer, row: Row)
    requires Valid(t) && t.operation == Subtract
    requires Get(row, t.inputs[0]) == Null && ParseDouble(lib, Get(row, t.inputs[1])).Some?
    ensures Calculate(lib, t, row) == Num(-ParseDouble(lib, Get(row, t.inputs[1])).value)
  {
  }
}
