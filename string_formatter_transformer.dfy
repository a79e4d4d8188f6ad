/** `StringFormatterTransformer`: fills a `String.format` template with the
    values of some input columns and writes the text into an output column,
    row by row, with a per-row error marker. */
module StringFormatterTransformer {
  import opened Values

  datatype Transformer = Transformer(inputs: seq<string>, format: string, output: string)

  /** The marker written into the output column of a row that fails. */
  const FormatError := "Format Error!"

  const NoInputs := "StringFormatterTransformer requires at least one input column."
  const NoFormat := "StringFormatterTransformer requires a non-empty format string."
  const NoOutput := "StringFormatterTransformer requires an output column."

  /** The constructor: a non-empty input list, a non-empty template and an
      output column, checked in that order. */
  function New(inputs: Option<seq<string>>, format: Option<string>, output: Option<string>): (r: Result<Transformer, string>)
    ensures r.Success? <==> inputs.Some? && |inputs.value| > 0 && format.Some? && |format.value| > 0 && output.Some?
    ensures r.Success? ==> r.value == Transformer(inputs.value, format.value, output.value)
    ensures inputs.None? || |inputs.value| == 0 ==> r == Failure(NoInputs)
    ensures inputs.Some? && |inputs.value| > 0 && (format.None? || |format.value| == 0) ==> r == Failure(NoFormat)
    ensures inputs.Some? && |inputs.value| > 0 && format.Some? && |format.value| > 0 && output.None? ==>
      r == Failure(NoOutput)
  {
    if inputs.None? || |inputs.value| == 0 then Failure(NoInputs)
    else if format.None? || |format.value| == 0 then Failure(NoFormat)
    else if output.None? then Failure(NoOutput)
    else Success(Transformer(inputs.value, format.value, output.value))
  }

  /** `rowMap.getOrDefault(column, "")`: a missing key gives the empty text,
      a key holding null gives null. */
  function Argument(row: Row, column: string): (v: Value)
    ensures column !in row ==> v == Str("")
    ensures column in row ==> v == row[column]
  {
    if column in row then row[column] else Str("")
  }

  /** The argument conversion: a non-null argument whose text parses as a
      number becomes that number, anything else is passed on as it is. The
      text is parsed as it stands, without trimming or comma replacement. */
  function Convert(lib: Library, v: Value): (r: Value)
    ensures v == Null ==> r == Null
    ensures v != Null ==>
      || (r.Num? && lib.parseDouble(ToText(lib, v)) == Some(r.number))
      || (r == v && lib.parseDouble(ToText(lib, v)).None?)
  {
    if v == Null then Null
    else match lib.parseDouble(ToText(lib, v))
      case Some(x) => Num(x)
      case None => v
  }

  /** The converted arguments of a row, in input-column order. */
  function ConvertedArgs(lib: Library, t: Transformer, row: Row): (args: seq<Value>)
    ensures |args| == |t.inputs|
    ensures forall i :: 0 <= i < |t.inputs| ==> args[i] == Convert(lib, Argument(row, t.inputs[i]))
  {
    seq(|t.inputs|, i requires 0 <= i < |t.inputs| => Convert(lib, Argument(row, t.inputs[i])))
  }

  /** The text a row's output column receives: the template filled with the
      converted arguments, or `FormatError` when formatting throws. */
  function FormatCell(lib: Library, t: Transformer, row: Row): (v: Value)
    ensures v.Str?
    ensures v.text != FormatError ==> lib.format(t.format, ConvertedArgs(lib, t, row)) == Some(v.text)
    ensures lib.format(t.format, ConvertedArgs(lib, t, row)).None? ==> v == Str(FormatError)
  {
    match lib.format(t.format, ConvertedArgs(lib, t, row))
    case Some(s) => Str(s)
    case None => Str(FormatError)
  }

  /** One row after the transform: only the output column is written. */
  function FormatRow(lib: Library, t: Transformer, row: Row): (r: Row)
    ensures r.Keys == row.Keys + {t.output}
    ensures forall k | k in row && k != t.output :: r[k] == row[k]
    ensures r[t.output] == FormatCell(lib, t, row)
  {
    row[t.output := FormatCell(lib, t, row)]
  }

  /** The rows after the transform: every row keeps its other columns and
      gets its formatted output cell. */
  function Apply(lib: Library, t: Transformer, rows: seq<Row>): (r: seq<Row>)
    ensures |r| == |rows|
    ensures forall i | 0 <= i < |rows| :: r[i].Keys == rows[i].Keys + {t.output}
    ensures forall i, k | 0 <= i < |rows| && k in rows[i] && k != t.output :: r[i][k] == rows[i][k]
    ensures forall i | 0 <= i < |rows| :: r[i][t.output] == FormatCell(lib, t, rows[i])
  {
    seq(|rows|, i requires 0 <= i < |rows| => FormatRow(lib, t, rows[i]))
  }

  /** `transform`: for every row, fills an argument array element by
      element, applies the template and writes the output column in place.
      Input columns missing from the rows do not stop any row from being
      processed. */
  method Transform(lib: Library, t: Transformer, ds: Dataset)
    modifies ds
    ensures ds.rows == Apply(lib, t, old(ds.rows))
    ensures |ds.rows| == |old(ds.rows)|
    ensures forall i, k :: 0 <= i < |ds.rows| && k in old(ds.rows)[i] && k != t.output ==>
      k in ds.rows[i] && ds.rows[i][k] == old(ds.rows)[i][k]
  {
    if |ds.rows| == 0 {
      return;
    }
    var i := 0;
    while i < |ds.rows|
      invariant 0 <= i <= |ds.rows| == |old(ds.rows)|
      invariant forall k :: 0 <= k < i ==> ds.rows[k] == FormatRow(lib, t, old(ds.rows)[k])
      invariant forall k :: i <= k < |ds.rows| ==> ds.rows[k] == old(ds.rows)[k]
    {
      var row := ds.rows[i];
      var convertedArgs := new Value[|t.inputs|];
      var j := 0;
      while j < convertedArgs.Length
        modifies convertedArgs
        invariant 0 <= j <= convertedArgs.Length == |t.inputs|
        invariant forall m :: 0 <= m < j ==> convertedArgs[m] == Convert(lib, Argument(row, t.inputs[m]))
      {
        var arg := Argument(row, t.inputs[j]);
        if arg != Null {
          match lib.parseDouble(ToText(lib, arg))
          case Some(x) => convertedArgs[j] := Num(x);
          case None => convertedArgs[j] := arg;
        } else {
          convertedArgs[j] := Null;
        }
        j := j + 1;
      }
      assert convertedArgs[..] == ConvertedArgs(lib, t, row);
      var cell := match lib.format(t.format, convertedArgs[..])
        case Some(s) => Str(s)
        case None => Str(FormatError);
      ds.rows := ds.rows[i := row[t.output := cell]];
      i := i + 1;
    }
  }

  /** A present key holding null stays null, and a missing key is passed as
      the empty text unless that text parses as a number. */
  lemma MissingAndNullArguments(lib: Library, t: Transformer, row: Row, i: int)
    requires 0 <= i < |t.inputs|
    ensures t.inputs[i] in row && row[t.inputs[i]] == Null ==> ConvertedArgs(lib, t, row)[i] == Null
    ensures t.inputs[i] !in row && lib.parseDouble("").None? ==> ConvertedArgs(lib, t, row)[i] == Str("")
  {
  }

  /** Unlike the math and aggregation coercions, commas are not made
      points: a text that only parses with its commas made points stays
      text here. The text is not trimmed either, but `Double.parseDouble`
      itself ignores surrounding whitespace. */
  lemma NoCommaReplacement(lib: Library, s: string)
    ensures Convert(lib, Str(s)).Str? <==> lib.parseDouble(s).None?
  {
  }

  /** A number cell reaches the template unchanged whenever parsing reads
      back what `Double.toString` writes, as it does in Java. */
  lemma NumberArgumentKept(lib: Library, x: real)
    requires forall y :: lib.parseDouble(lib.doubleText(y)) == Some(y)
    ensures Convert(lib, Num(x)) == Num(x)
  {
  }

  /** Formatting succeeds or fails for each row on its own: the output
      column of a row depends only on that row's input values. */
  lemma FailureIsPerRow(lib: Library, t: Transformer, row1: Row, row2: Row)
    requires forall i :: 0 <= i < |t.inputs| ==> Argument(row1, t.inputs[i]) == Argument(row2, t.inputs[i])
    ensures FormatCell(lib, t, row1) == FormatCell(lib, t, row2)
  {
    assert ConvertedArgs(lib, t, row1) == ConvertedArgs(lib, t, row2);
  }
}
