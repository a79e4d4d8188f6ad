/** `ReportGenerator`: the glue of the pipeline. It checks the command line,
    turns split CSV records into row maps, and runs the configured
    transformers over the rows one after another, stopping at the first one
    that throws. */
module ReportGenerator {
  import opened Values
  import OrderingTransformer
  import AggregatorTransformer
  import MathOperationTransformer
  import StringFormatterTransformer
  import DateTimeFormatterTransformer

  datatype CommandLineArgs = CommandLineArgs(csvPath: string, xmlPath: string, outputPath: string)

  const Usage := "Usage: java com.playtech.ReportGenerator <input.csv> <config.xml> <output.jsnol>"

  /** `parseArguments`: exactly three arguments, taken in order as the CSV,
      XML and output paths; anything else is the usage error. */
  function ParseArguments(args: Option<seq<string>>): (r: Result<CommandLineArgs, string>)
    ensures r.Success? <==> args.Some? && |args.value| == 3
    ensures r.Success? ==> [r.value.csvPath, r.value.xmlPath, r.value.outputPath] == args.value
    ensures r.Failure? ==> r.error == Usage
  {
    if args.None? || |args.value| != 3 then Failure(Usage)
    else Success(CommandLineArgs(args.value[0], args.value[1], args.value[2]))
  }

  /** The row map of one record: header `i` is put with value `i`, in
      order, so a later duplicate header overwrites an earlier one. */
  function RowOf(headers: seq<string>, values: seq<Value>): (r: Row)
    requires |headers| == |values|
    ensures r.Keys == set h | h in headers
  {
    if headers == [] then map[]
    else
      var n := |headers| - 1;
      assert forall h | h in headers :: h in headers[..n] || h == headers[n];
      RowOf(headers[..n], values[..n])[headers[n] := values[n]]
  }

  /** Whether a record is kept: non-null, and as wide as the header. */
  predicate Fits(record: Option<seq<Value>>, width: nat)
  {
    record.Some? && |record.value| == width
  }

  /** The row maps of the records that fit, in record order. */
  function ConvertRows(records: seq<Option<seq<Value>>>, headers: seq<string>): (r: seq<Row>)
    ensures |r| <= |records|
    ensures forall row | row in r :: row.Keys == set h | h in headers
  {
    if records == [] then []
    else
      var n := |records| - 1;
      var kept := ConvertRows(records[..n], headers);
      if Fits(records[n], |headers|) then kept + [RowOf(headers, records[n].value)] else kept
  }

  /** `convertToMapList` as a value: nothing without a non-empty header or
      without records. */
  function Converted(dataRows: Option<seq<Option<seq<Value>>>>, headers: Option<seq<string>>): (r: seq<Row>)
    ensures headers.None? || |headers.value| == 0 || dataRows.None? ==> r == []
    ensures dataRows.Some? ==> |r| <= |dataRows.value|
  {
    if headers.None? || |headers.value| == 0 || dataRows.None? then []
    else ConvertRows(dataRows.value, headers.value)
  }

  /** The inner loop of `convertToMapList`: a fresh map filled header by
      header. */
  method FillRow(headers: seq<string>, values: seq<Value>) returns (rowMap: Row)
    requires |headers| == |values|
    ensures rowMap == RowOf(headers, values)
  {
    rowMap := map[];
    var i := 0;
    while i < |headers|
      invariant 0 <= i <= |headers|
      invariant rowMap == RowOf(headers[..i], values[..i])
    {
      assert headers[..i + 1][..i] == headers[..i] && values[..i + 1][..i] == values[..i];
      rowMap := rowMap[headers[i] := values[i]];
      i := i + 1;
    }
    assert headers[..i] == headers && values[..i] == values;
  }

  /** `convertToMapList`: one pass over the records, filling a fresh map
      for each record that fits. */
  method ConvertToMapList(dataRows: Option<seq<Option<seq<Value>>>>, headers: Option<seq<string>>) returns (mapList: seq<Row>)
    ensures mapList == Converted(dataRows, headers)
  {
    mapList := [];
    if headers.None? || |headers.value| == 0 || dataRows.None? {
      return;
    }
    var hs, records := headers.value, dataRows.value;
    var numColumns := |hs|;
    var k := 0;
    while k < |records|
      invariant 0 <= k <= |records|
      invariant mapList == ConvertRows(records[..k], hs)
    {
      var rowList := records[k];
      assert records[..k + 1][..k] == records[..k] && records[..k + 1][k] == rowList;
      if rowList.Some? && |rowList.value| == numColumns {
        var rowMap := FillRow(hs, rowList.value);
        mapList := mapList + [rowMap];
      }
      k := k + 1;
    }
    assert records[..k] == records;
  }

  /** The positions of the records that fit, in increasing order. */
  function FittingIndices(records: seq<Option<seq<Value>>>, width: nat): (r: seq<int>)
    ensures forall k | 0 <= k < |r| :: 0 <= r[k] < |records| && Fits(records[r[k]], width)
    ensures forall a, b | 0 <= a < b < |r| :: r[a] < r[b]
    ensures forall i | 0 <= i < |records| && Fits(records[i], width) :: i in r
  {
    if records == [] then []
    else
      var n := |records| - 1;
      var prefix := FittingIndices(records[..n], width);
      if Fits(records[n], width) then prefix + [n] else prefix
  }

  /** The converted rows are exactly the records that fit, in their
      original order, each mapped header by header. */
  lemma {:induction false} ConvertKeepsFittingRecords(records: seq<Option<seq<Value>>>, headers: seq<string>)
    ensures var r, idx := ConvertRows(records, headers), FittingIndices(records, |headers|);
      && |r| == |idx|
      && forall k | 0 <= k < |r| :: r[k] == RowOf(headers, records[idx[k]].value)
  {
    if records != [] {
      var n := |records| - 1;
      ConvertKeepsFittingRecords(records[..n], headers);
    }
  }

  /** Each kept row maps a header to the value in its column, and with
      duplicate headers the later column wins. */
  lemma {:induction false} LaterHeaderWins(headers: seq<string>, values: seq<Value>, i: int)
    requires |headers| == |values| && 0 <= i < |headers|
    requires forall j | i < j < |headers| :: headers[j] != headers[i]
    ensures RowOf(headers, values)[headers[i]] == values[i]
  {
    var n := |headers| - 1;
    if i < n {
      LaterHeaderWins(headers[..n], values[..n], i);
    }
  }

  /** A transformer of any of the five kinds. */
  datatype AnyTransformer =
    | Ordering(ordering: OrderingTransformer.Transformer)
    | Aggregator(aggregator: AggregatorTransformer.Transformer)
    | MathOperation(math: MathOperationTransformer.Transformer)
    | StringFormatter(formatter: StringFormatterTransformer.Transformer)
    | DateTimeFormatter(dateTime: DateTimeFormatterTransformer.Transformer)

  /** What each transformer's constructor guarantees of it. */
  predicate Constructed(t: AnyTransformer)
  {
    && (t.MathOperation? ==> MathOperationTransformer.Valid(t.math))
    && (t.DateTimeFormatter? ==> DateTimeFormatterTransformer.Valid(t.dateTime))
  }

  /** `transformer.getClass().getName()`. */
  function ClassName(t: AnyTransformer): string
  {
    match t
    case Ordering(_) => "com.playtech.report.transformer.impl.OrderingTransformer"
    case Aggregator(_) => "com.playtech.report.transformer.impl.AggregatorTransformer"
    case MathOperation(_) => "com.playtech.report.transformer.impl.MathOperationTransformer"
    case StringFormatter(_) => "com.playtech.report.transformer.impl.StringFormatterTransformer"
    case DateTimeFormatter(_) => "com.playtech.report.transformer.impl.DateTimeFormatterTransformer"
  }

  /** One transformer's effect on the rows, or the message of the exception
      it throws. Only the aggregator changes the number of rows. */
  function Step(lib: Library, t: AnyTransformer, rows: seq<Row>): (r: Result<seq<Row>, string>)
    requires Constructed(t)
    ensures r.Success? && !t.Aggregator? ==> |r.value| == |rows|
  {
    match t
    case Ordering(o) => Success(OrderingTransformer.Ordered(lib, o, rows))
    case Aggregator(a) => Success(AggregatorTransformer.Aggregated(lib, a, rows))
    case MathOperation(m) => Success(MathOperationTransformer.Apply(lib, m, rows))
    case StringFormatter(f) => Success(StringFormatterTransformer.Apply(lib, f, rows))
    case DateTimeFormatter(d) => DateTimeFormatterTransformer.Apply(lib, d, rows)
  }

  /** `transformer.transform(report, dataRows)`, dispatched on the kind. */
  method Transform(lib: Library, t: AnyTransformer, ds: Dataset) returns (outcome: Outcome<string>)
    requires Constructed(t)
    modifies ds
    ensures Step(lib, t, old(ds.rows)).Success? ==> outcome == Pass && ds.rows == Step(lib, t, old(ds.rows)).value
    ensures Step(lib, t, old(ds.rows)).Failure? ==>
      outcome == Fail(Step(lib, t, old(ds.rows)).error) && ds.rows == old(ds.rows)
  {
    match t
    case Ordering(o) =>
      OrderingTransformer.Transform(lib, o, ds);
      outcome := Pass;
    case Aggregator(a) =>
      AggregatorTransformer.Transform(lib, a, ds);
      outcome := Pass;
    case MathOperation(m) =>
      MathOperationTransformer.Transform(lib, m, ds);
      outcome := Pass;
    case StringFormatter(f) =>
      StringFormatterTransformer.Transform(lib, f, ds);
      outcome := Pass;
    case DateTimeFormatter(d) =>
      outcome := DateTimeFormatterTransformer.Transform(lib, d, ds);
  }

  /** The `ReportGenerationException` wrapping a transformer's exception:
      the transformer's 1-based position, its class name and the cause. */
  datatype PipelineError = TransformationFailed(position: nat, className: string, cause: string)

  /** The rows at the end of the run, and how the run ended. */
  datatype RunResult = RunResult(rows: seq<Row>, outcome: Outcome<PipelineError>)

  /** A transformer's effect as a function, defined for the transformers
      it may be given. */
  type Stepper = (AnyTransformer, seq<Row>) --> Result<seq<Row>, string>

  /** The pipeline's step: `Step` on transformers that were constructed. */
  function Steps(lib: Library): (step: Stepper)
    ensures forall t, rows | Constructed(t) :: step.requires(t, rows)
    ensures forall t, rows | Constructed(t) :: step(t, rows) == Step(lib, t, rows)
  {
    (t: AnyTransformer, rows: seq<Row>) requires Constructed(t) => Step(lib, t, rows)
  }

  ghost predicate Accepts(step: Stepper, ts: seq<AnyTransformer>)
  {
    forall t, rows | t in ts :: step.requires(t, rows)
  }

  /** Runs `ts` in order on the same rows, the first of them at position
      `first`; the first exception ends the run with the rows as they were
      when it was thrown. */
  function RunFrom(step: Stepper, ts: seq<AnyTransformer>, first: nat, rows: seq<Row>): RunResult
    requires Accepts(step, ts)
  {
    if ts == [] then RunResult(rows, Pass)
    else
      assert ts[0] in ts && forall t | t in ts[1..] :: t in ts;
      match step(ts[0], rows)
      case Failure(cause) => RunResult(rows, Fail(TransformationFailed(first, ClassName(ts[0]), cause)))
      case Success(next) => RunFrom(step, ts[1..], first + 1, next)
  }

  predicate AllConstructed(ts: Option<seq<AnyTransformer>>)
  {
    ts.Some? ==> forall t | t in ts.value :: Constructed(t)
  }

  /** `applyTransformations` as a value: nothing to do for a null or empty
      list, else the run from position 1. */
  function Applied(lib: Library, ts: Option<seq<AnyTransformer>>, rows: seq<Row>): RunResult
    requires AllConstructed(ts)
  {
    if ts.None? || |ts.value| == 0 then RunResult(rows, Pass)
    else RunFrom(Steps(lib), ts.value, 1, rows)
  }

  /** `applyTransformations`: a counted loop over the transformers, each
      transforming the shared rows in place; the first failure is wrapped
      with its position and class name and ends the loop. */
  method ApplyTransformations(lib: Library, ts: Option<seq<AnyTransformer>>, ds: Dataset) returns (outcome: Outcome<PipelineError>)
    requires AllConstructed(ts)
    modifies ds
    ensures RunResult(ds.rows, outcome) == Applied(lib, ts, old(ds.rows))
  {
    if ts.None? || |ts.value| == 0 {
      return Pass;
    }
    var transformers := ts.value;
    var count := 0;
    while count < |transformers|
      invariant 0 <= count <= |transformers|
      invariant RunFrom(Steps(lib), transformers, 1, old(ds.rows)) == RunFrom(Steps(lib), transformers[count..], count + 1, ds.rows)
    {
      var transformer := transformers[count];
      assert transformers[count..][0] == transformer && transformers[count..][1..] == transformers[count + 1..];
      count := count + 1;
      var result := Transform(lib, transformer, ds);
      if result.Fail? {
        return Fail(TransformationFailed(count, ClassName(transformer), result.error));
      }
    }
    outcome := Pass;
  }

  /** With no transformers, or a null list, nothing changes. */
  lemma NoTransformers(lib: Library, rows: seq<Row>)
    ensures Applied(lib, None, rows) == RunResult(rows, Pass)
    ensures Applied(lib, Some([]), rows) == RunResult(rows, Pass)
  {
  }

  /** Running two lists one after the other is running their
      concatenation: the second starts from the rows the first left, at the
      next position, and only if the first passed. */
  lemma {:induction false} RunSequence(step: Stepper, ts1: seq<AnyTransformer>, ts2: seq<AnyTransformer>, first: nat, rows: seq<Row>)
    requires Accepts(step, ts1) && Accepts(step, ts2)
    ensures Accepts(step, ts1 + ts2)
    ensures var r1 := RunFrom(step, ts1, first, rows);
      RunFrom(step, ts1 + ts2, first, rows) == if r1.outcome.Pass? then RunFrom(step, ts2, first + |ts1|, r1.rows) else r1
  {
    assert forall t | t in ts1 + ts2 :: t in ts1 || t in ts2;
    if ts1 == [] {
      assert ts1 + ts2 == ts2;
    } else {
      assert ts1[0] in ts1 && forall t | t in ts1[1..] :: t in ts1;
      assert (ts1 + ts2)[0] == ts1[0] && (ts1 + ts2)[1..] == ts1[1..] + ts2;
      match step(ts1[0], rows)
      case Failure(_) =>
      case Success(next) =>
        RunSequence(step, ts1[1..], ts2, first + 1, next);
    }
  }

  /** A failing run stopped at one transformer: all before it passed, it
      threw on the rows they left, and none after it ran. */
  lemma {:induction false} RunStopsAtFailure(step: Stepper, ts: seq<AnyTransformer>, first: nat, rows: seq<Row>)
    requires Accepts(step, ts)
    ensures var r := RunFrom(step, ts, first, rows);
      r.outcome.Fail? ==>
        var k := r.outcome.error.position - first;
        && 0 <= k < |ts|
        && Accepts(step, ts[..k])
        && RunFrom(step, ts[..k], first, rows) == RunResult(r.rows, Pass)
        && r.outcome.error.className == ClassName(ts[k])
        && step(ts[k], r.rows) == Failure(r.outcome.error.cause)
  {
    if ts != [] {
      assert ts[0] in ts && forall t | t in ts[1..] :: t in ts;
      match step(ts[0], rows)
      case Failure(_) =>
        assert ts[..0] == [];
      case Success(next) =>
        RunStopsAtFailure(step, ts[1..], first + 1, next);
        var r := RunFrom(step, ts, first, rows);
        if r.outcome.Fail? {
          var k := r.outcome.error.position - first;
          assert forall t | t in ts[..k] :: t in ts;
          assert ts[..k][0] == ts[0] && ts[..k][1..] == ts[1..][..k - 1];
          assert ts[1..][k - 1] == ts[k];
        }
    }
  }

  /** The first exception aborts the pipeline: its 1-based position `p`
      names the transformer that threw, transformers `1..p-1` all passed,
      and none after `p` ran. */
  lemma AbortOnFirstFailure(lib: Library, ts: seq<AnyTransformer>, rows: seq<Row>)
    requires AllConstructed(Some(ts))
    ensures var r := Applied(lib, Some(ts), rows);
      r.outcome.Fail? ==>
        var p := r.outcome.error.position;
        && 1 <= p <= |ts|
        && AllConstructed(Some(ts[..p - 1]))
        && Applied(lib, Some(ts[..p - 1]), rows) == RunResult(r.rows, Pass)
        && r.outcome.error.className == ClassName(ts[p - 1])
        && Step(lib, ts[p - 1], r.rows) == Failure(r.outcome.error.cause)
  {
    if ts != [] {
      RunStopsAtFailure(Steps(lib), ts, 1, rows);
      var r := Applied(lib, Some(ts), rows);
      if r.outcome.Fail? {
        var p := r.outcome.error.position;
        assert ts[p - 1] in ts;
        assert forall t | t in ts[..p - 1] :: t in ts;
      }
    }
  }

  /** Running a single transformer. */
  lemma RunOne(step: Stepper, t: AnyTransformer, first: nat, rows: seq<Row>)
    requires Accepts(step, [t])
    ensures var s := step(t, rows);
      RunFrom(step, [t], first, rows) ==
        if s.Success? then RunResult(s.value, Pass)
        else RunResult(rows, Fail(TransformationFailed(first, ClassName(t), s.error)))
  {
    assert [t][0] == t && [t][1..] == [];
  }

  /** Transformers run in list order on the same rows: appending one runs
      it on the rows the others left, at the next position, unless an
      earlier one threw. */
  lemma AppendOne(lib: Library, ts: seq<AnyTransformer>, t: AnyTransformer, rows: seq<Row>)
    requires AllConstructed(Some(ts)) && Constructed(t)
    ensures AllConstructed(Some(ts + [t]))
    ensures var r := Applied(lib, Some(ts), rows);
      Applied(lib, Some(ts + [t]), rows) ==
        if r.outcome.Fail? then r
        else var s := Step(lib, t, r.rows);
          if s.Success? then RunResult(s.value, Pass)
          else RunResult(r.rows, Fail(TransformationFailed(|ts| + 1, ClassName(t), s.error)))
  {
    assert forall u | u in ts + [t] :: u in ts || u == t;
    var step := Steps(lib);
    var r := Applied(lib, Some(ts), rows);
    if ts == [] {
      assert ts + [t] == [t];
      RunOne(step, t, 1, rows);
    } else {
      RunSequence(step, ts, [t], 1, rows);
      RunOne(step, t, |ts| + 1, r.rows);
    }
  }

  /** In this model only the date/time formatter throws out of a transform;
      every other transformer passes. */
  lemma OnlyDateTimeThrows(lib: Library, t: AnyTransformer, rows: seq<Row>)
    requires Constructed(t)
    ensures Step(lib, t, rows).Failure? ==> t.DateTimeFormatter?
  {
  }
}
