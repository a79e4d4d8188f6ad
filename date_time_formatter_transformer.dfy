/** `DateTimeFormatterTransformer`: parses an input column as a date/time,
    with a fixed order of fallbacks, and writes it back out with an output
    pattern, row by row, with per-row error markers. */
module DateTimeFormatterTransformer {
  import opened Values

  datatype Transformer = Transformer(input: string, format: string, output: string, inputFormat: Option<string>)

  /** The marker for a text that no parser accepts. */
  const InvalidDate := "Invalid Date!"
  /** The marker for any other failure in a row. */
  const FormatError := "Format Error!"

  const NullInput := "Input column cannot be null"
  const NullFormat := "Output format cannot be null"
  const NullOutput := "Output column cannot be null"
  const EmptyFormat := "Output format cannot be empty"

  /** The constructor: null checks in argument order, then a non-empty
      output pattern; the input pattern may be null. */
  function New(input: Option<string>, format: Option<string>, output: Option<string>, inputFormat: Option<string>): (r: Result<Transformer, string>)
    ensures r.Success? <==> input.Some? && format.Some? && output.Some? && format.value != ""
    ensures r.Success? ==> r.value == Transformer(input.value, format.value, output.value, inputFormat)
    ensures input.None? ==> r == Failure(NullInput)
    ensures input.Some? && format.None? ==> r == Failure(NullFormat)
    ensures input.Some? && format.Some? && output.None? ==> r == Failure(NullOutput)
    ensures input.Some? && format.Some? && output.Some? && format.value == "" ==> r == Failure(EmptyFormat)
  {
    if input.None? then Failure(NullInput)
    else if format.None? then Failure(NullFormat)
    else if output.None? then Failure(NullOutput)
    else if format.value == "" then Failure(EmptyFormat)
    else Success(Transformer(input.value, format.value, output.value, inputFormat))
  }

  /** What a constructed transformer guarantees. */
  predicate Valid(t: Transformer)
  {
    t.format != ""
  }

  /** The granularities tried with an input pattern, in order. */
  const WithPatternKinds: seq<TemporalKind> := [ZonedDateTime, LocalDateTime, LocalDate, YearMonth]
  /** The granularities tried with ISO parsing, in order: no year-month. */
  const FlexibleKinds: seq<TemporalKind> := [ZonedDateTime, LocalDateTime, LocalDate]

  /** A chain of nested try/catch blocks: each granularity is tried in
      turn and the first that parses wins; `None` when all of them fail. */
  function FirstParse(lib: Library, kinds: seq<TemporalKind>, pattern: Option<string>, text: string): (r: Option<Temporal>)
    ensures r.None? <==> forall j :: 0 <= j < |kinds| ==> lib.parseTemporal(kinds[j], pattern, text).None?
    ensures r.Some? ==> exists k :: (0 <= k < |kinds| && kinds[k] == r.value.kind
      && lib.parseTemporal(kinds[k], pattern, text) == Some(r.value.fields)
      && forall j :: 0 <= j < k ==> lib.parseTemporal(kinds[j], pattern, text).None?)
  {
    if kinds == [] then None
    else match lib.parseTemporal(kinds[0], pattern, text)
      case Some(fields) =>
        assert kinds[0] == kinds[0];
        Some(Temporal(kinds[0], fields))
      case None =>
        var r := FirstParse(lib, kinds[1..], pattern, text);
        if r.Some? then
          var k :| 0 <= k < |kinds[1..]| && kinds[1..][k] == r.value.kind
            && lib.parseTemporal(kinds[1..][k], pattern, text) == Some(r.value.fields)
            && forall j :: 0 <= j < k ==> lib.parseTemporal(kinds[1..][j], pattern, text).None?;
          assert kinds[k + 1] == r.value.kind;
          r
        else r
  }

  /** `parseWithInputFormat`: zoned, local date-time, date, year-month. It
      fails only when the text parses at no granularity at all. */
  function ParseWithInputFormat(lib: Library, pattern: string, text: string): (r: Option<Temporal>)
    ensures r.None? <==> forall kind :: lib.parseTemporal(kind, Some(pattern), text).None?
    ensures r.Some? ==> lib.parseTemporal(r.value.kind, Some(pattern), text) == Some(r.value.fields)
  {
    var r := FirstParse(lib, WithPatternKinds, Some(pattern), text);
    FirstParseFound(lib, WithPatternKinds, Some(pattern), text);
    EveryKindTried();
    r
  }

  /** `parseFlexible`: zoned, local date-time, date, all ISO. It fails
      exactly when none of those three parses. */
  function ParseFlexible(lib: Library, text: string): (r: Option<Temporal>)
    ensures r.None? <==> forall kind | kind != YearMonth :: lib.parseTemporal(kind, None, text).None?
    ensures r.Some? ==> lib.parseTemporal(r.value.kind, None, text) == Some(r.value.fields)
  {
    var r := FirstParse(lib, FlexibleKinds, None, text);
    FirstParseFound(lib, FlexibleKinds, None, text);
    EveryKindTried();
    r
  }

  /** With an input pattern every granularity is tried; ISO parsing tries
      all but the year-month. */
  lemma EveryKindTried()
    ensures forall kind :: kind in WithPatternKinds
    ensures forall kind | kind != YearMonth :: kind in FlexibleKinds
  {
    forall kind
      ensures kind in WithPatternKinds
      ensures kind != YearMonth ==> kind in FlexibleKinds
    {
      match kind
      case ZonedDateTime => assert WithPatternKinds[0] == FlexibleKinds[0] == kind;
      case LocalDateTime => assert WithPatternKinds[1] == FlexibleKinds[1] == kind;
      case LocalDate => assert WithPatternKinds[2] == FlexibleKinds[2] == kind;
      case YearMonth => assert WithPatternKinds[3] == kind;
    }
  }

  /** The granularity `FirstParse` settles on is one of those tried, and it
      parses the text into the fields returned. */
  lemma FirstParseFound(lib: Library, kinds: seq<TemporalKind>, pattern: Option<string>, text: string)
    ensures var r := FirstParse(lib, kinds, pattern, text);
      && (r.None? <==> forall kind | kind in kinds :: lib.parseTemporal(kind, pattern, text).None?)
      && (r.Some? ==> r.value.kind in kinds && lib.parseTemporal(r.value.kind, pattern, text) == Some(r.value.fields))
  {
    var r := FirstParse(lib, kinds, pattern, text);
    if r.Some? {
      var k :| 0 <= k < |kinds| && kinds[k] == r.value.kind
        && lib.parseTemporal(kinds[k], pattern, text) == Some(r.value.fields)
        && forall j :: 0 <= j < k ==> lib.parseTemporal(kinds[j], pattern, text).None?;
    }
  }

  /** Whether an input parser is built: only for a non-empty input pattern. */
  predicate HasInputParser(t: Transformer)
  {
    t.inputFormat.Some? && t.inputFormat.value != ""
  }

  /** The value a row's output column receives: null exactly for a null
      input, otherwise a text. */
  function FormatCell(lib: Library, t: Transformer, row: Row): (v: Value)
    ensures v == Null <==> Get(row, t.input) == Null
    ensures v != Null ==> v.Str?
  {
    var raw := Get(row, t.input);
    if raw == Null then Null
    else
      var text := ToText(lib, raw);
      if text == "" then Str("")
      else
        var parsed := if HasInputParser(t) then ParseWithInputFormat(lib, t.inputFormat.value, text)
                      else ParseFlexible(lib, text);
        match parsed
        case None => Str(InvalidDate)
        case Some(temporal) =>
          match lib.formatTemporal(t.format, temporal)
          case Some(s) => Str(s)
          case None => Str(FormatError)
  }

  /** One row after the transform: only the output column is written. */
  function FormatRow(lib: Library, t: Transformer, row: Row): (r: Row)
    ensures r.Keys == row.Keys + {t.output}
    ensures forall k | k in row && k != t.output :: r[k] == row[k]
    ensures r[t.output] == FormatCell(lib, t, row)
  {
    row[t.output := FormatCell(lib, t, row)]
  }

  /** The rows after the transform, or the input pattern that made
      `DateTimeFormatter.ofPattern` throw before any row was touched. */
  function Apply(lib: Library, t: Transformer, rows: seq<Row>): (r: Result<seq<Row>, string>)
    ensures r.Success? ==> |r.value| == |rows|
    ensures r.Success? && (|rows| == 0 || !lib.isPattern(t.format)) ==> r.value == rows
    ensures r.Failure? <==> |rows| > 0 && lib.isPattern(t.format) && HasInputParser(t) && !lib.isPattern(t.inputFormat.value)
    ensures r.Success? && |rows| > 0 && lib.isPattern(t.format) ==>
      forall i | 0 <= i < |rows| :: r.value[i] == FormatRow(lib, t, rows[i])
  {
    if |rows| == 0 then Success(rows)
    else if !lib.isPattern(t.format) then Success(rows)
    else if HasInputParser(t) && !lib.isPattern(t.inputFormat.value) then Failure(t.inputFormat.value)
    else Success(seq(|rows|, i requires 0 <= i < |rows| => FormatRow(lib, t, rows[i])))
  }

  /** `transform`: checks the output pattern (skipping the whole transform
      when it is invalid), builds the input parser (an invalid input pattern
      escapes as an exception), then writes the output column of every row
      in place. */
  method Transform(lib: Library, t: Transformer, ds: Dataset) returns (outcome: Outcome<string>)
    modifies ds
    ensures Apply(lib, t, old(ds.rows)).Success? ==> outcome == Pass && ds.rows == Apply(lib, t, old(ds.rows)).value
    ensures Apply(lib, t, old(ds.rows)).Failure? ==>
      outcome == Fail(Apply(lib, t, old(ds.rows)).error) && ds.rows == old(ds.rows)
  {
    if |ds.rows| == 0 {
      return Pass;
    }
    if !lib.isPattern(t.format) {
      return Pass;
    }
    if HasInputParser(t) && !lib.isPattern(t.inputFormat.value) {
      return Fail(t.inputFormat.value);
    }
    var i := 0;
    while i < |ds.rows|
      invariant 0 <= i <= |ds.rows| == |old(ds.rows)|
      invariant forall k :: 0 <= k < i ==> ds.rows[k] == FormatRow(lib, t, old(ds.rows)[k])
      invariant forall k :: i <= k < |ds.rows| ==> ds.rows[k] == old(ds.rows)[k]
    {
      var row := ds.rows[i];
      ds.rows := ds.rows[i := FormatRow(lib, t, row)];
      i := i + 1;
    }
    outcome := Pass;
  }

  /** A null input gives a null output and an empty text gives an empty
      text, without any parsing. */
  lemma NullAndEmptyPassThrough(lib: Library, t: Transformer, row: Row)
    ensures Get(row, t.input) == Null ==> FormatCell(lib, t, row) == Null
    ensures Get(row, t.input) == Str("") ==> FormatCell(lib, t, row) == Str("")
  {
  }

  /** With an input pattern a year-month is accepted only after the zoned,
      local date-time and date parsers have all failed. */
  lemma {:induction false} YearMonthIsLastResort(lib: Library, pattern: string, text: string)
    ensures ParseWithInputFormat(lib, pattern, text).Some? && ParseWithInputFormat(lib, pattern, text).value.kind == YearMonth ==>
      && lib.parseTemporal(ZonedDateTime, Some(pattern), text).None?
      && lib.parseTemporal(LocalDateTime, Some(pattern), text).None?
      && lib.parseTemporal(LocalDate, Some(pattern), text).None?
  {
    var r := ParseWithInputFormat(lib, pattern, text);
    if r.Some? && r.value.kind == YearMonth {
      var k :| 0 <= k < 4 && WithPatternKinds[k] == r.value.kind
        && lib.parseTemporal(WithPatternKinds[k], Some(pattern), text) == Some(r.value.fields)
        && forall j :: 0 <= j < k ==> lib.parseTemporal(WithPatternKinds[j], Some(pattern), text).None?;
      assert k == 3;
      assert WithPatternKinds[0] == ZonedDateTime && WithPatternKinds[1] == LocalDateTime && WithPatternKinds[2] == LocalDate;
    }
  }

  /** ISO parsing never yields a year-month. */
  lemma {:induction false} FlexibleNeverYearMonth(lib: Library, text: string)
    ensures ParseFlexible(lib, text).Some? ==> ParseFlexible(lib, text).value.kind != YearMonth
  {
    var r := ParseFlexible(lib, text);
    if r.Some? {
      var k :| 0 <= k < 3 && FlexibleKinds[k] == r.value.kind
        && lib.parseTemporal(FlexibleKinds[k], None, text) == Some(r.value.fields)
        && forall j :: 0 <= j < k ==> lib.parseTemporal(FlexibleKinds[j], None, text).None?;
    }
  }

  /** A text that no parser accepts gives `InvalidDate`; a parsed date the
      output pattern cannot render gives `FormatError`. */
  lemma Markers(lib: Library, t: Transformer, row: Row)
    requires Get(row, t.input) != Null && ToText(lib, Get(row, t.input)) != ""
    ensures var text := ToText(lib, Get(row, t.input));
      var parsed := if HasInputParser(t) then ParseWithInputFormat(lib, t.inputFormat.value, text) else ParseFlexible(lib, text);
      && (parsed.None? ==> FormatCell(lib, t, row) == Str(InvalidDate))
      && (parsed.Some? && lib.formatTemporal(t.format, parsed.value).None? ==> FormatCell(lib, t, row) == Str(FormatError))
      && (parsed.Some? && lib.formatTemporal(t.format, parsed.value).Some? ==>
            FormatCell(lib, t, row) == Str(lib.formatTemporal(t.format, parsed.value).value))
  {
  }
}
