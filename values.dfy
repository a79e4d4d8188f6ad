/** Cells, rows and the dataset that every transformer works on, and the
    library services (number parsing, string templating, date/time) that the
    transformers call but whose behaviour is not part of this model. */
module Values {

  datatype Option<+T> = None | Some(value: T)

  datatype Result<+T, +E> = Success(value: T) | Failure(error: E)

  /** The outcome of a call that returns nothing: it passes or it throws. */
  datatype Outcome<+E> = Pass | Fail(error: E)

  /** A cell of a row: Java `null`, a `String`, or a `Number`. Numbers are
      the `Double`s that transformers write, read here as exact reals. */
  datatype Value = Null | Str(text: string) | Num(number: real)

  /** A row maps column names to cells. */
  type Row = map<string, Value>

  /** `Map.get`: a missing key reads as null, like a key holding null. */
  function Get(row: Row, key: string): Value
  {
    if key in row then row[key] else Null
  }

  /** The granularities `java.time` can parse a text into. */
  datatype TemporalKind = ZonedDateTime | LocalDateTime | LocalDate | YearMonth

  /** A parsed date/time: its granularity and the fields the parser read. */
  datatype Temporal = Temporal(kind: TemporalKind, fields: seq<int>)

  /** The library calls the transformers make, as uninterpreted functions.
      A `None` result stands for the exception the call throws. */
  datatype Library = Library(
    // `Double.parseDouble(text)`; `None` is a NumberFormatException
    parseDouble: string -> Option<real>,
    // `Double.toString(number)`, which `Object.toString` yields for a Number
    doubleText: real -> string,
    // `String.format(template, args)`; `None` is an IllegalFormatException
    format: (string, seq<Value>) -> Option<string>,
    // whether `DateTimeFormatter.ofPattern(pattern)` accepts the pattern
    isPattern: string -> bool,
    // `Kind.parse(text, formatter)`, or `Kind.parse(text)` (ISO) when no
    // pattern is given; `None` is a DateTimeParseException
    parseTemporal: (TemporalKind, Option<string>, string) -> Option<seq<int>>,
    // `formatter.format(temporal)`; `None` is a DateTimeException
    formatTemporal: (string, Temporal) -> Option<string>)

  /** `Object.toString` of a non-null cell. */
  function ToText(lib: Library, v: Value): string
    requires v != Null
  {
    match v
    case Str(s) => s
    case Num(x) => lib.doubleText(x)
  }

  /** The `List<Map<String, Object>>` that the pipeline threads through
      every transformer and that each transformer updates in place. */
  class Dataset {
    var rows: seq<Row>

    constructor (rows: seq<Row>)
      ensures this.rows == rows
    {
      this.rows := rows;
    }
  }
}
