# Report generator row-transformation pipeline, in Dafny

This project models the core of a small Java report generator. A CSV file
is split into records. The records become rows, each row a map from column
name to a cell (Java `null`, a `String` or a `Number`). A configured list of
transformers then rewrites the shared list of rows in place, one
transformer after another:

- **ordering** sorts the rows stably by one column, with a null-aware
  comparator, ascending or descending;
- **aggregator** groups the rows by one column and replaces them with one
  row per group holding SUM/AVG/MIN/MAX/COUNT results;
- **math operation** writes the sum or difference of two input columns
  into an output column, with a lenient number coercion and a
  `"Calc Error!"` marker for rows that fail;
- **string formatter** fills a `String.format` template from some input
  columns and writes the text, with a `"Format Error!"` marker;
- **date/time formatter** parses a column as a date/time through a fixed
  chain of fallbacks and re-formats it, with `"Invalid Date!"` and
  `"Format Error!"` markers.

`ReportGenerator` checks the command line, converts the records into row
maps (dropping records whose width differs from the header), and runs the
transformers in list order. The first exception aborts the run and is
reported with the transformer's 1-based position and class name.

Layout, one module per file:

| file | module | what it holds |
|---|---|---|
| `values.dfy` | `Values` | cells, rows, `Option`/`Result`/`Outcome`, the `Library` of JDK calls, and the `Dataset` class whose `rows` every transformer updates |
| `strings.dfy` | `Strings` | `String.trim`, `replace(char, char)`, and `compareTo` over the texts' UTF-16 code units |
| `stable_sort.dfy` | `StableSort` | the contract of `List.sort`: an insertion sort proved to be a permutation, and sorted and stable under a total preorder |
| `ordering_transformer.dfy` | `OrderingTransformer` | the comparator and the in-place sort |
| `aggregator_transformer.dfy` | `AggregatorTransformer` | grouping, `calculateAggregates`, `tryParseDouble` |
| `math_operation_transformer.dfy` | `MathOperationTransformer` | `parseDouble` and the per-row calculation |
| `string_formatter_transformer.dfy` | `StringFormatterTransformer` | argument collection and conversion, per-row formatting |
| `date_time_formatter_transformer.dfy` | `DateTimeFormatterTransformer` | the parse fallback chains and the per-row decisions |
| `report_generator.dfy` | `ReportGenerator` | `parseArguments`, `convertToMapList`, `applyTransformations` |

Each transformer's `transform` is a method on a `Dataset` (`modifies ds`)
proved against a function that gives the rows afterwards. The properties
the Java code promises are lemmas about those functions. Library calls
(`Double.parseDouble`, `Double.toString`, `String.format`,
`DateTimeFormatter.ofPattern`, the `java.time` parsers and `format`) are
function-valued fields of a `Library` value passed in as a parameter. A
`None` result stands for the exception the call throws.

Where the code and its design description disagree, the model follows the
code:

- `StringFormatterTransformer` hands each argument's text to
  `Double.parseDouble` without turning commas into points, as the other
  two coercions do, so `"12,5"` stays text there
  (`StringFormatterTransformer.NoCommaReplacement`). It does not call
  `trim` either, but `Double.parseDouble` itself ignores surrounding
  whitespace, so on trimming the code and the design agree.
- Null sort values come first under DESC as well as ASC. The lambda
  returns +1 for a null left value under DESC, and `reversed()` turns that
  round (`OrderingTransformer.NullsFirst`, `OrderingTransformer.DescendingExample`).
- Without an input pattern, the date/time formatter tries only zoned,
  local date-time and local date ISO parsing. There is no year-month
  fallback (`DateTimeFormatterTransformer.FlexibleNeverYearMonth`).

## Model

| member | source | states |
|---|---|---|
| Strings.Trim | java_test_assignment_2025/src/main/java/com/playtech/report/transformer/impl/MathOperationTransformer.java:103 | the trimmed text is the part of the input between a leading and a trailing run of characters at most U+0020; it neither starts nor ends with such a character |
| Strings.Replace | java_test_assignment_2025/src/main/java/com/playtech/report/transformer/impl/MathOperationTransformer.java:103 | same length; every `from` becomes `to` and every other character stays |
| Strings.Normalize | java_test_assignment_2025/src/main/java/com/playtech/report/transformer/impl/AggregatorTransformer.java:126 | `trim().replace(',', '.')` has no comma left, is as long as the trimmed text, and is empty exactly when the trimmed text is |
| Strings.CodeUnits | java_test_assignment_2025/src/main/java/com/playtech/report/transformer/impl/OrderingTransformer.java:67 | a character below U+10000 is one code unit, itself and not a surrogate; any other is a high surrogate and a low surrogate from which it is recovered |
| Strings.Utf16Injective | java_test_assignment_2025/src/main/java/com/playtech/report/transformer/impl/OrderingTransformer.java:67 | different texts have different UTF-16 encodings |
| Strings.CompareText | java_test_assignment_2025/src/main/java/com/playtech/report/transformer/impl/OrderingTransformer.java:67 | `compareTo` compares the UTF-16 code units of the two texts and is zero exactly on equal texts |
| Strings.CompareTextAntisymmetric | java_test_assignment_2025/src/main/java/com/playtech/report/transformer/impl/OrderingTransformer.java:67 | swapping the operands of `compareTo` negates it |
| Strings.CompareTextTransitive | java_test_assignment_2025/src/main/java/com/playtech/report/transformer/impl/OrderingTransformer.java:67 | `compareTo` orders texts transitively |
| Strings.SurrogatesBeforeHighCharacters | java_test_assignment_2025/src/main/java/com/playtech/report/transformer/impl/OrderingTransformer.java:67 | U+1F600 sorts before U+FF5E although its value is larger, because its first code unit is a surrogate |
| StableSort.Insert | java_test_assignment_2025/src/main/java/com/playtech/report/transformer/impl/OrderingTransformer.java:76 | inserting one element lengthens the sequence by one (its place and the permutation are `InsertPermutes`, `InsertSorted` and `InsertStable`) |
| StableSort.Sort | java_test_assignment_2025/src/main/java/com/playtech/report/transformer/impl/OrderingTransformer.java:76 | the sort keeps the length (permutation, order and stability are the lemmas below) |
| StableSort.SortPermutes | java_test_assignment_2025/src/main/java/com/playtech/report/transformer/impl/OrderingTransformer.java:76 | the sort returns a permutation of its input (same multiset, same length) |
| StableSort.SortSorted | java_test_assignment_2025/src/main/java/com/playtech/report/transformer/impl/OrderingTransformer.java:76 | under a comparator that is a total preorder on the elements, the sort's output is in comparator order |
| StableSort.SortStable | java_test_assignment_2025/src/main/java/com/playtech/report/transformer/impl/OrderingTransformer.java:76 | under a total preorder, the elements that tie with any `y` come out in the order they went in |
| StableSort.InsertSorted | java_test_assignment_2025/src/main/java/com/playtech/report/transformer/impl/OrderingTransformer.java:76 | inserting into a sorted sequence keeps it sorted |
| StableSort.InsertStable | java_test_assignment_2025/src/main/java/com/playtech/report/transformer/impl/OrderingTransformer.java:76 | inserting `x` puts it after every element it ties with |
| OrderingTransformer.New | java_test_assignment_2025/src/main/java/com/playtech/report/transformer/impl/OrderingTransformer.java:19-25 | construction succeeds exactly when the sort column is given; a missing direction becomes ASC; the failure carries the constructor's message |
| OrderingTransformer.CompareNumbers | java_test_assignment_2025/src/main/java/com/playtech/report/transformer/impl/OrderingTransformer.java:61-64 | `Double.compare`: negative, zero or positive exactly as the first number is smaller than, equal to or larger than the second |
| OrderingTransformer.CompareCells | java_test_assignment_2025/src/main/java/com/playtech/report/transformer/impl/OrderingTransformer.java:49-68 | equal sort values tie; a single null goes before the other value under ASC and after it under DESC, before the reversal |
| OrderingTransformer.Compare | java_test_assignment_2025/src/main/java/com/playtech/report/transformer/impl/OrderingTransformer.java:49-73 | rows with equal sort values tie, and a row with a null sort value comes before one without, in both directions |
| OrderingTransformer.Comparator | java_test_assignment_2025/src/main/java/com/playtech/report/transformer/impl/OrderingTransformer.java:49-76 | the comparator handed to `sort` ties every row with itself |
| OrderingTransformer.Ordered | java_test_assignment_2025/src/main/java/com/playtech/report/transformer/impl/OrderingTransformer.java:33-46 | the result is a permutation of the rows; with no rows, or a sort column missing from the first row, the rows are unchanged |
| OrderingTransformer.Transform | java_test_assignment_2025/src/main/java/com/playtech/report/transformer/impl/OrderingTransformer.java:28-76 | the in-place sort leaves the dataset holding `Ordered` of the old rows, a permutation of them |
| OrderingTransformer.NullsFirst | java_test_assignment_2025/src/main/java/com/playtech/report/transformer/impl/OrderingTransformer.java:56-58 | two null sort values tie; a null sort value comes before a non-null one under ASC and under DESC, in both argument orders |
| OrderingTransformer.DescendingReversesAscending | java_test_assignment_2025/src/main/java/com/playtech/report/transformer/impl/OrderingTransformer.java:71-73 | on two non-null sort values, DESC is ASC with the sign turned round |
| OrderingTransformer.CellsFlip | java_test_assignment_2025/src/main/java/com/playtech/report/transformer/impl/OrderingTransformer.java:49-67 | swapping two sort values flips the sign of the lambda |
| OrderingTransformer.CellsChain | java_test_assignment_2025/src/main/java/com/playtech/report/transformer/impl/OrderingTransformer.java:60-67 | on values that are all numbers or all texts, "not after" is transitive |
| OrderingTransformer.HomogeneousIsTotalPreorder | java_test_assignment_2025/src/main/java/com/playtech/report/transformer/impl/OrderingTransformer.java:49-73 | on a sort column of numbers only or texts only (nulls aside), the comparator is a total preorder, as `Comparator` demands |
| OrderingTransformer.OrderedIsSorted | java_test_assignment_2025/src/main/java/com/playtech/report/transformer/impl/OrderingTransformer.java:76 | on such a column the rows come out in comparator order |
| OrderingTransformer.OrderedIsStable | java_test_assignment_2025/src/main/java/com/playtech/report/transformer/impl/OrderingTransformer.java:76 | on such a column rows that compare equal keep their relative order |
| OrderingTransformer.NullsLead | java_test_assignment_2025/src/main/java/com/playtech/report/transformer/impl/OrderingTransformer.java:56-58 | on a homogeneous sort column, after the sort every row with a null sort value precedes every row with a non-null one, under ASC and DESC |
| OrderingTransformer.AscendingExample | java_test_assignment_2025/src/main/java/com/playtech/report/transformer/impl/OrderingTransformer.java:56-67 | sort values null, "3", "1" come out ascending as null, "1", "3" |
| OrderingTransformer.DescendingExample | java_test_assignment_2025/src/main/java/com/playtech/report/transformer/impl/OrderingTransformer.java:71-76 | sort values null, "3", "1" come out descending as null, "3", "1": the null stays in front |
| OrderingTransformer.MixedKindsCycle | java_test_assignment_2025/src/main/java/com/playtech/report/transformer/impl/OrderingTransformer.java:61-67 | on a column mixing numbers and texts the comparator is cyclic (9 < 10 < "5" < 9), so no sorted order exists there |
| MathOperationTransformer.New | java_test_assignment_2025/src/main/java/com/playtech/report/transformer/impl/MathOperationTransformer.java:20-28 | construction succeeds exactly when all arguments are given and there are at least two inputs; each null argument fails with its own message, in argument order |
| MathOperationTransformer.ParseDouble | java_test_assignment_2025/src/main/java/com/playtech/report/transformer/impl/MathOperationTransformer.java:92-110 | null and blank text read as 0; a number reads as itself; other text is parsed after trimming and turning commas into points, and a parse failure is the exception |
| MathOperationTransformer.Combine | java_test_assignment_2025/src/main/java/com/playtech/report/transformer/impl/MathOperationTransformer.java:54-63 | the result is a number exactly when both operands coerced, otherwise `"Calc Error!"`; ADD gives the sum and SUBTRACT the difference of the operands |
| MathOperationTransformer.Calculate | java_test_assignment_2025/src/main/java/com/playtech/report/transformer/impl/MathOperationTransformer.java:54-86 | a row's result is a number exactly when both of its first two inputs coerce, otherwise `"Calc Error!"` |
| MathOperationTransformer.CalcRow | java_test_assignment_2025/src/main/java/com/playtech/report/transformer/impl/MathOperationTransformer.java:74-86 | a row gains or overwrites only the output column, which holds the calculation or the marker; every other key keeps its value |
| MathOperationTransformer.Apply | java_test_assignment_2025/src/main/java/com/playtech/report/transformer/impl/MathOperationTransformer.java:45-87 | same number of rows; each row keeps its other columns and gets its calculated output cell |
| MathOperationTransformer.Transform | java_test_assignment_2025/src/main/java/com/playtech/report/transformer/impl/MathOperationTransformer.java:32-87 | the row loop leaves every row transformed by `CalcRow`; row count, row order and every other column are unchanged |
| MathOperationTransformer.CalculateCases | java_test_assignment_2025/src/main/java/com/playtech/report/transformer/impl/MathOperationTransformer.java:54-63 | with both inputs coerced the output is `v1 + v2` for ADD and `v1 - v2` for SUBTRACT; it is `"Calc Error!"` exactly when either coercion fails |
| MathOperationTransformer.OnlyFirstTwoInputs | java_test_assignment_2025/src/main/java/com/playtech/report/transformer/impl/MathOperationTransformer.java:39-40 | rows that agree on the first two inputs get the same result, and extra configured inputs change nothing |
| MathOperationTransformer.NullCountsAsZero | java_test_assignment_2025/src/main/java/com/playtech/report/transformer/impl/MathOperationTransformer.java:93-96 | SUBTRACT with a null first input and a coercible second input `x` yields `-x` |
| StringFormatterTransformer.New | java_test_assignment_2025/src/main/java/com/playtech/report/transformer/impl/StringFormatterTransformer.java:20-35 | construction succeeds exactly with a non-empty input list, a non-empty template and an output column; a missing or empty input list, then a missing or empty template, then a missing output column each fail with their own message |
| StringFormatterTransformer.Argument | java_test_assignment_2025/src/main/java/com/playtech/report/transformer/impl/StringFormatterTransformer.java:66-68 | a missing key gives the empty text; a present key gives its value, null included |
| StringFormatterTransformer.Convert | java_test_assignment_2025/src/main/java/com/playtech/report/transformer/impl/StringFormatterTransformer.java:74-88 | null stays null; a non-null argument becomes the number its text parses to, or stays as it is when the parse fails |
| StringFormatterTransformer.ConvertedArgs | java_test_assignment_2025/src/main/java/com/playtech/report/transformer/impl/StringFormatterTransformer.java:66-88 | one converted argument per input column, in input-column order |
| StringFormatterTransformer.FormatCell | java_test_assignment_2025/src/main/java/com/playtech/report/transformer/impl/StringFormatterTransformer.java:92-101 | the output cell is text: the template filled with the converted arguments, or `"Format Error!"` when formatting throws |
| StringFormatterTransformer.FormatRow | java_test_assignment_2025/src/main/java/com/playtech/report/transformer/impl/StringFormatterTransformer.java:92-101 | a row gains or overwrites only the output column; every other key keeps its value |
| StringFormatterTransformer.Apply | java_test_assignment_2025/src/main/java/com/playtech/report/transformer/impl/StringFormatterTransformer.java:64-101 | same number of rows; each row keeps its other columns and gets its formatted output cell |
| StringFormatterTransformer.Transform | java_test_assignment_2025/src/main/java/com/playtech/report/transformer/impl/StringFormatterTransformer.java:43-102 | the row loop, filling an argument array element by element, leaves every row transformed by `FormatRow`, missing input columns included; row count and every other column are unchanged |
| StringFormatterTransformer.MissingAndNullArguments | java_test_assignment_2025/src/main/java/com/playtech/report/transformer/impl/StringFormatterTransformer.java:85-87 | a present key holding null is passed as null; a missing key is passed as the empty text unless that parses as a number |
| StringFormatterTransformer.NoCommaReplacement | java_test_assignment_2025/src/main/java/com/playtech/report/transformer/impl/StringFormatterTransformer.java:79 | a text argument stays text exactly when its untrimmed, unreplaced text does not parse |
| StringFormatterTransformer.FailureIsPerRow | java_test_assignment_2025/src/main/java/com/playtech/report/transformer/impl/StringFormatterTransformer.java:97-101 | a row's output depends only on that row's arguments, so one row's failure does not affect another |
| StringFormatterTransformer.NumberArgumentKept | java_test_assignment_2025/src/main/java/com/playtech/report/transformer/impl/StringFormatterTransformer.java:79-84 | when parsing reads back what `Double.toString` writes, a number argument is passed to the template as the same number |
| DateTimeFormatterTransformer.New | java_test_assignment_2025/src/main/java/com/playtech/report/transformer/impl/DateTimeFormatterTransformer.java:35-43 | construction succeeds exactly when input, output pattern and output column are given and the pattern is non-empty; each failure has its own message, in argument order |
| DateTimeFormatterTransformer.FirstParse | java_test_assignment_2025/src/main/java/com/playtech/report/transformer/impl/DateTimeFormatterTransformer.java:119-139 | the nested try/catch chain fails exactly when every granularity fails, and otherwise returns the first granularity that parses, all earlier ones having failed |
| DateTimeFormatterTransformer.ParseWithInputFormat | java_test_assignment_2025/src/main/java/com/playtech/report/transformer/impl/DateTimeFormatterTransformer.java:119-139 | with an input pattern the parse fails only when the text parses at no granularity, and a result is what its granularity's parser returned |
| DateTimeFormatterTransformer.ParseFlexible | java_test_assignment_2025/src/main/java/com/playtech/report/transformer/impl/DateTimeFormatterTransformer.java:143-159 | ISO parsing fails exactly when the zoned, local date-time and local date parsers all fail, and a result is what its parser returned |
| DateTimeFormatterTransformer.YearMonthIsLastResort | java_test_assignment_2025/src/main/java/com/playtech/report/transformer/impl/DateTimeFormatterTransformer.java:119-139 | with an input pattern, a year-month is returned only after the zoned, local date-time and local date parsers have all failed |
| DateTimeFormatterTransformer.FlexibleNeverYearMonth | java_test_assignment_2025/src/main/java/com/playtech/report/transformer/impl/DateTimeFormatterTransformer.java:143-159 | ISO parsing never yields a year-month |
| DateTimeFormatterTransformer.FormatCell | java_test_assignment_2025/src/main/java/com/playtech/report/transformer/impl/DateTimeFormatterTransformer.java:76-112 | the output cell is null exactly when the input is, and text otherwise |
| DateTimeFormatterTransformer.FormatRow | java_test_assignment_2025/src/main/java/com/playtech/report/transformer/impl/DateTimeFormatterTransformer.java:74-113 | a row gains or overwrites only the output column; every other key keeps its value |
| DateTimeFormatterTransformer.Apply | java_test_assignment_2025/src/main/java/com/playtech/report/transformer/impl/DateTimeFormatterTransformer.java:48-69 | with no rows or an invalid output pattern the rows are unchanged; the transform throws exactly when there are rows, the output pattern is valid and a non-empty input pattern is invalid; otherwise every row is `FormatRow` of the old one |
| DateTimeFormatterTransformer.Transform | java_test_assignment_2025/src/main/java/com/playtech/report/transformer/impl/DateTimeFormatterTransformer.java:47-115 | the method passes with the rows of `Apply`, or throws its error leaving the rows untouched |
| DateTimeFormatterTransformer.NullAndEmptyPassThrough | java_test_assignment_2025/src/main/java/com/playtech/report/transformer/impl/DateTimeFormatterTransformer.java:77-87 | a null input gives a null output, an empty text an empty text |
| DateTimeFormatterTransformer.Markers | java_test_assignment_2025/src/main/java/com/playtech/report/transformer/impl/DateTimeFormatterTransformer.java:93-112 | an unparsable text gives `"Invalid Date!"`, a parsed value the pattern cannot render gives `"Format Error!"`, otherwise the rendered text |
| AggregatorTransformer.New | java_test_assignment_2025/src/main/java/com/playtech/report/transformer/impl/AggregatorTransformer.java:21-27 | construction succeeds exactly with a group-by column and a non-empty definition list; each failure has its own message, in order |
| AggregatorTransformer.TryParseDouble | java_test_assignment_2025/src/main/java/com/playtech/report/transformer/impl/AggregatorTransformer.java:120-134 | null, blank and unparsable values give nothing; a number gives itself; other text is parsed after trimming and turning commas into points |
| AggregatorTransformer.CoercibleIndices | java_test_assignment_2025/src/main/java/com/playtech/report/transformer/impl/AggregatorTransformer.java:87-93 | the positions, in increasing order, of exactly the group's rows whose column coerces |
| AggregatorTransformer.Coerced | java_test_assignment_2025/src/main/java/com/playtech/report/transformer/impl/AggregatorTransformer.java:87-93 | the values used by SUM/AVG/MIN/MAX are never more than the rows, each is a row's coerced value, and every row's coerced value is among them |
| AggregatorTransformer.CoercedByPosition | java_test_assignment_2025/src/main/java/com/playtech/report/transformer/impl/AggregatorTransformer.java:87-93 | the values used are the coercible rows' values position by position: one per such row, duplicates kept, in row order |
| AggregatorTransformer.NonNullCount | java_test_assignment_2025/src/main/java/com/playtech/report/transformer/impl/AggregatorTransformer.java:105-108 | the count is at most the group size and zero exactly when the column is null throughout |
| AggregatorTransformer.MinOf | java_test_assignment_2025/src/main/java/com/playtech/report/transformer/impl/AggregatorTransformer.java:103 | the minimum is one of the values and no larger than any |
| AggregatorTransformer.MaxOf | java_test_assignment_2025/src/main/java/com/playtech/report/transformer/impl/AggregatorTransformer.java:104 | the maximum is one of the values and no smaller than any |
| AggregatorTransformer.AggregateValue | java_test_assignment_2025/src/main/java/com/playtech/report/transformer/impl/AggregatorTransformer.java:95-113 | COUNT is the number of non-null values; with no coercible value every other method gives 0.0 |
| AggregatorTransformer.SumOf | java_test_assignment_2025/src/main/java/com/playtech/report/transformer/impl/AggregatorTransformer.java:101 | `DoubleStream.sum` as the recursive sum of the values; its bounds are `SumAtLeast` and `SumAtMost` |
| AggregatorTransformer.Aggregates | java_test_assignment_2025/src/main/java/com/playtech/report/transformer/impl/AggregatorTransformer.java:78-117 | one numeric entry per output column of the definitions |
| AggregatorTransformer.CalculateAggregates | java_test_assignment_2025/src/main/java/com/playtech/report/transformer/impl/AggregatorTransformer.java:78-117 | the loop filling the result map definition by definition yields `Aggregates` |
| AggregatorTransformer.GroupKeys | java_test_assignment_2025/src/main/java/com/playtech/report/transformer/impl/AggregatorTransformer.java:48-55 | the group values are distinct, and are exactly the non-null values the rows hold under the group-by key |
| AggregatorTransformer.Members | java_test_assignment_2025/src/main/java/com/playtech/report/transformer/impl/AggregatorTransformer.java:48-55 | a group holds only rows with its value, and is empty exactly when no row has that value |
| AggregatorTransformer.MembersPartition | java_test_assignment_2025/src/main/java/com/playtech/report/transformer/impl/AggregatorTransformer.java:48-55 | every occurrence of a row belongs to the group of its own value and to no other |
| AggregatorTransformer.AggregatedRow | java_test_assignment_2025/src/main/java/com/playtech/report/transformer/impl/AggregatorTransformer.java:58-67 | a new row has exactly the group-by key and every output column |
| AggregatorTransformer.Aggregated | java_test_assignment_2025/src/main/java/com/playtech/report/transformer/impl/AggregatorTransformer.java:32-72 | with no rows, or a group-by key missing from the first row, the rows are unchanged; otherwise there is one row per distinct non-null group value, row `i` being `AggregatedRow` of the `i`-th value |
| AggregatorTransformer.Transform | java_test_assignment_2025/src/main/java/com/playtech/report/transformer/impl/AggregatorTransformer.java:31-75 | the grouping and list replacement leave the dataset holding `Aggregated` of the old rows |
| AggregatorTransformer.OneRowPerGroup | java_test_assignment_2025/src/main/java/com/playtech/report/transformer/impl/AggregatorTransformer.java:48-72 | when no output column is named like the group-by column, each new row holds its own group value under the group-by key: one row per distinct non-null value, and no other row |
| AggregatorTransformer.AggregatedKeys | java_test_assignment_2025/src/main/java/com/playtech/report/transformer/impl/AggregatorTransformer.java:58-67 | when no output column is named like the group-by column, new row `i` holds the `i`-th group value under the group-by key |
| AggregatorTransformer.GroupValueOverwritten | java_test_assignment_2025/src/main/java/com/playtech/report/transformer/impl/AggregatorTransformer.java:63-65 | an output column named like the group-by key overwrites the group value with a number in every new row |
| AggregatorTransformer.GroupAggregate | java_test_assignment_2025/src/main/java/com/playtech/report/transformer/impl/AggregatorTransformer.java:53 | a new row's output entry is its definition applied to exactly that group's rows, unless a later definition writes the same column |
| AggregatorTransformer.LastDefinitionWins | java_test_assignment_2025/src/main/java/com/playtech/report/transformer/impl/AggregatorTransformer.java:114 | an output column holds the value of the last definition that writes it |
| AggregatorTransformer.KeyHoldsGroup | java_test_assignment_2025/src/main/java/com/playtech/report/transformer/impl/AggregatorTransformer.java:63 | without an output column of the same name, the new row holds the group value under the group-by key |
| AggregatorTransformer.CoercionAgreesWithMath | java_test_assignment_2025/src/main/java/com/playtech/report/transformer/impl/AggregatorTransformer.java:120-134 | the aggregator's coercion equals the math transformer's except on null and blank text, which it discards where the other reads 0 |
| AggregatorTransformer.CoercedNotMoreThanCount | java_test_assignment_2025/src/main/java/com/playtech/report/transformer/impl/AggregatorTransformer.java:87-108 | the values SUM/AVG/MIN/MAX use never outnumber the non-null values COUNT counts |
| AggregatorTransformer.CountCountsNonNull | java_test_assignment_2025/src/main/java/com/playtech/report/transformer/impl/AggregatorTransformer.java:105-108 | COUNT is the number of non-null raw values, coercible or not; it is at least the number of coerced values and zero exactly for an all-null column |
| AggregatorTransformer.NoValuesGiveZero | java_test_assignment_2025/src/main/java/com/playtech/report/transformer/impl/AggregatorTransformer.java:95-98 | with no coercible value every method but COUNT gives 0.0 |
| AggregatorTransformer.MeanBounds | java_test_assignment_2025/src/main/java/com/playtech/report/transformer/impl/AggregatorTransformer.java:101-104 | the mean of a non-empty list lies between its minimum and maximum |
| AggregatorTransformer.MinAvgMax | java_test_assignment_2025/src/main/java/com/playtech/report/transformer/impl/AggregatorTransformer.java:101-104 | on the same column MIN <= AVG <= MAX whenever some value coerces |
| ReportGenerator.ParseArguments | java_test_assignment_2025/src/main/java/com/playtech/ReportGenerator.java:71-76 | succeeds exactly with three arguments, taken in order as CSV, XML and output paths; otherwise the usage error |
| ReportGenerator.RowOf | java_test_assignment_2025/src/main/java/com/playtech/ReportGenerator.java:146-149 | a row's keys are exactly the header names |
| ReportGenerator.ConvertRows | java_test_assignment_2025/src/main/java/com/playtech/ReportGenerator.java:143-155 | never more rows than records, each keyed by exactly the headers |
| ReportGenerator.Converted | java_test_assignment_2025/src/main/java/com/playtech/ReportGenerator.java:137-140 | empty for a null or empty header list or null records; never more rows than records |
| ReportGenerator.FillRow | java_test_assignment_2025/src/main/java/com/playtech/ReportGenerator.java:146-149 | the inner `put` loop yields `RowOf` of the header and record |
| ReportGenerator.ConvertToMapList | java_test_assignment_2025/src/main/java/com/playtech/ReportGenerator.java:135-158 | the loop yields `Converted` of its inputs |
| ReportGenerator.FittingIndices | java_test_assignment_2025/src/main/java/com/playtech/ReportGenerator.java:145 | the positions, in increasing order, of exactly the non-null records as wide as the header |
| ReportGenerator.ConvertKeepsFittingRecords | java_test_assignment_2025/src/main/java/com/playtech/ReportGenerator.java:143-155 | the converted rows are the fitting records, in their original order, each mapped header by header |
| ReportGenerator.LaterHeaderWins | java_test_assignment_2025/src/main/java/com/playtech/ReportGenerator.java:147-149 | a header holds the value of its column when no later column has the same name, so a later duplicate wins |
| ReportGenerator.Step | java_test_assignment_2025/src/main/java/com/playtech/ReportGenerator.java:172-173 | one transformer's effect, or its exception; every transformer but the aggregator keeps the number of rows |
| ReportGenerator.Transform | java_test_assignment_2025/src/main/java/com/playtech/ReportGenerator.java:173 | dispatching `transform` on the transformer's kind passes with the rows of its step, or throws and leaves the rows as they were |
| ReportGenerator.ApplyTransformations | java_test_assignment_2025/src/main/java/com/playtech/ReportGenerator.java:161-181 | the counted loop ends with the rows and outcome of `Applied` |
| ReportGenerator.RunFrom | java_test_assignment_2025/src/main/java/com/playtech/ReportGenerator.java:168-179 | the transformers run in list order, each on the rows the previous left, and the first exception ends the run with its position and class name |
| ReportGenerator.Applied | java_test_assignment_2025/src/main/java/com/playtech/ReportGenerator.java:161-181 | nothing runs for a null or empty list; otherwise the run starts at position 1 |
| ReportGenerator.NoTransformers | java_test_assignment_2025/src/main/java/com/playtech/ReportGenerator.java:163-166 | with a null or empty transformer list the rows are unchanged and the run passes |
| ReportGenerator.RunSequence | java_test_assignment_2025/src/main/java/com/playtech/ReportGenerator.java:168-179 | running two lists in turn is running their concatenation; the second starts from the first's rows, at the next position, only if the first passed |
| ReportGenerator.AppendOne | java_test_assignment_2025/src/main/java/com/playtech/ReportGenerator.java:169-173 | appending a transformer runs it last, at position `n + 1`, on the rows the others left, unless an earlier one threw |
| ReportGenerator.RunStopsAtFailure | java_test_assignment_2025/src/main/java/com/playtech/ReportGenerator.java:174-178 | a failing run names a transformer that threw on the rows the earlier ones left, all of which passed |
| ReportGenerator.AbortOnFirstFailure | java_test_assignment_2025/src/main/java/com/playtech/ReportGenerator.java:174-178 | the error's 1-based position `p` names the transformer that threw and its class; transformers `1..p-1` passed and none after `p` ran |
| ReportGenerator.OnlyDateTimeThrows | java_test_assignment_2025/src/main/java/com/playtech/ReportGenerator.java:172-178 | in this model, among constructed transformers only the date/time formatter throws out of `transform` (see `ReportGenerator.OnlyDateTimeThrows` under Left out) |

## Left out

- File I/O and process control: reading the CSV, splitting lines, loading the XML configuration, writing JSON Lines, `System.exit` and all console logging. `convertToMapList` is given records that are already split.
- Library behaviour: the grammar of `Double.parseDouble`, the text `Double.toString` produces, `String.format` and `java.time` parsing and formatting are uninterpreted fields of `Library`.
- Library.parseDouble is not constrained to ignore surrounding whitespace, as `Double.parseDouble` does, nor to read back what `Library.doubleText` writes; the round trip a number cell makes through the string formatter is stated as a premise (`StringFormatterTransformer.NumberArgumentKept`).
- Numbers are exact reals, not IEEE-754 doubles: no rounding in sums, means or differences, and no NaN or infinities.
- Java's `HashMap` iteration order of the aggregation groups is unspecified. The model emits groups in order of first appearance, and every stated group property holds whatever the order.
- Null rows are not modelled: `convertToMapList` and the aggregator never create them, and the comparator's and the aggregator filter's null-row branches are left out.
- Row maps are values. Aliasing between rows, and the key order of `LinkedHashMap`, are not modelled.
- OrderingTransformer.Ordered: sortedness and stability are proved only for a sort column of numbers only or texts only. On a mixed column the comparator is cyclic (`OrderingTransformer.MixedKindsCycle`), so `List.sort` may throw or return any order there; the model then promises only a permutation.
- ReportGenerator.OnlyDateTimeThrows: holds of the model only. On a sort column mixing numbers and texts, TimSort may detect the comparator's inconsistency once there are 32 or more rows and throw `IllegalArgumentException` from the `sort` call at OrderingTransformer.java:76; that exception would end the run at ReportGenerator.java:174-178. The model's insertion sort never throws.
- `List.sort` itself (TimSort) is represented by a stable insertion sort. Any stable sort gives the same result under a total preorder, but the two may differ on a mixed column.
- ReportGenerator.ApplyTransformations: the wrapped exception's message text is modelled as a structured error holding the position, class name and cause.
- Unsupported aggregation or math operations cannot be expressed: both enumerations are closed.
- The `Report`, `Column` and XML adapter classes: a column is its name. The XML parser test and the end-to-end integration test are not part of this model.
