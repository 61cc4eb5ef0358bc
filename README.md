# Exam analysis core, modelled in Dafny

The system reads an exam result sheet from an XLSX workbook and grades the students.
Each student gets a Dutch 1–10 grade, and each exam item gets a "P value" (its difficulty).
This project models the four services that do that work, and proves what they promise.

- **Worksheet decoding** (`XlsxParser`, module `Xlsx`, file `xlsx_parser.dfy`).
  - Each cell becomes a text, number or boolean value.
  - Each `<row>` becomes the values of its cells, in document order.
  - The worksheet becomes the *grid*: an insertion-ordered PHP array from row number to row values (module `Grids`).
  - The sheet is looked up in the archive by its entry name, and the archive is closed on every path once it was opened.
- **Score tables** (`StudentScores`, module `Scores`). A class with the two fields the PHP object updates.
  - `format` walks the grid. It copies row 2 into `maxScores`.
  - It gives consecutive student ids to the later rows that hold more than a label.
  - `getPValue` averages one item over all students and divides by the item's maximum.
- **Grading** (`Calculate`, module `Calculate`).
  - The piecewise-linear percentage-to-grade map, rounded to one decimal.
  - The per-student result record, and the pass rule.
- **Parser registry** (`FileParserFactory`, module `Factory`). A case-insensitive table from file extension to parser.

The PHP built-ins the core relies on are modelled in the support modules:
- `PhpMath`: `round`.
- `PhpText`: `trim`, `strtolower`, the `(int)` cast, `is_numeric` with `(float)`, and integer interpolation.
- `Values`: the decoded cell value, and numeric coercion.
- `Wrappers`: `Option`/`Result`. A PHP exception becomes a `Failure` carrying an error datatype.

Two modelling choices apply throughout:
- **PHP arrays with keys 1..n become sequences.** Such an array is filled key by key from 1, so element `j` holds key `j + 1`. This covers the max-score table, each reshaped student row and the student table.
- **Writing over an existing table is an `Overlay`.** A second call of `format` writes keys 1..n over the table it finds. Higher keys survive, as they do in PHP.

Arithmetic is over `real`.

A few behaviours of the code are easy to miss; the model keeps each of them:
- **The grade has no upper clamp.** `percentageToGrade` clamps only from below (`src/Service/Calculate.php:51-61`). A total above the maximum grades above 10: 200 % grades 25.0 (`Calculate.GradeAtDoubleMaximum`).
- **A non-positive maximum fails only when there are students.** `calculateGrade` checks it, and it runs once per student (`src/Service/Calculate.php:17-19,36-38`). With no students, nothing fails (`Calculate.CalculateStudentScores`).
- **An unknown item fails with division by zero.** A missing student entry adds as 0 (null). A missing maximum divides by null, which throws division by zero (`src/Service/StudentScores.php:77,85`, `Scores.PValueUnknownItem`).
- **The P value rounds twice.** The average is rounded to 1 decimal before the division, and the quotient to 2 decimals (`src/Service/StudentScores.php:80,85`, `Scores.PValueFormula`).
- **Rows without cells are dropped by the decoder** (`src/Service/Parser/XlsxParser.php:66`). The reshaping layer separately skips rows that hold only a label (`Scores.NonStudentRowGetsNoId`).
- **An empty sheet entry is not "invalid XML".** PHP 8's `loadXML('')` throws a ValueError before the XML is read, so the "Invalid worksheet XML content" exception is never reached for it (`src/Service/Parser/XlsxParser.php:55-56`, `Xlsx.ParseWorksheet`).

## Model

| member | source | states |
|---|---|---|
| Xlsx.CellValue | src/Service/Parser/XlsxParser.php:90-113 | the cell is a boolean exactly when it has no inline string, has a `<v>` and code "b", and the boolean is `v == "1"`; it is a number exactly when it has no inline string, has a `<v>`, code "n" or none, and numeric text, with the number the text's value; under code "n" or none, non-numeric `<v>` text is kept verbatim |
| Xlsx.InlineStringWins | src/Service/Parser/XlsxParser.php:93-97 | with an `<is>` child, the value is the trimmed `<t>` text (or "") whatever the type code and `<v>` |
| Xlsx.MissingValueIsEmpty | src/Service/Parser/XlsxParser.php:100-103 | no inline string and no `<v>` gives the empty string |
| Xlsx.OtherTypeCodesAreText | src/Service/Parser/XlsxParser.php:108-112 | any type code other than "b", "n" or none keeps the `<v>` text verbatim, numeric or not |
| Xlsx.CellValueIgnoresReference | src/Service/Parser/XlsxParser.php:80-82 | the cell reference (and so the computed column) has no effect on the value |
| Xlsx.IntegerCellDecodes | src/Service/Parser/XlsxParser.php:110 | a numeric cell holding the rendering of integer n decodes to the float n ("42" gives 42.0) |
| Xlsx.ColumnFromCellRef | src/Service/Parser/XlsxParser.php:115-118 | the result holds no digit, is no longer than the reference, and is empty for an all-digit reference |
| Xlsx.ColumnFromCellRefAppend | src/Service/Parser/XlsxParser.php:117 | digit removal distributes over concatenation |
| Xlsx.NoDigitsKept | src/Service/Parser/XlsxParser.php:117 | a string without digits is kept whole, in order |
| Xlsx.ColumnOfReference | src/Service/Parser/XlsxParser.php:115-118 | column letters followed by a row number give back the column letters ("AB12" gives "AB") |
| Xlsx.RowValues | src/Service/Parser/XlsxParser.php:74-88 | one value per cell, the value at key i being the i-th cell's value |
| Xlsx.ProcessRow | src/Service/Parser/XlsxParser.php:74-88 | the loop builds exactly one value per cell, keyed 0..k-1 in document order |
| Grids.Lookup | src/Service/Parser/XlsxParser.php:67 | `$g[$k]` on the grid: the values stored under k, or null when k is absent (its update behaviour in `Grids.Put`) |
| Grids.Put | src/Service/Parser/XlsxParser.php:67 | after `$g[$k] = $v`, k looks up v and every other key looks up what it did before |
| Grids.PutKeys | src/Service/Parser/XlsxParser.php:67 | an assignment keeps the key order, appending a new key at the end and leaving a present key in place |
| Grids.PutEntries | src/Service/Parser/XlsxParser.php:67 | an assignment keeps keys distinct and adds no entry but k => v |
| Xlsx.GridOf | src/Service/Parser/XlsxParser.php:62-69 | the grid of a row sequence, built as the loop builds it: each row with cells assigned under `(int)` of its number (properties in the GridOf lemmas below) |
| Xlsx.GridOfWellFormed | src/Service/Parser/XlsxParser.php:62-69 | the grid's row numbers are distinct and no stored row is empty |
| Xlsx.GridOfHasKey | src/Service/Parser/XlsxParser.php:62-69 | a row number is in the grid exactly when some row with cells has that `(int)` number |
| Xlsx.GridOfLastRowWins | src/Service/Parser/XlsxParser.php:66-68 | a row number holds the values of the last row with cells carrying it |
| Xlsx.GridOfLookupStep | src/Service/Parser/XlsxParser.php:62-69 | one more row changes the lookup of k only when it has cells and casts to k |
| Xlsx.GridOfOrder | src/Service/Parser/XlsxParser.php:62-69 | the grid iterates in the order row numbers first appear; a repeated number keeps its first place |
| Xlsx.GridOfStep | src/Service/Parser/XlsxParser.php:62-69 | one loop iteration stores the row under its number when it has cells and otherwise leaves the grid alone |
| Xlsx.ParseWorksheet | src/Service/Parser/XlsxParser.php:52-72 | an empty entry throws the ValueError of `loadXML`, XML that does not load gives "Invalid worksheet XML content"; otherwise the loop yields the grid of the rows |
| Xlsx.SheetPath | src/Service/Parser/XlsxParser.php:39 | the entry name `xl/worksheets/sheetN.xml` with N the interpolated sheet number (made injective by `Xlsx.SheetPathInjective`) |
| Xlsx.SheetPathInjective | src/Service/Parser/XlsxParser.php:39 | distinct sheet numbers name distinct archive entries |
| Xlsx.ZipArchive.constructor | src/Service/Parser/XlsxParser.php:30 | a new archive object is not yet open |
| Xlsx.ZipArchive.Open | src/Service/Parser/XlsxParser.php:31 | opening reports the archive's error code, or success and the archive is open |
| Xlsx.ZipArchive.GetFromName | src/Service/Parser/XlsxParser.php:40 | reading an entry gives its content, or nothing when the name is absent |
| Xlsx.ZipArchive.Close | src/Service/Parser/XlsxParser.php:48 | closing leaves the archive closed |
| Xlsx.ParseOutcome | src/Service/Parser/XlsxParser.php:20-50 | the outcome of `parse` as a value: the first failing check in source order, else the sheet's grid (what `Xlsx.Parse` is proved to return) |
| Xlsx.Parse | src/Service/Parser/XlsxParser.php:20-50 | the result is the outcome checked in the order file, sheet number, open, entry `xl/worksheets/sheetN.xml`, XML; the archive ends closed exactly when it was opened, on the success and the exception path alike |
| Xlsx.ParseSucceeds | src/Service/Parser/XlsxParser.php:20-50 | parsing yields a grid exactly when the file exists, the sheet number is set, the archive opens and the sheet's entry is well-formed XML |
| Xlsx.MissingFileFirst | src/Service/Parser/XlsxParser.php:22-24 | a missing file is reported whatever else is wrong |
| Xlsx.MissingSheetNotFound | src/Service/Parser/XlsxParser.php:39-44 | an absent sheet entry gives "Sheet N not found", never a grid |
| Xlsx.ParseReadsOnlyTheSheet | src/Service/Parser/XlsxParser.php:39-40 | archives that agree on the requested sheet's entry parse alike |
| PhpText.IntCastOfIntToString | src/Service/Parser/XlsxParser.php:63 | `(int)` of a rendered integer gives that integer back |
| PhpText.IntToString | src/Service/Parser/XlsxParser.php:39 | the interpolation of an int in `"sheet{$sheetNumber}"`: never empty, a minus sign and then the digits (injective by `PhpText.IntToStringInjective`, read back by `PhpText.IntCastOfIntToString`) |
| PhpText.IntToStringInjective | src/Service/Parser/XlsxParser.php:39 | distinct integers render differently |
| PhpText.IntCast | src/Service/Parser/XlsxParser.php:63 | `(int)` of a string: an optional sign and the leading digits, 0 when there are none (round trip in `PhpText.IntCastOfIntToString`) |
| PhpText.IsNumeric | src/Service/StudentScores.php:49 | `is_numeric` of a string: an optional sign and a decimal literal with at least one digit |
| PhpText.ToNumber | src/Service/StudentScores.php:50 | `(float)` of a numeric string: its decimal value with its sign (on integers in `PhpText.ToNumberOfIntToString`) |
| PhpText.ToNumberOfIntToString | src/Service/Parser/XlsxParser.php:110 | a rendered integer is numeric and `(float)` gives its value |
| PhpText.Trim | src/Service/Parser/XlsxParser.php:96 | `trim`: the result neither starts nor ends with a character of the default whitespace set |
| PhpText.TrimPadded | src/Service/Parser/XlsxParser.php:96 | trim removes exactly the surrounding whitespace and keeps the text between |
| PhpText.TrimIdempotent | src/Service/Parser/XlsxParser.php:96 | trimming twice is trimming once |
| PhpText.Lower | src/Service/Factory/FileParserFactory.php:22 | lower-casing keeps the length and maps each character, ASCII capitals to small letters |
| PhpText.LowerIdempotent | src/Service/Factory/FileParserFactory.php:34 | lower-casing twice is lower-casing once |
| Values.IsNumericValue | src/Service/StudentScores.php:49 | `is_numeric` of a cell value: always for a float, never for a bool, and for text exactly when `PhpText.IsNumeric` holds |
| Values.Coerce | src/Service/StudentScores.php:49-53 | a value becomes a number exactly when it is numeric; numeric text becomes its `(float)`; anything else is kept |
| Values.CoerceAll | src/Service/StudentScores.php:44-54 | coercion applies element by element and keeps the length |
| Values.CoerceIdempotent | src/Service/StudentScores.php:49-53 | coercing twice is coercing once |
| Values.CoercePreservesNumber | src/Service/StudentScores.php:49-53 | coercion never changes a value's numeric meaning |
| Values.AsNumber | src/Service/StudentScores.php:77 | a value fails as an arithmetic operand exactly when it is non-numeric text; a number is itself, true and false are 1 and 0, numeric text is its `(float)` value |
| Scores.Reshape | src/Service/StudentScores.php:57-70 | the reshaped row is one shorter (empty for an empty row) and key k holds the source's position k |
| Scores.Overlay | src/Service/StudentScores.php:42-55 | writing keys 1..n over a table: keys up to n hold the new values, higher keys keep theirs |
| Scores.Assign | src/Service/StudentScores.php:35 | `$t[$key] = $x` on a table keyed 1..n sets that key and leaves every other key alone |
| Scores.IsStudentRow | src/Service/StudentScores.php:32-34 | a grid row becomes a student exactly when its number is above 2 and the row without its label is not empty |
| Scores.StudentRows | src/Service/StudentScores.php:19-38 | the student table `format` builds from empty: the reshaped rows numbered above 2 that hold more than a label, in grid order (properties in the Scores lemmas below) |
| Scores.MaxScoresAfter | src/Service/StudentScores.php:19-29 | the max-score table after each row 2 of the grid is written over a prior table, label dropped and numbers coerced |
| Scores.StudentScores.constructor | src/Service/StudentScores.php:7-8 | both tables start empty |
| Scores.StudentScores.Format | src/Service/StudentScores.php:10-13 | afterwards the max-score table is the old one overwritten by each row 2 (label dropped, numbers coerced) and the student table is the old one overwritten by the non-empty reshaped rows numbered above 2, as students 1, 2, ... in grid order |
| Scores.StudentScores.ProcessRawData | src/Service/StudentScores.php:15-40 | the max-score table is the old one overwritten by every row 2 in order, and the student table is the old one overwritten by the student rows in grid order, student s+1 at position s |
| Scores.StudentScores.ExtractMaxScores | src/Service/StudentScores.php:42-55 | the row without its label, coerced, is written over the max-score table; the student table is unchanged |
| Scores.StudentScores.ProcessStudentRow | src/Service/StudentScores.php:57-70 | the row without its label, every key and value kept, no coercion |
| Scores.StudentRowsAppend | src/Service/StudentScores.php:19-38 | the student rows of a concatenated grid are the concatenation of the parts' student rows |
| Scores.MaxScoresAfterAppend | src/Service/StudentScores.php:19-29 | walking a concatenated grid is walking its parts one after the other |
| Scores.NonStudentRowGetsNoId | src/Service/StudentScores.php:32-37 | a row that is not a student row, a label-only row included, neither gets nor uses up an id |
| Scores.OnlyRowTwoSetsMaxScores | src/Service/StudentScores.php:26-29 | rows other than 2 leave the max-score table alone |
| Scores.HeaderAndLowRowsIgnored | src/Service/StudentScores.php:19-38 | row 1 and rows numbered 0 or below contribute to neither table |
| Scores.StudentIdOfRow | src/Service/StudentScores.php:32-37 | the student row at grid position i gets id 1 + the number of student rows before it |
| Scores.StudentCountBound | src/Service/StudentScores.php:32-37 | there are at most as many students as grid rows numbered above 2 |
| Scores.MaxScoresFromRowTwo | src/Service/StudentScores.php:42-55 | from empty, the max-score table is row 2 without its label, coerced, or empty when there is no row 2 |
| Scores.FormatExample | src/Service/StudentScores.php:15-40 | header, max row (10, 10), student (8, 9) and an empty row 4 give one student [8, 9] and maxima [10, 10] |
| Scores.KeyAt | src/Service/StudentScores.php:77 | a key is present exactly when it is within 1..n, and key k reads the table's k-th value |
| Scores.Addend | src/Service/StudentScores.php:77 | `$scores[$index]` as a `+=` operand: a missing key reads as null and adds 0, a present value adds as `Values.AsNumber` says, non-numeric text fails |
| Scores.ColumnSum | src/Service/StudentScores.php:76-78 | the summing loop can fail only with the non-numeric-operand TypeError |
| Scores.ColumnSumNumeric | src/Service/StudentScores.php:76-78 | over a numeric column the loop yields the plain sum |
| Scores.ColumnSumFailureStays | src/Service/StudentScores.php:76-78 | once the running sum hits a TypeError, the whole loop ends in it |
| Scores.AverageForCol | src/Service/StudentScores.php:72-81 | the column sum over the student count rounded to 1 decimal, the TypeError of the sum, or division by zero without students (what `GetAverageScoreForCol` is proved to return) |
| Scores.PValue | src/Service/StudentScores.php:83-86 | the average over the item's maximum rounded to 2 decimals, with the errors of the average, a missing or zero maximum and a non-numeric maximum (what `GetPValue` is proved to return) |
| Scores.StudentScores.GetAverageScoreForCol | src/Service/StudentScores.php:72-81 | the loop's result is the column sum over the student count rounded to 1 decimal, the TypeError of a non-numeric entry, or division by zero without students |
| Scores.StudentScores.GetPValue | src/Service/StudentScores.php:83-86 | the result is the rounded average over the item's maximum rounded to 2 decimals, or the error the average or the division throws, in that order; no field changes |
| Scores.StudentScores.GetMaxScores | src/Service/StudentScores.php:88-91 | returns the max-score table, changing nothing |
| Scores.StudentScores.GetStudentScores | src/Service/StudentScores.php:93-96 | returns the student table, changing nothing |
| Scores.PValueFormula | src/Service/StudentScores.php:72-86 | with a student, a numeric item in every row and a non-zero numeric maximum m, the P value is round(round(sum / students, 1) / m, 2) |
| Scores.PValueWithoutStudents | src/Service/StudentScores.php:80 | with no students the P value throws division by zero |
| Scores.PValueUnknownItem | src/Service/StudentScores.php:85 | an item missing from the max-score table throws division by zero |
| Scores.PValueExample | src/Service/StudentScores.php:83-86 | scores 8 and 6 on an item worth 10 give 0.70 |
| Scores.ColumnTotalWithin | src/Service/StudentScores.php:76-78 | entries in [0, m] sum to within [0, students · m] |
| Scores.PValueWithinUnit | src/Service/StudentScores.php:72-86 | scores in [0, m], with m positive and of one decimal, give a P value in [0, 1] |
| PhpMath.RoundError | src/Service/Calculate.php:63 | `round(x, d)` lies within half a unit of the d-th decimal of x and keeps its sign |
| PhpMath.RoundHasDecimals | src/Service/Calculate.php:63 | `round(x, d)` has at most d decimals |
| PhpMath.RoundMonotone | src/Service/Calculate.php:63 | rounding is non-decreasing |
| PhpMath.RoundKeepsDecimals | src/Service/Calculate.php:63 | a value with at most d decimals rounds to itself |
| PhpMath.Round | src/Service/Calculate.php:63 | `round(x, d)`: half away from zero at the d-th decimal (properties in the PhpMath lemmas above) |
| Calculate.RawGrade | src/Service/Calculate.php:51-61 | the if-chain before `round`: 1.0 up to 20 %, then linear to 5.5 below 70 %, then linear with no upper bound (properties in `Calculate.RawGradeMonotone`, `Calculate.RawGradeSlope`, `Calculate.GradeAboveMaximum`) |
| Calculate.PercentageToGrade | src/Service/Calculate.php:49-63 | the piecewise-linear grade rounded to 1 decimal (properties in the grade lemmas below) |
| Calculate.GradeAtThresholds | src/Service/Calculate.php:49-63 | 20 % gives 1.0, 70 % gives 5.5, 100 % gives 10.0, so the segments meet |
| Calculate.GradeFloor | src/Service/Calculate.php:51-52 | up to 20 % the grade is exactly 1.0 |
| Calculate.RawGradeMonotone | src/Service/Calculate.php:51-61 | the unrounded grade never decreases as the percentage grows |
| Calculate.RawGradeSlope | src/Service/Calculate.php:51-61 | the unrounded grade rises by at most 0.15 per percent, so it has no jump at 20 % or 70 % |
| Calculate.PercentageToGradeMonotone | src/Service/Calculate.php:49-63 | the rounded grade never decreases as the percentage grows |
| Calculate.GradeAtLeastMinimum | src/Service/Calculate.php:49-63 | every grade is at least 1.0 |
| Calculate.GradeAtMostMaximum | src/Service/Calculate.php:57-63 | a percentage up to 100 grades at most 10.0 |
| Calculate.GradeAboveMaximum | src/Service/Calculate.php:57-60 | above 100 % the unrounded grade exceeds 10 and the grade is at least 10: there is no upper clamp |
| Calculate.GradeAtDoubleMaximum | src/Service/Calculate.php:57-63 | 200 % grades 25.0 |
| Calculate.GradeHasOneDecimal | src/Service/Calculate.php:63 | every grade is a multiple of 0.1 |
| Calculate.PassesFromPassPercentage | src/Service/Calculate.php:27 | the rounded grade reaches 5.5 exactly from 69 4/9 % on, so every percentage of 70 or more passes |
| Calculate.PassBoundaryRounding | src/Service/Calculate.php:63 | a raw 5.449 rounds to 5.4 (fails) and a raw 5.45 to 5.5 (passes) |
| Calculate.ClampedScore | src/Service/Calculate.php:40-42 | a negative score counts as 0, any other score as itself |
| Calculate.CalculateGrade | src/Service/Calculate.php:34-47 | fails exactly when the maximum is not positive, and otherwise grades the percentage of the clamped score |
| Calculate.CalculateGradeRange | src/Service/Calculate.php:34-47 | with a positive maximum, a score up to the maximum grades within 1.0–10.0 |
| Calculate.NegativeScoreGradedAsZero | src/Service/Calculate.php:40-44 | a negative score grades like 0, i.e. 1.0 |
| Calculate.CalculateGradeMonotone | src/Service/Calculate.php:34-47 | a higher score never grades lower |
| Calculate.SumTerm | src/Service/Calculate.php:18 | how `array_sum` converts one entry: a float as itself, a bool as 1 or 0, numeric text as its value, other text as 0 |
| Calculate.ScoreSum | src/Service/Calculate.php:18 | `array_sum` of a student row, numbers and numeric text by value, booleans as 1 or 0, other text as 0 |
| Calculate.ScoreSumAppend | src/Service/Calculate.php:18 | the score sum of concatenated rows is the sum of the parts' sums |
| Calculate.ScoreSumBounded | src/Service/Calculate.php:18 | item scores each at most their item's maximum sum to at most the maxima's sum |
| Calculate.ResultFor | src/Service/Calculate.php:18-28 | the record's total is the score sum, its maxScore the argument, its percentage the unclamped total over the maximum times 100 rounded to 1 decimal, its grade that of the total, and passed holds exactly when the grade is at least 5.5 |
| Calculate.ResultPassedIff | src/Service/Calculate.php:19-27 | a student passes exactly when the clamped total's percentage reaches 69 4/9 %; a total up to the maximum grades within 1.0–10.0 |
| Calculate.NegativeTotalReported | src/Service/Calculate.php:19-20 | a negative total reports a non-positive percentage (from the unclamped total) with grade 1.0, failing |
| Calculate.CalculateStudentScores | src/Service/Calculate.php:13-32 | fails exactly when there is a student and the maximum is not positive; otherwise one record per student under the same id |
| Factory.FileParserFactory.constructor | src/Service/Factory/FileParserFactory.php:13-18 | the table registers exactly "xlsx" |
| Factory.FileParserFactory.Supports | src/Service/Factory/FileParserFactory.php:32-35 | whether the lower-cased extension is registered (case-insensitivity in `Factory.SupportsIgnoresCase`) |
| Factory.FileParserFactory.CreateParser | src/Service/Factory/FileParserFactory.php:20-30 | succeeds exactly when the extension is supported, with the parser registered for its lower-cased form, and otherwise names the lower-cased extension in the error; the table is never changed |
| Factory.SupportsIgnoresCase | src/Service/Factory/FileParserFactory.php:32-35 | support of an extension equals support of its lower-cased form |
| Factory.DefaultSupportsXlsxOnly | src/Service/Factory/FileParserFactory.php:15-17 | a new factory supports exactly the extensions that lower-case to "xlsx", each mapped to the XLSX parser |
| Factory.DefaultExamples | src/Service/Factory/FileParserFactory.php:32-35 | "XLSX" and "Xlsx" are supported; "xls" and "csv" are not |

## Left out

- The zip archive, `file_exists` and XML loading are I/O.
  - They are parameters: whether the file exists, the open error code, the archive's entries, and an entry that is empty, is malformed XML, or parses to rows and cells.
  - The bytes of the archive and of the XML are not modelled.
- The `XlsxParser` constructor's `extension_loaded('zip')` check (`src/Service/Parser/XlsxParser.php:13-18`) is a runtime environment query. It is left out.
- Exception messages are modelled as error data, not strings. Each error carries the values its message interpolates (path, error code, sheet number, extension).
- PhpText.IsNumeric follows the plain decimal grammar: an optional sign, digits, at most one '.', and at least one digit. PHP also accepts surrounding whitespace and an exponent ("1e3"), which the model treats as non-numeric text.
- PhpText.IntCast reads an optional sign and leading digits. It does not skip leading whitespace or read an exponent as PHP 8 does.
- PhpText.IntCast is unbounded. On 64-bit PHP, `(int)` of a row number beyond PHP_INT_MAX (or below PHP_INT_MIN) saturates at that bound, so two such rows would share a grid key; the model gives them distinct keys.
- PhpText.Lower is `strtolower` as PHP 8.2 and later define it (ASCII only). PHP 8.0 and 8.1 follow the current locale.
- Values.AsNumber treats leading-numeric text such as "12abc" as a non-numeric operand, which throws. PHP uses its leading number with a warning.
- Scores.ColumnSum: PHP emits a warning for a missing key before adding null. The warning is not modelled, only the value 0.
- Calculate.ScoreSum: entries that are not numeric text count as 0 (through `Calculate.SumTerm`). Before PHP 8.3, `array_sum` converts each entry with PHP's string-to-number cast, which reads a leading number. So text that starts with a number, such as "12abc", adds 12 in PHP and 0 here; other non-numeric text adds 0 in both. PHP 8.3 and later may warn or throw on such entries.
- Floating point: all arithmetic is exact over `real`. PHP's IEEE 754 float error, and the pre-rounding `round` applies against that error, are not modelled.
- Calculate.CalculateStudentScores takes the student table in the shape `StudentScores` produces, with ids 1..n. A PHP array with other keys is not modelled.
- `maxScore` is an `int`, as the PHP signature declares. The float-to-int coercion at the call site in `src/Command/Analyzer.php` is not part of this model.
- `src/Command/Analyzer.php` (the console command, its menu loop, table rendering, summary and item-index check) is not part of this model.
- `src/Command/HelloWorld.php` and the `src/Contracts/Parser.php` interface are not part of this model.
- The parser object that `createParser` instantiates is modelled as a tag (`Factory.ParserKind`), not as an object.
