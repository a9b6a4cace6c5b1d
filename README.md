# transpose-matrix, modelled in Dafny

The program is a small console tool. It asks for the dimensions of a matrix, then
for its rows, and prints the matrix and its transpose. This project models the
parts that decide what the tool computes and what it accepts:

- **utils.js**
  - `getMatrixTranspose` is a method with nested loops. It is proved against the
    value `Utils.Transposed`.
  - `getMatrixFormattedString` is a function, with the column layout written out
    explicitly: a header line of `" "` headings, then each cell padded on the
    right to its column's width, with `"  "` between cells (the last cell of a
    row is left as it is). A column's width is that of its widest cell, or 1, the
    width of its `" "` heading, when all its cells are shorter than that. The
    leading blank text is then removed (`trimLeft`).
  - `isPositiveWholeNumber` is a predicate over `parseFloat` and `parseInt` with
    radix 10.
- **cli.js**
  - `isPositiveWholeNumber` with `parseInt` without a radix, so a `0x` prefix
    reads hexadecimal.
  - The two validators, as plain functions returning `Accepted` or
    `Rejected(message)`.
  - The loop of `getMatrixElementsFromUser` that turns the row answers into a
    matrix, as a method over the sequence of answers.
- **app.js**: `getTranspose`, the first draft of the transpose, as a second
  method. It is proved to compute the same value as `getMatrixTranspose`.

The JavaScript built-ins the code relies on live in two modules of their own:

- `JsStrings`: `trim`, `trimLeft`/`trimStart`, `trimEnd`, `split` on one
  character, `split(/[ ]+/)`, `join`, `repeat` and right-padding.
- `JsNumbers`: `Number.parseInt` (radix 10 and automatic radix) and
  `Number.parseFloat`, on an exact decimal model. A number is
  mantissa × 10^exponent with integer mantissa and exponent, and there is no
  rounding. `JsNumbers` also has the decimal text of integers, as template
  literals write it.

Files:

- `jsstrings.dfy` (module `JsStrings`)
- `jsnumbers.dfy` (module `JsNumbers`)
- `utils.dfy` (module `Utils`)
- `cli.dfy` (module `Cli`)
- `app.dfy` (module `App`)

Matrices are `seq<seq<T>>`, cells of formatted or assembled matrices are
`string`, and answers are `string`.

Where the code and its comments disagree, the model follows the code:

- The heading is `"3X2 Matrix"`, as utils.js:26 writes it and the unit tests expect.
  The doc comment at utils.js:11 shows `(3X3) Matrix`.
- The title line is emitted when the title is non-empty *before* trimming, and it
  prints the trimmed title (utils.js:45). A title of spaces gives an empty first
  line. The underline uses the trimmed title's length (utils.js:29).
- The unit-test stub for the row prompts (test/test.js:135-140) answers every
  question but the first. The loop at cli.js:78-82 reads an answer for every row
  from `row_0` on, so on the stub's answers `rowsAnswers['row_0']` is `undefined`
  and `.trim()` at cli.js:81 throws. The `.then` callback then rejects, and the two
  unit tests at test/test.js:143-161 cannot pass as written (not executed). The
  model takes one answer per row, in order, as the loop reads them, and
  Cli.RowsOfTestAnswers states the tests' evident intent: every row answered
  "1 2 3".

## Model

| member | source | states |
|---|---|---|
| Utils.GetMatrixTranspose | utils.js:54-71 | The result has length(row 0) rows, each as long as the matrix has rows, and result[c][r] == matrix[r][c] for every r, c. The result is the value `Transposed(matrix)`; the argument is a value, so it is not changed. |
| Utils.TransposedIsRectangular | utils.js:54-71 | The transpose of a rectangular matrix is rectangular, and it has one column per row of the original when the original has columns. |
| Utils.TransposeTwice | utils.js:54-71 | Transposing a rectangular matrix twice gives it back when it has no rows or at least one column. |
| Utils.TransposeTwiceLosesEmptyRows | utils.js:55-58 | A matrix of empty rows such as [[], []] transposes to [] and does not come back. |
| Utils.TransposeFixedPoints | test/test.js:38-43 | [] transposes to [] and a 1x1 matrix to itself. |
| Utils.ExampleHeading | utils.js:26 | The heading of a 3x2 matrix is "3X2 Matrix". |
| Utils.UnderlineCovers | utils.js:29 | The underline is hyphens only, at least as long as the trimmed title and the heading, and exactly as long as the longer of the two. |
| Utils.FormatRowCell | utils.js:37-43 | In a row line, cell j starts at the sum of the widths of the earlier columns plus two per splitter, whatever the other cells hold. |
| Utils.FormatRowGap | utils.js:37-43 | Between the end of cell j and the start of column j + 1 a row line holds only spaces. |
| Utils.FormatRowOfBlanks | utils.js:33-36 | The header line made of the " " headings is blank. |
| Utils.ColumnWidthsFit | utils.js:33-43 | Every cell fits its column's width, which is at least 1 (the " " heading). When some cell of the column is non-empty the width is exactly the longest cell's length; when every cell is at most one character long it is 1. |
| Utils.BlankColumnKeepsHeadingWidth | utils.js:33-43 | A column of empty cells keeps the one-character width of its heading: [["a", "", "b"]] lays out as "a     b". |
| Utils.BodyIsRows | utils.js:37-43 | trimLeft on the layout removes exactly the blank header line and its line break, leaving the row lines joined by line breaks. |
| Utils.FormattedAsJoin | utils.js:45 | The output is the title line (when the title is non-empty), the heading, the underline and the row lines, joined by "\n". |
| Utils.FormattedLines | utils.js:45 | Splitting the output on "\n" gives exactly those lines back: the trimmed title only for a non-empty title, then the heading, the underline and one line per row. |
| Utils.FormattedLineCount | test/test.js:69-83 | The output has 3 + r lines with a title and 2 + r without. The underline line is hyphens only and is at least as long as the title line and the heading. |
| Utils.ExampleBodyLines | utils.js:37-43 | [[1, 2], [1, 2], [1, 2]] lays out as three lines "1  2". |
| Utils.ExampleLines | utils.js:21-46 | The output for [[1, 2], [1, 2], [1, 2]] under any already-trimmed title of at most ten characters, line by line. |
| Utils.FormattedStringTestCases | test/test.js:85-101 | With the title "Test" the output is the lines Test, 3X2 Matrix, ----------, 1  2, 1  2, 1  2 joined by "\n"; without a title it is the same without the first line. |
| Utils.IsPositiveWholeNumberSound | utils.js:73-78 | An accepted text has a parseFloat value that is whole and positive. |
| Utils.IsPositiveWholeNumberComplete | utils.js:73-78 | A text without an exponent whose parseFloat value is whole and positive is accepted. |
| Utils.ExponentIsRejected | utils.js:74-75 | "1e3" parses to the whole positive 1000 with parseFloat but is rejected, because parseInt reads only 1. |
| Utils.IsPositiveWholeNumberOfInteger | utils.js:73-78 | The decimal text of an integer n is accepted exactly when n > 0. |
| Utils.IsPositiveWholeNumberTestCases | test/test.js:46-60 | 100 is accepted; 0 and -23 are rejected. |
| Utils.NonNumberIsRejected | test/test.js:62-65 | "THIS-IS-NOT-A-NUMBER" is rejected. |
| Utils.ZeroFractionIsAccepted | utils.js:73-78 | "3.0" is accepted. |
| Utils.FractionIsRejected | utils.js:73-78 | "3.5" is rejected. |
| Utils.OneDigitFraction | utils.js:74 | parseFloat reads a digit, a point and a digit whole: as the integer digit with the fraction digit, d0.d2 = (10·d0 + d2) × 10^-1. |
| Utils.OneDigitFractionVerdict | utils.js:73-78 | A text d0.d2 is accepted exactly when d0 is not 0 and d2 is 0. |
| Utils.LeadingDigitsScan | utils.js:74 | For a text of digits followed by the end or by anything but a point or an exponent mark, parseFloat reads exactly the leading digits. |
| Utils.LeadingDigitsVerdict | utils.js:74-77 | Such a text is accepted exactly when the value of its leading digits is positive. |
| Utils.TrailingTextIsIgnored | utils.js:74-75 | Both parsers stop at the first character they cannot use, so "12abc" is accepted. |
| Cli.HexPrefixReadsZero | cli.js:4-5 | After a "0x" or "0X" prefix, parseFloat and parseInt with radix 10 read just the 0. |
| Cli.HexIsRejected | cli.js:4-5 | parseInt without a radix reads "0x10" as 16 and parseFloat reads 0, so the text is rejected. |
| Cli.SameAsUtils | cli.js:3-8 | The cli.js check (no radix, loose ==) accepts exactly the texts the utils.js check (radix 10, ===) accepts. |
| Cli.IsPositiveWholeNumberExamples | cli.js:3-8 | "3", "3.0" and "12abc" are accepted; "0", "-5", "3.5" and "THIS-IS-NOT-A-NUMBER" are rejected. |
| Cli.PositiveNumberInputValidator | cli.js:10-17 | The verdict is Accepted or exactly Rejected("You must enter a POSITIVE INTEGER"). |
| Cli.PositiveNumberInputValidatorMeaning | cli.js:10-17 | Accepted only when parseFloat reads a whole positive number, and always then for text without an exponent. |
| Cli.RowElements | cli.js:23 | Splitting the trimmed answer on runs of spaces gives at least one item. |
| Cli.MakeRowInputValidator | cli.js:19-30 | The verdict is Accepted or exactly Rejected(`You must enter exactly ${numCols} items separated by spaces`). |
| Cli.JoinedWordsAreTrimmed | cli.js:23 | Words joined by single spaces are not changed by trim. |
| Cli.RowOfWords | cli.js:23-26 | Words joined by single spaces are read back as those words. Such a row is accepted exactly when it has numCols words. |
| Cli.RowValidatorIgnoresPadding | cli.js:23 | White space at either end of the answer changes neither the items nor the verdict. |
| Cli.RowValidatorCollapsesSpaces | cli.js:22-23 | Two spaces anywhere in the answer read like one space: same items, same verdict. |
| Cli.BlankRow | cli.js:23-26 | A blank answer is one empty item, so it is accepted exactly when numCols is 1. |
| Cli.SpaceFreeRow | cli.js:23 | An answer without a space character and with no white space at either end is one item. |
| Cli.TabIsNotSeparator | cli.js:23 | "1\t2" is one item. |
| Cli.TestRowAnswer | test/test.js:138 | The answer "1 2 3" holds the items "1", "2" and "3". |
| Cli.RowValidatorExamples | cli.js:19-30 | "1 2 3" is accepted for three columns and rejected for two with "You must enter exactly 2 items separated by spaces". |
| Cli.RowCountMessageOfTwo | cli.js:26 | The message for two columns is "You must enter exactly 2 items separated by spaces". |
| Cli.RowsElements | cli.js:78-82 | One row is read per answer. |
| Cli.RowsElementsAt | cli.js:80-81 | Row r read from the answers is answer r trimmed and split on runs of spaces. |
| Cli.AssembledRows | cli.js:78-82 | The rows read from the first numRows answers number numRows, and row r is the split of answer r. When every answer passed the row check for numCols, they form a rectangular matrix with numCols columns. |
| Cli.GetMatrixElements | cli.js:78-82 | The assembly loop returns numRows rows, row r being answer r trimmed and split on runs of spaces. When every answer passed the row check for numCols, the matrix is rectangular with numCols columns. |
| Cli.RowsOfTestAnswers | test/test.js:148-161 | With every answer "1 2 3", every one of the numRows rows is ["1", "2", "3"], three items. |
| App.GetTranspose | app.js:19-34 | The same shape and entries as getMatrixTranspose (length(row 0) rows of length num_rows, out[c][r] == matrix[r][c]), and the same value `Utils.Transposed(matrix)`. |
| JsStrings.TrimIgnoresPadding | cli.js:23 | trim ignores white space added at either end. |
| JsStrings.SplitSpaceRunsCollapse | cli.js:22-23 | split(/[ ]+/) separates at a run of two spaces exactly as at one. |
| JsStrings.SplitSpaceRunsOfJoin | cli.js:23 | split(/[ ]+/) of non-empty, space-free words joined by single spaces gives the words back. |
| JsStrings.SplitOfJoin | test/test.js:72 | split("\n") of parts free of line breaks, joined by "\n", gives the parts back. |
| JsStrings.JoinOfSplit | test/test.js:72 | Joining the pieces of split("\n") with "\n" gives the text back. |
| JsNumbers.NatToStringRoundTrip | utils.js:26 | The decimal text a template literal writes for a natural number reads back as that number. |
| JsNumbers.IntegerTextParses | test/test.js:48 | The text of an integer (as a number argument below 10^21 in magnitude is converted) parses to that integer with parseInt (either radix) and parseFloat. |
| JsNumbers.ParseIntReadsIntegerPart | utils.js:74-75 | parseInt with radix 10 reads the same digits as the integer part parseFloat reads. It gives NaN exactly when that part is empty. |
| JsNumbers.WholeDecimalValue | utils.js:77 | A decimal i.f that is whole and positive has no sign, a zero fraction, a positive integer part, and equals that integer part. |
| JsNumbers.EqualsWholeInteger | utils.js:77 | A number equal to the whole number m is whole, and it is positive exactly when m > 0. |

## Left out

- index.js, which only prints, awaits the prompts and exits.
- The prompt library, the question objects and the Promise wrappers of the
  validators.
- `getMatrixDimensionsFromUser` (cli.js:37-58), which is prompt plumbing around
  `positiveNumberInputValidator` and `parseInt`.
- app.js `printMatrix` and `getUserInputAsMatrix`, and the script at app.js:46-49,
  which are console output and a hard-coded stub.
- The functional test that runs the app through a terminal driver.
- Cli.GetMatrixElements: answers are positional (`rowsAnswers[i]` stands for the
  answer named `row_i`). A missing answer, on which `.trim()` would throw, is
  excluded by the precondition `numRows <= |rowsAnswers|`.
- Utils.GetMatrixTranspose and App.GetTranspose: rows shorter than row 0 are
  excluded by the precondition. The code would push `undefined` for them, and a
  null matrix would throw.
- Utils.GetMatrixFormattedString: cells are strings. Turning numbers into cell text
  is left to the caller.
- Utils.FormatRow: whether the column library pads the last cell of a row to its
  column's width is a detail of that library. The model leaves the last cell
  unpadded, and FormattedAsJoin and FormattedLines state the row lines as the
  model writes them, so with that last cell unpadded: for [["1", "2"], ["1", "22"]]
  they give the row line "1  2" with no trailing space.
- Utils.ColumnWidth: a column is never narrower than 1, the width of the `" "`
  heading given to it at utils.js:35, because the header row is laid out in the
  same columns as the matrix rows. A column whose cells are all empty is
  therefore one space wide, not zero (BlankColumnKeepsHeadingWidth). The column
  library's own width computation is not part of this model.
- Utils.GetMatrixFormattedString: padding is by sequence length. The column
  library's measure of visible width (wide characters, colour codes) and its
  wrapping and truncation options are not modelled.
- The layout lemmas (BodyIsRows, FormattedLines, FormattedLineCount) require a
  rectangular matrix with at least one row and one column, no line break in any
  cell, and a first cell that starts with a character other than white space.
  Without that first-cell condition, `trimLeft` would also eat the start of the
  first row.
- Utils.IsPositiveWholeNumberComplete: stated for texts without an exponent part.
  With an exponent parseFloat reads more than parseInt; ExponentIsRejected shows
  the case.
- JsNumbers.IntToString: writes every integer as plain decimal digits. The
  program's number-to-text conversion does so only below 10^21 in magnitude and
  uses exponent form ("1e+21") from there on, so IntegerTextParses and
  NatToStringRoundTrip describe that conversion only below 10^21.
- JsNumbers: parseFloat's rounding to the nearest double and the loss of precision
  of large integers are not modelled. Values are exact decimals, so texts with
  more than about 15 significant digits may compare differently in the program.
- JsStrings: strings are sequences of characters. UTF-16 surrogate pairs are not
  distinguished from code points. White space is the set of characters trim
  removes, listed in `JsStrings.IsWhitespace`.
