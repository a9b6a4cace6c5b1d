/** utils.js: the transpose of a matrix, the aligned-text rendering of a matrix
    under a title and a dimension heading, and the check that an input is a
    positive whole number. */
module Utils {
  import opened JsStrings
  import opened JsNumbers

  // ---------------------------------------------------------------------------
  // Matrices
  // ---------------------------------------------------------------------------

  /** The column count both routines use: the length of row 0, or 0 without rows. */
  function NumCols<T>(matrix: seq<seq<T>>): nat
  {
    if |matrix| == 0 then 0 else |matrix[0]|
  }

  /** Every row is at least as long as row 0, so every matrix[row][col] with
      col < NumCols(matrix) that the transpose reads exists. */
  predicate CoversFirstRow<T>(matrix: seq<seq<T>>)
  {
    forall r :: 0 <= r < |matrix| ==> NumCols(matrix) <= |matrix[r]|
  }

  /** All rows have the same length. */
  predicate IsRectangular<T>(matrix: seq<seq<T>>)
  {
    forall r :: 0 <= r < |matrix| ==> |matrix[r]| == NumCols(matrix)
  }

  // ---------------------------------------------------------------------------
  // getMatrixTranspose
  // ---------------------------------------------------------------------------

  /** The transpose as a value: row c of the result is column c of the matrix,
      read from top to bottom. */
  function Transposed<T>(matrix: seq<seq<T>>): seq<seq<T>>
    requires CoversFirstRow(matrix)
  {
    seq(NumCols(matrix), c requires 0 <= c < NumCols(matrix) =>
      seq(|matrix|, r requires 0 <= r < |matrix| => matrix[r][c]))
  }

  /** getMatrixTranspose: builds the result column by column, pushing
      matrix[row][col] onto a new row for every row. The argument is a value and
      so is never changed. */
  method GetMatrixTranspose<T>(matrix: seq<seq<T>>) returns (tMatrix: seq<seq<T>>)
    requires CoversFirstRow(matrix)
    ensures |tMatrix| == NumCols(matrix)
    ensures forall c :: 0 <= c < |tMatrix| ==> |tMatrix[c]| == |matrix|
    ensures forall r, c :: 0 <= r < |matrix| && 0 <= c < NumCols(matrix) ==> tMatrix[c][r] == matrix[r][c]
    ensures tMatrix == Transposed(matrix)
  {
    var numRows := |matrix|;
    var numCols := NumCols(matrix);
    tMatrix := [];
    var col := 0;
    while col < numCols
      invariant 0 <= col <= numCols
      invariant |tMatrix| == col
      invariant forall c :: 0 <= c < col ==> |tMatrix[c]| == numRows
      invariant forall r, c :: 0 <= r < numRows && 0 <= c < col ==> tMatrix[c][r] == matrix[r][c]
    {
      var tRow: seq<T> := [];
      var row := 0;
      while row < numRows
        invariant 0 <= row <= numRows
        invariant |tRow| == row
        invariant forall r :: 0 <= r < row ==> tRow[r] == matrix[r][col]
      {
        tRow := tRow + [matrix[row][col]];
        row := row + 1;
      }
      tMatrix := tMatrix + [tRow];
      col := col + 1;
    }
    forall c | 0 <= c < numCols
      ensures tMatrix[c] == Transposed(matrix)[c]
    {
      assert |tMatrix[c]| == numRows;
    }
  }

  /** The transpose of a rectangular matrix covers its own first row (so it can be
      transposed again) and is itself rectangular. */
  lemma TransposedIsRectangular<T>(matrix: seq<seq<T>>)
    requires IsRectangular(matrix)
    ensures IsRectangular(Transposed(matrix)) && CoversFirstRow(Transposed(matrix))
    ensures NumCols(matrix) > 0 ==> NumCols(Transposed(matrix)) == |matrix|
  {
  }

  /** Transposing twice gives back a rectangular matrix, unless it has rows but no
      columns: then the first transpose has no rows and the column count is lost. */
  lemma TransposeTwice<T>(matrix: seq<seq<T>>)
    requires IsRectangular(matrix)
    requires |matrix| == 0 || NumCols(matrix) > 0
    ensures CoversFirstRow(Transposed(matrix))
    ensures Transposed(Transposed(matrix)) == matrix
  {
    TransposedIsRectangular(matrix);
    var t := Transposed(matrix);
    var tt := Transposed(t);
    if |matrix| > 0 {
      assert |tt| == |matrix|;
      forall r | 0 <= r < |matrix|
        ensures tt[r] == matrix[r]
      {
        assert |tt[r]| == |matrix[r]|;
      }
    }
  }

  /** A matrix of empty rows, such as [[], []], does not survive two transposes. */
  lemma TransposeTwiceLosesEmptyRows<T>(matrix: seq<seq<T>>)
    requires |matrix| > 0 && IsRectangular(matrix) && NumCols(matrix) == 0
    ensures Transposed(matrix) == [] && Transposed(Transposed(matrix)) == []
    ensures Transposed(Transposed(matrix)) != matrix
  {
  }

  /** The empty matrix transposes to itself, and so does a 1x1 matrix. */
  lemma TransposeFixedPoints<T>(x: T)
    ensures Transposed<T>([]) == []
    ensures Transposed([[x]]) == [[x]]
  {
    assert Transposed([[x]])[0] == [x];
  }

  // ---------------------------------------------------------------------------
  // getMatrixFormattedString
  // ---------------------------------------------------------------------------

  /** The heading that names the dimensions, e.g. "3X2 Matrix". */
  function Heading(numRows: nat, numCols: nat): string
  {
    NatToString(numRows) + "X" + NatToString(numCols) + " Matrix"
  }

  function Max(a: nat, b: nat): nat
  {
    if a < b then b else a
  }

  /** The hyphens under the heading: as long as the trimmed title or the heading,
      whichever is longer. */
  function Underline(title: string, heading: string): string
  {
    Repeat('-', Max(|Trim(title)|, |heading|))
  }

  /** A text made of hyphens only. */
  predicate AllHyphens(s: string)
  {
    forall p :: 0 <= p < |s| ==> s[p] == '-'
  }

  /** The underline is hyphens only, covers both the trimmed title and the heading,
      and is no longer than the longer of the two. */
  lemma UnderlineCovers(title: string, heading: string)
    ensures var u := Underline(title, heading);
      AllHyphens(u) && |u| >= |Trim(title)| && |u| >= |heading|
      && (|u| == |Trim(title)| || |u| == |heading|)
  {
  }

  /** The string placed between two cells of a row. */
  const ColumnSplitter: string := "  "

  /** The width of column col: the widest of its cells and of its " " heading.
      The header row of headings is laid out in the same columns as the rows, so
      every column is at least 1 wide, even one whose cells are all empty. */
  function ColumnWidth(matrix: seq<seq<string>>, col: nat): (w: nat)
    requires forall r :: 0 <= r < |matrix| ==> col < |matrix[r]|
    ensures w >= 1
    ensures forall r :: 0 <= r < |matrix| ==> |matrix[r][col]| <= w
    ensures w == 1 || exists r :: 0 <= r < |matrix| && |matrix[r][col]| == w
    decreases |matrix|
  {
    if |matrix| == 0 then 1
    else
      var last := |matrix| - 1;
      var w := ColumnWidth(matrix[..last], col);
      assert forall r :: 0 <= r < last ==> matrix[..last][r] == matrix[r];
      Max(|matrix[last][col]|, w)
  }

  /** The width of every column, left to right. */
  function ColumnWidths(matrix: seq<seq<string>>): seq<nat>
    requires IsRectangular(matrix)
  {
    seq(NumCols(matrix), c requires 0 <= c < NumCols(matrix) => ColumnWidth(matrix, c))
  }

  /** One line of the table: each cell but the last padded on the right to its
      column's width, the cells joined by the splitter. Whether the last cell is
      padded too is the column library's choice; no lemma depends on it. */
  function FormatRow(cells: seq<string>, widths: seq<nat>): string
    requires |cells| == |widths|
  {
    if |cells| == 0 then ""
    else if |cells| == 1 then cells[0]
    else PadRight(cells[0], widths[0]) + ColumnSplitter + FormatRow(cells[1..], widths[1..])
  }

  /** The formatted lines of the rows, one per row. */
  function BodyLines(matrix: seq<seq<string>>): seq<string>
    requires IsRectangular(matrix)
  {
    var widths := ColumnWidths(matrix);
    seq(|matrix|, r requires 0 <= r < |matrix| => FormatRow(matrix[r], widths))
  }

  /** What the column layout returns for the matrix: a header line made of the " "
      headings, then the formatted rows, on separate lines. */
  function Columnify(matrix: seq<seq<string>>): string
    requires IsRectangular(matrix)
  {
    FormatRow(seq(NumCols(matrix), _ => " "), ColumnWidths(matrix)) + "\n" + Join(BodyLines(matrix), "\n")
  }

  /** getMatrixFormattedString(matrix, title), an absent title being "": the trimmed
      title on its own line when the title is not "", the heading, the underline and
      the body, which is the column layout with its leading blank text removed. */
  function GetMatrixFormattedString(matrix: seq<seq<string>>, title: string): string
    requires IsRectangular(matrix)
  {
    var heading := Heading(|matrix|, NumCols(matrix));
    var underline := Underline(title, heading);
    var matrixBody := TrimStart(Columnify(matrix));
    var titleLine := if title != "" then Trim(title) + "\n" else "";
    titleLine + (heading + "\n" + underline + "\n" + matrixBody)
  }

  /** Where column j starts in a formatted line: the widths of the columns before
      it, each followed by the splitter. */
  function ColumnStart(widths: seq<nat>, j: nat): nat
    requires j <= |widths|
  {
    if j == 0 then 0 else widths[0] + |ColumnSplitter| + ColumnStart(widths[1..], j - 1)
  }

  /** A padded cell followed by the splitter: the cell, then only spaces, up to two
      past the column width. */
  lemma PaddedCell(cell: string, w: nat)
    requires |cell| <= w
    ensures var h := PadRight(cell, w) + ColumnSplitter;
      |h| == w + |ColumnSplitter| && h[..|cell|] == cell
      && forall p :: |cell| <= p < |h| ==> h[p] == ' '
  {
  }

  /** Column alignment, the cells: in a line formatted with widths that fit its
      cells, cell j sits at ColumnStart(widths, j) whatever the other cells hold. */
  lemma {:induction false} FormatRowCell(cells: seq<string>, widths: seq<nat>, j: nat)
    requires |cells| == |widths| && j < |cells|
    requires forall k :: 0 <= k < |cells| ==> |cells[k]| <= widths[k]
    ensures ColumnStart(widths, j) + |cells[j]| <= |FormatRow(cells, widths)|
    ensures FormatRow(cells, widths)[ColumnStart(widths, j)..ColumnStart(widths, j) + |cells[j]|] == cells[j]
  {
    if |cells| == 1 {
      assert FormatRow(cells, widths) == cells[0] && ColumnStart(widths, j) == 0;
      assert cells[0][0..|cells[0]|] == cells[0];
    } else if j == 0 {
      FirstCell(cells, widths);
    } else {
      FormatRowCell(cells[1..], widths[1..], j - 1);
      assert cells[1..][j - 1] == cells[j];
      LaterCell(cells, widths, j);
    }
  }

  /** FormatRowCell for the first of several cells. */
  lemma FirstCell(cells: seq<string>, widths: seq<nat>)
    requires |cells| == |widths| && |cells| > 1 && |cells[0]| <= widths[0]
    ensures |cells[0]| <= |FormatRow(cells, widths)|
    ensures FormatRow(cells, widths)[..|cells[0]|] == cells[0]
  {
    var head := PadRight(cells[0], widths[0]) + ColumnSplitter;
    var tail := FormatRow(cells[1..], widths[1..]);
    PaddedCell(cells[0], widths[0]);
    assert FormatRow(cells, widths) == head + tail;
    PrefixOfConcat(head, tail, |cells[0]|);
  }

  /** FormatRowCell for a later cell, from where it sits among the remaining cells. */
  lemma LaterCell(cells: seq<string>, widths: seq<nat>, j: nat)
    requires |cells| == |widths| && 0 < j < |cells| && |cells[0]| <= widths[0]
    requires var s, tail := ColumnStart(widths[1..], j - 1), FormatRow(cells[1..], widths[1..]);
      s + |cells[j]| <= |tail| && tail[s..s + |cells[j]|] == cells[j]
    ensures ColumnStart(widths, j) + |cells[j]| <= |FormatRow(cells, widths)|
    ensures FormatRow(cells, widths)[ColumnStart(widths, j)..ColumnStart(widths, j) + |cells[j]|] == cells[j]
  {
    var head := PadRight(cells[0], widths[0]) + ColumnSplitter;
    var tail := FormatRow(cells[1..], widths[1..]);
    var s := ColumnStart(widths[1..], j - 1);
    assert |head| == widths[0] + |ColumnSplitter| by {
      PaddedCell(cells[0], widths[0]);
    }
    assert FormatRow(cells, widths) == head + tail;
    assert ColumnStart(widths, j) == |head| + s;
    SliceOfConcat(head, tail, |head| + s, |head| + s + |cells[j]|);
  }

  /** Column alignment, the gaps: after cell j only spaces follow up to where cell
      j + 1 starts. */
  lemma {:induction false} FormatRowGap(cells: seq<string>, widths: seq<nat>, j: nat)
    requires |cells| == |widths| && j + 1 < |cells|
    requires forall k :: 0 <= k < |cells| ==> |cells[k]| <= widths[k]
    ensures ColumnStart(widths, j + 1) <= |FormatRow(cells, widths)|
    ensures forall p :: ColumnStart(widths, j) + |cells[j]| <= p < ColumnStart(widths, j + 1) ==>
      FormatRow(cells, widths)[p] == ' '
  {
    var head := PadRight(cells[0], widths[0]) + ColumnSplitter;
    var tail := FormatRow(cells[1..], widths[1..]);
    PaddedCell(cells[0], widths[0]);
    assert FormatRow(cells, widths) == head + tail;
    if j == 0 {
      assert ColumnStart(widths[1..], 0) == 0;
    } else {
      FormatRowGap(cells[1..], widths[1..], j - 1);
    }
  }

  /** A line of blank cells is blank: the header line of " " headings. */
  lemma {:induction false} FormatRowOfBlanks(cells: seq<string>, widths: seq<nat>)
    requires |cells| == |widths|
    requires forall k :: 0 <= k < |cells| ==> AllWhitespace(cells[k])
    ensures AllWhitespace(FormatRow(cells, widths))
  {
    if |cells| > 1 {
      FormatRowOfBlanks(cells[1..], widths[1..]);
      var pad := PadRight(cells[0], widths[0]);
      assert AllWhitespace(pad) by {
        if |cells[0]| < widths[0] {
          AllWhitespaceConcat(cells[0], Repeat(' ', widths[0] - |cells[0]|));
        }
      }
      AllWhitespaceConcat(pad, ColumnSplitter);
      AllWhitespaceConcat(pad + ColumnSplitter, FormatRow(cells[1..], widths[1..]));
    }
  }

  /** The cells a line may hold: none contains a line break. */
  lemma {:induction false} FormatRowHasNoLineBreak(cells: seq<string>, widths: seq<nat>)
    requires |cells| == |widths|
    requires forall k :: 0 <= k < |cells| ==> '\n' !in cells[k]
    ensures '\n' !in FormatRow(cells, widths)
  {
    if |cells| > 1 {
      FormatRowHasNoLineBreak(cells[1..], widths[1..]);
      assert '\n' !in PadRight(cells[0], widths[0]);
    }
  }

  /** What the formatter assumes of a matrix: rectangular, with at least one row
      and one column, cells free of line breaks, and a first cell that starts with
      a character other than white space. */
  predicate Printable(matrix: seq<seq<string>>)
  {
    IsRectangular(matrix) && |matrix| > 0 && NumCols(matrix) > 0
    && (forall r, c :: 0 <= r < |matrix| && 0 <= c < NumCols(matrix) ==> '\n' !in matrix[r][c])
    && matrix[0][0] != [] && !IsWhitespace(matrix[0][0][0])
  }

  /** Removing the leading blank text of the layout (trimLeft) removes exactly the
      header line of " " headings and its line break. */
  lemma BodyIsRows(matrix: seq<seq<string>>)
    requires Printable(matrix)
    ensures TrimStart(Columnify(matrix)) == Join(BodyLines(matrix), "\n")
  {
    var widths := ColumnWidths(matrix);
    var blanks := seq(NumCols(matrix), _ => " ");
    FormatRowOfBlanks(blanks, widths);
    AllWhitespaceConcat(FormatRow(blanks, widths), "\n");
    var lines := BodyLines(matrix);
    FormatRowCell(matrix[0], widths, 0);
    JoinStartsWith(lines, "\n");
    var body := Join(lines, "\n");
    assert body[0] == lines[0][0] == matrix[0][0][0];
    TrimStartAfterBlank(FormatRow(blanks, widths) + "\n", body);
    TrimStartOfWord(body);
  }

  /** The title line the formatter prints: the trimmed title, only for a title that
      is not "" (a title of spaces gives an empty first line). */
  function TitleLines(title: string): seq<string>
  {
    if title != "" then [Trim(title)] else []
  }

  /** The text the formatter assembles from a title line, the heading, the underline
      and the body is those lines joined by line breaks. */
  lemma {:induction false} AssembledLines(title: string, heading: string, underline: string, lines: seq<string>)
    requires |lines| >= 1
    ensures (if title != "" then Trim(title) + "\n" else "") + (heading + "\n" + underline + "\n" + Join(lines, "\n"))
      == Join(TitleLines(title) + [heading, underline] + lines, "\n")
  {
    var rest := [heading, underline] + lines;
    HeadingAndBody(heading, underline, lines);
    if title != "" {
      JoinCons(Trim(title), rest, "\n");
      assert TitleLines(title) + [heading, underline] + lines == [Trim(title)] + rest;
    } else {
      assert TitleLines(title) + [heading, underline] + lines == rest;
    }
  }

  /** The heading, the underline and the body lines joined by line breaks. */
  lemma HeadingAndBody(heading: string, underline: string, lines: seq<string>)
    requires |lines| >= 1
    ensures heading + "\n" + underline + "\n" + Join(lines, "\n") == Join([heading, underline] + lines, "\n")
  {
    var body := Join(lines, "\n");
    JoinCons(underline, lines, "\n");
    JoinCons(heading, [underline] + lines, "\n");
    assert [heading, underline] + lines == [heading] + ([underline] + lines);
    ConcatAssoc(heading + "\n", underline + "\n", body);
    ConcatAssoc(heading + "\n", underline, "\n");
  }

  /** The formatted text is its lines joined by line breaks. */
  lemma FormattedAsJoin(matrix: seq<seq<string>>, title: string)
    requires Printable(matrix)
    ensures GetMatrixFormattedString(matrix, title) ==
      Join(TitleLines(title) + [Heading(|matrix|, NumCols(matrix)), Underline(title, Heading(|matrix|, NumCols(matrix)))] + BodyLines(matrix), "\n")
  {
    var heading := Heading(|matrix|, NumCols(matrix));
    BodyIsRows(matrix);
    AssembledLines(title, heading, Underline(title, heading), BodyLines(matrix));
  }

  /** No row line of a printable matrix holds a line break. */
  lemma BodyLinesHaveNoLineBreak(matrix: seq<seq<string>>)
    requires Printable(matrix)
    ensures forall r :: 0 <= r < |BodyLines(matrix)| ==> '\n' !in BodyLines(matrix)[r]
  {
    forall r | 0 <= r < |matrix| ensures '\n' !in BodyLines(matrix)[r] {
      FormatRowHasNoLineBreak(matrix[r], ColumnWidths(matrix));
    }
  }

  /** Neither the heading nor the underline holds a line break. */
  lemma HeadingHasNoLineBreak(title: string, numRows: nat, numCols: nat)
    ensures '\n' !in Heading(numRows, numCols)
    ensures '\n' !in Underline(title, Heading(numRows, numCols))
  {
    var a, b := NatToString(numRows), NatToString(numCols);
    assert forall i :: 0 <= i < |a| ==> IsDigit(a[i]);
    assert forall i :: 0 <= i < |b| ==> IsDigit(b[i]);
  }

  /** The lines of the formatted text: the title line when there is a title, the
      heading "{rows}X{cols} Matrix", the underline, then one line per row. */
  lemma FormattedLines(matrix: seq<seq<string>>, title: string)
    requires Printable(matrix)
    requires '\n' !in Trim(title)
    ensures Split(GetMatrixFormattedString(matrix, title), '\n') ==
      TitleLines(title) + [Heading(|matrix|, NumCols(matrix)), Underline(title, Heading(|matrix|, NumCols(matrix)))] + BodyLines(matrix)
  {
    var heading := Heading(|matrix|, NumCols(matrix));
    var underline := Underline(title, heading);
    var front, body := TitleLines(title) + [heading, underline], BodyLines(matrix);
    assert GetMatrixFormattedString(matrix, title) == Join(front + body, "\n") by {
      FormattedAsJoin(matrix, title);
    }
    HeadingHasNoLineBreak(title, |matrix|, NumCols(matrix));
    FrontHasNoLineBreak(title, heading, underline);
    BodyLinesHaveNoLineBreak(matrix);
    SplitAssembled(front, body);
  }

  /** Neither the title line nor the heading nor the underline holds a line break. */
  lemma FrontHasNoLineBreak(title: string, heading: string, underline: string)
    requires '\n' !in Trim(title) && '\n' !in heading && '\n' !in underline
    ensures var front := TitleLines(title) + [heading, underline];
      forall k :: 0 <= k < |front| ==> '\n' !in front[k]
  {
    var front := TitleLines(title) + [heading, underline];
    if title != "" {
      assert front == [Trim(title), heading, underline];
    } else {
      assert front == [heading, underline];
    }
  }

  /** Lines free of line breaks, joined by line breaks, split back into themselves. */
  lemma SplitAssembled(front: seq<string>, lines: seq<string>)
    requires |front| >= 1
    requires forall k :: 0 <= k < |front| ==> '\n' !in front[k]
    requires forall r :: 0 <= r < |lines| ==> '\n' !in lines[r]
    ensures Split(Join(front + lines, "\n"), '\n') == front + lines
  {
    var all := front + lines;
    forall k | 0 <= k < |all| ensures '\n' !in all[k] {
      if k >= |front| {
        assert all[k] == lines[k - |front|];
      } else {
        assert all[k] == front[k];
      }
    }
    SplitOfJoin(all, '\n');
  }

  /** An r-row matrix gives r + 3 lines with a title and r + 2 without, and the
      underline is made of hyphens only and covers both the title line and the
      heading. */
  lemma FormattedLineCount(matrix: seq<seq<string>>, title: string)
    requires Printable(matrix)
    requires '\n' !in Trim(title)
    ensures var lines := Split(GetMatrixFormattedString(matrix, title), '\n');
      |lines| == (if title != "" then 3 else 2) + |matrix|
      && var k := if title != "" then 1 else 0;
      AllHyphens(lines[k + 1])
      && |lines[k + 1]| >= |lines[k]| && (title != "" ==> |lines[k + 1]| >= |lines[0]|)
  {
    FormattedLines(matrix, title);
  }

  /** The widths used are those of the widest cells: every cell fits its column,
      and a column wider than the 1-character heading is as wide as one of its cells. */
  lemma ColumnWidthsFit(matrix: seq<seq<string>>, r: nat, c: nat)
    requires IsRectangular(matrix) && r < |matrix| && c < NumCols(matrix)
    ensures |matrix[r][c]| <= ColumnWidths(matrix)[c]
    ensures ColumnWidths(matrix)[c] >= 1
    ensures (exists i :: 0 <= i < |matrix| && |matrix[i][c]| >= 1) ==>
      exists i :: 0 <= i < |matrix| && |matrix[i][c]| == ColumnWidths(matrix)[c]
    ensures (forall i :: 0 <= i < |matrix| ==> |matrix[i][c]| <= 1) ==> ColumnWidths(matrix)[c] == 1
  {
  }

  /** A column of empty cells keeps the width of its " " heading: [["a", "", "b"]]
      lays out as "a", one space of padding, the two splitters and "b". */
  lemma BlankColumnKeepsHeadingWidth()
    ensures BodyLines([["a", "", "b"]]) == ["a     b"]
  {
    var m := [["a", "", "b"]];
    assert ColumnWidth(m, 0) == 1 && ColumnWidth(m, 1) == 1 && ColumnWidth(m, 2) == 1;
    assert ColumnWidths(m) == [1, 1, 1];
    assert FormatRow(["a", "", "b"], [1, 1, 1]) == "a     b" by {
      assert PadRight("a", 1) == "a";
      assert PadRight("", 1) == " ";
      assert ["a", "", "b"][1..] == ["", "b"];
      assert ["", "b"][1..] == ["b"];
    }
  }

  /** The parts of the layout of [[1, 2], [1, 2], [1, 2]]: every column is one
      character wide, so each row reads "1  2". */
  lemma ExampleBodyLines()
    ensures BodyLines([["1", "2"], ["1", "2"], ["1", "2"]]) == ["1  2", "1  2", "1  2"]
  {
    var m := [["1", "2"], ["1", "2"], ["1", "2"]];
    assert ColumnWidth(m, 0) == 1 && ColumnWidth(m, 1) == 1;
    assert ColumnWidths(m) == [1, 1];
    assert FormatRow(["1", "2"], [1, 1]) == "1  2" by {
      assert PadRight("1", 1) == "1";
      assert ["1", "2"][1..] == ["2"];
    }
  }

  /** The heading of a 3x2 matrix. */
  lemma ExampleHeading()
    ensures Heading(3, 2) == "3X2 Matrix"
  {
  }

  /** A title no longer than the heading leaves the underline as long as the heading. */
  lemma UnderlineOfShortTitle(title: string, heading: string)
    requires |Trim(title)| <= |heading|
    ensures Underline(title, heading) == Repeat('-', |heading|)
  {
  }

  /** Under a title of at most ten characters the underline of "3X2 Matrix" is ten
      hyphens. */
  lemma ExampleUnderline(title: string)
    requires |Trim(title)| <= 10
    ensures Underline(title, "3X2 Matrix") == "----------"
  {
    UnderlineOfShortTitle(title, "3X2 Matrix");
    TenHyphens();
  }

  /** Ten hyphens, written out. */
  lemma TenHyphens()
    ensures Repeat('-', 10) == "----------"
  {
  }

  /** The title of the unit tests is already trimmed. */
  lemma ExampleTitle()
    ensures Trim("Test") == "Test"
  {
    TrimOfTrimmed("Test");
  }

  /** The lines of the layout of [[1, 2], [1, 2], [1, 2]] under a short title that
      is already trimmed. */
  lemma ExampleLines(m: seq<seq<string>>, title: string)
    requires m == [["1", "2"], ["1", "2"], ["1", "2"]]
    requires Trim(title) == title && |title| <= 10
    ensures GetMatrixFormattedString(m, title)
      == Join(TitleLines(title) + ["3X2 Matrix", "----------", "1  2", "1  2", "1  2"], "\n")
  {
    assert Printable(m);
    ExampleBodyLines();
    ExampleHeading();
    ExampleUnderline(title);
    FormattedAsJoin(m, title);
    var rows := ["1  2", "1  2", "1  2"];
    assert [Heading(|m|, NumCols(m)), Underline(title, Heading(|m|, NumCols(m)))] + BodyLines(m)
      == ["3X2 Matrix", "----------"] + rows;
    assert TitleLines(title) + ["3X2 Matrix", "----------"] + rows
      == TitleLines(title) + ["3X2 Matrix", "----------", "1  2", "1  2", "1  2"];
  }

  /** The unit tests' expected output for m = [[1, 2], [1, 2], [1, 2]], with the title
      "Test" and without a title: "Test\n3X2 Matrix\n----------\n1  2\n1  2\n1  2"
      and the same without its first line, written here as the lines joined by
      line breaks. */
  lemma FormattedStringTestCases(m: seq<seq<string>>, title: string)
    requires m == [["1", "2"], ["1", "2"], ["1", "2"]]
    requires title == "Test"
    ensures GetMatrixFormattedString(m, title)
      == Join(["Test", "3X2 Matrix", "----------", "1  2", "1  2", "1  2"], "\n")
    ensures GetMatrixFormattedString(m, "")
      == Join(["3X2 Matrix", "----------", "1  2", "1  2", "1  2"], "\n")
  {
    ExampleTitle();
    TrimOfBlank("");
    ExampleLines(m, title);
    ExampleLines(m, "");
    assert [title] + ["3X2 Matrix", "----------", "1  2", "1  2", "1  2"]
      == ["Test", "3X2 Matrix", "----------", "1  2", "1  2", "1  2"];
    assert [] + ["3X2 Matrix", "----------", "1  2", "1  2", "1  2"]
      == ["3X2 Matrix", "----------", "1  2", "1  2", "1  2"];
  }

  // ---------------------------------------------------------------------------
  // isPositiveWholeNumber
  // ---------------------------------------------------------------------------

  /** isPositiveWholeNumber: parseInt with radix 10 and parseFloat give the same
      number (===), and it is greater than zero. */
  predicate IsPositiveWholeNumber(number: string)
  {
    var asFloat := ParseFloat(number);
    var asInt := ParseInt(number);
    NumberEquals(asInt, asFloat) && IsPositive(asInt)
  }

  /** The check accepts only texts whose parseFloat value is a positive whole
      number. */
  lemma IsPositiveWholeNumberSound(number: string)
    requires IsPositiveWholeNumber(number)
    ensures IsWhole(ParseFloat(number)) && IsPositive(ParseFloat(number))
  {
    EqualsWholeInteger(ParseInt(number).mantissa, ParseFloat(number));
  }

  /** For texts without an exponent part the check accepts every text whose
      parseFloat value is a positive whole number. */
  lemma IsPositiveWholeNumberComplete(number: string)
    requires ExponentFree(number)
    requires IsWhole(ParseFloat(number)) && IsPositive(ParseFloat(number))
    ensures IsPositiveWholeNumber(number)
  {
    var lit := ScanFloat(number);
    assert lit.DecimalLiteral? && lit.exponent == 0;
    WholeLiteralAccepted(number, lit.negative, lit.intDigits, lit.fracDigits);
  }

  /** IsPositiveWholeNumberComplete once the literal parseFloat reads is known. */
  lemma WholeLiteralAccepted(number: string, negative: bool, intDigits: string, fracDigits: string)
    requires ScanFloat(number) == DecimalLiteral(negative, intDigits, fracDigits, 0)
    requires IsWhole(ParseFloat(number)) && IsPositive(ParseFloat(number))
    ensures IsPositiveWholeNumber(number)
  {
    var i, d, k := DigitsValue(intDigits), DigitsValue(fracDigits), |fracDigits|;
    var asFloat, asInt := ParseFloat(number), ParseInt(number);
    ParseFloatOfLiteral(number, negative, intDigits, fracDigits, 0);
    DigitsValueBound(fracDigits);
    WholeDecimalValue(negative, i, d, k);
    assert asInt == Finite(i, 0) by {
      ParseIntReadsIntegerPart(number);
      assert intDigits != [];
    }
    assert asFloat == Finite(Shift(i, k) + d, -(k as int));
    assert NumberEquals(asInt, asFloat) && IsPositive(asInt);
  }

  /** The exponent is read by parseFloat but not by parseInt: "1e3" parses to the
      positive whole number 1000 and is still rejected. */
  lemma ExponentIsRejected()
    ensures ParseFloat("1e3") == Finite(1, 3) && IsWhole(ParseFloat("1e3")) && IsPositive(ParseFloat("1e3"))
    ensures !IsPositiveWholeNumber("1e3")
  {
    var s := "1e3";
    TrimStartOfWord(s);
    assert SplitSign(s) == (false, s);
    assert LeadingDigits(s) == 1 && s[..1] == "1";
    assert s[1..] == "e3" && FractionDigits("e3") == "" && AfterFraction("e3") == "e3";
    assert "e3"[1..] == "3" && LeadingDigits("3") == 1 && "3"[..1] == "3";
    assert ScanFloat(s) == DecimalLiteral(false, "1", "", 3);
    assert "1" + "" == "1";
  }

  /** The decimal text of an integer n is accepted exactly when n > 0. */
  lemma IsPositiveWholeNumberOfInteger(n: int)
    ensures IsPositiveWholeNumber(IntToString(n)) <==> n > 0
  {
    IntegerTextParses(n);
  }

  /** The decimal texts of the integers the unit tests pass in. */
  lemma TestIntegerTexts()
    ensures IntToString(100) == "100" && IntToString(0) == "0" && IntToString(-23) == "-23"
  {
    assert NatToString(10) == "10";
    assert NatToString(23) == "23";
  }

  /** The cases of the unit tests: 100 is accepted, 0 and -23 are not. */
  lemma IsPositiveWholeNumberTestCases()
    ensures IsPositiveWholeNumber("100") && !IsPositiveWholeNumber("0") && !IsPositiveWholeNumber("-23")
  {
    TestIntegerTexts();
    IsPositiveWholeNumberOfInteger(100);
    IsPositiveWholeNumberOfInteger(0);
    IsPositiveWholeNumberOfInteger(-23);
  }

  /** A text without digits is rejected, as the unit test for a non-number expects. */
  lemma NonNumberIsRejected()
    ensures !IsPositiveWholeNumber("THIS-IS-NOT-A-NUMBER")
  {
    var t := "THIS-IS-NOT-A-NUMBER";
    TrimStartOfWord(t);
    assert SplitSign(t) == (false, t) && LeadingDigits(t) == 0;
  }

  /** A digit, a point and a digit: parseFloat reads all three characters. */
  lemma OneDigitFraction(s: string)
    requires |s| == 3 && IsDigit(s[0]) && s[1] == '.' && IsDigit(s[2])
    ensures ScanFloat(s) == DecimalLiteral(false, s[..1], s[2..], 0)
    ensures ParseFloat(s) == Finite(10 * DigitValue(s[0]) + DigitValue(s[2]), -1)
  {
    TrimStartOfWord(s);
    assert SplitSign(s) == (false, s);
    var rest := s[1..];
    assert LeadingDigits(s) == 1 && rest[1..] == s[2..];
    assert LeadingDigits(s[2..]) == 1 && s[2..][..1] == s[2..];
    assert FractionDigits(rest) == s[2..] && AfterFraction(rest) == [];
    assert !("Infinity" <= s) by { assert "Infinity"[0] != s[0]; }
    assert ScanFloat(s) == ScanUnsigned(false, s) == DecimalLiteral(false, s[..1], s[2..], 0);
    ParseFloatOfLiteral(s, false, s[..1], s[2..], 0);
    assert DigitsValue(s[..1]) == DigitValue(s[0]) by { assert s[..1][..0] == []; }
    assert DigitsValue(s[2..]) == DigitValue(s[2]) by { assert s[2..][..0] == []; }
  }

  /** A one-digit number with a one-digit fraction is accepted exactly when its
      integer digit is not 0 and its fraction digit is 0. */
  lemma OneDigitFractionVerdict(s: string)
    requires |s| == 3 && IsDigit(s[0]) && s[1] == '.' && IsDigit(s[2])
    ensures IsPositiveWholeNumber(s) <==> s[0] != '0' && s[2] == '0'
  {
    OneDigitFraction(s);
    var a, b := DigitValue(s[0]), DigitValue(s[2]);
    var f := ParseFloat(s);
    assert f == Finite(10 * a + b, -1);
    if IsPositiveWholeNumber(s) {
      IsPositiveWholeNumberSound(s);
      assert EndsInZeros(10 * a + b, 1);
      assert b == 0 && a > 0;
    }
    if s[0] != '0' && s[2] == '0' {
      assert b == 0 && a > 0;
      assert EndsInZeros(10 * a + b, 1) by { assert (10 * a) / 10 == a; }
      IsPositiveWholeNumberComplete(s);
    }
  }

  /** A fraction of zeros is still whole: "3.0" is accepted. */
  lemma ZeroFractionIsAccepted()
    ensures IsPositiveWholeNumber("3.0")
  {
    OneDigitFractionVerdict("3.0");
  }

  /** Any other fraction is not whole: "3.5" is rejected. */
  lemma FractionIsRejected()
    ensures !IsPositiveWholeNumber("3.5")
  {
    OneDigitFractionVerdict("3.5");
  }

  /** Both parsers stop at the first character they cannot use: a text that starts
      with digits followed by anything but a point or an exponent mark is accepted
      exactly when those digits are not all zeros. */
  lemma LeadingDigitsVerdict(s: string)
    requires s != [] && IsDigit(s[0])
    requires var n := LeadingDigits(s); n == |s| || (s[n] != '.' && s[n] != 'e' && s[n] != 'E')
    ensures IsPositiveWholeNumber(s) <==> DigitsValue(s[..LeadingDigits(s)]) > 0
  {
    var digits := s[..LeadingDigits(s)];
    var v := DigitsValue(digits);
    assert ParseFloat(s) == Finite(v, 0) by {
      LeadingDigitsScan(s);
      ParseFloatOfInteger(s, false, digits);
    }
    assert ParseInt(s) == Finite(v, 0) by {
      LeadingDigitsScan(s);
      ParseIntReadsIntegerPart(s);
    }
    IntegerVerdict(s, v);
  }

  /** Both parsers reading the same integer v: the text is accepted exactly when
      v is positive. */
  lemma IntegerVerdict(s: string, v: int)
    requires ParseFloat(s) == Finite(v, 0) && ParseInt(s) == Finite(v, 0)
    ensures IsPositiveWholeNumber(s) <==> v > 0
  {
  }

  /** What parseFloat reads from such a text: the leading digits alone. */
  lemma LeadingDigitsScan(s: string)
    requires s != [] && IsDigit(s[0])
    requires var n := LeadingDigits(s); n == |s| || (s[n] != '.' && s[n] != 'e' && s[n] != 'E')
    ensures ScanFloat(s) == DecimalLiteral(false, s[..LeadingDigits(s)], "", 0)
  {
    var n := LeadingDigits(s);
    TrimStartOfWord(s);
    assert SplitSign(s) == (false, s);
    assert FractionDigits(s[n..]) == "" && AfterFraction(s[n..]) == s[n..] && ExponentPart(s[n..]) == 0;
    assert !("Infinity" <= s) by { assert "Infinity"[0] != s[0]; }
    assert ScanFloat(s) == ScanUnsigned(false, s);
  }

  /** Text after the number is ignored by both parsers: "12abc" is accepted. */
  lemma TrailingTextIsIgnored()
    ensures IsPositiveWholeNumber("12abc")
  {
    var c := "12abc";
    assert LeadingDigits(c) == 2 && c[..2] == "12" && c[2] == 'a';
    assert DigitsValue("12") == 12 by { assert "12"[..1] == "1"; }
    LeadingDigitsVerdict(c);
  }
}
