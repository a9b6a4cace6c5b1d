/** cli.js: the answers the prompts accept (a positive whole number for each
    dimension, exactly numCols space-separated items for each row) and the
    assembly of the accepted rows into a matrix. The prompt library and its
    Promise wrappers are not modelled: each validator is a plain function from the
    answer text to its verdict. */
module Cli {
  import opened JsStrings
  import opened JsNumbers
  import Utils

  // ---------------------------------------------------------------------------
  // isPositiveWholeNumber
  // ---------------------------------------------------------------------------

  /** isPositiveWholeNumber as cli.js writes it: parseInt without a radix, parseFloat,
      loose equality (which for two numbers is strict equality) and > 0. */
  predicate IsPositiveWholeNumber(number: string)
  {
    var asFloat := ParseFloat(number);
    var asInt := ParseIntAnyRadix(number);
    NumberEquals(asInt, asFloat) && IsPositive(asInt)
  }

  /** With a "0x" prefix parseFloat reads just the 0. */
  lemma HexPrefixReadsZero(s: string)
    requires HasHexPrefix(SplitSign(TrimStart(s)).1)
    ensures ParseFloat(s) == Finite(0, 0) && ParseInt(s) == Finite(0, 0)
  {
    var (negative, u) := SplitSign(TrimStart(s));
    assert LeadingDigits(u) == 1 && u[..1] == "0";
    assert FractionDigits(u[1..]) == "" && AfterFraction(u[1..]) == u[1..];
    assert ExponentPart(u[1..]) == 0;
    assert !("Infinity" <= u) by { assert "Infinity"[0] != u[0]; }
    assert ScanFloat(s) == DecimalLiteral(negative, "0", "", 0);
  }

  /** The cli.js check accepts exactly the texts the utils.js check accepts: the two
      differ only on a "0x" prefix, where parseInt reads hexadecimal but parseFloat
      reads 0, so both reject. */
  lemma SameAsUtils(number: string)
    ensures IsPositiveWholeNumber(number) <==> Utils.IsPositiveWholeNumber(number)
  {
    if HasHexPrefix(SplitSign(TrimStart(number)).1) {
      HexPrefixReadsZero(number);
      var h := ParseIntAnyRadix(number);
      assert IsPositive(h) ==> !NumberEquals(h, Finite(0, 0));
    }
  }

  /** parseInt without a radix reads "0x10" as 16, but parseFloat reads 0: the
      hexadecimal text of a positive number is rejected. */
  lemma HexIsRejected()
    ensures ParseIntAnyRadix("0x10") == Finite(16, 0) && ParseFloat("0x10") == Finite(0, 0)
    ensures !IsPositiveWholeNumber("0x10")
  {
    var s := "0x10";
    TrimStartOfWord(s);
    assert SplitSign(s) == (false, s);
    assert s[2..] == "10" && LeadingHexDigits("10") == 2 && "10"[..2] == "10";
    assert HexValue("10") == 16 by { assert "10"[..1] == "1"; }
    HexPrefixReadsZero(s);
  }

  /** The cli.js check on the examples its prompts meet: "3" and "3.0" are accepted,
      "0", "-5", "3.5" and text that is not a number are not, and trailing text
      after the number is ignored. */
  lemma IsPositiveWholeNumberExamples()
    ensures IsPositiveWholeNumber("3") && IsPositiveWholeNumber("3.0") && IsPositiveWholeNumber("12abc")
    ensures !IsPositiveWholeNumber("0") && !IsPositiveWholeNumber("-5") && !IsPositiveWholeNumber("3.5")
    ensures !IsPositiveWholeNumber("THIS-IS-NOT-A-NUMBER")
  {
    assert IntToString(3) == "3" && IntToString(0) == "0" && IntToString(-5) == "-5";
    Utils.IsPositiveWholeNumberOfInteger(3);
    Utils.IsPositiveWholeNumberOfInteger(0);
    Utils.IsPositiveWholeNumberOfInteger(-5);
    Utils.ZeroFractionIsAccepted();
    Utils.FractionIsRejected();
    Utils.TrailingTextIsIgnored();
    Utils.NonNumberIsRejected();
    SameAsUtils("3");
    SameAsUtils("3.0");
    SameAsUtils("12abc");
    SameAsUtils("0");
    SameAsUtils("-5");
    SameAsUtils("3.5");
    SameAsUtils("THIS-IS-NOT-A-NUMBER");
  }

  // ---------------------------------------------------------------------------
  // Validators
  // ---------------------------------------------------------------------------

  /** What a validator resolves to: true, or the message shown to the user. */
  datatype Validation = Accepted | Rejected(message: string)

  const PositiveIntegerMessage: string := "You must enter a POSITIVE INTEGER"

  /** positiveNumberInputValidator: the dimension prompts' check. */
  function PositiveNumberInputValidator(input: string): (v: Validation)
    ensures v == Accepted || v == Rejected(PositiveIntegerMessage)
  {
    if IsPositiveWholeNumber(input) then Accepted else Rejected(PositiveIntegerMessage)
  }

  /** A dimension is accepted only when parseFloat reads a positive whole number, and,
      for text without an exponent, always then. */
  lemma PositiveNumberInputValidatorMeaning(input: string)
    ensures PositiveNumberInputValidator(input) == Accepted ==>
      IsWhole(ParseFloat(input)) && IsPositive(ParseFloat(input))
    ensures ExponentFree(input) && IsWhole(ParseFloat(input)) && IsPositive(ParseFloat(input)) ==>
      PositiveNumberInputValidator(input) == Accepted
  {
    SameAsUtils(input);
    if Utils.IsPositiveWholeNumber(input) {
      Utils.IsPositiveWholeNumberSound(input);
    }
    if ExponentFree(input) && IsWhole(ParseFloat(input)) && IsPositive(ParseFloat(input)) {
      Utils.IsPositiveWholeNumberComplete(input);
    }
  }

  /** The items of a row answer: the text trimmed, then split on runs of spaces
      (only the space character separates; a tab stays inside an item). */
  function RowElements(input: string): (items: seq<string>)
    ensures |items| >= 1
  {
    SplitSpaceRuns(Trim(input))
  }

  function RowCountMessage(numCols: int): string
  {
    "You must enter exactly " + IntToString(numCols) + " items separated by spaces"
  }

  /** makeRowInputValidator(numCols) applied to an answer. */
  function MakeRowInputValidator(numCols: int, input: string): (v: Validation)
    ensures v == Accepted || v == Rejected(RowCountMessage(numCols))
  {
    if |RowElements(input)| == numCols then Accepted else Rejected(RowCountMessage(numCols))
  }

  /** An item of a row: some text without white space. */
  predicate IsWord(w: string)
  {
    w != [] && forall i :: 0 <= i < |w| ==> !IsWhitespace(w[i])
  }

  /** Words joined by single spaces have no white space at either end. */
  lemma JoinedWordsAreTrimmed(words: seq<string>)
    requires |words| >= 1 && forall k :: 0 <= k < |words| ==> IsWord(words[k])
    ensures Trim(Join(words, " ")) == Join(words, " ")
  {
    var line := Join(words, " ");
    var first, last := words[0], words[|words| - 1];
    assert line != [] && !IsWhitespace(line[0]) by {
      assert IsWord(first) && !IsWhitespace(first[0]);
      JoinStartsWith(words, " ");
      assert line[..|first|][0] == first[0];
    }
    assert !IsWhitespace(line[|line| - 1]) by {
      assert IsWord(last) && !IsWhitespace(last[|last| - 1]);
      JoinEndsWith(words, " ");
      assert line[|line| - |last|..][|last| - 1] == last[|last| - 1];
    }
    TrimOfTrimmed(line);
  }

  /** Words joined by single spaces are read back as those words, so such a row is
      accepted exactly when it has numCols words. */
  lemma RowOfWords(numCols: int, words: seq<string>)
    requires |words| >= 1 && forall k :: 0 <= k < |words| ==> IsWord(words[k])
    ensures RowElements(Join(words, " ")) == words
    ensures MakeRowInputValidator(numCols, Join(words, " ")) == Accepted <==> |words| == numCols
  {
    JoinedWordsAreTrimmed(words);
    assert forall k :: 0 <= k < |words| ==> words[k] != [] && ' ' !in words[k] by {
      forall k | 0 <= k < |words| ensures words[k] != [] && ' ' !in words[k] {
        assert IsWord(words[k]);
      }
    }
    SplitSpaceRunsOfJoin(words);
  }

  /** White space around the answer does not change the verdict. */
  lemma RowValidatorIgnoresPadding(numCols: int, w1: string, input: string, w2: string)
    requires AllWhitespace(w1) && AllWhitespace(w2)
    ensures RowElements(w1 + input + w2) == RowElements(input)
    ensures MakeRowInputValidator(numCols, w1 + input + w2) == MakeRowInputValidator(numCols, input)
  {
    TrimIgnoresPadding(w1, input, w2);
  }

  /** Between two non-blank parts, one space and a run of two read alike. */
  lemma CollapseBetweenWords(a: string, b: string)
    requires !AllWhitespace(a) && !AllWhitespace(b)
    ensures RowElements(a + "  " + b) == RowElements(a + " " + b)
  {
    TrimAround(a, " ", b);
    TrimAround(a, "  ", b);
    SplitSpaceRunsCollapse(TrimStart(a), TrimEnd(b));
  }

  /** After blank text, one space and a run of two are trimmed away alike. */
  lemma CollapseAfterBlank(a: string, b: string)
    requires AllWhitespace(a)
    ensures RowElements(a + "  " + b) == RowElements(a + " " + b)
  {
    TrimBlankBefore(a, " ", b);
    TrimBlankBefore(a, "  ", b);
  }

  /** Before blank text, one space and a run of two are trimmed away alike. */
  lemma CollapseBeforeBlank(a: string, b: string)
    requires AllWhitespace(b)
    ensures RowElements(a + "  " + b) == RowElements(a + " " + b)
  {
    TrimBlankAfter(a, " ", b);
    TrimBlankAfter(a, "  ", b);
  }

  /** A run of two spaces reads like a single space anywhere in the answer. */
  lemma RowValidatorCollapsesSpaces(numCols: int, a: string, b: string)
    ensures RowElements(a + "  " + b) == RowElements(a + " " + b)
    ensures MakeRowInputValidator(numCols, a + "  " + b) == MakeRowInputValidator(numCols, a + " " + b)
  {
    if AllWhitespace(a) {
      CollapseAfterBlank(a, b);
    } else if AllWhitespace(b) {
      CollapseBeforeBlank(a, b);
    } else {
      CollapseBetweenWords(a, b);
    }
  }

  /** A blank answer is one empty item: it is accepted exactly when numCols is 1. */
  lemma BlankRow(numCols: int, input: string)
    requires AllWhitespace(input)
    ensures RowElements(input) == [""]
    ensures MakeRowInputValidator(numCols, input) == Accepted <==> numCols == 1
  {
    TrimOfBlank(input);
  }

  /** An answer without a space character, with no white space at either end, is a
      single item: tabs and other white space inside it do not separate. */
  lemma SpaceFreeRow(input: string)
    requires input != [] && !IsWhitespace(input[0]) && !IsWhitespace(input[|input| - 1])
    requires ' ' !in input
    ensures RowElements(input) == [input]
  {
    TrimOfTrimmed(input);
    SplitSpaceRunsWithoutSpace(input);
  }

  /** A tab does not separate items: "1\t2" is one item. */
  lemma TabIsNotSeparator()
    ensures RowElements("1\t2") == ["1\t2"]
  {
    SpaceFreeRow("1\t2");
  }

  /** The answer the unit tests give to every row prompt: "1 2 3" passes the check
      for three columns and not for two. */
  lemma RowValidatorExamples()
    ensures MakeRowInputValidator(3, "1 2 3") == Accepted
    ensures MakeRowInputValidator(2, "1 2 3") == Rejected("You must enter exactly 2 items separated by spaces")
  {
    TestRowAnswer();
    RowCountMessageOfTwo();
  }

  /** The answer "1 2 3" holds the three items "1", "2" and "3". */
  lemma TestRowAnswer()
    ensures RowElements("1 2 3") == ["1", "2", "3"]
  {
    var words := ["1", "2", "3"];
    assert Join(words, " ") == "1 2 3" by {
      assert words[1..] == ["2", "3"] && words[1..][1..] == ["3"];
    }
    RowOfWords(3, words);
  }

  /** The message for two columns, as the unit tests expect it. */
  lemma RowCountMessageOfTwo()
    ensures RowCountMessage(2) == "You must enter exactly 2 items separated by spaces"
  {
    assert IntToString(2) == "2";
    MessageTextOfTwo();
  }

  /** The message pieces around the digit "2", put together. */
  lemma MessageTextOfTwo()
    ensures "You must enter exactly " + "2" + " items separated by spaces"
         == "You must enter exactly 2 items separated by spaces"
  {
  }

  // ---------------------------------------------------------------------------
  // getMatrixElementsFromUser
  // ---------------------------------------------------------------------------

  /** The unit tests answer every row prompt with "1 2 3": whatever the number of
      rows, each row read is ["1", "2", "3"], of three items. */
  lemma RowsOfTestAnswers(numRows: nat, rowsAnswers: seq<string>)
    requires numRows <= |rowsAnswers|
    requires forall i :: 0 <= i < |rowsAnswers| ==> rowsAnswers[i] == "1 2 3"
    ensures forall row :: 0 <= row < numRows ==> RowsElements(rowsAnswers[..numRows])[row] == ["1", "2", "3"]
  {
    TestRowAnswer();
    AssembledRows(numRows, 3, rowsAnswers, RowsElements(rowsAnswers[..numRows]));
  }

  /** f applied to every element, built from the front as a loop pushes the results. */
  function MapInOrder<A, B>(f: A -> B, xs: seq<A>): (ys: seq<B>)
    ensures |ys| == |xs|
  {
    if xs == [] then [] else MapInOrder(f, xs[..|xs| - 1]) + [f(xs[|xs| - 1])]
  }

  /** Element r of MapInOrder(f, xs) is f(xs[r]). */
  lemma {:induction false} MapInOrderAt<A, B>(f: A -> B, xs: seq<A>, r: nat)
    requires r < |xs|
    ensures MapInOrder(f, xs)[r] == f(xs[r])
  {
    var front := xs[..|xs| - 1];
    assert MapInOrder(f, xs) == MapInOrder(f, front) + [f(xs[|xs| - 1])];
    if r < |front| {
      MapInOrderAt(f, front, r);
      assert front[r] == xs[r];
    }
  }

  /** The rows read from a list of answers, in order. */
  function RowsElements(answers: seq<string>): (rows: seq<seq<string>>)
    ensures |rows| == |answers|
  {
    MapInOrder(RowElements, answers)
  }

  /** Row r of the rows read from the answers is the items of answer r. */
  lemma RowsElementsAt(answers: seq<string>, r: nat)
    requires r < |answers|
    ensures RowsElements(answers)[r] == RowElements(answers[r])
  {
    MapInOrderAt(RowElements, answers, r);
  }

  /** What the rows read from the first numRows answers are: row r is the items of
      answer r, and when every one of those answers passed the row check for numCols,
      the rows form a rectangular matrix with numCols columns. */
  lemma AssembledRows(numRows: nat, numCols: int, rowsAnswers: seq<string>, matrix: seq<seq<string>>)
    requires numRows <= |rowsAnswers| && matrix == RowsElements(rowsAnswers[..numRows])
    ensures |matrix| == numRows
    ensures forall row :: 0 <= row < numRows ==> matrix[row] == RowElements(rowsAnswers[row])
    ensures (forall row :: 0 <= row < numRows ==> MakeRowInputValidator(numCols, rowsAnswers[row]) == Accepted) ==>
      Utils.IsRectangular(matrix) && (numRows > 0 ==> Utils.NumCols(matrix) == numCols)
  {
    forall row | 0 <= row < numRows
      ensures matrix[row] == RowElements(rowsAnswers[row])
    {
      RowsElementsAt(rowsAnswers[..numRows], row);
      assert rowsAnswers[..numRows][row] == rowsAnswers[row];
    }
  }

  /** The assembly in getMatrixElementsFromUser: row by row, the trimmed answer split
      on runs of spaces is pushed onto the matrix. rowsAnswers[i] is the answer to
      the prompt named row_i. When every answer passed the row check, the matrix
      is rectangular with numCols columns. */
  method GetMatrixElements(numRows: nat, numCols: int, rowsAnswers: seq<string>) returns (matrix: seq<seq<string>>)
    requires numRows <= |rowsAnswers|
    ensures |matrix| == numRows
    ensures forall row :: 0 <= row < numRows ==> matrix[row] == RowElements(rowsAnswers[row])
    ensures (forall row :: 0 <= row < numRows ==> MakeRowInputValidator(numCols, rowsAnswers[row]) == Accepted) ==>
      Utils.IsRectangular(matrix) && (numRows > 0 ==> Utils.NumCols(matrix) == numCols)
  {
    matrix := [];
    var row := 0;
    while row < numRows
      invariant 0 <= row <= numRows
      invariant matrix == RowsElements(rowsAnswers[..row])
    {
      assert rowsAnswers[..row + 1][..row] == rowsAnswers[..row];
      matrix := matrix + [RowElements(rowsAnswers[row])];
      row := row + 1;
    }
    AssembledRows(numRows, numCols, rowsAnswers, matrix);
  }
}
