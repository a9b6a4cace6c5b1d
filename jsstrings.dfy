/** The JavaScript string built-ins the matrix program leans on: trim and trimLeft,
    split on a one-character separator, split on runs of spaces (the regular
    expression /[ ]+/), join, and right padding. Strings are sequences of chars. */
module JsStrings {

  /** The WhiteSpace and LineTerminator code points of ECMA-262 (sections 12.2 and
      12.3): what trim, trimLeft, parseInt and parseFloat skip. */
  predicate IsWhitespace(c: char)
  {
    c == '\t' || c == '\n' || c == '\U{B}' || c == '\U{C}' || c == '\r' || c == ' '
    || c == '\U{A0}' || c == '\U{1680}' || ('\U{2000}' <= c <= '\U{200A}')
    || c == '\U{2028}' || c == '\U{2029}' || c == '\U{202F}' || c == '\U{205F}'
    || c == '\U{3000}' || c == '\U{FEFF}'
  }

  predicate AllWhitespace(s: string)
  {
    forall i :: 0 <= i < |s| ==> IsWhitespace(s[i])
  }

  /** AllWhitespace distributes over concatenation. */
  lemma AllWhitespaceConcat(a: string, b: string)
    requires AllWhitespace(a) && AllWhitespace(b)
    ensures AllWhitespace(a + b)
  {
    assert forall i :: |a| <= i < |a + b| ==> (a + b)[i] == b[i - |a|];
  }

  /** String.prototype.trimLeft: the suffix left after dropping the leading white space. */
  function TrimStart(s: string): (r: string)
    ensures |r| <= |s| && r == s[|s| - |r|..]
    ensures forall i :: 0 <= i < |s| - |r| ==> IsWhitespace(s[i])
    ensures r == [] || !IsWhitespace(r[0])
  {
    if |s| > 0 && IsWhitespace(s[0]) then TrimStart(s[1..]) else s
  }

  /** The prefix left after dropping the trailing white space. */
  function TrimEnd(s: string): (r: string)
    ensures |r| <= |s| && r == s[..|r|]
    ensures forall i :: |r| <= i < |s| ==> IsWhitespace(s[i])
    ensures r == [] || !IsWhitespace(r[|r| - 1])
  {
    if |s| > 0 && IsWhitespace(s[|s| - 1]) then
      var r := TrimEnd(s[..|s| - 1]);
      assert r == s[..|r|];
      r
    else s
  }

  /** String.prototype.trim: white space removed from both ends. */
  function Trim(s: string): string
  {
    TrimEnd(TrimStart(s))
  }

  /** A text that does not start with white space is its own TrimStart. */
  lemma TrimStartOfWord(s: string)
    requires s != [] && !IsWhitespace(s[0])
    ensures TrimStart(s) == s
  {
  }

  /** White space in front of a text is dropped along with the text's own. */
  lemma {:induction false} TrimStartAfterBlank(w: string, t: string)
    requires AllWhitespace(w)
    ensures TrimStart(w + t) == TrimStart(t)
    decreases |w|
  {
    if w == [] {
      assert w + t == t;
    } else {
      assert (w + t)[0] == w[0] && (w + t)[1..] == w[1..] + t;
      TrimStartAfterBlank(w[1..], t);
    }
  }

  /** White space after a text is dropped along with the text's own. */
  lemma {:induction false} TrimEndBeforeBlank(t: string, w: string)
    requires AllWhitespace(w)
    ensures TrimEnd(t + w) == TrimEnd(t)
    decreases |w|
  {
    if w == [] {
      assert t + w == t;
    } else {
      var u := t + w;
      assert u[|u| - 1] == w[|w| - 1] && u[..|u| - 1] == t + w[..|w| - 1];
      TrimEndBeforeBlank(t, w[..|w| - 1]);
    }
  }

  /** Text after a non-blank part is untouched by TrimStart. */
  lemma {:induction false} TrimStartPrefix(a: string, y: string)
    requires TrimStart(a) != []
    ensures TrimStart(a + y) == TrimStart(a) + y
    decreases |a|
  {
    var u := a + y;
    assert u[0] == a[0] && u[1..] == a[1..] + y;
    if IsWhitespace(a[0]) {
      TrimStartPrefix(a[1..], y);
      assert TrimStart(u) == TrimStart(u[1..]);
    } else {
      assert TrimStart(u) == u && TrimStart(a) == a;
    }
  }

  /** Text before a non-blank part is untouched by TrimEnd. */
  lemma {:induction false} TrimEndSuffix(y: string, b: string)
    requires TrimEnd(b) != []
    ensures TrimEnd(y + b) == y + TrimEnd(b)
    decreases |b|
  {
    var u := y + b;
    assert u[|u| - 1] == b[|b| - 1] && u[..|u| - 1] == y + b[..|b| - 1];
    if IsWhitespace(b[|b| - 1]) {
      TrimEndSuffix(y, b[..|b| - 1]);
    }
  }

  /** A blank text trims to nothing. */
  lemma TrimOfBlank(s: string)
    requires AllWhitespace(s)
    ensures TrimStart(s) == "" && Trim(s) == ""
  {
    TrimStartAfterBlank(s, "");
    assert s + "" == s;
  }

  /** White space appended to a text does not change what trim returns. */
  lemma TrimIgnoresTrailing(s: string, w: string)
    requires AllWhitespace(w)
    ensures Trim(s + w) == Trim(s)
  {
    if TrimStart(s) != [] {
      TrimStartPrefix(s, w);
      TrimEndBeforeBlank(TrimStart(s), w);
    } else {
      assert AllWhitespace(s);
      AllWhitespaceConcat(s, w);
      TrimOfBlank(s + w);
    }
  }

  /** White space added at either end does not change what trim returns. */
  lemma TrimIgnoresPadding(w1: string, s: string, w2: string)
    requires AllWhitespace(w1) && AllWhitespace(w2)
    ensures Trim(w1 + s + w2) == Trim(s)
  {
    ConcatAssoc(w1, s, w2);
    TrimStartAfterBlank(w1, s + w2);
    TrimIgnoresTrailing(s, w2);
  }

  /** Trim of a text whose first and last characters are not white space is the text. */
  lemma TrimOfTrimmed(s: string)
    requires s != [] && !IsWhitespace(s[0]) && !IsWhitespace(s[|s| - 1])
    ensures Trim(s) == s
  {
    TrimStartOfWord(s);
  }

  /** Only an all-blank text trims to nothing. */
  lemma TrimNonBlank(a: string)
    requires !AllWhitespace(a)
    ensures TrimStart(a) != [] && TrimEnd(a) != []
  {
    assert a[0..] == a;
    assert a[..0] == [];
  }

  /** Concatenation is associative; stated once so that proofs about trimming and
      splitting can regroup a text without re-deriving it. */
  lemma ConcatAssoc(a: string, b: string, c: string)
    ensures a + b + c == a + (b + c)
  {
  }

  /** Trim keeps a middle part whole when both sides hold something that is not
      white space: only the outer ends are trimmed. */
  lemma TrimAround(a: string, x: string, b: string)
    requires !AllWhitespace(a) && !AllWhitespace(b)
    ensures Trim(a + x + b) == TrimStart(a) + x + TrimEnd(b)
  {
    TrimNonBlank(a);
    TrimNonBlank(b);
    ConcatAssoc(a, x, b);
    TrimStartPrefix(a, x + b);
    ConcatAssoc(TrimStart(a), x, b);
    TrimEndSuffix(TrimStart(a) + x, b);
  }

  /** White space after a blank prefix is trimmed away with it. */
  lemma TrimBlankBefore(a: string, x: string, b: string)
    requires AllWhitespace(a) && AllWhitespace(x)
    ensures Trim(a + x + b) == Trim(b)
  {
    AllWhitespaceConcat(a, x);
    TrimStartAfterBlank(a + x, b);
  }

  /** White space before a blank suffix is trimmed away with it. */
  lemma TrimBlankAfter(a: string, x: string, b: string)
    requires AllWhitespace(x) && AllWhitespace(b)
    ensures Trim(a + x + b) == Trim(a)
  {
    AllWhitespaceConcat(x, b);
    ConcatAssoc(a, x, b);
    TrimIgnoresTrailing(a, x + b);
  }

  /** Drop the leading run of space characters (U+0020 only). */
  function DropSpaces(s: string): (r: string)
    ensures |r| <= |s| && r == s[|s| - |r|..]
    ensures forall i :: 0 <= i < |s| - |r| ==> s[i] == ' '
    ensures r == [] || r[0] != ' '
  {
    if |s| > 0 && s[0] == ' ' then DropSpaces(s[1..]) else s
  }

  /** The pieces between maximal runs of space characters; a run at either end
      yields an empty first or last piece, and "" yields [""]. */
  function SpaceRunPieces(s: string): (r: seq<string>)
    ensures |r| >= 1
    decreases |s|
  {
    if |s| == 0 then [""]
    else if s[0] == ' ' then
      var rest := DropSpaces(s);
      assert rest == [] || rest[0] == s[|s| - |rest|];
      [""] + SpaceRunPieces(rest)
    else
      var rest := SpaceRunPieces(s[1..]);
      [[s[0]] + rest[0]] + rest[1..]
  }

  /** s.split(/[ ]+/). */
  function SplitSpaceRuns(s: string): (r: seq<string>)
    ensures |r| >= 1
  {
    SpaceRunPieces(s)
  }

  /** s.split(sep) for a one-character separator. */
  function Split(s: string, sep: char): (r: seq<string>)
    ensures |r| >= 1
    ensures forall k :: 0 <= k < |r| ==> sep !in r[k]
  {
    if |s| == 0 then [""]
    else if s[0] == sep then [""] + Split(s[1..], sep)
    else
      var rest := Split(s[1..], sep);
      [[s[0]] + rest[0]] + rest[1..]
  }

  /** parts.join(sep). */
  function Join(parts: seq<string>, sep: string): string
  {
    if |parts| == 0 then ""
    else if |parts| == 1 then parts[0]
    else parts[0] + sep + Join(parts[1..], sep)
  }

  /** A text free of the separator splits to itself alone. */
  lemma {:induction false} SplitWithoutSeparator(s: string, sep: char)
    requires sep !in s
    ensures Split(s, sep) == [s]
  {
    if |s| > 0 {
      assert sep !in s[1..] by { assert forall i :: 0 <= i < |s| - 1 ==> s[1..][i] == s[i + 1]; }
      SplitWithoutSeparator(s[1..], sep);
      assert [s[0]] + s[1..] == s;
    }
  }

  /** Splitting stops at the first separator and goes on after it. */
  lemma {:induction false} SplitAtSeparator(a: string, b: string, sep: char)
    requires sep !in a
    ensures Split(a + [sep] + b, sep) == [a] + Split(b, sep)
  {
    var s := a + [sep] + b;
    if a == [] {
      assert s[1..] == b;
    } else {
      assert s[1..] == a[1..] + [sep] + b;
      assert sep !in a[1..] by { assert forall i :: 0 <= i < |a| - 1 ==> a[1..][i] == a[i + 1]; }
      SplitAtSeparator(a[1..], b, sep);
      assert [a[0]] + a[1..] == a;
    }
  }

  /** Splitting a join of separator-free parts gives the parts back. */
  lemma {:induction false} SplitOfJoin(parts: seq<string>, sep: char)
    requires |parts| >= 1
    requires forall k :: 0 <= k < |parts| ==> sep !in parts[k]
    ensures Split(Join(parts, [sep]), sep) == parts
  {
    if |parts| == 1 {
      SplitWithoutSeparator(parts[0], sep);
    } else {
      SplitOfJoin(parts[1..], sep);
      SplitAtSeparator(parts[0], Join(parts[1..], [sep]), sep);
      assert [parts[0]] + parts[1..] == parts;
    }
  }

  /** Joining the pieces of a split with the separator gives the text back. */
  lemma {:induction false} JoinOfSplit(s: string, sep: char)
    ensures Join(Split(s, sep), [sep]) == s
  {
    if |s| > 0 {
      JoinOfSplit(s[1..], sep);
      var rest := Split(s[1..], sep);
      if s[0] == sep {
        assert Split(s, sep) == [""] + rest;
        assert ([""] + rest)[1..] == rest;
      } else {
        var r := Split(s, sep);
        assert r == [[s[0]] + rest[0]] + rest[1..];
        assert r[1..] == rest[1..];
        if |rest| == 1 {
          assert [s[0]] + s[1..] == s;
        } else {
          assert rest == [rest[0]] + rest[1..];
          assert Join(rest, [sep]) == rest[0] + [sep] + Join(rest[1..], [sep]);
          assert [s[0]] + s[1..] == s;
        }
      }
    }
  }

  /** The three clauses of DropSpaces's contract determine its result. */
  lemma DropSpacesUnique(s: string, k: nat)
    requires k <= |s| && forall i :: 0 <= i < k ==> s[i] == ' '
    requires k == |s| || s[k] != ' '
    ensures DropSpaces(s) == s[k..]
  {
    var r := DropSpaces(s);
    assert |r| == 0 || s[|s| - |r|] != ' ' by {
      if |r| > 0 { assert r[0] == s[|s| - |r|]; }
    }
  }

  /** A leading run of spaces in front of t is dropped along with t's own. */
  lemma {:induction false} DropSpacesAfterSpaces(a: string, t: string)
    requires forall i :: 0 <= i < |a| ==> a[i] == ' '
    ensures DropSpaces(a + t) == DropSpaces(t)
    decreases |a|
  {
    if a == [] {
      assert a + t == t;
    } else {
      TailOfConcat(a, t);
      DropSpacesAfterSpaces(a[1..], t);
    }
  }

  /** Once a non-space character is reached, what follows is kept as it is. */
  lemma DropSpacesBeforeWord(a: string, t: string)
    requires DropSpaces(a) != []
    ensures DropSpaces(a + t) == DropSpaces(a) + t
  {
    var d := DropSpaces(a);
    var k := |a| - |d|;
    assert (a + t)[k] == d[0];
    assert (a + t)[k..] == d + t;
    DropSpacesUnique(a + t, k);
  }

  /** A text with no space character is a single piece; tabs and other white space
      do not separate. */
  lemma {:induction false} SplitSpaceRunsWithoutSpace(s: string)
    requires ' ' !in s
    ensures SplitSpaceRuns(s) == [s]
  {
    if |s| > 0 {
      assert ' ' !in s[1..] by { assert forall i :: 0 <= i < |s| - 1 ==> s[1..][i] == s[i + 1]; }
      SplitSpaceRunsWithoutSpace(s[1..]);
      assert [s[0]] + s[1..] == s;
    }
  }

  /** A space-free word followed by a run of spaces is one piece; the run is consumed. */
  lemma {:induction false} SplitSpaceRunsAtSpace(a: string, b: string)
    requires ' ' !in a
    ensures SplitSpaceRuns(a + [' '] + b) == [a] + SplitSpaceRuns(DropSpaces(b))
  {
    var s := a + [' '] + b;
    if a == [] {
      assert s == [' '] + b;
      DropSpacesAfterSpaces([' '], b);
    } else {
      assert s[1..] == a[1..] + [' '] + b;
      assert ' ' !in a[1..] by { assert forall i :: 0 <= i < |a| - 1 ==> a[1..][i] == a[i + 1]; }
      SplitSpaceRunsAtSpace(a[1..], b);
      assert [a[0]] + a[1..] == a;
    }
  }

  /** The first character and the rest of a concatenation whose left part is non-empty. */
  lemma TailOfConcat(a: string, t: string)
    requires a != []
    ensures (a + t)[0] == a[0] && (a + t)[1..] == a[1..] + t
  {
  }

  /** A character other than a space joins the first piece: texts that split alike
      still split alike with it in front. */
  lemma SplitAfterChar(c: char, x: string, y: string)
    requires c != ' ' && SplitSpaceRuns(x) == SplitSpaceRuns(y)
    ensures SplitSpaceRuns([c] + x) == SplitSpaceRuns([c] + y)
  {
    assert ([c] + x)[1..] == x;
    assert ([c] + y)[1..] == y;
  }

  /** A text that starts with a space splits as an empty piece and then whatever
      follows its leading run of spaces. */
  lemma SplitAfterSpaces(s1: string, s2: string)
    requires s1 != [] && s1[0] == ' ' && s2 != [] && s2[0] == ' '
    requires SplitSpaceRuns(DropSpaces(s1)) == SplitSpaceRuns(DropSpaces(s2))
    ensures SplitSpaceRuns(s1) == SplitSpaceRuns(s2)
  {
  }

  /** A run of two spaces separates exactly as one does. */
  lemma {:induction false} SplitSpaceRunsCollapse(a: string, b: string)
    ensures SplitSpaceRuns(a + " " + b) == SplitSpaceRuns(a + "  " + b)
    decreases |a|, 1
  {
    ConcatAssoc(a, " ", b);
    ConcatAssoc(a, "  ", b);
    if a == [] {
      SplitAfterSpaceRun(" ", "  ", b);
      assert a + (" " + b) == " " + b && a + ("  " + b) == "  " + b;
    } else if a[0] != ' ' {
      SplitSpaceRunsCollapse(a[1..], b);
      ConcatAssoc(a[1..], " ", b);
      ConcatAssoc(a[1..], "  ", b);
      ConsConcat(a, " " + b);
      ConsConcat(a, "  " + b);
      SplitAfterChar(a[0], a[1..] + (" " + b), a[1..] + ("  " + b));
    } else {
      SplitSpaceRunsCollapseAfterSpace(a, b);
    }
  }

  /** A text split off its first character. */
  lemma ConsConcat(a: string, x: string)
    requires a != []
    ensures a + x == [a[0]] + (a[1..] + x)
  {
  }

  /** Any non-empty run of spaces in front of a text separates the same way. */
  lemma SplitAfterSpaceRun(x: string, y: string, b: string)
    requires x != [] && forall i :: 0 <= i < |x| ==> x[i] == ' '
    requires y != [] && forall i :: 0 <= i < |y| ==> y[i] == ' '
    ensures SplitSpaceRuns(x + b) == SplitSpaceRuns(y + b)
  {
    DropSpacesAfterSpaces(x, b);
    DropSpacesAfterSpaces(y, b);
    TailOfConcat(x, b);
    TailOfConcat(y, b);
    SplitAfterSpaces(x + b, y + b);
  }

  /** SplitSpaceRunsCollapse when the text begins with a space: the leading run of
      spaces is dropped, with the two separators when nothing else is left. */
  lemma {:induction false} SplitSpaceRunsCollapseAfterSpace(a: string, b: string)
    requires a != [] && a[0] == ' '
    ensures SplitSpaceRuns(a + (" " + b)) == SplitSpaceRuns(a + ("  " + b))
    decreases |a|, 0
  {
    var d := DropSpaces(a);
    if d == [] {
      assert forall i :: 0 <= i < |a + " "| ==> (a + " ")[i] == ' ';
      assert forall i :: 0 <= i < |a + "  "| ==> (a + "  ")[i] == ' ';
      DropSpacesAfterSpaces(a + " ", b);
      DropSpacesAfterSpaces(a + "  ", b);
      ConcatAssoc(a, " ", b);
      ConcatAssoc(a, "  ", b);
    } else {
      assert d[0] == a[|a| - |d|];
      DropSpacesBeforeWord(a, " " + b);
      DropSpacesBeforeWord(a, "  " + b);
      SplitSpaceRunsCollapse(d, b);
      ConcatAssoc(d, " ", b);
      ConcatAssoc(d, "  ", b);
    }
    SplitAfterSpaces(a + (" " + b), a + ("  " + b));
  }

  /** Splitting a space-joined list of non-empty, space-free words gives the words back. */
  lemma {:induction false} SplitSpaceRunsOfJoin(words: seq<string>)
    requires |words| >= 1
    requires forall k :: 0 <= k < |words| ==> words[k] != [] && ' ' !in words[k]
    ensures SplitSpaceRuns(Join(words, " ")) == words
  {
    if |words| == 1 {
      SplitSpaceRunsWithoutSpace(words[0]);
    } else {
      var rest := Join(words[1..], " ");
      SplitSpaceRunsOfJoin(words[1..]);
      SplitSpaceRunsAtSpace(words[0], rest);
      JoinStartsWith(words[1..], " ");
      assert DropSpaces(rest) == rest;
      assert [words[0]] + words[1..] == words;
    }
  }

  /** A join starts with the first part. */
  lemma {:induction false} JoinStartsWith(parts: seq<string>, sep: string)
    requires |parts| >= 1
    ensures |Join(parts, sep)| >= |parts[0]| && Join(parts, sep)[..|parts[0]|] == parts[0]
  {
    if |parts| > 1 {
      assert Join(parts, sep) == parts[0] + (sep + Join(parts[1..], sep));
    }
  }

  /** A join ends with the last part. */
  lemma {:induction false} JoinEndsWith(parts: seq<string>, sep: string)
    requires |parts| >= 1
    ensures var j := Join(parts, sep); var last := parts[|parts| - 1];
      |j| >= |last| && j[|j| - |last|..] == last
  {
    if |parts| > 1 {
      JoinEndsWith(parts[1..], sep);
      ConcatAssoc(parts[0], sep, Join(parts[1..], sep));
    }
  }

  /** n copies of the character c. */
  function Repeat(c: char, n: nat): string
  {
    seq(n, _ => c)
  }

  /** s padded on the right with spaces to the width w (unchanged when at least w wide). */
  function PadRight(s: string, w: nat): string
  {
    if |s| < w then s + Repeat(' ', w - |s|) else s
  }

  /** A prefix of a concatenation that ends inside its first part. */
  lemma PrefixOfConcat(a: string, b: string, n: nat)
    requires n <= |a|
    ensures (a + b)[..n] == a[..n]
  {
  }

  /** A slice of a concatenation that lies inside its second part. */
  lemma SliceOfConcat(a: string, b: string, i: nat, j: nat)
    requires |a| <= i <= j <= |a| + |b|
    ensures (a + b)[i..j] == b[i - |a|..j - |a|]
  {
  }

  /** Joining a first part in front of at least one more. */
  lemma JoinCons(x: string, rest: seq<string>, sep: string)
    requires |rest| >= 1
    ensures Join([x] + rest, sep) == x + sep + Join(rest, sep)
  {
    assert ([x] + rest)[1..] == rest;
  }
}
