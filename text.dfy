/** The text the Save button writes: one line per grid row, the row's cells
    as decimal numbers joined by single spaces, every line (the last one
    too) ended by a newline.  A reader that splits the text on newlines and
    spaces is given beside it, and the two are proved to be inverse. */
module PixelText {
  import opened PixelGrid

  datatype Option<T> = None | Some(value: T)

  // ---------------------------------------------------------------------
  // Decimal numerals: Python's str() of an int

  predicate IsDigit(c: char)
  {
    '0' <= c <= '9'
  }

  predicate AllDigits(s: string)
  {
    forall k :: 0 <= k < |s| ==> IsDigit(s[k])
  }

  function DigitChar(d: nat): (c: char)
    requires d < 10
    ensures IsDigit(c) && (c as int) - ('0' as int) == d
  {
    ('0' as int + d) as char
  }

  /** Decimal numeral of a natural number: at least one digit and no
      leading zero unless the number is 0. */
  function NatToString(n: nat): (s: string)
    ensures |s| >= 1 && AllDigits(s)
    ensures s[0] == '0' ==> n == 0 && s == "0"
    decreases n
  {
    if n < 10 then [DigitChar(n)] else NatToString(n / 10) + [DigitChar(n % 10)]
  }

  /** `str(n)`: a minus sign before the numeral of |n| when n is negative.
      It holds no space and no newline, reading it back gives n, and it is
      the canonical numeral: no leading zero, no minus sign before 0. */
  function IntToString(n: int): (s: string)
    ensures |s| >= 1 && ' ' !in s && '\n' !in s
    ensures ParseInt(s) == Some(n)
    ensures s[0] == '-' <==> n < 0
    ensures s[0] == '0' ==> s == "0"
    ensures s[0] == '-' ==> |s| >= 2 && s[1] != '0'
  {
    if n < 0 then
      NegativeRoundTrip(-n);
      "-" + NatToString(-n)
    else
      DigitsValueOfNat(n);
      NatToString(n)
  }

  /** Value of a string of decimal digits. */
  function DigitsValue(s: string): nat
    requires AllDigits(s)
    decreases |s|
  {
    if s == [] then 0
    else DigitsValue(s[..|s| - 1]) * 10 + ((s[|s| - 1] as int) - ('0' as int))
  }

  /** Reads back an optional minus sign followed by at least one digit. */
  function ParseInt(s: string): Option<int>
  {
    if |s| >= 1 && AllDigits(s) then Some(DigitsValue(s))
    else if |s| >= 2 && s[0] == '-' && AllDigits(s[1..]) then Some(-(DigitsValue(s[1..]) as int))
    else None
  }

  // ---------------------------------------------------------------------
  // Joining and splitting on one separator character

  /** No part holds the character c. */
  predicate Avoids(parts: seq<string>, c: char)
  {
    forall k :: 0 <= k < |parts| ==> c !in parts[k]
  }

  /** `sep.join(parts)`: the parts with one separator between neighbours,
      so a character other than `sep` that no part holds is not in it. */
  function Join(parts: seq<string>, sep: char): (s: string)
    ensures forall c {:trigger Avoids(parts, c)} :: c != sep && Avoids(parts, c) ==> c !in s
    decreases |parts|
  {
    if parts == [] then ""
    else if |parts| == 1 then parts[0]
    else
      assert forall c {:trigger Avoids(parts, c)} :: Avoids(parts, c) ==> Avoids(parts[1..], c);
      parts[0] + [sep] + Join(parts[1..], sep)
  }

  /** `s.split(sep)`: the pieces between separators, empty pieces kept, so
      the result has one piece more than `s` has separators. */
  function Split(s: string, sep: char): (pieces: seq<string>)
    ensures |pieces| >= 1
    decreases |s|
  {
    if s == [] then [""]
    else
      var rest := Split(s[1..], sep);
      if s[0] == sep then [""] + rest else [[s[0]] + rest[0]] + rest[1..]
  }

  // ---------------------------------------------------------------------
  // The saved text

  /** The tokens of one row: `str(val) for val in row`.  Token j holds no
      space and no newline and reads back as cell j. */
  function Tokens(row: seq<int>): (tokens: seq<string>)
    ensures |tokens| == |row|
    ensures forall j :: 0 <= j < |row| ==>
              ParseInt(tokens[j]) == Some(row[j]) && ' ' !in tokens[j] && '\n' !in tokens[j]
  {
    seq(|row|, j requires 0 <= j < |row| => IntToString(row[j]))
  }

  /** One saved line without its newline: `" ".join(str(val) for val in row)`.
      It holds no newline, and it is empty only for an empty row. */
  function RowLine(row: seq<int>): (line: string)
    ensures '\n' !in line
    ensures line == "" <==> row == []
  {
    assert Avoids(Tokens(row), '\n');
    Join(Tokens(row), ' ')
  }

  /** The whole saved text: each row's line followed by a newline.  It is
      empty only for a grid without rows, and each row adds at least its
      newline. */
  function Serialise(g: Grid): (text: string)
    ensures text == "" <==> g == []
    ensures |text| >= |g|
    decreases |g|
  {
    if g == [] then "" else RowLine(g[0]) + "\n" + Serialise(g[1..])
  }

  /** The lines of a grid, without their newlines. */
  function Lines(g: Grid): seq<string>
  {
    seq(|g|, i requires 0 <= i < |g| => RowLine(g[i]))
  }

  // ---------------------------------------------------------------------
  // A reader for the saved text

  function ParseTokens(tokens: seq<string>): Option<seq<int>>
    decreases |tokens|
  {
    if tokens == [] then Some([])
    else match (ParseInt(tokens[0]), ParseTokens(tokens[1..]))
      case (Some(v), Some(vs)) => Some([v] + vs)
      case _ => None
  }

  function ParseLines(lines: seq<string>): Option<Grid>
    decreases |lines|
  {
    if lines == [] then Some([])
    else match (ParseTokens(Split(lines[0], ' ')), ParseLines(lines[1..]))
      case (Some(row), Some(rest)) => Some([row] + rest)
      case _ => None
  }

  /** Splits the text on newlines (the piece after the last newline must be
      empty) and each line on spaces, and reads every token as an integer. */
  function ParseGrid(text: string): Option<Grid>
  {
    var pieces := Split(text, '\n');
    if pieces[|pieces| - 1] != "" then None else ParseLines(pieces[..|pieces| - 1])
  }

  // ---------------------------------------------------------------------
  // Numerals round-trip

  lemma {:induction false} DigitsValueOfNat(n: nat)
    ensures DigitsValue(NatToString(n)) == n
    decreases n
  {
    var s := NatToString(n);
    if n >= 10 {
      DigitsValueOfNat(n / 10);
      assert s[..|s| - 1] == NatToString(n / 10);
    }
  }

  lemma NegativeRoundTrip(m: nat)
    requires m > 0
    ensures ParseInt("-" + NatToString(m)) == Some(-(m as int))
  {
    var t := NatToString(m);
    var s := "-" + t;
    assert s[1..] == t;
    assert !IsDigit(s[0]);
    DigitsValueOfNat(m);
  }

  // ---------------------------------------------------------------------
  // Split and Join

  /** Text without the separator is one piece. */
  lemma {:induction false} SplitNoSeparator(s: string, sep: char)
    requires sep !in s
    ensures Split(s, sep) == [s]
    decreases |s|
  {
    if s != [] {
      assert sep !in s[1..];
      SplitNoSeparator(s[1..], sep);
      assert [s[0]] + s[1..] == s;
    }
  }

  /** Splitting at a separator splits the pieces apart. */
  lemma {:induction false} SplitAround(a: string, b: string, sep: char)
    ensures Split(a + [sep] + b, sep) == Split(a, sep) + Split(b, sep)
    decreases |a|
  {
    var s := a + [sep] + b;
    if a == [] {
      assert s[1..] == b;
    } else {
      var ra, rb := Split(a[1..], sep), Split(b, sep);
      assert Split(s[1..], sep) == ra + rb by {
        assert s[1..] == a[1..] + [sep] + b;
        SplitAround(a[1..], b, sep);
      }
      assert s[0] == a[0];
      if a[0] == sep {
        assert [""] + (ra + rb) == ([""] + ra) + rb;
      } else {
        FirstPieceExtends([a[0]], ra, rb);
      }
    }
  }

  /** Prefixing the first piece of `ra + rb` is prefixing the first piece
      of `ra`, when `ra` has a piece. */
  lemma FirstPieceExtends(x: string, ra: seq<string>, rb: seq<string>)
    requires |ra| >= 1
    ensures [x + (ra + rb)[0]] + (ra + rb)[1..] == ([x + ra[0]] + ra[1..]) + rb
  {
    assert (ra + rb)[1..] == ra[1..] + rb;
  }

  /** Text up to the first separator is the first piece. */
  lemma SplitFirstPiece(first: string, rest: string, sep: char)
    requires sep !in first
    ensures Split(first + [sep] + rest, sep) == [first] + Split(rest, sep)
  {
    SplitAround(first, rest, sep);
    SplitNoSeparator(first, sep);
  }

  /** Splitting a join recovers the parts, when no part holds the separator. */
  lemma {:induction false} SplitJoin(parts: seq<string>, sep: char)
    requires |parts| >= 1
    requires forall k :: 0 <= k < |parts| ==> sep !in parts[k]
    ensures Split(Join(parts, sep), sep) == parts
    decreases |parts|
  {
    if |parts| == 1 {
      SplitNoSeparator(parts[0], sep);
    } else {
      SplitNoSeparator(parts[0], sep);
      SplitJoin(parts[1..], sep);
      SplitAround(parts[0], Join(parts[1..], sep), sep);
      assert [parts[0]] + parts[1..] == parts;
    }
  }

  // ---------------------------------------------------------------------
  // Format of the saved text

  /** A line holds no newline, and splitting it on spaces gives back its
      tokens, token j being `str(row[j])`. */
  lemma LineFormat(row: seq<int>)
    requires |row| >= 1
    ensures '\n' !in RowLine(row)
    ensures Split(RowLine(row), ' ') == Tokens(row)
    ensures forall j :: 0 <= j < |row| ==> Split(RowLine(row), ' ')[j] == IntToString(row[j])
  {
    SplitJoin(Tokens(row), ' ');
  }

  /** The text splits on newlines into one line per row, then the empty
      piece after the final newline: there are exactly |g| lines and each
      one is newline-terminated. */
  lemma TextLines(g: Grid)
    ensures Split(Serialise(g), '\n') == Lines(g) + [""]
  {
    SerialiseTerminated(g);
    SplitTerminated(Lines(g));
  }

  /** Each line followed by a newline, in order. */
  function Terminated(lines: seq<string>): string
    decreases |lines|
  {
    if lines == [] then "" else lines[0] + "\n" + Terminated(lines[1..])
  }

  lemma {:induction false} SerialiseTerminated(g: Grid)
    ensures Serialise(g) == Terminated(Lines(g))
    decreases |g|
  {
    if g != [] {
      assert Lines(g)[0] == RowLine(g[0]) && Lines(g)[1..] == Lines(g[1..]);
      SerialiseTerminated(g[1..]);
    }
  }

  /** Newline-free lines, each followed by a newline, split back into
      those lines and the empty piece after the last newline. */
  lemma {:induction false} SplitTerminated(lines: seq<string>)
    requires forall i :: 0 <= i < |lines| ==> '\n' !in lines[i]
    ensures Split(Terminated(lines), '\n') == lines + [""]
    decreases |lines|
  {
    if lines != [] {
      var rest := Terminated(lines[1..]);
      assert Terminated(lines) == lines[0] + ['\n'] + rest;
      SplitFirstPiece(lines[0], rest, '\n');
      SplitTerminated(lines[1..]);
      assert lines == [lines[0]] + lines[1..];
    }
  }

  /** The saved text has `rows` lines of `cols` space-separated tokens
      each, token j of line i being `str(g[i][j])`. */
  lemma TextFormat(g: Grid, rows: nat, cols: nat)
    requires WellFormed(g, rows, cols) && cols >= 1
    ensures var lines := Split(Serialise(g), '\n');
            |lines| == rows + 1 && lines[rows] == "" &&
            forall i :: 0 <= i < rows ==>
              |Split(lines[i], ' ')| == cols &&
              forall j :: 0 <= j < cols ==> Split(lines[i], ' ')[j] == IntToString(g[i][j])
  {
    TextLines(g);
    forall i | 0 <= i < rows
      ensures |Split(RowLine(g[i]), ' ')| == cols
      ensures forall j :: 0 <= j < cols ==> Split(RowLine(g[i]), ' ')[j] == IntToString(g[i][j])
    {
      LineFormat(g[i]);
    }
  }

  // ---------------------------------------------------------------------
  // Round trip

  lemma {:induction false} TokensRoundTrip(row: seq<int>)
    ensures ParseTokens(Tokens(row)) == Some(row)
    decreases |row|
  {
    if row != [] {
      var tokens := Tokens(row);
      assert tokens[0] == IntToString(row[0]);
      assert tokens[1..] == Tokens(row[1..]);
      TokensRoundTrip(row[1..]);
      assert ParseTokens(tokens) == Some([row[0]] + row[1..]);
      assert [row[0]] + row[1..] == row;
    }
  }

  lemma LinesRoundTrip(g: Grid)
    requires forall i :: 0 <= i < |g| ==> |g[i]| >= 1
    ensures ParseLines(Lines(g)) == Some(g)
  {
    var lines := Lines(g);
    forall i | 0 <= i < |g|
      ensures ParseTokens(Split(lines[i], ' ')) == Some(g[i])
    {
      LineRoundTrip(g[i]);
    }
    ParseLinesEach(lines, g);
  }

  /** Lines each of which reads back as its row read back as the grid. */
  lemma {:induction false} ParseLinesEach(lines: seq<string>, g: Grid)
    requires |lines| == |g|
    requires forall i :: 0 <= i < |g| ==> ParseTokens(Split(lines[i], ' ')) == Some(g[i])
    ensures ParseLines(lines) == Some(g)
    decreases |g|
  {
    if g != [] {
      ParseLinesEach(lines[1..], g[1..]);
      assert [g[0]] + g[1..] == g;
    }
  }

  /** Reading one saved line gives back its row. */
  lemma LineRoundTrip(row: seq<int>)
    requires |row| >= 1
    ensures ParseTokens(Split(RowLine(row), ' ')) == Some(row)
  {
    LineFormat(row);
    TokensRoundTrip(row);
  }

  /** Reading the saved text gives back the grid, for any grid whose rows
      are not empty (an empty row would be saved as an empty line, which
      reads back as one empty token). */
  lemma SaveRoundTrip(g: Grid, rows: nat, cols: nat)
    requires WellFormed(g, rows, cols) && cols >= 1
    ensures ParseGrid(Serialise(g)) == Some(g)
  {
    TextLines(g);
    var pieces := Split(Serialise(g), '\n');
    assert pieces[..|pieces| - 1] == Lines(g);
    LinesRoundTrip(g);
  }

  // ---------------------------------------------------------------------
  // Size of a saved 0/1 grid

  lemma {:induction false} BinaryLineLength(row: seq<int>)
    requires |row| >= 1
    requires forall j :: 0 <= j < |row| ==> row[j] == 0 || row[j] == 1
    ensures |RowLine(row)| == 2 * |row| - 1
    decreases |row|
  {
    var tokens := Tokens(row);
    assert tokens[0] == IntToString(row[0]) == [DigitChar(row[0])];
    if |row| > 1 {
      assert tokens[1..] == Tokens(row[1..]);
      BinaryLineLength(row[1..]);
      assert RowLine(row) == tokens[0] + [' '] + RowLine(row[1..]);
    }
  }

  /** Each saved line of a 0/1 grid is `cols` one-digit tokens, `cols - 1`
      spaces and a newline, so the text is `2 * rows * cols` characters. */
  lemma {:induction false} BinaryTextLength(g: Grid, rows: nat, cols: nat)
    requires WellFormed(g, rows, cols) && Binary(g) && cols >= 1
    ensures |Serialise(g)| == 2 * rows * cols
    decreases rows
  {
    if rows > 0 {
      assert forall j :: 0 <= j < |g[0]| ==> g[0][j] == 0 || g[0][j] == 1;
      BinaryLineLength(g[0]);
      assert WellFormed(g[1..], rows - 1, cols) && Binary(g[1..]);
      BinaryTextLength(g[1..], rows - 1, cols);
      assert |Serialise(g)| == 2 * cols + 2 * (rows - 1) * cols;
      PeelRow(rows, cols);
    }
  }

  lemma PeelRow(rows: nat, cols: nat)
    requires rows > 0
    ensures 2 * rows * cols == 2 * cols + 2 * (rows - 1) * cols
  {
  }
}
