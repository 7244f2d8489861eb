/** Reading the board from the lines of its configuration file. Every line
    but the last describes one cell: the line is split at spaces (empty
    pieces dropped), the first piece, trimmed, is the purchase price and the
    second, trimmed, is the rent; both are read as 32-bit integers. A line
    with fewer than two pieces or a piece that is not an integer stops the
    reading with an error. */
module BoardFile {

  /** One cell of the board as the file describes it. */
  datatype Cell = Cell(price: int, rent: int)

  /** Why the reading stopped, and at which line (counted from 0). */
  datatype BoardError =
    | MissingValue(line: nat)
    | NotAnInteger(line: nat, text: string)
    | OutOfRange(line: nat, text: string)

  datatype Result<+T> = Ok(value: T) | Err(error: BoardError)

  /** The result of reading one integer. */
  datatype Parsed = Value(n: int) | BadFormat | Overflow

  const MinInt32: int := -0x8000_0000
  const MaxInt32: int := 0x7FFF_FFFF

  // ---------------------------------------------------------------------
  // Splitting a line

  /** The pieces of `s` between single spaces, empty pieces included. */
  function Fields(s: string): (r: seq<string>)
    ensures |r| >= 1
  {
    if |s| == 0 then [""]
    else
      var rest := Fields(s[1..]);
      if s[0] == ' ' then [""] + rest else [[s[0]] + rest[0]] + rest[1..]
  }

  /** The pieces that are not empty, in order. */
  function NonEmpty(pieces: seq<string>): (r: seq<string>)
    ensures forall t :: t in r ==> t in pieces && t != ""
    ensures forall t :: t in pieces && t != "" ==> t in r
  {
    if |pieces| == 0 then []
    else
      assert pieces == [pieces[0]] + pieces[1..];
      (if pieces[0] == "" then [] else [pieces[0]]) + NonEmpty(pieces[1..])
  }

  /** Dropping the empty pieces works piece by piece, so it keeps the order
      of the pieces it keeps. */
  lemma {:induction false} NonEmptyAppend(a: seq<string>, b: seq<string>)
    ensures NonEmpty(a + b) == NonEmpty(a) + NonEmpty(b)
  {
    if |a| > 0 {
      NonEmptyAppend(a[1..], b);
      assert (a + b)[1..] == a[1..] + b;
    } else {
      assert a + b == b;
    }
  }

  /** The line's values: split at spaces with the empty entries removed. */
  function Tokens(line: string): (r: seq<string>)
    ensures forall t :: t in r ==> t != "" && ' ' !in t
    ensures forall t :: t in r <==> t in Fields(line) && t != ""
  {
    FieldsHaveNoSpace(line);
    NonEmpty(Fields(line))
  }

  /** The pieces joined back with one space between neighbours. */
  function Join(pieces: seq<string>): string
    requires |pieces| >= 1
  {
    if |pieces| == 1 then pieces[0] else pieces[0] + " " + Join(pieces[1..])
  }

  /** Splitting loses nothing: joining the pieces gives the line back. */
  lemma {:induction false} JoinFields(s: string)
    ensures Join(Fields(s)) == s
  {
    if |s| > 0 {
      JoinFields(s[1..]);
      var rest := Fields(s[1..]);
      if s[0] == ' ' {
        assert Fields(s) == [""] + rest;
        assert ([""] + rest)[1..] == rest;
      } else {
        assert Fields(s) == [[s[0]] + rest[0]] + rest[1..];
        if |rest| > 1 {
          assert ([[s[0]] + rest[0]] + rest[1..])[1..] == rest[1..];
        }
      }
      assert s == [s[0]] + s[1..];
    }
  }

  /** No piece of a split contains a space. */
  lemma {:induction false} FieldsHaveNoSpace(s: string)
    ensures forall t :: t in Fields(s) ==> ' ' !in t
  {
    if |s| > 0 {
      FieldsHaveNoSpace(s[1..]);
      var rest := Fields(s[1..]);
      if s[0] != ' ' {
        assert ' ' !in rest[0];
        assert forall t :: t in rest[1..] ==> t in rest;
      }
    }
  }

  /** A word without spaces is a single piece. */
  lemma {:induction false} FieldsOfWord(w: string)
    requires ' ' !in w
    ensures Fields(w) == [w]
  {
    if |w| > 0 {
      FieldsOfWord(w[1..]);
      assert w == [w[0]] + w[1..];
    }
  }

  /** A space ends the piece before it and starts a new one. */
  lemma {:induction false} FieldsSplit(x: string, y: string)
    ensures Fields(x + " " + y) == Fields(x) + Fields(y)
  {
    if |x| == 0 {
      assert x + " " + y == [' '] + y && x == [];
      FieldsCons(' ', y);
    } else {
      var c, x' := x[0], x[1..];
      assert x == [c] + x';
      assert x + " " + y == [c] + (x' + " " + y);
      FieldsSplit(x', y);
      FieldsSplitStep(c, x', y);
    }
  }

  /** The inductive step of `FieldsSplit`: one more character in front. */
  lemma FieldsSplitStep(c: char, x: string, y: string)
    requires Fields(x + " " + y) == Fields(x) + Fields(y)
    ensures Fields([c] + (x + " " + y)) == Fields([c] + x) + Fields(y)
  {
    FieldsCons(c, x + " " + y);
    FieldsCons(c, x);
    PrependPiece(c, Fields(x + " " + y), Fields(x), Fields(y));
  }

  /** The list manipulation behind `FieldsSplitStep`. */
  lemma PrependPiece(c: char, rest: seq<string>, rx: seq<string>, fy: seq<string>)
    requires |rx| >= 1 && rest == rx + fy
    ensures (if c == ' ' then [""] + rest else [[c] + rest[0]] + rest[1..])
         == (if c == ' ' then [""] + rx else [[c] + rx[0]] + rx[1..]) + fy
  {
    if c != ' ' {
      assert rest[1..] == rx[1..] + fy;
    }
  }

  /** One unfolding of `Fields`, for a line written as a first character
      and the rest. */
  lemma FieldsCons(c: char, t: string)
    ensures Fields([c] + t)
         == if c == ' ' then [""] + Fields(t) else [[c] + Fields(t)[0]] + Fields(t)[1..]
  {
    assert ([c] + t)[0] == c && ([c] + t)[1..] == t;
  }

  /** The values on either side of a space are the line's values, in order. */
  lemma TokensSplit(x: string, y: string)
    ensures Tokens(x + " " + y) == Tokens(x) + Tokens(y)
  {
    FieldsSplit(x, y);
    NonEmptyAppend(Fields(x), Fields(y));
  }

  /** `n` spaces. */
  function Spaces(n: nat): string
  {
    if n == 0 then "" else " " + Spaces(n - 1)
  }

  /** Any run of one or more spaces separates values the same way one space
      does: the values before it, then the values after it. */
  lemma TokensAcrossSpaces(x: string, n: nat, y: string)
    requires n >= 1
    ensures Tokens(x + Spaces(n) + y) == Tokens(x) + Tokens(y)
  {
    SpacesStep(x, n, y);
    TokensSplit(x, Spaces(n - 1) + y);
    TokensPadLeft(n - 1, y);
  }

  /** A word without spaces is read as one value. */
  lemma TokensOfWord(w: string)
    requires w != "" && ' ' !in w
    ensures Tokens(w) == [w]
  {
    FieldsOfWord(w);
    assert NonEmpty([w]) == [w];
  }

  /** An empty line holds no value. */
  lemma TokensOfEmpty()
    ensures Tokens("") == []
  {
  }

  /** Spaces in front of a line add no value. */
  lemma {:induction false} TokensPadLeft(i: nat, w: string)
    ensures Tokens(Spaces(i) + w) == Tokens(w)
  {
    if i == 0 {
      assert Spaces(i) + w == w;
    } else {
      calc {
        Tokens(Spaces(i) + w);
      == { SpacesStep("", i, w); assert "" + Spaces(i) + w == Spaces(i) + w; }
        Tokens("" + " " + (Spaces(i - 1) + w));
      == { TokensSplit("", Spaces(i - 1) + w); TokensOfEmpty(); }
        Tokens(Spaces(i - 1) + w);
      == { TokensPadLeft(i - 1, w); }
        Tokens(w);
      }
    }
  }

  /** Spaces alone hold no value. */
  lemma TokensOfSpaces(n: nat)
    ensures Tokens(Spaces(n)) == []
  {
    TokensPadLeft(n, "");
    TokensOfEmpty();
    assert Spaces(n) + "" == Spaces(n);
  }

  /** Spaces after a line add no value. */
  lemma TokensPadRight(w: string, k: nat)
    ensures Tokens(w + Spaces(k)) == Tokens(w)
  {
    if k == 0 {
      assert w + Spaces(k) == w;
    } else {
      calc {
        Tokens(w + Spaces(k));
      == { SpacesStep(w, k, ""); assert w + Spaces(k) + "" == w + Spaces(k); }
        Tokens(w + " " + (Spaces(k - 1) + ""));
      == { TokensSplit(w, Spaces(k - 1) + ""); }
        Tokens(w) + Tokens(Spaces(k - 1) + "");
      == { TokensPadLeft(k - 1, ""); TokensOfEmpty(); }
        Tokens(w);
      }
    }
  }

  /** The first of a run of spaces, split off. */
  lemma SpacesStep(x: string, n: nat, y: string)
    requires n >= 1
    ensures x + Spaces(n) + y == x + " " + (Spaces(n - 1) + y)
  {
  }

  /** Two words separated by one or more spaces, with any spaces before and
      after, are read back as the two values of the line. */
  lemma TokensOfTwoWords(a: string, b: string, i: nat, j: nat, k: nat)
    requires a != "" && b != "" && ' ' !in a && ' ' !in b && j >= 1
    ensures Tokens(Spaces(i) + a + Spaces(j) + b + Spaces(k)) == [a, b]
  {
    var x, y := Spaces(i) + a, b + Spaces(k);
    Regroup(Spaces(i), a, Spaces(j), b, Spaces(k));
    TokensPadLeft(i, a);
    TokensPadRight(b, k);
    TokensOfWord(a);
    TokensOfWord(b);
    TokensOfTwoValues(x, j, y, a, b);
  }

  /** Two one-value texts joined by spaces give both values. */
  lemma TokensOfTwoValues(x: string, j: nat, y: string, a: string, b: string)
    requires j >= 1 && Tokens(x) == [a] && Tokens(y) == [b]
    ensures Tokens(x + Spaces(j) + y) == [a, b]
  {
    TokensAcrossSpaces(x, j, y);
  }

  lemma Regroup(p: string, a: string, q: string, b: string, r: string)
    ensures p + a + q + b + r == (p + a) + q + (b + r)
  {
  }

  // ---------------------------------------------------------------------
  // Trimming

  predicate IsWhiteSpace(c: char)
  {
    c == ' ' || c == '\t' || c == '\n' || c == '\r' || c == '\U{000B}' || c == '\U{000C}'
  }

  /** How many white space characters `s` starts with. */
  function LeadingWhite(s: string): (n: nat)
    ensures n <= |s|
    ensures forall i :: 0 <= i < n ==> IsWhiteSpace(s[i])
    ensures n < |s| ==> !IsWhiteSpace(s[n])
  {
    if |s| > 0 && IsWhiteSpace(s[0]) then
      var m := LeadingWhite(s[1..]);
      assert forall i :: 1 <= i < m + 1 ==> s[i] == s[1..][i - 1];
      m + 1
    else 0
  }

  /** How many white space characters `s` ends with. */
  function TrailingWhite(s: string): (n: nat)
    ensures n <= |s|
    ensures forall i :: |s| - n <= i < |s| ==> IsWhiteSpace(s[i])
    ensures n < |s| ==> !IsWhiteSpace(s[|s| - n - 1])
  {
    if |s| > 0 && IsWhiteSpace(s[|s| - 1]) then
      var m := TrailingWhite(s[..|s| - 1]);
      assert forall i :: |s| - m - 1 <= i < |s| - 1 ==> s[i] == s[..|s| - 1][i];
      m + 1
    else 0
  }

  /** `s` without the white space at either end (`string.Trim`): a slice of
      `s` that neither starts nor ends with white space, with only white
      space outside it. */
  function Trim(s: string): (r: string)
    ensures r == [] || (!IsWhiteSpace(r[0]) && !IsWhiteSpace(r[|r| - 1]))
    ensures var k := LeadingWhite(s);
            k + |r| <= |s| && r == s[k..k + |r|]
            && forall i :: 0 <= i < |s| && (i < k || k + |r| <= i) ==> IsWhiteSpace(s[i])
  {
    var k := LeadingWhite(s);
    var t := s[k..];
    var m := |t| - TrailingWhite(t);
    SliceOfSuffix(s, k, m);
    TrimmedEnd(s, t, k, m);
    t[..m]
  }

  lemma SliceOfSuffix(s: string, k: nat, m: nat)
    requires k + m <= |s|
    ensures s[k..][..m] == s[k..k + m]
  {
  }

  lemma TrimmedEnd(s: string, t: string, k: nat, m: nat)
    requires k <= |s| && t == s[k..] && m <= |t|
    requires forall i :: 0 <= i < k ==> IsWhiteSpace(s[i])
    requires forall i :: m <= i < |t| ==> IsWhiteSpace(t[i])
    ensures forall i :: 0 <= i < |s| && (i < k || k + m <= i) ==> IsWhiteSpace(s[i])
  {
    forall i | 0 <= i < |s| && (i < k || k + m <= i) ensures IsWhiteSpace(s[i]) {
      if i >= k {
        assert s[i] == t[i - k];
      }
    }
  }

  // ---------------------------------------------------------------------
  // Integers

  predicate IsDigit(c: char)
  {
    '0' <= c <= '9'
  }

  predicate AllDigits(s: string)
  {
    forall i :: 0 <= i < |s| ==> IsDigit(s[i])
  }

  /** The number a string of decimal digits stands for. */
  function DigitsValue(s: string): (n: nat)
    requires AllDigits(s)
  {
    if |s| == 0 then 0
    else 10 * DigitsValue(s[..|s| - 1]) + (s[|s| - 1] - '0') as int
  }

  /** The form `int.Parse` accepts: a digit at the end, and only digits
      before it except for a sign in front. */
  predicate IntegerText(s: string)
  {
    |s| >= 1 && IsDigit(s[|s| - 1])
    && forall i :: 0 <= i < |s| ==> IsDigit(s[i]) || (i == 0 && (s[i] == '+' || s[i] == '-'))
  }

  /** `int.Parse`: an optional sign followed by one or more decimal digits,
      whose value must fit in 32 bits. */
  function ParseInt(s: string): (r: Parsed)
    ensures r == BadFormat <==> !IntegerText(s)
    ensures r.Value? ==> MinInt32 <= r.n <= MaxInt32
    ensures r.Value? ==> |s| >= 1 && (s[0] == '-' || s[0] == '+' || IsDigit(s[0]))
    ensures r.Value? ==> forall i :: 1 <= i < |s| ==> IsDigit(s[i])
    ensures r.Value? ==> IsDigit(s[|s| - 1])
    ensures r.Value? && s[0] == '-' ==> r.n <= 0
    ensures r.Value? && s[0] != '-' ==> r.n >= 0
  {
    if |s| == 0 then BadFormat
    else
      var digits := if s[0] == '-' || s[0] == '+' then s[1..] else s;
      if |digits| == 0 || !AllDigits(digits) then BadFormat
      else
        var n: int := if s[0] == '-' then -(DigitsValue(digits) as int) else DigitsValue(digits);
        if MinInt32 <= n <= MaxInt32 then Value(n) else Overflow
  }

  /** The decimal digits of `n`, without leading zeros. */
  function ShowNat(n: nat): (s: string)
    ensures |s| >= 1 && AllDigits(s)
  {
    if n < 10 then [('0' as int + n) as char]
    else ShowNat(n / 10) + [('0' as int + n % 10) as char]
  }

  /** `n` written in decimal, with a minus sign when negative. */
  function Show(n: int): string
  {
    if n < 0 then "-" + ShowNat(-n) else ShowNat(n)
  }

  lemma {:induction false} DigitsValueShowNat(n: nat)
    ensures DigitsValue(ShowNat(n)) == n
  {
    if n >= 10 {
      DigitsValueShowNat(n / 10);
      var s := ShowNat(n);
      assert s[..|s| - 1] == ShowNat(n / 10);
    }
  }

  /** Reading a decimal form gives its number, or `Overflow` outside 32 bits. */
  lemma ParseOfShow(n: int)
    ensures ParseInt(Show(n)) == if MinInt32 <= n <= MaxInt32 then Value(n) else Overflow
  {
    if n < 0 {
      var d := ShowNat(-n);
      assert Show(n) == "-" + d;
      DigitsValueShowNat(-n);
      ParseMinusDigits(d);
    } else {
      var d := ShowNat(n);
      assert Show(n) == d;
      DigitsValueShowNat(n);
      ParseDigits(d);
    }
  }

  lemma ParseMinusDigits(d: string)
    requires |d| >= 1 && AllDigits(d)
    ensures var n := -(DigitsValue(d) as int);
            ParseInt("-" + d) == if MinInt32 <= n <= MaxInt32 then Value(n) else Overflow
  {
    assert ("-" + d)[0] == '-' && ("-" + d)[1..] == d;
  }

  lemma ParseDigits(d: string)
    requires |d| >= 1 && AllDigits(d)
    ensures var n := DigitsValue(d) as int;
            ParseInt(d) == if MinInt32 <= n <= MaxInt32 then Value(n) else Overflow
  {
    assert IsDigit(d[0]);
  }

  /** Every integer that fits in 32 bits is read back from its decimal form. */
  lemma ParseShow(n: int)
    requires MinInt32 <= n <= MaxInt32
    ensures ParseInt(Show(n)) == Value(n)
  {
    ParseOfShow(n);
  }

  /** A value outside the 32-bit range is refused rather than wrapped. */
  lemma ParseOutOfRange(n: int)
    requires n < MinInt32 || n > MaxInt32
    ensures ParseInt(Show(n)) == Overflow
  {
    ParseOfShow(n);
  }

  /** The decimal form of a number has no space or white space to trim. */
  lemma ShowIsWord(n: int)
    ensures Show(n) != "" && ' ' !in Show(n) && Trim(Show(n)) == Show(n)
  {
    var s := Show(n);
    assert forall i :: 0 <= i < |s| ==> s[i] == '-' || IsDigit(s[i]);
    assert !IsWhiteSpace(s[0]) && !IsWhiteSpace(s[|s| - 1]);
  }

  // ---------------------------------------------------------------------
  // Lines and the board

  /** The cell described by line number `index`. */
  function ParseLine(line: string, index: nat): (r: Result<Cell>)
    ensures r.Err? ==> r.error.line == index
    ensures r == Err(MissingValue(index)) <==> |Tokens(line)| < 2
    ensures r.Err? && r.error.NotAnInteger? ==> !IntegerText(r.error.text)
    ensures r.Err? && r.error.OutOfRange? ==> IntegerText(r.error.text)
  {
    var tokens := Tokens(line);
    if |tokens| < 2 then Err(MissingValue(index))
    else
      var priceText, rentText := Trim(tokens[0]), Trim(tokens[1]);
      match ParseInt(priceText)
      case BadFormat => Err(NotAnInteger(index, priceText))
      case Overflow => Err(OutOfRange(index, priceText))
      case Value(price) =>
        match ParseInt(rentText)
        case BadFormat => Err(NotAnInteger(index, rentText))
        case Overflow => Err(OutOfRange(index, rentText))
        case Value(rent) => Ok(Cell(price, rent))
  }

  /** A line whose first two values are a price and a rent in decimal
      describes that cell, whatever follows them. */
  lemma ParseLineOfCell(line: string, price: int, rent: int, index: nat)
    requires MinInt32 <= price <= MaxInt32 && MinInt32 <= rent <= MaxInt32
    requires |Tokens(line)| >= 2 && Tokens(line)[0] == Show(price) && Tokens(line)[1] == Show(rent)
    ensures ParseLine(line, index) == Ok(Cell(price, rent))
  {
    ShowIsWord(price);
    ShowIsWord(rent);
    ParseShow(price);
    ParseShow(rent);
  }

  /** A line holding a price and a rent in decimal, separated by spaces and
      possibly padded with spaces, describes that cell. */
  lemma ParseLineOfPaddedCell(price: int, rent: int, index: nat, i: nat, j: nat, k: nat)
    requires MinInt32 <= price <= MaxInt32 && MinInt32 <= rent <= MaxInt32 && j >= 1
    ensures ParseLine(Spaces(i) + Show(price) + Spaces(j) + Show(rent) + Spaces(k), index) == Ok(Cell(price, rent))
  {
    ShowIsWord(price);
    ShowIsWord(rent);
    TokensOfTwoWords(Show(price), Show(rent), i, j, k);
    ParseLineOfCell(Spaces(i) + Show(price) + Spaces(j) + Show(rent) + Spaces(k), price, rent, index);
  }

  /** A line is read as a cell exactly when it has two values and both,
      trimmed, are 32-bit integers; the values after the second play no
      part. */
  lemma ParseLineOk(line: string, index: nat, cell: Cell)
    ensures ParseLine(line, index) == Ok(cell)
        <==> |Tokens(line)| >= 2
             && ParseInt(Trim(Tokens(line)[0])) == Value(cell.price)
             && ParseInt(Trim(Tokens(line)[1])) == Value(cell.rent)
  {
  }

  /** Values written after the first two do not change how a line is read. */
  lemma ParseLineIgnoresRest(line: string, rest: string, index: nat)
    requires |Tokens(line)| >= 2
    ensures ParseLine(line + " " + rest, index) == ParseLine(line, index)
  {
    TokensSplit(line, rest);
    var t, u := Tokens(line), Tokens(line + " " + rest);
    assert u[0] == t[0] && u[1] == t[1];
  }

  /** A price that is not an integer, once trimmed, is refused with that
      text. */
  lemma ParseLineBadPrice(line: string, index: nat)
    requires |Tokens(line)| >= 2 && !IntegerText(Trim(Tokens(line)[0]))
    ensures ParseLine(line, index) == Err(NotAnInteger(index, Trim(Tokens(line)[0])))
  {
  }

  /** After a valid price, a rent that is not an integer, once trimmed, is
      refused with that text. */
  lemma ParseLineBadRent(line: string, index: nat)
    requires |Tokens(line)| >= 2 && ParseInt(Trim(Tokens(line)[0])).Value?
    requires !IntegerText(Trim(Tokens(line)[1]))
    ensures ParseLine(line, index) == Err(NotAnInteger(index, Trim(Tokens(line)[1])))
  {
  }

  /** A line with fewer than two values is refused. */
  lemma ParseLineNeedsTwoValues(line: string, index: nat)
    requires |Tokens(line)| < 2
    ensures ParseLine(line, index) == Err(MissingValue(index))
  {
  }

  lemma Extend(lines: seq<string>, cells: seq<Cell>, cell: Cell, i: nat)
    requires i < |lines| && |cells| == i && ParseLine(lines[i], i) == Ok(cell)
    requires forall j :: 0 <= j < i ==> ParseLine(lines[j], j) == Ok(cells[j])
    ensures forall j :: 0 <= j < i + 1 ==> ParseLine(lines[j], j) == Ok((cells + [cell])[j])
  {
    forall j | 0 <= j < i + 1
      ensures ParseLine(lines[j], j) == Ok((cells + [cell])[j])
    {
      if j < i {
        assert (cells + [cell])[j] == cells[j];
      } else {
        assert (cells + [cell])[j] == cell;
      }
    }
  }

  /** The cells of the board file's lines: one per line except the last, in
      order; or the error of the first line that does not describe a cell. */
  method ReadBoard(lines: seq<string>) returns (r: Result<seq<Cell>>)
    ensures r.Ok? <==> forall i :: 0 <= i < |lines| - 1 ==> ParseLine(lines[i], i).Ok?
    ensures r.Ok? ==> |r.value| == (if |lines| == 0 then 0 else |lines| - 1)
    ensures r.Ok? ==> forall i :: 0 <= i < |r.value| ==> ParseLine(lines[i], i) == Ok(r.value[i])
    ensures r.Err? ==> r.error.line < |lines| - 1 && ParseLine(lines[r.error.line], r.error.line) == Err(r.error)
    ensures r.Err? ==> forall j :: 0 <= j < r.error.line ==> ParseLine(lines[j], j).Ok?
  {
    var n := if |lines| == 0 then 0 else |lines| - 1;
    var cells: seq<Cell> := [];
    var i := 0;
    while i < n
      invariant i <= n && |cells| == i
      invariant forall j :: 0 <= j < i ==> ParseLine(lines[j], j) == Ok(cells[j])
    {
      var cell := ParseLine(lines[i], i);
      if cell.Err? {
        r := Err(cell.error);
        assert r.error.line == i && ParseLine(lines[i], i).Err?;
        return;
      }
      Extend(lines, cells, cell.value, i);
      cells := cells + [cell.value];
      i := i + 1;
    }
    r := Ok(cells);
  }
}
