/** Clue strings and the text form of a grid.

    A clue string lists the 81 cells in row-major order, '.' for a blank and a digit
    for a clue. The text form of a grid writes Python's str() of every cell's value in
    the same order: the digit of a set cell, "None" for an unset one. */
module Text {
  import opened Candidates
  import opened Grid

  /** A character textToAbsolutes accepts. */
  predicate IsClueChar(c: char)
  {
    c == '.' || '1' <= c <= '9'
  }

  /** The check textToAbsolutes makes before it touches any cell. */
  predicate ValidClues(text: string)
  {
    |text| == 81 && forall k :: 0 <= k < |text| ==> IsClueChar(text[k])
  }

  /** Python's int() of a decimal digit character. */
  function DigitValue(c: char): (d: int)
    requires '0' <= c <= '9'
    ensures 0 <= d <= 9
  {
    c as int - '0' as int
  }

  /** The board after the clues of text are entered: the cell of each digit character
      among the first 81 becomes that digit, fixed; every other cell is unchanged. */
  function Entered(b: Board, text: string): (r: Board)
    requires |b| == 81
    requires forall k :: 0 <= k < |text| && k < 81 ==> text[k] == '.' || '0' <= text[k] <= '9'
    ensures |r| == 81
  {
    seq(81, i requires 0 <= i < 81 =>
      if i < |text| && text[i] != '.' then Fixed(DigitValue(text[i])) else b[i])
  }

  /** The board after textToAbsolutes: unchanged unless the text is valid. */
  function Loaded(b: Board, text: string): (r: Board)
    requires |b| == 81
    ensures |r| == 81
  {
    if ValidClues(text) then Entered(b, text) else b
  }

  /** An invalid string is rejected before any cell changes; a valid one fixes exactly
      the cells under its digits, to those digits. */
  lemma LoadedCells(b: Board, text: string)
    requires |b| == 81
    ensures !ValidClues(text) ==> Loaded(b, text) == b
    ensures ValidClues(text) ==> forall i :: 0 <= i < 81 ==>
      (text[i] == '.' ==> Loaded(b, text)[i] == b[i]) &&
      (text[i] != '.' ==> '1' <= text[i] <= '9' && Loaded(b, text)[i] == CellState([DigitValue(text[i])], true))
  {
  }

  /** The decimal digits of n, as Python's str() writes them. */
  function NatText(n: nat): (s: string)
    ensures |s| >= 1
    ensures forall k :: 0 <= k < |s| ==> '0' <= s[k] <= '9'
    decreases n
  {
    if n < 10 then [('0' as int + n) as char]
    else NatText(n / 10) + [('0' as int + n % 10) as char]
  }

  /** Python's str() of an int. */
  function IntText(v: int): string
  {
    if v < 0 then "-" + NatText(-v) else NatText(v)
  }

  /** Python's str() of getValue(): the value, or "None" for an unset cell. */
  function ValueText(o: Option<int>): string
  {
    match o
    case None => "None"
    case Some(v) => IntText(v)
  }

  /** absolutesToText: the cells' values written one after another in row-major order. */
  function BoardText(b: Board): string
  {
    if b == [] then ""
    else BoardText(b[..|b| - 1]) + ValueText(GetValue(b[|b| - 1].candidates))
  }

  /** A set cell holding a digit 1..9 is written as that single digit character. */
  lemma DigitText(v: int)
    requires 1 <= v <= 9
    ensures ValueText(Some(v)) == [('0' as int + v) as char]
  {
  }

  /** Every cell is set to a digit 1..9. */
  predicate Digits(b: Board)
  {
    forall i :: 0 <= i < |b| ==> IsSet(b[i].candidates) && 1 <= b[i].candidates[0] <= 9
  }

  /** A fully set grid of digits is written as 81 digit characters, one per cell. */
  lemma {:induction false} BoardTextDigits(b: Board)
    requires Digits(b)
    ensures |BoardText(b)| == |b|
    ensures forall i :: 0 <= i < |b| ==> BoardText(b)[i] == ('0' as int + b[i].candidates[0]) as char
    decreases |b|
  {
    if b != [] {
      var front := b[..|b| - 1];
      assert Digits(front) by {
        forall i | 0 <= i < |front| ensures IsSet(front[i].candidates) && 1 <= front[i].candidates[0] <= 9 {
          assert front[i] == b[i];
        }
      }
      BoardTextDigits(front);
      DigitText(b[|b| - 1].candidates[0]);
    }
  }

  /** Loading a clue string without blanks and writing the grid back gives the string. */
  lemma LoadThenText(b: Board, text: string)
    requires |b| == 81 && ValidClues(text)
    requires forall k :: 0 <= k < 81 ==> text[k] != '.'
    ensures BoardText(Loaded(b, text)) == text
  {
    var r := Loaded(b, text);
    assert Digits(r);
    BoardTextDigits(r);
  }

  /** Writing a fully set grid of digits and loading the text back gives every cell its
      list again. */
  lemma TextThenLoad(b0: Board, b: Board)
    requires |b0| == 81 && |b| == 81 && Digits(b)
    ensures SameCandidates(Loaded(b0, BoardText(b)), b)
  {
    var text := BoardText(b);
    BoardTextDigits(b);
    assert ValidClues(text);
    var r := Loaded(b0, text);
    forall i | 0 <= i < 81 ensures r[i].candidates == b[i].candidates {
      assert b[i].candidates == [b[i].candidates[0]];
    }
  }
}
