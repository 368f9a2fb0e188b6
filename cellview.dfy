/** What one board cell shows and where its click and right-click go. */
module CellView {
  import opened Board

  /** The flag and bomb glyphs, U+1F6A9 and U+1F4A3. */
  const FlagGlyph: string := "\U{1F6A9}"
  const BombGlyph: string := "\U{1F4A3}"

  predicate IsDigit(ch: char)
  {
    '0' <= ch <= '9'
  }

  function DigitChar(d: nat): (ch: char)
    requires d < 10
    ensures IsDigit(ch) && ch as int - '0' as int == d
  {
    (('0' as int) + d) as char
  }

  /** A canonical decimal numeral: digits only, no leading zero. */
  predicate IsDecimal(s: string)
  {
    |s| > 0 && (forall i :: 0 <= i < |s| ==> IsDigit(s[i])) && (|s| > 1 ==> s[0] != '0')
  }

  /** The number a string of digits denotes. */
  function DecimalValue(s: string): nat
    requires forall i :: 0 <= i < |s| ==> IsDigit(s[i])
  {
    if s == [] then 0
    else
      assert IsDigit(s[|s| - 1]);
      10 * DecimalValue(s[..|s| - 1]) + (s[|s| - 1] as int - '0' as int)
  }

  /** Number.prototype.toString on a non-negative integer. */
  function DecimalString(n: nat): (s: string)
    ensures IsDecimal(s) && DecimalValue(s) == n
  {
    if n < 10 then [DigitChar(n)]
    else
      var s := DecimalString(n / 10) + [DigitChar(n % 10)];
      assert s[..|s| - 1] == DecimalString(n / 10);
      s
  }

  /** getCellContent: a flag wins over everything; a hidden cell shows
      nothing; a revealed bomb shows the bomb; a revealed number above zero
      shows its decimal numeral; anything else shows nothing. */
  function CellContent(cell: Cell): (s: string)
    ensures cell.isFlagged ==> s == FlagGlyph
    ensures !cell.isFlagged && !cell.isRevealed ==> s == ""
    ensures !cell.isFlagged && cell.isRevealed && cell.isBomb ==> s == BombGlyph
    ensures !cell.isFlagged && cell.isRevealed && !cell.isBomb && cell.neighboringMines > 0 ==>
      IsDecimal(s) && DecimalValue(s) == cell.neighboringMines
    ensures !cell.isFlagged && cell.isRevealed && !cell.isBomb && cell.neighboringMines <= 0 ==> s == ""
  {
    if cell.isFlagged then FlagGlyph
    else if !cell.isRevealed then ""
    else if cell.isBomb then BombGlyph
    else if cell.neighboringMines > 0 then DecimalString(cell.neighboringMines)
    else ""
  }

  /** The glyph a cell shows tells a flag, a revealed bomb, a number and
      nothing apart: each form of content arises in exactly one case. */
  lemma ContentCases(cell: Cell)
    ensures CellContent(cell) == FlagGlyph <==> cell.isFlagged
    ensures CellContent(cell) == BombGlyph <==> !cell.isFlagged && cell.isRevealed && cell.isBomb
    ensures CellContent(cell) == "" <==>
      !cell.isFlagged && (!cell.isRevealed || (!cell.isBomb && cell.neighboringMines <= 0))
  {
    var s := CellContent(cell);
    assert !IsDigit(FlagGlyph[0]) && !IsDigit(BombGlyph[0]);
    if !cell.isFlagged && cell.isRevealed && !cell.isBomb && cell.neighboringMines > 0 {
      assert IsDigit(s[0]);
    }
  }

  /** A hidden, unflagged cell gives nothing away: what it shows does not
      depend on whether it is a bomb or on its count. */
  lemma HiddenShowsNothing(cell: Cell, isBomb: bool, neighboringMines: int)
    requires !cell.isFlagged && !cell.isRevealed
    ensures CellContent(cell.(isBomb := isBomb, neighboringMines := neighboringMines)) == CellContent(cell)
  {
  }

  /** Where an input on a cell goes: to handleFlag, to handleReveal, or
      nowhere. */
  datatype Action = Flag | Reveal | Ignore

  /** handleClick: a shift-click always flags; a plain click reveals unless
      the cell is flagged or the game is over. */
  function OnClick(shiftKey: bool, isFlagged: bool, gameOver: bool): (a: Action)
    ensures a == Flag <==> shiftKey
    ensures a == Reveal <==> !shiftKey && !isFlagged && !gameOver
  {
    if shiftKey then Flag
    else if !isFlagged && !gameOver then Reveal
    else Ignore
  }

  /** handleContextMenu: a right-click flags unless the game is over. */
  function OnContextMenu(gameOver: bool): (a: Action)
    ensures a != Reveal
    ensures a == Flag <==> !gameOver
  {
    if !gameOver then Flag else Ignore
  }
}
