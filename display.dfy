/** What the game shows: the glyph of each square, the text of the board's
    rows and borders, the header and instructions, and where the terminal
    cursor is placed. Only the text is modelled; drawing it is terminal I/O. */
module Display {
  import opened Board

  // ---------------------------------------------------------------------------
  // Decimal numerals, as Python's str() writes a natural number

  predicate IsDigit(ch: char) {
    '0' <= ch <= '9'
  }

  function Digit(d: nat): (ch: char)
    requires d < 10
    ensures IsDigit(ch) && ch as int - '0' as int == d
  {
    ('0' as int + d) as char
  }

  /** The decimal numeral of n: digits only, no leading zero, one character
      exactly when n is below ten. */
  function Decimal(n: nat): (s: string)
    ensures 1 <= |s| && forall i :: 0 <= i < |s| ==> IsDigit(s[i])
    ensures s[0] != '0' || n == 0
    ensures |s| == 1 <==> n < 10
  {
    if n < 10 then [Digit(n)] else Decimal(n / 10) + [Digit(n % 10)]
  }

  /** The number a string of digits denotes. */
  function DecimalValue(s: string): nat
    requires forall i :: 0 <= i < |s| ==> IsDigit(s[i])
  {
    if s == [] then 0
    else
      assert IsDigit(s[|s| - 1]);
      10 * DecimalValue(s[..|s| - 1]) + (s[|s| - 1] as int - '0' as int)
  }

  /** Reading back a numeral gives the number. */
  lemma {:induction false} DecimalRoundTrip(n: nat)
    ensures DecimalValue(Decimal(n)) == n
  {
    var s := Decimal(n);
    if n >= 10 {
      assert s[..|s| - 1] == Decimal(n / 10);
      DecimalRoundTrip(n / 10);
    }
  }

  // ---------------------------------------------------------------------------
  // Glyphs

  /** The text shown for square (row, col): "#" while Filled, "!" when
      Flagged, " " when Cleared with a count of zero, otherwise the count in
      decimal. A count is at most nine, so the text is always one character. */
  function CharForCell(g: Grid, mines: set<Coord>, row: int, col: int): (s: string)
    requires InGrid(g, row, col)
    ensures |s| == 1
    ensures s[0] == '#' <==> g[row][col] == Filled
    ensures s[0] == '!' <==> g[row][col] == Flagged
    ensures s[0] == ' ' <==> g[row][col] == Cleared && AdjacentMines(mines, row, col) == 0
    ensures IsDigit(s[0]) <==> g[row][col] == Cleared && AdjacentMines(mines, row, col) != 0
    ensures IsDigit(s[0]) ==> DecimalValue(s) == AdjacentMines(mines, row, col)
  {
    match g[row][col]
    case Filled => "#"
    case Flagged => "!"
    case Cleared =>
      var n := AdjacentMines(mines, row, col);
      if n == 0 then " "
      else
        DecimalRoundTrip(n);
        Decimal(n)
  }

  /** On a board where no mine is Cleared, the digit shown on a Cleared
      square is between 1 and 8. */
  lemma ClearedDigit(g: Grid, mines: set<Coord>, row: int, col: int)
    requires InGrid(g, row, col) && NoClearedMine(g, mines)
    requires IsDigit(CharForCell(g, mines, row, col)[0])
    ensures '1' <= CharForCell(g, mines, row, col)[0] <= '8'
  {
    assert (row, col) !in mines;
    AdjacentMinesOfSafeSquare(mines, 0, 0, row, col);
  }

  // ---------------------------------------------------------------------------
  // Rows and borders

  /** ' '.join(s): the characters of s with a space between each pair. */
  function Spaced(s: string): (r: string)
    ensures |r| == if s == [] then 0 else 2 * |s| - 1
  {
    if |s| <= 1 then s else [s[0], ' '] + Spaced(s[1..])
  }

  /** Character k of s lands at position 2 * k of the spaced string, and a
      space follows it unless it is the last one. */
  lemma {:induction false} SpacedAt(s: string, k: int)
    requires 0 <= k < |s|
    ensures Spaced(s)[2 * k] == s[k]
    ensures k + 1 < |s| ==> Spaced(s)[2 * k + 1] == ' '
  {
    if k > 0 {
      SpacedAt(s[1..], k - 1);
    }
  }

  /** ' '.join('|{}|'.format(middle)), with `frame` in place of '|'. */
  function Framed(frame: char, middle: string): (r: string)
    ensures |r| == 2 * |middle| + 3
  {
    Spaced([frame] + middle + [frame])
  }

  /** A framed line starts and ends with the frame, and character c of the
      middle sits at column 2 * c + 2 with a space on each side. */
  lemma FramedAt(frame: char, middle: string, c: int)
    requires 0 <= c < |middle|
    ensures Framed(frame, middle)[0] == frame && Framed(frame, middle)[2 * |middle| + 2] == frame
    ensures Framed(frame, middle)[2 * c + 2] == middle[c]
    ensures Framed(frame, middle)[2 * c + 1] == ' ' && Framed(frame, middle)[2 * c + 3] == ' '
  {
    var s := [frame] + middle + [frame];
    SpacedAt(s, 0);
    SpacedAt(s, c);
    SpacedAt(s, c + 1);
    SpacedAt(s, |middle| + 1);
  }

  /** The glyphs of columns 0 .. n-1 of a row, joined together: one
      character per column. */
  function Glyphs(g: Grid, mines: set<Coord>, row: int, n: int): (r: string)
    requires 0 <= row < |g| && 0 <= n <= |g[row]|
    ensures |r| == n
  {
    if n == 0 then "" else Glyphs(g, mines, row, n - 1) + CharForCell(g, mines, row, n - 1)
  }

  /** Character c of the joined glyphs is the glyph of column c. */
  lemma {:induction false} GlyphsAt(g: Grid, mines: set<Coord>, row: int, n: int, c: int)
    requires 0 <= row < |g| && 0 <= c < n <= |g[row]|
    ensures Glyphs(g, mines, row, n)[c] == CharForCell(g, mines, row, c)[0]
  {
    if c < n - 1 {
      GlyphsAt(g, mines, row, n - 1, c);
    }
  }

  /** The line drawn for board row `row`: '|', the glyphs, '|', spaced out. */
  function RowText(g: Grid, mines: set<Coord>, row: int): string
    requires 0 <= row < |g|
  {
    Framed('|', Glyphs(g, mines, row, |g[row]|))
  }

  /** The line drawn above and below the board: '+', a dash per column, '+',
      spaced out. */
  function Border(width: nat): (r: string)
    ensures |r| == 2 * width + 3
  {
    Framed('+', seq(width, _ => '-'))
  }

  /** The border line has '+' at both ends and a dash above each column. */
  lemma BorderAt(width: nat, c: int)
    requires 0 <= c < width
    ensures Border(width)[0] == '+' && Border(width)[2 * width + 2] == '+'
    ensures Border(width)[2 * c + 2] == '-'
  {
    FramedAt('+', seq(width, _ => '-'), c);
  }

  /** The screen column the cursor is moved to for board column col. */
  function CursorColumn(col: int): int {
    col * 2 + 2
  }

  /** Each row line is as wide as the border and framed by '|', and the
      screen column the cursor is moved to for column col shows that
      square's glyph. */
  lemma RowTextLayout(g: Grid, mines: set<Coord>, height: int, width: int, row: int, col: int)
    requires Shaped(g, height, width)
    requires 0 <= row < height && 0 <= col < width
    ensures |RowText(g, mines, row)| == |Border(width)|
    ensures RowText(g, mines, row)[0] == '|' && RowText(g, mines, row)[2 * width + 2] == '|'
    ensures RowText(g, mines, row)[CursorColumn(col)] == CharForCell(g, mines, row, col)[0]
  {
    var glyphs := Glyphs(g, mines, row, width);
    GlyphsAt(g, mines, row, width, col);
    FramedAt('|', glyphs, col);
  }

  // ---------------------------------------------------------------------------
  // Header and instructions

  /** The line shown at the top of the screen. */
  function Header(game: Game): string {
    match game
    case Won => "Congratulations, you won! Press 'r' to play again"
    case Lost => "Whoops, you hit a mine! Press 'r' to play again"
    case Play => "Choose a cell using the arrow keys"
  }

  /** The instruction lines: the commands of the status, then quitting. */
  function Instructions(game: Game): (lines: seq<string>)
    ensures |lines| >= 2 && lines[|lines| - 1] == "q - quit"
    ensures "r - restart" in lines <==> game != Play
    ensures "ENTER - dig" in lines <==> game == Play
    ensures "f - flag" in lines <==> game == Play
  {
    var commands := if game == Play then ["ENTER - dig", "f - flag"] else ["r - restart"];
    commands + ["q - quit"]
  }

  /** The lines of the board rows 0 .. n-1. */
  function BoardLines(g: Grid, mines: set<Coord>, n: nat): (lines: seq<string>)
    requires n <= |g|
    ensures |lines| == n
  {
    if n == 0 then [] else BoardLines(g, mines, n - 1) + [RowText(g, mines, n - 1)]
  }

  /** Board line r is the text of row r. */
  lemma {:induction false} BoardLinesAt(g: Grid, mines: set<Coord>, n: nat, r: int)
    requires 0 <= r < n <= |g|
    ensures BoardLines(g, mines, n)[r] == RowText(g, mines, r)
  {
    if r < n - 1 {
      BoardLinesAt(g, mines, n - 1, r);
    }
  }

  /** What display writes after clearing the screen, indexed by screen line;
      lines it does not write stay empty. */
  function Screen(game: Game, g: Grid, mines: set<Coord>, height: nat, width: nat): (lines: seq<string>)
    requires height <= |g|
    ensures |lines| == height + 7 + |Instructions(game)|
  {
    [Header(game), "", Border(width)] + BoardLines(g, mines, height)
      + [Border(width), "", "Instructions:", ""] + Instructions(game)
  }

  /** The header is on line 0, the borders on lines 2 and height + 3,
      "Instructions:" on line height + 5 and instruction i on line
      height + 7 + i. */
  lemma ScreenLines(game: Game, g: Grid, mines: set<Coord>, height: nat, width: nat)
    requires height <= |g|
    ensures var screen := Screen(game, g, mines, height, width);
      && screen[0] == Header(game)
      && screen[2] == Border(width) && screen[height + 3] == Border(width)
      && screen[height + 5] == "Instructions:"
      && forall i :: 0 <= i < |Instructions(game)| ==> screen[height + 7 + i] == Instructions(game)[i]
  {
  }

  /** Board row r is on screen line r + 3. */
  lemma ScreenRow(game: Game, g: Grid, mines: set<Coord>, height: nat, width: nat, r: int)
    requires height <= |g| && 0 <= r < height
    ensures Screen(game, g, mines, height, width)[r + 3] == RowText(g, mines, r)
  {
    BoardLinesAt(g, mines, height, r);
  }

  /** The screen position the cursor is moved to. */
  function CursorPosition(cursor: Coord): Coord {
    (cursor.0 + 3, CursorColumn(cursor.1))
  }

  /** The cursor is placed on the glyph of the square it selects. */
  lemma CursorOnGlyph(game: Game, g: Grid, mines: set<Coord>, height: nat, width: nat, cursor: Coord)
    requires Shaped(g, height, width) && InBounds(height, width, cursor)
    ensures var screen := Screen(game, g, mines, height, width);
      var (line, column) := CursorPosition(cursor);
      && 0 <= line < |screen| && 0 <= column < |screen[line]|
      && screen[line][column] == CharForCell(g, mines, cursor.0, cursor.1)[0]
  {
    ScreenRow(game, g, mines, height, width, cursor.0);
    RowTextLayout(g, mines, height, width, cursor.0, cursor.1);
  }
}
