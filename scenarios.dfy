/** Short games played through the key handler, each with its outcome. */
module Scenarios {
  import opened Board
  import opened Minesweeper

  /** On a board without mines, the first dig wins and clears every square. */
  method MineFreeBoardIsWonByOneDig(height: int, width: int) returns (game: Game, cells: Grid)
    requires 0 < height && 0 < width
    ensures game == Won
    ensures forall r, c {:trigger InGrid(cells, r, c)} :: InGrid(cells, r, c) ==> cells[r][c] == Cleared
  {
    var s := new State(height, width, 0, {});
    ghost var g0 := s.cells;
    s.Respond(Enter, {});
    ghost var order :| FloodFrom(g0, s.cells, ZeroSquares({}), 0, 0, order);
    MineFreeFloodClearsAll(g0, s.cells, height, width, 0, 0, order);
    game, cells := s.game, s.cells;
  }

  /** Digging the only square of a one-square board holding a mine loses
      and leaves the square covered. */
  method DigOnMineLoses() returns (game: Game, cells: Grid)
    ensures game == Lost && cells == [[Filled]]
  {
    var s := new State(1, 1, 1, {(0, 0)});
    assert InGrid(s.cells, 0, 0) && s.cells[0] == [Filled];
    s.Respond(Enter, {(0, 0)});
    game, cells := s.game, s.cells;
  }

  /** At the top left corner, Up and then Left leave the cursor where it is. */
  method UpLeftAtCorner() returns (cursor: Coord)
    ensures cursor == (0, 0)
  {
    var s := new State(3, 3, 1, {(2, 2)});
    s.Respond(ArrowUp, {(2, 2)});
    s.Respond(ArrowLeft, {(2, 2)});
    cursor := s.cursor;
  }

  /** A flagged square cannot be dug: flagging and then digging it only
      leaves the flag. */
  method FlagBlocksDig() returns (game: Game, cells: Grid)
    ensures game == Play && cells == [[Flagged, Filled], [Filled, Filled]]
  {
    var s := new State(2, 2, 1, {(0, 0)});
    assert InGrid(s.cells, 0, 0) && InGrid(s.cells, 0, 1) && InGrid(s.cells, 1, 0) && InGrid(s.cells, 1, 1);
    assert s.cells[0] == [Filled, Filled] && s.cells[1] == [Filled, Filled];
    s.Respond(LetterF, {(0, 0)});
    assert s.cells[0] == [Flagged, Filled] && s.cells[1] == [Filled, Filled];
    s.Respond(Enter, {(0, 0)});
    game, cells := s.game, s.cells;
  }

  /** After a loss the arrows do nothing, and 'r' starts a new game. */
  method RestartAfterLoss() returns (afterArrow: Coord, game: Game, cells: Grid)
    ensures afterArrow == (0, 0)
    ensures game == Play && cells == [[Filled, Filled]]
  {
    var s := new State(1, 2, 1, {(0, 0)});
    s.Respond(Enter, {(0, 1)});
    s.Respond(ArrowRight, {(0, 1)});
    afterArrow := s.cursor;
    s.Respond(LetterR, {(0, 1)});
    assert InGrid(s.cells, 0, 0) && InGrid(s.cells, 0, 1) && s.cells[0] == [Filled, Filled];
    game, cells := s.game, s.cells;
  }
}
