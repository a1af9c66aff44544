/** The game state and its transitions: status, cursor, mines and cells of
    one game, changed in place by the player's keys. */
module Minesweeper {
  import opened Board

  /** The keys the game tells apart: the arrows, Enter, 'f', 'r', 'q' and
      every other key. */
  datatype Key = ArrowUp | ArrowDown | ArrowLeft | ArrowRight | Enter | LetterF | LetterR | LetterQ | Other

  function Max(a: int, b: int): int { if a < b then b else a }
  function Min(a: int, b: int): int { if a < b then a else b }

  /** The outcome of digging at (row, col), in terms of the status and cells
      before (game0, g0) and after (game, g). */
  ghost predicate DugAt(game0: Game, g0: Grid, game: Game, g: Grid, mines: set<Coord>, row: int, col: int)
    requires InGrid(g0, row, col)
  {
    if g0[row][col] != Filled then game == game0 && g == g0
    else if (row, col) in mines then game == Lost && g == g0
    else
      && (exists order :: FloodFrom(g0, g, ZeroSquares(mines), row, col, order))
      && game == if forall r, c {:trigger InGrid(g, r, c)} :: InGrid(g, r, c) ==> g[r][c] != Filled then Won else game0
  }

  /** The cells after flagging (row, col): Filled and Flagged swap, Cleared
      stays, nothing else changes. */
  ghost predicate FlaggedAt(g0: Grid, g: Grid, row: int, col: int)
    requires InGrid(g0, row, col)
  {
    && |g| == |g0| && (forall r :: 0 <= r < |g0| ==> |g[r]| == |g0[r]|)
    && (g0[row][col] == Filled ==> g[row][col] == Flagged)
    && (g0[row][col] == Flagged ==> g[row][col] == Filled)
    && (g0[row][col] == Cleared ==> g[row][col] == Cleared)
    && forall r, c {:trigger InGrid(g0, r, c)} :: InGrid(g0, r, c) && (r, c) != (row, col) ==> g[r][c] == g0[r][c]
  }

  /** Flagging the same square twice gives back the board it started from. */
  lemma FlagTwiceRestores(g0: Grid, g1: Grid, g2: Grid, row: int, col: int)
    requires InGrid(g0, row, col) && FlaggedAt(g0, g1, row, col)
    requires InGrid(g1, row, col) && FlaggedAt(g1, g2, row, col)
    ensures g2 == g0
  {
    forall r | 0 <= r < |g0| ensures g2[r] == g0[r] {
      forall c | 0 <= c < |g0[r]| ensures g2[r][c] == g0[r][c] {
        assert InGrid(g0, r, c) && InGrid(g1, r, c);
      }
    }
  }

  /** Every mine of a board with no Filled square left is flagged. */
  lemma WonBoardHasMinesFlagged(g: Grid, mines: set<Coord>, height: int, width: int)
    requires Shaped(g, height, width) && MinesFit(mines, height, width) && NoClearedMine(g, mines)
    requires forall r, c {:trigger InGrid(g, r, c)} :: InGrid(g, r, c) ==> g[r][c] != Filled
    ensures forall p {:trigger p in mines} :: p in mines ==> g[p.0][p.1] == Flagged
  {
    forall p {:trigger p in mines} | p in mines ensures g[p.0][p.1] == Flagged {
      assert InGrid(g, p.0, p.1);
    }
  }

  /** The squares the random generator produced, as a set. */
  ghost function Drawn(draws: seq<Coord>): set<Coord> {
    set p | p in draws
  }

  /** Mine placement: random squares are drawn and added to a set until it
      holds numMines squares. The random draws are the parameter `draws`;
      `used` is how many of them the loop consumed. If the draws run out
      first (the source would keep drawing), |mines| < numMines. */
  method GenerateMines(height: int, width: int, numMines: nat, draws: seq<Coord>) returns (mines: set<Coord>, used: nat)
    requires forall k :: 0 <= k < |draws| ==> InBounds(height, width, draws[k])
    ensures used <= |draws| && mines == Drawn(draws[..used])
    ensures MinesFit(mines, height, width)
    ensures |mines| == numMines || (used == |draws| && |mines| < numMines)
    ensures forall k :: 0 <= k < used ==> |Drawn(draws[..k])| < numMines
    ensures 0 <= height && 0 <= width && numMines > height * width ==> used == |draws| && |mines| < numMines
  {
    mines, used := {}, 0;
    while |mines| < numMines && used < |draws|
      decreases |draws| - used
      invariant used <= |draws| && mines == Drawn(draws[..used])
      invariant |mines| <= numMines
      invariant forall k :: 0 <= k < used ==> |Drawn(draws[..k])| < numMines
    {
      assert draws[..used + 1] == draws[..used] + [draws[used]];
      mines := mines + {draws[used]};
      used := used + 1;
    }
    assert forall p :: p in mines ==> p in draws[..used];
    if 0 <= height && 0 <= width {
      MinesBound(mines, height, width);
    }
  }

  /** One game: the `State` record of the source. The board size and mine
      count are fixed per process. */
  class State {
    const height: int
    const width: int
    const numMines: nat
    var game: Game
    var cursor: Coord
    var mines: set<Coord>
    var cells: Grid

    ghost predicate Valid()
      reads this
    {
      && 0 < height && 0 < width
      && InBounds(height, width, cursor)
      && MinesFit(mines, height, width) && |mines| == numMines
      && Shaped(cells, height, width)
      && NoClearedMine(cells, mines)
    }

    /** A new game; `mines` stands for what the generator returned. */
    constructor (height: int, width: int, numMines: nat, mines: set<Coord>)
      requires 0 < height && 0 < width
      requires MinesFit(mines, height, width) && |mines| == numMines
      ensures Valid()
      ensures this.height == height && this.width == width && this.numMines == numMines
      ensures game == Play && cursor == (0, 0) && this.mines == mines && cells == FilledGrid(height, width)
    {
      this.height := height;
      this.width := width;
      this.numMines := numMines;
      new;
      Refresh(mines);
    }

    /** Start over: playing, cursor at the top left, fresh mines, all squares Filled. */
    method Refresh(newMines: set<Coord>)
      requires 0 < height && 0 < width
      requires MinesFit(newMines, height, width) && |newMines| == numMines
      modifies this
      ensures Valid()
      ensures game == Play && cursor == (0, 0) && mines == newMines && cells == FilledGrid(height, width)
    {
      game := Play;
      cursor := (0, 0);
      mines := newMines;
      cells := FilledGrid(height, width);
    }

    /** Handle one key. While the game is over only 'r' does anything, and it
        restarts with `nextMines` (what the generator would return). */
    method Respond(key: Key, nextMines: set<Coord>)
      requires Valid()
      requires MinesFit(nextMines, height, width) && |nextMines| == numMines
      modifies this
      ensures Valid()
      ensures old(game) != Play && key == LetterR ==>
                game == Play && cursor == (0, 0) && mines == nextMines && cells == FilledGrid(height, width)
      ensures old(game) != Play && key != LetterR ==>
                game == old(game) && cursor == old(cursor) && mines == old(mines) && cells == old(cells)
      ensures old(game) == Play && key in {ArrowUp, ArrowDown, ArrowLeft, ArrowRight} ==>
                game == old(game) && mines == old(mines) && cells == old(cells)
      ensures old(game) == Play && key == ArrowUp ==> cursor == (Max(0, old(cursor).0 - 1), old(cursor).1)
      ensures old(game) == Play && key == ArrowDown ==> cursor == (Min(height - 1, old(cursor).0 + 1), old(cursor).1)
      ensures old(game) == Play && key == ArrowLeft ==> cursor == (old(cursor).0, Max(0, old(cursor).1 - 1))
      ensures old(game) == Play && key == ArrowRight ==> cursor == (old(cursor).0, Min(width - 1, old(cursor).1 + 1))
      ensures old(game) == Play && key == Enter ==>
                cursor == old(cursor) && mines == old(mines) &&
                DugAt(old(game), old(cells), game, cells, mines, cursor.0, cursor.1)
      ensures old(game) == Play && key == LetterF ==>
                game == old(game) && cursor == old(cursor) && mines == old(mines) &&
                FlaggedAt(old(cells), cells, cursor.0, cursor.1)
      ensures old(game) == Play && key in {LetterR, LetterQ, Other} ==>
                game == old(game) && cursor == old(cursor) && mines == old(mines) && cells == old(cells)
    {
      var (row, col) := cursor;
      if game != Play {
        if key == LetterR {
          Refresh(nextMines);
        }
      } else if key == ArrowUp {
        cursor := (Max(0, cursor.0 - 1), cursor.1);
      } else if key == ArrowDown {
        cursor := (Min(height - 1, cursor.0 + 1), cursor.1);
      } else if key == ArrowLeft {
        cursor := (cursor.0, Max(0, cursor.1 - 1));
      } else if key == ArrowRight {
        cursor := (cursor.0, Min(width - 1, cursor.1 + 1));
      } else if key == Enter {
        Click(row, col);
      } else if key == LetterF {
        Flag(row, col);
      }
    }

    /** The run loop without the drawing: keys are read and handled one at a
        time until 'q' has been handled. `restarts[i]` stands for what the
        generator returns if key i restarts the game. Returns how many keys
        were read; the state stays valid, so the cursor stays on the board. */
    method Run(keys: seq<Key>, restarts: seq<set<Coord>>) returns (read: nat)
      requires Valid() && |restarts| == |keys|
      requires forall i :: 0 <= i < |keys| ==> MinesFit(restarts[i], height, width) && |restarts[i]| == numMines
      modifies this
      ensures Valid() && InBounds(height, width, cursor)
      ensures read <= |keys|
      ensures forall i :: 0 <= i < read - 1 ==> keys[i] != LetterQ
      ensures read == |keys| || (0 < read && keys[read - 1] == LetterQ)
    {
      read := 0;
      var key := Other;
      while key != LetterQ && read < |keys|
        invariant Valid() && read <= |keys|
        invariant forall i :: 0 <= i < read - 1 ==> keys[i] != LetterQ
        invariant key == LetterQ ==> 0 < read && keys[read - 1] == LetterQ
        invariant key != LetterQ && 0 < read ==> keys[read - 1] != LetterQ
        decreases |keys| - read
      {
        key := keys[read];
        Respond(key, restarts[read]);
        read := read + 1;
      }
    }

    /** Toggle the flag on (row, col). */
    method Flag(row: int, col: int)
      requires Valid() && InBounds(height, width, (row, col))
      modifies this
      ensures Valid()
      ensures game == old(game) && cursor == old(cursor) && mines == old(mines)
      ensures FlaggedAt(old(cells), cells, row, col)
    {
      if cells[row][col] == Filled {
        cells := cells[row := cells[row][col := Flagged]];
      } else if cells[row][col] == Flagged {
        cells := cells[row := cells[row][col := Filled]];
      }
    }

    /** Dig at (row, col): nothing on a square that is not Filled, lose on a
        mine, otherwise flood-fill and win once no Filled square is left. */
    method Click(row: int, col: int)
      requires Valid() && InBounds(height, width, (row, col))
      modifies this
      ensures Valid()
      ensures cursor == old(cursor) && mines == old(mines)
      ensures DugAt(old(game), old(cells), game, cells, mines, row, col)
      ensures old(game) != Won && game == Won ==> forall p {:trigger p in mines} :: p in mines ==> cells[p.0][p.1] == Flagged
    {
      if cells[row][col] != Filled {
        return;
      } else if (row, col) in mines {
        game := Lost;
      } else {
        ghost var order := Uncover(row, col);
        if NoFilled(cells) {
          game := Won;
          WonBoardHasMinesFlagged(cells, mines, height, width);
        }
      }
    }

    /** The flood-fill reveal: a Filled square on the board is cleared and,
        if no mine is around it, the same is done to its eight neighbours.
        The ghost result lists the squares in the order they were cleared. */
    method Uncover(row: int, col: int) returns (ghost order: seq<Coord>)
      requires Valid()
      requires InBounds(height, width, (row, col)) && cells[row][col] == Filled ==> (row, col) !in mines
      modifies this
      ensures Valid()
      ensures game == old(game) && cursor == old(cursor) && mines == old(mines)
      ensures FloodFrom(old(cells), cells, ZeroSquares(mines), row, col, order)
      decreases FilledSet(cells)
    {
      if 0 <= row < height && 0 <= col < width && cells[row][col] == Filled {
        ghost var g0 := cells;
        ghost var zeros := ZeroSquares(mines);
        ClearSafeSquare(cells, mines, height, width, row, col);
        cells := cells[row := cells[row][col := Cleared]];
        order := [(row, col)];
        FloodBegin(g0, cells, zeros, row, col);
        if AdjacentMines(mines, row, col) == 0 {
          for k := 0 to |OFFSETS|
            invariant Shaped(cells, height, width) && NoClearedMine(cells, mines)
            invariant game == old(game) && cursor == old(cursor) && mines == old(mines)
            invariant FloodProgress(g0, cells, zeros, row, col, order, k)
          {
            var (i, j) := OFFSETS[k];
            if (i, j) != (0, 0) {
              ZeroMeansNoMineAround(mines, row, col, k);
              FilledShrinks(g0, cells, row, col);
              ghost var before := cells;
              ghost var sub := Uncover(row + i, col + j);
              FloodStep(g0, before, cells, zeros, row, col, order, sub, k);
              order := order + sub;
            } else {
              FloodSkip(g0, cells, zeros, row, col, order, k);
            }
          }
          FloodEnd(g0, cells, zeros, row, col, order);
        }
      } else {
        order := [];
        FloodNothing(cells, ZeroSquares(mines), row, col);
      }
    }
  }
}
