/** The board of the game: cell statuses, the grid of cells, the mine count
    around a cell and the facts about a flood-fill reveal that the game's
    `uncover` establishes. Everything here is a value; the mutable game state
    that uses it lives in module Minesweeper. */
module Board {

  /** Overall status of a game. */
  datatype Game = Won | Lost | Play

  /** Status of one square: still covered, covered and flagged, or dug. */
  datatype Cell = Filled | Flagged | Cleared

  /** A (row, col) position; used both for squares and for offsets. */
  type Coord = (int, int)

  /** The cells of the board as a list of rows. */
  type Grid = seq<seq<Cell>>

  predicate InBounds(height: int, width: int, p: Coord) {
    0 <= p.0 < height && 0 <= p.1 < width
  }

  predicate InGrid(g: Grid, row: int, col: int) {
    0 <= row < |g| && 0 <= col < |g[row]|
  }

  ghost predicate Shaped(g: Grid, height: int, width: int) {
    |g| == height && forall r :: 0 <= r < |g| ==> |g[r]| == width
  }

  /** Every mine lies on the board. */
  ghost predicate MinesFit(mines: set<Coord>, height: int, width: int) {
    forall p :: p in mines ==> InBounds(height, width, p)
  }

  /** The squares (row, 0) .. (row, width - 1). */
  ghost function RowSquares(row: int, width: nat): set<Coord> {
    set c | 0 <= c < width :: (row, c)
  }

  /** All squares of a height x width board. */
  ghost function Squares(height: nat, width: nat): set<Coord> {
    set r, c | 0 <= r < height && 0 <= c < width :: (r, c)
  }

  /** A row has width squares. */
  lemma {:induction false} RowSquaresCount(row: int, width: nat)
    ensures |RowSquares(row, width)| == width
  {
    if width > 0 {
      RowSquaresCount(row, width - 1);
      assert RowSquares(row, width) == RowSquares(row, width - 1) + {(row, width - 1)};
    }
  }

  /** A height x width board has height * width squares. */
  lemma {:induction false} SquaresCount(height: nat, width: nat)
    ensures |Squares(height, width)| == height * width
  {
    if height > 0 {
      SquaresCount(height - 1, width);
      RowSquaresCount(height - 1, width);
      var above := Squares(height - 1, width);
      var last := RowSquares(height - 1, width);
      assert Squares(height, width) == above + last;
      assert above * last == {};
      assert (height - 1) * width + width == height * width;
    }
  }

  /** A board holds at most height * width mines. */
  lemma MinesBound(mines: set<Coord>, height: nat, width: nat)
    requires MinesFit(mines, height, width)
    ensures |mines| <= height * width
  {
    forall p | p in mines ensures p in Squares(height, width) {
      var (r, c) := p;
      assert InBounds(height, width, (r, c));
    }
    SquaresCount(height, width);
    SubsetSize(mines, Squares(height, width));
  }

  /** A subset is no larger than the set. */
  lemma {:induction false} SubsetSize(a: set<Coord>, b: set<Coord>)
    requires a <= b
    ensures |a| <= |b|
  {
    if a != {} {
      var x :| x in a;
      SubsetSize(a - {x}, b - {x});
    }
  }

  /** No dug square holds a mine (digging a mine loses the game instead). */
  ghost predicate NoClearedMine(g: Grid, mines: set<Coord>) {
    forall p {:trigger p in mines} :: p in mines ==> !(InGrid(g, p.0, p.1) && g[p.0][p.1] == Cleared)
  }

  /** The board of a new game: `height` rows of `width` covered squares. */
  function FilledGrid(height: nat, width: nat): (g: Grid)
    ensures Shaped(g, height, width)
    ensures forall r, c {:trigger InGrid(g, r, c)} :: InGrid(g, r, c) ==> g[r][c] == Filled
  {
    seq(height, _ => seq(width, _ => Filled))
  }

  /** True iff no square of the board is still Filled (flags do not count). */
  function NoFilled(g: Grid): (b: bool)
    ensures b <==> forall r, c {:trigger InGrid(g, r, c)} :: InGrid(g, r, c) ==> g[r][c] != Filled
  {
    if g == [] then true
    else if Filled in g[0] then
      var c :| 0 <= c < |g[0]| && g[0][c] == Filled;
      assert InGrid(g, 0, c);
      false
    else
      var rest := NoFilled(g[1..]);
      assert forall r, c {:trigger InGrid(g, r, c)} :: 1 <= r < |g| && InGrid(g, r, c) ==> InGrid(g[1..], r - 1, c) && g[r][c] == g[1..][r - 1][c];
      assert forall r, c {:trigger InGrid(g[1..], r, c)} :: InGrid(g[1..], r, c) ==> InGrid(g, r + 1, c) && g[1..][r][c] == g[r + 1][c];
      rest
  }

  /** The set of squares still Filled: it shrinks as the flood-fill proceeds. */
  ghost function FilledSet(g: Grid): set<Coord> {
    set r, c {:trigger g[r][c]} | 0 <= r < |g| && 0 <= c < |g[r]| && g[r][c] == Filled :: (r, c)
  }

  // ---------------------------------------------------------------------------
  // Counting mines around a square

  /** The nine offsets (i, j), i and j ranging over -1, 0, 1 in that order,
      over which the game sums; the middle one is (0, 0). */
  const OFFSETS: seq<Coord> := [(-1, -1), (-1, 0), (-1, 1), (0, -1), (0, 0), (0, 1), (1, -1), (1, 0), (1, 1)]

  /** The eight offsets of the Moore neighbourhood, in the same order. */
  const NEIGHBOURS: seq<Coord> := [(-1, -1), (-1, 0), (-1, 1), (0, -1), (0, 1), (1, -1), (1, 0), (1, 1)]

  predicate Distinct(ds: seq<Coord>) {
    forall i, j :: 0 <= i < j < |ds| ==> ds[i] != ds[j]
  }

  /** How many of the offsets `ds` lead from (row, col) onto a mine. */
  function MinesAmong(mines: set<Coord>, row: int, col: int, ds: seq<Coord>): (n: nat)
    ensures n <= |ds|
  {
    if ds == [] then 0
    else (if (row + ds[0].0, col + ds[0].1) in mines then 1 else 0) + MinesAmong(mines, row, col, ds[1..])
  }

  /** The squares reached from (row, col) by the offsets `ds`. */
  function Targets(row: int, col: int, ds: seq<Coord>): set<Coord> {
    if ds == [] then {} else {(row + ds[0].0, col + ds[0].1)} + Targets(row, col, ds[1..])
  }

  /** The eight squares around (row, col), whether on the board or not. */
  function Moore(row: int, col: int): set<Coord> {
    Targets(row, col, NEIGHBOURS)
  }

  /** The mine count the game shows for a dug square: the sum over all nine
      offsets, so the square itself is counted when it is a mine. */
  function AdjacentMines(mines: set<Coord>, row: int, col: int): (n: nat)
    ensures n <= |OFFSETS|
  {
    MinesAmong(mines, row, col, OFFSETS)
  }

  /** Squares around (row, col) that are on the board and hold a mine. */
  ghost function NeighbourMines(mines: set<Coord>, height: int, width: int, row: int, col: int): set<Coord> {
    set p | p in Moore(row, col) && InBounds(height, width, p) && p in mines
  }

  lemma {:induction false} MinesAmongZero(mines: set<Coord>, row: int, col: int, ds: seq<Coord>)
    ensures MinesAmong(mines, row, col, ds) == 0 <==>
            forall k :: 0 <= k < |ds| ==> (row + ds[k].0, col + ds[k].1) !in mines
  {
    if ds != [] {
      MinesAmongZero(mines, row, col, ds[1..]);
      assert forall k :: 1 <= k < |ds| ==> ds[k] == ds[1..][k - 1];
    }
  }

  lemma {:induction false} MinesAmongAppend(mines: set<Coord>, row: int, col: int, ds: seq<Coord>, es: seq<Coord>)
    ensures MinesAmong(mines, row, col, ds + es) == MinesAmong(mines, row, col, ds) + MinesAmong(mines, row, col, es)
  {
    if ds != [] {
      assert (ds + es)[1..] == ds[1..] + es;
      MinesAmongAppend(mines, row, col, ds[1..], es);
    } else {
      assert ds + es == es;
    }
  }

  lemma {:induction false} TargetsMember(row: int, col: int, ds: seq<Coord>, d: Coord)
    requires d !in ds
    ensures (row + d.0, col + d.1) !in Targets(row, col, ds)
  {
    if ds != [] {
      assert d != ds[0];
      TargetsMember(row, col, ds[1..], d);
    }
  }

  /** With distinct offsets, the sum counts exactly the mined squares reached. */
  lemma {:induction false} MinesAmongCounts(mines: set<Coord>, row: int, col: int, ds: seq<Coord>)
    requires Distinct(ds)
    ensures MinesAmong(mines, row, col, ds) == |Targets(row, col, ds) * mines|
    ensures |Targets(row, col, ds)| == |ds|
  {
    if ds != [] {
      var t := (row + ds[0].0, col + ds[0].1);
      var tail := ds[1..];
      assert Distinct(tail) by {
        forall i, j | 0 <= i < j < |tail| ensures tail[i] != tail[j] {
          assert tail[i] == ds[i + 1] && tail[j] == ds[j + 1];
        }
      }
      MinesAmongCounts(mines, row, col, tail);
      assert ds[0] !in tail by {
        forall k | 0 <= k < |tail| ensures tail[k] != ds[0] {
          assert tail[k] == ds[k + 1];
        }
      }
      TargetsMember(row, col, tail, ds[0]);
      AddFresh(t, Targets(row, col, tail), mines);
    }
  }

  /** Adding a fresh square to a set adds one to its size, and one to the
      number of mines in it exactly when the square is mined. */
  lemma AddFresh(t: Coord, rest: set<Coord>, mines: set<Coord>)
    requires t !in rest
    ensures |{t} + rest| == |rest| + 1
    ensures |({t} + rest) * mines| == (if t in mines then 1 else 0) + |rest * mines|
  {
    if t in mines {
      assert ({t} + rest) * mines == {t} + rest * mines;
    } else {
      assert ({t} + rest) * mines == rest * mines;
    }
  }

  /** The eight neighbour offsets are pairwise different. */
  lemma NeighboursDistinct()
    ensures Distinct(NEIGHBOURS)
  {
  }

  /** For a square without a mine, the nine-offset sum equals the number of
      mined squares among its eight true neighbours, which is at most 8; when
      every mine is on the board, only neighbours on the board count. */
  lemma AdjacentMinesOfSafeSquare(mines: set<Coord>, height: int, width: int, row: int, col: int)
    requires (row, col) !in mines
    ensures AdjacentMines(mines, row, col) == MinesAmong(mines, row, col, NEIGHBOURS)
    ensures AdjacentMines(mines, row, col) == |Moore(row, col) * mines| <= |NEIGHBOURS|
    ensures MinesFit(mines, height, width) ==>
              AdjacentMines(mines, row, col) == |NeighbourMines(mines, height, width, row, col)|
  {
    assert OFFSETS == NEIGHBOURS[..4] + [(0, 0)] + NEIGHBOURS[4..];
    assert NEIGHBOURS == NEIGHBOURS[..4] + NEIGHBOURS[4..];
    MinesAmongAppend(mines, row, col, NEIGHBOURS[..4] + [(0, 0)], NEIGHBOURS[4..]);
    MinesAmongAppend(mines, row, col, NEIGHBOURS[..4], [(0, 0)]);
    MinesAmongAppend(mines, row, col, NEIGHBOURS[..4], NEIGHBOURS[4..]);
    assert MinesAmong(mines, row, col, [(0, 0)]) == 0;
    NeighboursDistinct();
    MinesAmongCounts(mines, row, col, NEIGHBOURS);
    assert Moore(row, col) * mines <= Moore(row, col);
    if MinesFit(mines, height, width) {
      assert NeighbourMines(mines, height, width, row, col) == Moore(row, col) * mines;
    }
  }

  /** A zero count means that none of the nine squares around holds a mine. */
  lemma ZeroMeansNoMineAround(mines: set<Coord>, row: int, col: int, k: int)
    requires AdjacentMines(mines, row, col) == 0
    requires 0 <= k < |OFFSETS|
    ensures (row + OFFSETS[k].0, col + OFFSETS[k].1) !in mines
  {
    MinesAmongZero(mines, row, col, OFFSETS);
  }

  /** Without mines every count is zero. */
  lemma NoMinesNoCount(row: int, col: int)
    ensures AdjacentMines({}, row, col) == 0
  {
    MinesAmongZero({}, row, col, OFFSETS);
  }

  // ---------------------------------------------------------------------------
  // What a flood-fill reveal does to the grid

  ghost predicate ZeroAt(mines: set<Coord>, p: Coord) {
    AdjacentMines(mines, p.0, p.1) == 0
  }

  /** The squares whose mine count is zero: the ones a reveal spreads from. */
  ghost function ZeroSquares(mines: set<Coord>): iset<Coord> {
    iset p: Coord | ZeroAt(mines, p)
  }

  /** (row, col) is off the board or not Filled in g. */
  predicate NotFilledAt(g: Grid, row: int, col: int) {
    !InGrid(g, row, col) || g[row][col] != Filled
  }

  /** None of the nine squares of the 3x3 block centred on (row, col) is Filled. */
  ghost predicate BlockUncovered(g: Grid, row: int, col: int) {
    forall k :: 0 <= k < |OFFSETS| ==> NotFilledAt(g, row + OFFSETS[k].0, col + OFFSETS[k].1)
  }

  /** (row, col) went from Filled in g0 to Cleared in g. */
  ghost predicate Changed(g0: Grid, g: Grid, row: int, col: int) {
    InGrid(g0, row, col) && InGrid(g, row, col) && g0[row][col] == Filled && g[row][col] == Cleared
  }

  /** g has the shape of g0 and differs from it only by Filled squares
      turned Cleared: Flagged and Cleared squares are never touched. */
  ghost predicate OnlyClears(g0: Grid, g: Grid) {
    && |g| == |g0|
    && (forall r :: 0 <= r < |g0| ==> |g[r]| == |g0[r]|)
    && forall r, c {:trigger InGrid(g0, r, c)} :: InGrid(g0, r, c) ==> g[r][c] == g0[r][c] || Changed(g0, g, r, c)
  }

  /** `order` lists, without repetition, exactly the squares cleared from g0 to g. */
  ghost predicate Lists(order: seq<Coord>, g0: Grid, g: Grid) {
    && (forall k :: 0 <= k < |order| ==> Changed(g0, g, order[k].0, order[k].1))
    && (forall r, c {:trigger Changed(g0, g, r, c)} :: Changed(g0, g, r, c) ==> (r, c) in order)
    && (forall i, j :: 0 <= i < j < |order| ==> order[i] != order[j])
  }

  predicate Adjacent(p: Coord, q: Coord) {
    p != q && -1 <= p.0 - q.0 <= 1 && -1 <= p.1 - q.1 <= 1
  }

  /** Every square listed after the first was reached from an earlier listed
      neighbour whose mine count is zero. */
  ghost predicate Supported(order: seq<Coord>, zeros: iset<Coord>) {
    forall k :: 0 < k < |order| ==> ReachedAt(order, zeros, k)
  }

  /** order[k] touches some earlier order[j] whose mine count is zero. */
  ghost predicate ReachedAt(order: seq<Coord>, zeros: iset<Coord>, k: int)
    requires 0 <= k < |order|
  {
    exists j :: 0 <= j < k && Adjacent(order[j], order[k]) && order[j] in zeros
  }

  /** Every square cleared from g0 to g, other than `start`, whose count is
      zero has no Filled square left around it in g. */
  ghost predicate ZeroClosedExcept(g0: Grid, g: Grid, zeros: iset<Coord>, start: Coord) {
    forall r, c {:trigger Changed(g0, g, r, c)} :: Changed(g0, g, r, c) && (r, c) != start && (r, c) in zeros ==> BlockUncovered(g, r, c)
  }

  ghost predicate ZeroClosed(g0: Grid, g: Grid, zeros: iset<Coord>) {
    forall r, c {:trigger Changed(g0, g, r, c)} :: Changed(g0, g, r, c) && (r, c) in zeros ==> BlockUncovered(g, r, c)
  }

  /** The outcome of a flood-fill reveal started at (row, col) on g0, with
      `order` the order in which squares were cleared: nothing happens unless
      (row, col) is a Filled square of the board; otherwise it is cleared
      first, every other cleared square touches an earlier cleared square
      with count zero, and no cleared square with count zero is left next to
      a Filled square. */
  ghost predicate FloodFrom(g0: Grid, g: Grid, zeros: iset<Coord>, row: int, col: int, order: seq<Coord>) {
    && OnlyClears(g0, g)
    && Lists(order, g0, g)
    && Supported(order, zeros)
    && ZeroClosed(g0, g, zeros)
    && if InGrid(g0, row, col) && g0[row][col] == Filled then order != [] && order[0] == (row, col)
       else g == g0 && order == []
  }

  lemma OnlyClearsTrans(g0: Grid, g1: Grid, g2: Grid)
    requires OnlyClears(g0, g1) && OnlyClears(g1, g2)
    ensures OnlyClears(g0, g2)
    ensures forall r, c :: Changed(g0, g2, r, c) <==> Changed(g0, g1, r, c) || Changed(g1, g2, r, c)
  {
    assert forall r, c :: InGrid(g0, r, c) <==> InGrid(g1, r, c);
  }

  lemma NotFilledStays(g0: Grid, g: Grid, row: int, col: int)
    requires OnlyClears(g0, g) && NotFilledAt(g0, row, col)
    ensures NotFilledAt(g, row, col)
  {
    if InGrid(g, row, col) {
      assert InGrid(g0, row, col);
    }
  }

  lemma BlockUncoveredStays(g0: Grid, g: Grid, row: int, col: int)
    requires OnlyClears(g0, g) && BlockUncovered(g0, row, col)
    ensures BlockUncovered(g, row, col)
  {
    forall k | 0 <= k < |OFFSETS| ensures NotFilledAt(g, row + OFFSETS[k].0, col + OFFSETS[k].1) {
      NotFilledStays(g0, g, row + OFFSETS[k].0, col + OFFSETS[k].1);
    }
  }

  /** One neighbour's reveal, appended to the reveal in progress. */
  lemma ListsAppend(g0: Grid, g1: Grid, g2: Grid, order: seq<Coord>, sub: seq<Coord>)
    requires OnlyClears(g0, g1) && OnlyClears(g1, g2)
    requires Lists(order, g0, g1) && Lists(sub, g1, g2)
    ensures Lists(order + sub, g0, g2)
  {
    OnlyClearsTrans(g0, g1, g2);
    var all := order + sub;
    forall k | 0 <= k < |all| ensures Changed(g0, g2, all[k].0, all[k].1) {
      if k < |order| {
        assert all[k] == order[k];
        assert Changed(g0, g1, order[k].0, order[k].1);
      } else {
        assert all[k] == sub[k - |order|];
        assert Changed(g1, g2, sub[k - |order|].0, sub[k - |order|].1);
      }
    }
    forall r, c {:trigger Changed(g0, g2, r, c)} | Changed(g0, g2, r, c) ensures (r, c) in all {
      if Changed(g0, g1, r, c) {
        assert (r, c) in order;
      } else {
        assert (r, c) in sub;
      }
    }
    forall i, j | 0 <= i < j < |all| ensures all[i] != all[j] {
      if j < |order| {
        assert all[i] == order[i] && all[j] == order[j];
      } else if i >= |order| {
        assert all[i] == sub[i - |order|] && all[j] == sub[j - |order|];
      } else {
        assert all[i] == order[i] && all[j] == sub[j - |order|];
        assert Changed(g0, g1, order[i].0, order[i].1);
        assert Changed(g1, g2, sub[j - |order|].0, sub[j - |order|].1);
      }
    }
  }

  lemma SupportedAppend(order: seq<Coord>, sub: seq<Coord>, zeros: iset<Coord>)
    requires Supported(order, zeros) && Supported(sub, zeros)
    requires order != [] && order[0] in zeros
    requires sub != [] ==> Adjacent(order[0], sub[0])
    ensures Supported(order + sub, zeros)
  {
    var all := order + sub;
    forall k | 0 < k < |all| ensures ReachedAt(all, zeros, k) {
      var j;
      if k < |order| {
        assert ReachedAt(order, zeros, k);
        j :| 0 <= j < k && Adjacent(order[j], order[k]) && order[j] in zeros;
        assert all[j] == order[j] && all[k] == order[k];
      } else if k == |order| {
        j := 0;
        assert all[0] == order[0] && all[k] == sub[0];
      } else {
        var k' := k - |order|;
        assert ReachedAt(sub, zeros, k');
        var j' :| 0 <= j' < k' && Adjacent(sub[j'], sub[k']) && sub[j'] in zeros;
        j := |order| + j';
        assert all[j] == sub[j'] && all[k] == sub[k'];
      }
      assert 0 <= j < k && Adjacent(all[j], all[k]) && all[j] in zeros;
    }
  }

  lemma ZeroClosedAppend(g0: Grid, g1: Grid, g2: Grid, zeros: iset<Coord>, start: Coord)
    requires OnlyClears(g0, g1) && OnlyClears(g1, g2)
    requires ZeroClosedExcept(g0, g1, zeros, start) && ZeroClosed(g1, g2, zeros)
    ensures ZeroClosedExcept(g0, g2, zeros, start)
  {
    OnlyClearsTrans(g0, g1, g2);
    forall r, c {:trigger Changed(g0, g2, r, c)} | Changed(g0, g2, r, c) && (r, c) != start && (r, c) in zeros
      ensures BlockUncovered(g2, r, c)
    {
      if Changed(g0, g1, r, c) {
        BlockUncoveredStays(g1, g2, r, c);
      }
    }
  }

  /** Each reveal removes the Filled squares it clears. */
  lemma FilledShrinks(g0: Grid, g: Grid, row: int, col: int)
    requires OnlyClears(g0, g) && Changed(g0, g, row, col)
    ensures FilledSet(g) < FilledSet(g0)
  {
    assert (row, col) in FilledSet(g0);
    assert (row, col) !in FilledSet(g);
    forall p | p in FilledSet(g) ensures p in FilledSet(g0) {
      var r, c :| 0 <= r < |g| && 0 <= c < |g[r]| && g[r][c] == Filled && p == (r, c);
      assert InGrid(g0, r, c);
    }
  }

  // ---------------------------------------------------------------------------
  // The reveal loop, one neighbour at a time

  /** The state of a reveal started at (row, col) on g0 after the offsets
      OFFSETS[..k] have been handled: the start is cleared and listed first,
      and the squares of the handled offsets are no longer Filled. */
  ghost predicate FloodProgress(g0: Grid, g: Grid, zeros: iset<Coord>, row: int, col: int, order: seq<Coord>, k: int) {
    && 0 <= k <= |OFFSETS|
    && OnlyClears(g0, g) && Changed(g0, g, row, col)
    && Lists(order, g0, g) && order != [] && order[0] == (row, col)
    && Supported(order, zeros)
    && ZeroClosedExcept(g0, g, zeros, (row, col))
    && forall n :: 0 <= n < k ==> NotFilledAt(g, row + OFFSETS[n].0, col + OFFSETS[n].1)
  }

  /** Clearing the Filled start square begins a reveal; with a nonzero
      count it is also the whole reveal. */
  lemma FloodBegin(g0: Grid, g: Grid, zeros: iset<Coord>, row: int, col: int)
    requires InGrid(g0, row, col) && g0[row][col] == Filled
    requires g == g0[row := g0[row][col := Cleared]]
    ensures FloodProgress(g0, g, zeros, row, col, [(row, col)], 0)
    ensures (row, col) !in zeros ==> FloodFrom(g0, g, zeros, row, col, [(row, col)])
  {
  }

  /** The offset (0, 0) leads back to the start, which is already cleared. */
  lemma FloodSkip(g0: Grid, g: Grid, zeros: iset<Coord>, row: int, col: int, order: seq<Coord>, k: int)
    requires FloodProgress(g0, g, zeros, row, col, order, k) && k < |OFFSETS| && OFFSETS[k] == (0, 0)
    ensures FloodProgress(g0, g, zeros, row, col, order, k + 1)
  {
  }

  /** The reveal of one neighbour of a zero-count start extends the reveal
      in progress by the squares it cleared. */
  lemma FloodStep(g0: Grid, g1: Grid, g2: Grid, zeros: iset<Coord>, row: int, col: int,
                  order: seq<Coord>, sub: seq<Coord>, k: int)
    requires FloodProgress(g0, g1, zeros, row, col, order, k) && k < |OFFSETS| && OFFSETS[k] != (0, 0)
    requires (row, col) in zeros
    requires FloodFrom(g1, g2, zeros, row + OFFSETS[k].0, col + OFFSETS[k].1, sub)
    ensures FloodProgress(g0, g2, zeros, row, col, order + sub, k + 1)
  {
    var (i, j) := OFFSETS[k];
    OnlyClearsTrans(g0, g1, g2);
    ListsAppend(g0, g1, g2, order, sub);
    if sub != [] {
      assert sub[0] == (row + i, col + j);
    }
    SupportedAppend(order, sub, zeros);
    ZeroClosedAppend(g0, g1, g2, zeros, (row, col));
    forall n | 0 <= n < k ensures NotFilledAt(g2, row + OFFSETS[n].0, col + OFFSETS[n].1) {
      NotFilledStays(g1, g2, row + OFFSETS[n].0, col + OFFSETS[n].1);
    }
    FloodUncoversStart(g1, g2, zeros, row + i, col + j, sub);
  }

  /** After a reveal its start square is not Filled. */
  lemma FloodUncoversStart(g0: Grid, g: Grid, zeros: iset<Coord>, row: int, col: int, order: seq<Coord>)
    requires FloodFrom(g0, g, zeros, row, col, order)
    ensures NotFilledAt(g, row, col)
    ensures InGrid(g0, row, col) && g0[row][col] == Filled ==> g[row][col] == Cleared
  {
  }

  /** Once all nine offsets of a zero-count start are handled, the reveal is complete. */
  lemma FloodEnd(g0: Grid, g: Grid, zeros: iset<Coord>, row: int, col: int, order: seq<Coord>)
    requires FloodProgress(g0, g, zeros, row, col, order, |OFFSETS|)
    requires (row, col) in zeros
    ensures FloodFrom(g0, g, zeros, row, col, order)
  {
  }

  /** Outside the board or on a square that is not Filled, a reveal does nothing. */
  lemma FloodNothing(g: Grid, zeros: iset<Coord>, row: int, col: int)
    requires !(InGrid(g, row, col) && g[row][col] == Filled)
    ensures FloodFrom(g, g, zeros, row, col, [])
  {
  }

  // ---------------------------------------------------------------------------
  // What follows from the description of a reveal

  /** A reveal started on a square without a mine clears no mine: every
      square after the first touches a cleared square whose nine-square count
      is zero. */
  lemma FloodClearsNoMine(g0: Grid, g: Grid, mines: set<Coord>, row: int, col: int, order: seq<Coord>)
    requires FloodFrom(g0, g, ZeroSquares(mines), row, col, order) && (row, col) !in mines
    ensures forall k :: 0 <= k < |order| ==> order[k] !in mines
  {
    forall k | 0 <= k < |order| ensures order[k] !in mines {
      if k > 0 {
        assert ReachedAt(order, ZeroSquares(mines), k);
        var j :| 0 <= j < k && Adjacent(order[j], order[k]) && order[j] in ZeroSquares(mines);
        NoMineNextToZero(mines, order[j], order[k]);
      }
    }
  }

  /** A square touching a square whose count is zero holds no mine. */
  lemma NoMineNextToZero(mines: set<Coord>, p: Coord, q: Coord)
    requires p in ZeroSquares(mines) && Adjacent(p, q)
    ensures q !in mines
  {
    var k := 3 * (q.0 - p.0 + 1) + (q.1 - p.1 + 1);
    assert OFFSETS[k] == (q.0 - p.0, q.1 - p.1);
    ZeroMeansNoMineAround(mines, p.0, p.1, k);
  }

  /** Every square cleared by one reveal is also cleared by any other reveal
      from the same square of the same board, by induction on its position in
      the clearing order. */
  lemma {:induction false} FloodReachedIn(g0: Grid, g1: Grid, g2: Grid, zeros: iset<Coord>, row: int, col: int,
                                          o1: seq<Coord>, o2: seq<Coord>, k: int)
    requires FloodFrom(g0, g1, zeros, row, col, o1) && FloodFrom(g0, g2, zeros, row, col, o2)
    requires 0 <= k < |o1|
    ensures Changed(g0, g2, o1[k].0, o1[k].1)
  {
    assert Changed(g0, g2, o2[0].0, o2[0].1);
    if k > 0 {
      assert ReachedAt(o1, zeros, k);
      var j :| 0 <= j < k && Adjacent(o1[j], o1[k]) && o1[j] in zeros;
      FloodReachedIn(g0, g1, g2, zeros, row, col, o1, o2, j);
      BlockCovers(g2, o1[j].0, o1[j].1, o1[k].0, o1[k].1);
      assert Changed(g0, g1, o1[k].0, o1[k].1);
      assert InGrid(g0, o1[k].0, o1[k].1);
    }
  }

  /** The outcome of a reveal is determined by the board and the start: the
      order in which neighbours are visited does not change the result. */
  lemma FloodDetermined(g0: Grid, g1: Grid, g2: Grid, zeros: iset<Coord>, row: int, col: int,
                        o1: seq<Coord>, o2: seq<Coord>)
    requires FloodFrom(g0, g1, zeros, row, col, o1) && FloodFrom(g0, g2, zeros, row, col, o2)
    ensures g1 == g2
  {
    forall r, c | InGrid(g0, r, c) ensures g1[r][c] == g2[r][c] {
      if Changed(g0, g1, r, c) {
        var k :| 0 <= k < |o1| && o1[k] == (r, c);
        FloodReachedIn(g0, g1, g2, zeros, row, col, o1, o2, k);
      } else if Changed(g0, g2, r, c) {
        var k :| 0 <= k < |o2| && o2[k] == (r, c);
        FloodReachedIn(g0, g2, g1, zeros, row, col, o2, o1, k);
      }
    }
    forall r | 0 <= r < |g1| ensures g1[r] == g2[r] {
      forall c | 0 <= c < |g1[r]| ensures g1[r][c] == g2[r][c] {
        assert InGrid(g0, r, c);
      }
    }
  }

  /** Clearing a square without a mine keeps the board's shape and keeps every
      mine covered. */
  lemma ClearSafeSquare(g: Grid, mines: set<Coord>, height: int, width: int, row: int, col: int)
    requires Shaped(g, height, width) && NoClearedMine(g, mines)
    requires InGrid(g, row, col) && (row, col) !in mines
    ensures Shaped(g[row := g[row][col := Cleared]], height, width)
    ensures NoClearedMine(g[row := g[row][col := Cleared]], mines)
  {
  }

  // ---------------------------------------------------------------------------
  // A board without mines

  function Abs(n: int): nat {
    if n < 0 then -n else n
  }

  /** Without mines every square has count zero, so a cleared square has
      none of its neighbours left Filled; on an all-Filled board those
      neighbours were cleared too. */
  lemma MineFreeStep(g0: Grid, g: Grid, r: int, c: int, r2: int, c2: int)
    requires OnlyClears(g0, g) && ZeroClosed(g0, g, ZeroSquares({})) && Changed(g0, g, r, c)
    requires forall r', c' {:trigger InGrid(g0, r', c')} :: InGrid(g0, r', c') ==> g0[r'][c'] == Filled
    requires -1 <= r2 - r <= 1 && -1 <= c2 - c <= 1 && InGrid(g0, r2, c2)
    ensures Changed(g0, g, r2, c2)
  {
    NoMinesNoCount(r, c);
    assert (r, c) in ZeroSquares({});
    BlockCovers(g, r, c, r2, c2);
  }

  /** The 3x3 block around (row, col) contains every neighbour. */
  lemma BlockCovers(g: Grid, row: int, col: int, r: int, c: int)
    requires BlockUncovered(g, row, col) && -1 <= r - row <= 1 && -1 <= c - col <= 1
    ensures NotFilledAt(g, r, c)
  {
    var k := 3 * (r - row + 1) + (c - col + 1);
    assert OFFSETS[k] == (r - row, c - col);
  }

  /** Without mines, a reveal that cleared (row, col) on an all-Filled board
      also cleared every square of the board, by induction on the distance
      from (row, col): the neighbour one step closer was cleared. */
  lemma {:induction false} MineFreeReach(g0: Grid, g: Grid, row: int, col: int, r: int, c: int)
    requires OnlyClears(g0, g) && ZeroClosed(g0, g, ZeroSquares({})) && Changed(g0, g, row, col)
    requires forall r', c' {:trigger InGrid(g0, r', c')} :: InGrid(g0, r', c') ==> g0[r'][c'] == Filled
    requires Shaped(g0, |g0|, |g0[row]|) && InGrid(g0, r, c)
    ensures Changed(g0, g, r, c)
    decreases Abs(r - row) + Abs(c - col)
  {
    if r < row {
      MineFreeReach(g0, g, row, col, r + 1, c);
      MineFreeStep(g0, g, r + 1, c, r, c);
    } else if r > row {
      MineFreeReach(g0, g, row, col, r - 1, c);
      MineFreeStep(g0, g, r - 1, c, r, c);
    } else if c < col {
      MineFreeReach(g0, g, row, col, r, c + 1);
      MineFreeStep(g0, g, r, c + 1, r, c);
    } else if c > col {
      MineFreeReach(g0, g, row, col, r, c - 1);
      MineFreeStep(g0, g, r, c - 1, r, c);
    }
  }

  /** On an all-Filled board without mines, a reveal from any square of the
      board leaves every square Cleared. */
  lemma MineFreeFloodClearsAll(g0: Grid, g: Grid, height: int, width: int, row: int, col: int, order: seq<Coord>)
    requires Shaped(g0, height, width) && InGrid(g0, row, col)
    requires forall r, c {:trigger InGrid(g0, r, c)} :: InGrid(g0, r, c) ==> g0[r][c] == Filled
    requires FloodFrom(g0, g, ZeroSquares({}), row, col, order)
    ensures forall r, c {:trigger InGrid(g, r, c)} :: InGrid(g, r, c) ==> g[r][c] == Cleared
  {
    forall r, c | InGrid(g, r, c) ensures g[r][c] == Cleared {
      assert InGrid(g0, r, c);
      MineFreeReach(g0, g, row, col, r, c);
    }
  }
}
