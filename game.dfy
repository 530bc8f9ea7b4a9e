/**
 * The board simulation of game.py (class Game): the grid, the active and the
 * next piece, collision checks, movement, rotation, locking, line clearing,
 * scoring, gravity and game-over detection.
 */
module TetrisGame {
  import opened Wrappers
  import opened Tetrominoes

  /** Milliseconds of accumulated time between two gravity steps (fall_speed). */
  const FALL_SPEED: int := 500

  /** Points awarded per cleared row. */
  const LINE_SCORE: int := 100

  /** A board cell: empty (0 in the source) or the colour of a locked piece. */
  type Cell = Option<Color>

  /** The grid, row 0 at the top. */
  type Board = seq<seq<Cell>>

  predicate IsBoard(b: Board)
  {
    |b| == ROWS && forall i :: 0 <= i < |b| ==> |b[i]| == COLUMNS
  }

  function EmptyRow(): seq<Cell>
  {
    seq(COLUMNS, _ => None)
  }

  function EmptyRows(k: nat): Board
  {
    seq(k, _ => EmptyRow())
  }

  function EmptyBoard(): Board
  {
    EmptyRows(ROWS)
  }

  /**
   * A filled piece cell may be at column x, row y: inside the side walls,
   * above the floor and, for a row on the board, over an empty cell.
   * Rows above the board (y < 0) are never compared with the grid.
   */
  predicate Free(b: Board, x: int, y: int)
    requires IsBoard(b)
  {
    0 <= x < COLUMNS && y < ROWS && (0 <= y ==> b[y][x] == None)
  }

  /** Every filled cell of footprint `m` placed at offset (ox, oy) is free. */
  ghost predicate Fits(b: Board, m: Matrix, ox: int, oy: int)
    requires IsBoard(b)
  {
    forall r, c | Filled(m, r, c) :: Free(b, ox + c, oy + r)
  }

  /** The board with the visible cells of `m` at (ox, oy) painted `color`. */
  function Stamp(b: Board, m: Matrix, color: Color, ox: int, oy: int): Board
    requires IsBoard(b)
  {
    seq(ROWS, i requires 0 <= i < ROWS =>
      seq(COLUMNS, j requires 0 <= j < COLUMNS =>
        if Filled(m, i - oy, j - ox) then Some(color) else b[i][j]))
  }

  /**
   * `b` is `b0` with the visible cells of `m` at (ox, oy) painted `color`
   * for the cells of `m` before (r, c) in row-major order.
   */
  ghost predicate PaintedUpTo(b: Board, b0: Board, m: Matrix, color: Color, ox: int, oy: int, r: int, c: int)
  {
    IsBoard(b) && IsBoard(b0) &&
    forall i, j | 0 <= i < ROWS && 0 <= j < COLUMNS ::
      b[i][j] ==
        if Filled(m, i - oy, j - ox) && (i - oy < r || (i - oy == r && j - ox < c))
        then Some(color) else b0[i][j]
  }

  /** Painting cell (r, c) of a fitting footprint extends the painted region by one cell. */
  lemma PaintNext(b: Board, b0: Board, m: Matrix, color: Color, ox: int, oy: int, r: int, c: int)
    requires PaintedUpTo(b, b0, m, color, ox, oy, r, c) && Fits(b0, m, ox, oy)
    requires 0 <= r < |m| && 0 <= c < |m[r]|
    ensures m[r][c] && oy + r >= 0 ==>
      0 <= ox + c < COLUMNS && oy + r < ROWS &&
      PaintedUpTo(b[oy + r := b[oy + r][ox + c := Some(color)]], b0, m, color, ox, oy, r, c + 1)
    ensures !(m[r][c] && oy + r >= 0) ==> PaintedUpTo(b, b0, m, color, ox, oy, r, c + 1)
    ensures c + 1 == |m[r]| ==> (PaintedUpTo(b, b0, m, color, ox, oy, r, c + 1) <==> PaintedUpTo(b, b0, m, color, ox, oy, r + 1, 0))
  {
    if m[r][c] {
      assert Filled(m, r, c) && Free(b0, ox + c, oy + r);
    }
  }

  /** The coordinates (row, column) of the occupied cells of a board. */
  function Occupied(b: Board): set<(int, int)>
    requires IsBoard(b)
  {
    set i, j | 0 <= i < ROWS && 0 <= j < COLUMNS && b[i][j].Some? :: (i, j)
  }

  /** The board cells covered by the filled cells of `m` at (ox, oy) in rows 0 and below. */
  function Visible(m: Matrix, ox: int, oy: int): set<(int, int)>
  {
    set p | p in Cells(m) && 0 <= oy + p.0 :: (oy + p.0, ox + p.1)
  }

  /** A row is full when none of its cells is empty. */
  predicate IsFull(row: seq<Cell>)
  {
    forall j :: 0 <= j < |row| ==> row[j].Some?
  }

  /** The rows that are not full, in their original order. */
  function KeptRows(b: Board): Board
  {
    if b == [] then [] else (if IsFull(b[0]) then [] else [b[0]]) + KeptRows(b[1..])
  }

  /** The number of full rows. */
  function FullCount(b: Board): nat
  {
    if b == [] then 0 else (if IsFull(b[0]) then 1 else 0) + FullCount(b[1..])
  }

  /** The board after clearing: one empty row on top per removed full row. */
  function Cleared(b: Board): Board
  {
    EmptyRows(FullCount(b)) + KeptRows(b)
  }

  /** Every template fits on the empty board at its spawn offset. */
  lemma SpawnFitsEmptyBoard(k: Kind)
    ensures Fits(EmptyBoard(), Template(k), SpawnX(Template(k)), 0)
  {
    var m := Template(k);
    forall r, c | Filled(m, r, c)
      ensures Free(EmptyBoard(), SpawnX(m) + c, r)
    {
      assert r < 2 && c < |m[0]|;
    }
  }

  /** Stamping a fitting piece adds exactly its visible cells, all of them previously empty. */
  lemma StampOccupies(b: Board, m: Matrix, color: Color, ox: int, oy: int)
    requires IsBoard(b) && Fits(b, m, ox, oy)
    ensures IsBoard(Stamp(b, m, color, ox, oy))
    ensures Occupied(Stamp(b, m, color, ox, oy)) == Occupied(b) + Visible(m, ox, oy)
    ensures Occupied(b) !! Visible(m, ox, oy)
  {
    var s := Stamp(b, m, color, ox, oy);
    StampCoversVisible(b, m, color, ox, oy);
    forall q | q in Occupied(s)
      ensures q in Occupied(b) + Visible(m, ox, oy)
    {
      var (i, j) := q;
      if Filled(m, i - oy, j - ox) {
        assert (i - oy, j - ox) in Cells(m);
      }
    }
  }

  /** Every visible cell of a fitting piece is empty before stamping and occupied after. */
  lemma StampCoversVisible(b: Board, m: Matrix, color: Color, ox: int, oy: int)
    requires IsBoard(b) && Fits(b, m, ox, oy)
    ensures forall q | q in Visible(m, ox, oy) :: q in Occupied(Stamp(b, m, color, ox, oy)) && q !in Occupied(b)
  {
    forall q | q in Visible(m, ox, oy)
      ensures q in Occupied(Stamp(b, m, color, ox, oy)) && q !in Occupied(b)
    {
      var p :| p in Cells(m) && 0 <= oy + p.0 && q == (oy + p.0, ox + p.1);
      assert Filled(m, p.0, p.1);
      assert Free(b, ox + p.1, oy + p.0);
    }
  }

  lemma {:induction false} KeptRowsCount(b: Board)
    ensures |KeptRows(b)| + FullCount(b) == |b|
    ensures forall i :: 0 <= i < |KeptRows(b)| ==> KeptRows(b)[i] in b && !IsFull(KeptRows(b)[i])
  {
    if b != [] {
      KeptRowsCount(b[1..]);
    }
  }

  lemma {:induction false} KeptRowsAppend(a: Board, b: Board)
    ensures KeptRows(a + b) == KeptRows(a) + KeptRows(b)
    ensures FullCount(a + b) == FullCount(a) + FullCount(b)
  {
    if a == [] {
      assert a + b == b;
    } else {
      assert (a + b)[1..] == a[1..] + b;
      KeptRowsAppend(a[1..], b);
    }
  }

  /** Rows none of which is full are all kept. */
  lemma {:induction false} KeptRowsNoneFull(b: Board)
    requires forall i :: 0 <= i < |b| ==> !IsFull(b[i])
    ensures KeptRows(b) == b && FullCount(b) == 0
  {
    if b != [] {
      KeptRowsNoneFull(b[1..]);
    }
  }

  /**
   * Clearing keeps the grid ROWS x COLUMNS, keeps the non-full rows in order
   * beneath FullCount(b) empty rows, and leaves no full row behind.
   */
  lemma ClearedBoard(b: Board)
    requires IsBoard(b)
    ensures IsBoard(Cleared(b))
    ensures Cleared(b)[..FullCount(b)] == EmptyRows(FullCount(b))
    ensures Cleared(b)[FullCount(b)..] == KeptRows(b)
    ensures forall i :: 0 <= i < ROWS ==> !IsFull(Cleared(b)[i])
  {
    KeptRowsCount(b);
    var c := Cleared(b);
    forall i | 0 <= i < ROWS
      ensures |c[i]| == COLUMNS && !IsFull(c[i])
    {
      if i < FullCount(b) {
        assert c[i] == EmptyRow();
        assert c[i][0] == None;
      } else {
        assert c[i] == KeptRows(b)[i - FullCount(b)];
      }
    }
  }

  /** Clearing twice is clearing once: a cleared board has no full row. */
  lemma ClearedIdempotent(b: Board)
    requires IsBoard(b)
    ensures FullCount(Cleared(b)) == 0 && Cleared(Cleared(b)) == Cleared(b)
  {
    ClearedBoard(b);
    KeptRowsNoneFull(Cleared(b));
    assert Cleared(Cleared(b)) == [] + Cleared(b);
  }

  /**
   * With a single full row i, clearing removes that row, shifts the rows above
   * it down by one and puts one empty row on top.
   */
  lemma ClearSingleRow(b: Board, i: int)
    requires IsBoard(b) && 0 <= i < ROWS && IsFull(b[i])
    requires forall j :: 0 <= j < ROWS && j != i ==> !IsFull(b[j])
    ensures FullCount(b) == 1
    ensures Cleared(b) == [EmptyRow()] + b[..i] + b[i + 1..]
  {
    assert b == b[..i] + ([b[i]] + b[i + 1..]);
    KeptRowsAppend(b[..i], [b[i]] + b[i + 1..]);
    KeptRowsAppend([b[i]], b[i + 1..]);
    KeptRowsNoneFull(b[..i]);
    KeptRowsNoneFull(b[i + 1..]);
    assert [b[i]][1..] == [];
    assert KeptRows([b[i]]) == [] && FullCount([b[i]]) == 1;
    assert EmptyRows(1) == [EmptyRow()];
  }

  /** The board simulation (class Game): grid, pieces, score, gravity accumulator, game-over flag. */
  class Game {
    var board: Board
    var score: int
    var current: Tetromino
    var next: Tetromino
    var fallTime: int
    var gameOver: bool

    /**
     * The invariant the methods keep: a ROWS x COLUMNS grid, a score made of
     * whole line bonuses, two distinct pieces with well-formed footprints,
     * the next piece still at its spawn offset, and, while the game runs,
     * an active piece in a valid position.
     */
    ghost predicate Valid()
      reads this, current, next
    {
      && IsBoard(board)
      && score >= 0 && score % LINE_SCORE == 0
      && current != next
      && WellFormed(current.shape)
      && WellFormed(next.shape) && next.x == SpawnX(next.shape) && next.y == 0
      && (!gameOver ==> Fits(board, current.shape, current.x, current.y))
    }

    /** Game.__init__, with the two random shapes passed in. */
    constructor (first: Kind, second: Kind)
      ensures Valid() && fresh(current) && fresh(next)
      ensures board == EmptyBoard() && score == 0 && fallTime == 0 && !gameOver
      ensures SpawnedAs(current, first) && SpawnedAs(next, second)
    {
      board := EmptyBoard();
      score := 0;
      current := new Tetromino(first);
      next := new Tetromino(second);
      fallTime := 0;
      gameOver := false;
      new;
      TemplateIsTetromino(first);
      TemplateIsTetromino(second);
      SpawnFitsEmptyBoard(first);
    }

    /** Game.restart: every field back to its initial value, with fresh pieces. */
    method Restart(first: Kind, second: Kind)
      modifies this
      ensures Valid() && fresh(current) && fresh(next)
      ensures board == EmptyBoard() && score == 0 && fallTime == 0 && !gameOver
      ensures SpawnedAs(current, first) && SpawnedAs(next, second)
    {
      board := EmptyBoard();
      score := 0;
      current := new Tetromino(first);
      next := new Tetromino(second);
      fallTime := 0;
      gameOver := false;
      TemplateIsTetromino(first);
      TemplateIsTetromino(second);
      SpawnFitsEmptyBoard(first);
    }

    /** Game.valid_position: the row-by-row scan that stops at the first blocked cell. */
    method ValidPosition(shape: Matrix, ox: int, oy: int) returns (ok: bool)
      requires IsBoard(board)
      ensures ok <==> Fits(board, shape, ox, oy)
    {
      var r := 0;
      while r < |shape|
        invariant 0 <= r <= |shape|
        invariant forall rr, c | Filled(shape, rr, c) && rr < r :: Free(board, ox + c, oy + rr)
      {
        var c := 0;
        while c < |shape[r]|
          invariant 0 <= c <= |shape[r]|
          invariant forall rr, cc | Filled(shape, rr, cc) && (rr < r || (rr == r && cc < c)) ::
            Free(board, ox + cc, oy + rr)
        {
          if shape[r][c] {
            assert Filled(shape, r, c);
            var nx, ny := ox + c, oy + r;
            if nx < 0 || nx >= COLUMNS || ny >= ROWS {
              return false;
            }
            if ny >= 0 && board[ny][nx] != None {
              return false;
            }
          }
          c := c + 1;
        }
        r := r + 1;
      }
      return true;
    }

    /** The write phase of Game.lock: paint the active piece's visible cells. */
    method PlaceCurrent()
      requires IsBoard(board) && Fits(board, current.shape, current.x, current.y)
      modifies this`board
      ensures board == Stamp(old(board), current.shape, current.color, current.x, current.y)
    {
      ghost var b0 := board;
      var shape, color, ox, oy := current.shape, current.color, current.x, current.y;
      var r := 0;
      while r < |shape|
        invariant 0 <= r <= |shape|
        invariant PaintedUpTo(board, b0, shape, color, ox, oy, r, 0)
      {
        var c := 0;
        while c < |shape[r]|
          invariant 0 <= c <= |shape[r]|
          invariant PaintedUpTo(board, b0, shape, color, ox, oy, r, c)
        {
          PaintNext(board, b0, shape, color, ox, oy, r, c);
          if shape[r][c] {
            var px, py := ox + c, oy + r;
            if py >= 0 {
              board := board[py := board[py][px := Some(color)]];
            }
          }
          c := c + 1;
        }
        r := r + 1;
      }
      var s := Stamp(b0, shape, color, ox, oy);
      forall i | 0 <= i < ROWS
        ensures board[i] == s[i]
      {
        assert |board[i]| == |s[i]| == COLUMNS;
      }
    }

    /** Game.clear_lines: drop the full rows, pad the top with empty rows, score them. */
    method ClearLines()
      requires IsBoard(board)
      modifies this`board, this`score
      ensures board == Cleared(old(board))
      ensures score == old(score) + LINE_SCORE * FullCount(old(board))
    {
      var grid := board;
      KeptRowsCount(grid);
      var newBoard := KeptRows(grid);
      var linesCleared := ROWS - |newBoard|;
      assert linesCleared == FullCount(grid);
      var i := 0;
      while i < linesCleared
        invariant 0 <= i <= linesCleared
        invariant newBoard == EmptyRows(i) + KeptRows(grid)
      {
        assert [EmptyRow()] + EmptyRows(i) == EmptyRows(i + 1);
        newBoard := [EmptyRow()] + newBoard;
        i := i + 1;
      }
      board := newBoard;
      score := score + linesCleared * LINE_SCORE;
    }

    /** The first half of Game.lock: write the active piece into the grid, then clear lines. */
    method Settle()
      requires IsBoard(board) && Fits(board, current.shape, current.x, current.y)
      requires score >= 0 && score % LINE_SCORE == 0
      modifies this`board, this`score
      ensures IsBoard(board) && score >= 0 && score % LINE_SCORE == 0
      ensures board == Cleared(Stamp(old(board), current.shape, current.color, current.x, current.y))
      ensures score == old(score) + LINE_SCORE * FullCount(Stamp(old(board), current.shape, current.color, current.x, current.y))
    {
      PlaceCurrent();
      ClearedBoard(board);
      ClearLines();
    }

    /**
     * Game.lock: write the active piece into the grid, clear lines, promote
     * the next piece (at its spawn offset) and draw a new one of kind `k`;
     * the game is over once the promoted piece does not fit.
     */
    method Lock(k: Kind)
      requires Valid() && !gameOver
      modifies this
      ensures Valid() && fresh(next) && SpawnedAs(next, k)
      ensures current == old(next) && unchanged(current)
      ensures current.x == SpawnX(current.shape) && current.y == 0
      ensures board == Cleared(Stamp(old(board), old(current.shape), old(current.color), old(current.x), old(current.y)))
      ensures score == old(score) + LINE_SCORE * FullCount(Stamp(old(board), old(current.shape), old(current.color), old(current.x), old(current.y)))
      ensures gameOver == !Fits(board, current.shape, SpawnX(current.shape), 0)
      ensures fallTime == old(fallTime)
    {
      Settle();
      current := next;
      next := new Tetromino(k);
      TemplateIsTetromino(k);
      var ok := ValidPosition(current.shape, current.x, current.y);
      if !ok {
        gameOver := true;
      }
    }

    /** Game.move: shift the active piece by dx columns when the shifted position is valid. */
    method Move(dx: int)
      requires Valid()
      modifies current
      ensures Valid()
      ensures current.x == if Fits(board, current.shape, old(current.x) + dx, current.y)
                           then old(current.x) + dx else old(current.x)
      ensures current.y == old(current.y) && current.shape == old(current.shape)
      ensures current.color == old(current.color)
    {
      var ok := ValidPosition(current.shape, current.x + dx, current.y);
      if ok {
        current.x := current.x + dx;
      }
    }

    /** Game.rotate: rotate the active piece in place, reverting when the result does not fit. */
    method Rotate()
      requires Valid()
      modifies current
      ensures Valid()
      ensures current.shape == if Fits(board, Rotated(old(current.shape)), current.x, current.y)
                               then Rotated(old(current.shape)) else old(current.shape)
      ensures current.x == old(current.x) && current.y == old(current.y)
      ensures current.color == old(current.color)
    {
      var oldShape := current.shape;
      RotatedWellFormed(oldShape);
      current.Rotate();
      var ok := ValidPosition(current.shape, current.x, current.y);
      if !ok {
        current.shape := oldShape;
      }
    }

    /**
     * Game.drop: move the active piece down while the next row is valid, then
     * lock it. It stops at the first row below which it would not fit.
     */
    method Drop(k: Kind)
      requires Valid() && !gameOver
      modifies this, current
      ensures Valid() && fresh(next) && SpawnedAs(next, k)
      ensures current == old(next) && current.x == SpawnX(current.shape) && current.y == 0
      ensures old(current).x == old(current.x) && old(current).shape == old(current.shape)
      ensures old(current).y >= old(current.y)
      ensures forall y | old(current.y) <= y <= old(current).y ::
        Fits(old(board), old(current.shape), old(current.x), y)
      ensures !Fits(old(board), old(current.shape), old(current.x), old(current).y + 1)
      ensures board == Cleared(Stamp(old(board), old(current.shape), old(current.color), old(current.x), old(current).y))
      ensures score == old(score) + LINE_SCORE * FullCount(Stamp(old(board), old(current.shape), old(current.color), old(current.x), old(current).y))
      ensures gameOver == !Fits(board, current.shape, SpawnX(current.shape), 0)
      ensures fallTime == old(fallTime)
    {
      FallToRest();
      Lock(k);
    }

    /** The loop of Game.drop: move the active piece down while the row below it is valid. */
    method FallToRest()
      requires IsBoard(board) && WellFormed(current.shape)
      requires Fits(board, current.shape, current.x, current.y)
      modifies current
      ensures current.x == old(current.x) && current.shape == old(current.shape)
      ensures current.color == old(current.color) && current.y >= old(current.y)
      ensures forall y | old(current.y) <= y <= current.y :: Fits(board, current.shape, current.x, y)
      ensures !Fits(board, current.shape, current.x, current.y + 1)
    {
      ghost var y0, grid := current.y, board;
      var shape, x := current.shape, current.x;
      FitsAboveFloor(grid, shape, x, current.y);
      var ok := ValidPosition(shape, x, current.y + 1);
      while ok
        invariant current.x == x && current.shape == shape
        invariant current.color == old(current.color) && y0 <= current.y < ROWS
        invariant forall y | y0 <= y <= current.y :: Fits(grid, shape, x, y)
        invariant ok <==> Fits(grid, shape, x, current.y + 1)
        decreases ROWS - current.y
      {
        ghost var above := current.y;
        current.y := current.y + 1;
        forall y | y0 <= y <= current.y
          ensures Fits(grid, shape, x, y)
        {
          if y <= above {
            assert y0 <= y <= above;
          }
        }
        FitsAboveFloor(grid, shape, x, current.y);
        ok := ValidPosition(shape, x, current.y + 1);
      }
    }

    /**
     * Game.update: add dt to the gravity accumulator; once it exceeds
     * FALL_SPEED, reset it and move the piece down one row, or lock it when
     * the row below is not valid.
     */
    method Update(dt: int, k: Kind)
      requires Valid() && !gameOver
      modifies this, current
      ensures Valid()
      ensures fallTime == if old(fallTime) + dt > FALL_SPEED then 0 else old(fallTime) + dt
      ensures old(fallTime) + dt <= FALL_SPEED ==>
        && current == old(current) && next == old(next) && unchanged(current)
        && board == old(board) && score == old(score) && gameOver == old(gameOver)
      ensures old(fallTime) + dt > FALL_SPEED && Fits(old(board), old(current.shape), old(current.x), old(current.y) + 1) ==>
        && current == old(current) && next == old(next)
        && current.y == old(current.y) + 1 && current.x == old(current.x)
        && current.shape == old(current.shape) && current.color == old(current.color)
        && board == old(board) && score == old(score) && gameOver == old(gameOver)
      ensures old(fallTime) + dt > FALL_SPEED && !Fits(old(board), old(current.shape), old(current.x), old(current.y) + 1) ==>
        && current == old(next) && fresh(next) && SpawnedAs(next, k)
        && current.x == SpawnX(current.shape) && current.y == 0
        && board == Cleared(Stamp(old(board), old(current.shape), old(current.color), old(current.x), old(current.y)))
        && score == old(score) + LINE_SCORE * FullCount(Stamp(old(board), old(current.shape), old(current.color), old(current.x), old(current.y)))
        && gameOver == !Fits(board, current.shape, SpawnX(current.shape), 0)
    {
      fallTime := fallTime + dt;
      if fallTime > FALL_SPEED {
        fallTime := 0;
        var ok := ValidPosition(current.shape, current.x, current.y + 1);
        if ok {
          current.y := current.y + 1;
        } else {
          Lock(k);
        }
      }
    }
  }

  /** A fitting, well-formed piece has a filled cell above the floor, so its row offset is below ROWS. */
  lemma FitsAboveFloor(b: Board, m: Matrix, ox: int, oy: int)
    requires IsBoard(b) && WellFormed(m) && Fits(b, m, ox, oy)
    ensures oy < ROWS
  {
    var p :| p in Cells(m);
    assert Filled(m, p.0, p.1);
  }
}
