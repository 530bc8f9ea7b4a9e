/**
 * The seven piece templates, their colours, the spawn offset and the
 * rotation transform of game.py (class Tetromino).
 */
module Tetrominoes {

  /** Board width (COLUMNS) and height (ROWS). */
  const COLUMNS: int := 10
  const ROWS: int := 20

  /** The keys of TETROMINOES / COLORS. */
  datatype Kind = I | J | L | O | S | T | Z

  /** An RGB triple, as in COLORS. */
  datatype Color = Rgb(r: int, g: int, b: int)

  /** A piece footprint: rows of cells, `true` where the template holds 1. */
  type Matrix = seq<seq<bool>>

  /** The rotation-0 footprint of each kind (TETROMINOES). */
  function Template(k: Kind): Matrix
  {
    match k
    case I => [[true, true, true, true]]
    case J => [[true, false, false],
               [true, true, true]]
    case L => [[false, false, true],
               [true, true, true]]
    case O => [[true, true],
               [true, true]]
    case S => [[false, true, true],
               [true, true, false]]
    case T => [[false, true, false],
               [true, true, true]]
    case Z => [[true, true, false],
               [false, true, true]]
  }

  /** The colour of each kind (COLORS). */
  function ColorOf(k: Kind): Color
  {
    match k
    case I => Rgb(0, 255, 255)
    case J => Rgb(0, 0, 255)
    case L => Rgb(255, 165, 0)
    case O => Rgb(255, 255, 0)
    case S => Rgb(0, 255, 0)
    case T => Rgb(160, 32, 240)
    case Z => Rgb(255, 0, 0)
  }

  /** Cell (r, c) exists in `m` and is filled. */
  predicate Filled(m: Matrix, r: int, c: int)
  {
    0 <= r < |m| && 0 <= c < |m[r]| && m[r][c]
  }

  /** The coordinates (row, column) of the filled cells of `m`. */
  function Cells(m: Matrix): set<(int, int)>
  {
    set r, c | 0 <= r < |m| && 0 <= c < |m[r]| && m[r][c] :: (r, c)
  }

  /** `m` has `h` rows of exactly `w` cells each. */
  predicate Rect(m: Matrix, h: int, w: int)
  {
    |m| == h && forall r :: 0 <= r < |m| ==> |m[r]| == w
  }

  /** A footprint a piece can have: a non-empty rectangle with a filled cell. */
  predicate WellFormed(m: Matrix)
  {
    |m| > 0 && |m[0]| > 0 && Rect(m, |m|, |m[0]|) && Cells(m) != {}
  }

  /** The column at which a piece with footprint `m` spawns (Tetromino.__init__). */
  function SpawnX(m: Matrix): int
    requires |m| > 0
  {
    COLUMNS / 2 - |m[0]| / 2
  }

  /**
   * The number of tuples `zip(*m)` produces: the length of the shortest row,
   * and 0 when there are no rows.
   */
  function ZipLength(m: Matrix): (w: nat)
    ensures forall r :: 0 <= r < |m| ==> w <= |m[r]|
    ensures |m| > 0 ==> exists r :: 0 <= r < |m| && w == |m[r]|
    ensures |m| == 0 ==> w == 0
  {
    if |m| == 0 then 0
    else if |m| == 1 then |m[0]|
    else
      var rest := ZipLength(m[1..]);
      assert forall r :: 1 <= r < |m| ==> m[r] == m[1..][r - 1];
      if |m[0]| < rest then |m[0]| else rest
  }

  /**
   * `[list(row) for row in zip(*m[::-1])]`: row i of the result is column i
   * of `m` read from the bottom row up.
   */
  function Rotated(m: Matrix): (r: Matrix)
    ensures |r| == ZipLength(m)
    ensures forall i :: 0 <= i < |r| ==> |r[i]| == |m|
  {
    var h, w := |m|, ZipLength(m);
    seq(w, i requires 0 <= i < w =>
      seq(h, j requires 0 <= j < h => m[h - 1 - j][i]))
  }

  /** Rotating twice turns the footprint upside down and mirrors it. */
  function HalfTurned(m: Matrix, h: nat, w: nat): Matrix
    requires Rect(m, h, w)
  {
    seq(h, i requires 0 <= i < h =>
      seq(w, j requires 0 <= j < w => m[h - 1 - i][w - 1 - j]))
  }

  /** Where the filled cell (r, c) of an h-row footprint lands after one rotation. */
  function Turn(p: (int, int), h: int): (int, int)
  {
    (p.1, h - 1 - p.0)
  }

  function TurnSet(s: set<(int, int)>, h: int): set<(int, int)>
  {
    set p | p in s :: Turn(p, h)
  }

  /** An h x w rectangle with h > 0 rotates into a w x h rectangle. */
  lemma RotatedShape(m: Matrix, h: nat, w: nat)
    requires Rect(m, h, w) && h > 0
    ensures Rect(Rotated(m), w, h)
    ensures forall i, j :: 0 <= i < w && 0 <= j < h ==> Rotated(m)[i][j] == m[h - 1 - j][i]
  {
    assert ZipLength(m) == w;
  }

  /** Two rotations of a non-degenerate rectangle are a half turn. */
  lemma RotatedTwice(m: Matrix, h: nat, w: nat)
    requires Rect(m, h, w) && h > 0 && w > 0
    ensures Rotated(Rotated(m)) == HalfTurned(m, h, w)
  {
    RotatedShape(m, h, w);
    var r := Rotated(m);
    RotatedShape(r, w, h);
    var rr := Rotated(r);
    assert |rr| == h;
    forall i | 0 <= i < h
      ensures rr[i] == HalfTurned(m, h, w)[i]
    {
      assert |rr[i]| == w;
      forall j | 0 <= j < w
        ensures rr[i][j] == m[h - 1 - i][w - 1 - j]
      {
        assert rr[i][j] == r[w - 1 - j][i];
      }
    }
  }

  /** Four rotations give back every non-degenerate rectangular footprint. */
  lemma RotatedFourTimes(m: Matrix, h: nat, w: nat)
    requires Rect(m, h, w) && h > 0 && w > 0
    ensures Rotated(Rotated(Rotated(Rotated(m)))) == m
  {
    RotatedTwice(m, h, w);
    HalfTurnedTwice(m, h, w);
    RotatedTwice(HalfTurned(m, h, w), h, w);
  }

  /** A half turn undoes itself. */
  lemma HalfTurnedTwice(m: Matrix, h: nat, w: nat)
    requires Rect(m, h, w)
    ensures Rect(HalfTurned(m, h, w), h, w) && HalfTurned(HalfTurned(m, h, w), h, w) == m
  {
    var half := HalfTurned(m, h, w);
    assert Rect(half, h, w);
    forall i | 0 <= i < h
      ensures HalfTurned(half, h, w)[i] == m[i]
    {
      assert |m[i]| == w;
    }
  }

  /** A rotation only moves filled cells: it neither adds nor loses any. */
  lemma RotatedCells(m: Matrix, h: nat, w: nat)
    requires Rect(m, h, w) && h > 0
    ensures Cells(Rotated(m)) == TurnSet(Cells(m), h)
    ensures |Cells(Rotated(m))| == |Cells(m)|
  {
    RotatedShape(m, h, w);
    var r := Rotated(m);
    forall p | p in Cells(r)
      ensures p in TurnSet(Cells(m), h)
    {
      var q := (h - 1 - p.1, p.0);
      assert q in Cells(m);
      assert Turn(q, h) == p;
    }
    forall q | q in Cells(m)
      ensures Turn(q, h) in Cells(r)
    {
      assert r[q.1][h - 1 - q.0] == m[q.0][q.1];
    }
    TurnSetSize(Cells(m), h);
  }

  /** `Turn` is injective, so it preserves the size of a set of cells. */
  lemma {:induction false} TurnSetSize(s: set<(int, int)>, h: int)
    ensures |TurnSet(s, h)| == |s|
    decreases |s|
  {
    if s == {} {
      assert TurnSet(s, h) == {};
    } else {
      var p :| p in s;
      var rest := s - {p};
      TurnSetSize(rest, h);
      assert TurnSet(s, h) == TurnSet(rest, h) + {Turn(p, h)};
      assert forall q | q in rest :: Turn(q, h) != Turn(p, h);
    }
  }

  /** The footprint of every piece stays well formed under rotation. */
  lemma RotatedWellFormed(m: Matrix)
    requires WellFormed(m)
    ensures WellFormed(Rotated(m))
  {
    var h, w := |m|, |m[0]|;
    RotatedShape(m, h, w);
    RotatedCells(m, h, w);
  }

  /** Every template is a well-formed four-cell footprint. */
  lemma TemplateIsTetromino(k: Kind)
    ensures WellFormed(Template(k)) && |Cells(Template(k))| == 4
  {
    var m := Template(k);
    match k {
      case I => Tetromino4(m, {(0, 0), (0, 1), (0, 2), (0, 3)});
      case J => Tetromino4(m, {(0, 0), (1, 0), (1, 1), (1, 2)});
      case L => Tetromino4(m, {(0, 2), (1, 0), (1, 1), (1, 2)});
      case O => Tetromino4(m, {(0, 0), (0, 1), (1, 0), (1, 1)});
      case S => Tetromino4(m, {(0, 1), (0, 2), (1, 0), (1, 1)});
      case T => Tetromino4(m, {(0, 1), (1, 0), (1, 1), (1, 2)});
      case Z => Tetromino4(m, {(0, 0), (0, 1), (1, 1), (1, 2)});
    }
  }

  /** A rectangular footprint whose filled cells are exactly four listed ones. */
  lemma Tetromino4(m: Matrix, cells: set<(int, int)>)
    requires |m| > 0 && |m[0]| > 0 && Rect(m, |m|, |m[0]|)
    requires |cells| == 4
    requires forall p | p in cells :: Filled(m, p.0, p.1)
    requires forall r, c | Filled(m, r, c) :: (r, c) in cells
    ensures WellFormed(m) && |Cells(m)| == 4
  {
    assert Cells(m) == cells;
  }

  /** The piece `t` was just created from kind `k` and has not moved or turned. */
  predicate SpawnedAs(t: Tetromino, k: Kind)
    reads t
  {
    t.shape == Template(k) && t.color == ColorOf(k) && t.x == SpawnX(Template(k)) && t.y == 0
  }

  /** An active piece (class Tetromino): current footprint, colour and offset. */
  class Tetromino {
    var shape: Matrix
    var color: Color
    var x: int
    var y: int

    /** Tetromino.__init__: the template of `k`, centred horizontally, at the top. */
    constructor (k: Kind)
      ensures SpawnedAs(this, k)
    {
      shape := Template(k);
      color := ColorOf(k);
      x := SpawnX(Template(k));
      y := 0;
    }

    /** Tetromino.rotate: replaces the footprint by its rotation; nothing else moves. */
    method Rotate()
      modifies this
      ensures shape == Rotated(old(shape))
      ensures color == old(color) && x == old(x) && y == old(y)
    {
      shape := Rotated(shape);
    }
  }
}
