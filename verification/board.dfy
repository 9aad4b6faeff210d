/** The settled-block grid of tetris4k.py: its fixed dimensions, the
collision test `check_collision`, and the writing of a locked piece into the
grid (the first half of `update`'s lock branch).
 */
module Board {
  import opened Pieces

  const Width: nat := 10
  const Height: nat := 20

  type Row = seq<bool>
  type Grid = seq<Row>

  /** The grid has `grid_height` rows of `grid_width` cells. */
  predicate WellFormed(g: Grid)
  {
    Rect(g, Height, Width)
  }

  /** A row of `grid_width` empty cells. */
  function EmptyRow(): (row: Row)
    ensures |row| == Width
    ensures forall c :: 0 <= c < |row| ==> !row[c]
  {
    seq(Width, _ => false)
  }

  /** The grid the game starts with. */
  function EmptyGrid(): (g: Grid)
    ensures WellFormed(g)
    ensures forall r, c :: 0 <= r < Height && 0 <= c < Width ==> !g[r][c]
    ensures NoFullRow(g)
  {
    var g := seq(Height, _ => EmptyRow());
    assert forall r :: 0 <= r < Height ==> !g[r][0];
    g
  }

  /** `all(row)`: every cell of the row is occupied. */
  predicate IsFull(row: Row)
  {
    forall c :: 0 <= c < |row| ==> row[c]
  }

  predicate NoFullRow(g: Grid)
  {
    forall r :: 0 <= r < |g| ==> !IsFull(g[r])
  }

  /** Occupied cell (i, j) of the shape, placed with its bounding box at
      column x and row y, lies off the left or right edge, at or below the
      bottom row, or on a settled cell. There is no test against the top
      edge: rows are never negative here. */
  predicate CellHits(g: Grid, shape: Mask, x: int, y: nat, i: int, j: int)
    requires WellFormed(g)
  {
    Occupied(shape, i, j) &&
    (x + j < 0 || x + j >= Width || y + i >= Height || g[y + i][x + j])
  }

  /** The collision relation: some occupied cell of the shape hits. */
  predicate Hits(g: Grid, shape: Mask, x: int, y: nat)
    requires WellFormed(g)
  {
    exists i, j | 0 <= i < |shape| && 0 <= j < |shape[i]| :: CellHits(g, shape, x, y, i, j)
  }

  /** Every occupied cell of the shape at (x, y) lies on the board. */
  predicate Fits(shape: Mask, x: int, y: nat)
  {
    forall i, j | 0 <= i < |shape| && 0 <= j < |shape[i]| ::
      Occupied(shape, i, j) ==> 0 <= x + j < Width && y + i < Height
  }

  /** `check_collision`: scans the shape row by row, cell by cell, and
      stops at the first occupied cell that hits. */
  method CheckCollision(g: Grid, shape: Mask, x: int, y: nat) returns (hit: bool)
    requires WellFormed(g)
    ensures hit == Hits(g, shape, x, y)
  {
    var i := 0;
    while i < |shape|
      invariant 0 <= i <= |shape|
      invariant forall i', j' :: 0 <= i' < i ==> !CellHits(g, shape, x, y, i', j')
    {
      var row := shape[i];
      var j := 0;
      while j < |row|
        invariant 0 <= j <= |row|
        invariant forall i', j' :: 0 <= i' < i ==> !CellHits(g, shape, x, y, i', j')
        invariant forall j' :: 0 <= j' < j ==> !CellHits(g, shape, x, y, i, j')
      {
        if row[j] && (x + j < 0 || x + j >= Width || y + i >= Height || g[y + i][x + j]) {
          assert CellHits(g, shape, x, y, i, j);
          return true;
        }
        j := j + 1;
      }
      i := i + 1;
    }
    assert forall i', j' :: !CellHits(g, shape, x, y, i', j');
    return false;
  }

  /** A shape that does not collide at (x, y) lies entirely on the board. */
  lemma NoHitFits(g: Grid, shape: Mask, x: int, y: nat)
    requires WellFormed(g)
    ensures !Hits(g, shape, x, y) ==> Fits(shape, x, y)
  {
    if !Hits(g, shape, x, y) {
      forall i, j | Occupied(shape, i, j)
        ensures 0 <= x + j < Width && y + i < Height
      {
        assert !CellHits(g, shape, x, y, i, j);
      }
    }
  }

  /** A shape lying on the board collides exactly when it overlaps a
      settled cell; in particular, off the edges or past the bottom row it
      always collides. */
  lemma HitsOnBoard(g: Grid, shape: Mask, x: int, y: nat)
    requires WellFormed(g)
    ensures Fits(shape, x, y) ==>
      (Hits(g, shape, x, y) <==> exists i, j :: Occupied(shape, i, j) && g[y + i][x + j])
    ensures !Fits(shape, x, y) ==> Hits(g, shape, x, y)
  {
    if !Fits(shape, x, y) {
      var i, j :| Occupied(shape, i, j) && !(0 <= x + j < Width && y + i < Height);
      assert CellHits(g, shape, x, y, i, j);
    } else if exists i, j :: Occupied(shape, i, j) && g[y + i][x + j] {
      var i, j :| Occupied(shape, i, j) && g[y + i][x + j];
      assert CellHits(g, shape, x, y, i, j);
    }
  }

  /** The grid with every occupied cell of the shape at (x, y) set. */
  function Stamp(g: Grid, shape: Mask, x: int, y: nat): (r: Grid)
    requires WellFormed(g) && Fits(shape, x, y)
    ensures WellFormed(r)
  {
    seq(Height, row requires 0 <= row < Height =>
      seq(Width, col requires 0 <= col < Width => g[row][col] || Occupied(shape, row - y, col - x)))
  }

  /** Stamping sets exactly the cells the piece covers and leaves every
      other cell as it was. */
  lemma StampCells(g: Grid, shape: Mask, x: int, y: nat)
    requires WellFormed(g) && Fits(shape, x, y)
    ensures forall i, j :: Occupied(shape, i, j) ==> Stamp(g, shape, x, y)[y + i][x + j]
    ensures forall row, col :: 0 <= row < Height && 0 <= col < Width && !Occupied(shape, row - y, col - x) ==>
      Stamp(g, shape, x, y)[row][col] == g[row][col]
    ensures forall row :: 0 <= row < Height && !(y <= row < y + |shape|) ==>
      Stamp(g, shape, x, y)[row] == g[row]
  {
    var r := Stamp(g, shape, x, y);
    forall row | 0 <= row < Height && !(y <= row < y + |shape|)
      ensures r[row] == g[row]
    {
      assert forall col :: 0 <= col < Width ==> r[row][col] == g[row][col];
    }
    forall i, j | Occupied(shape, i, j)
      ensures r[y + i][x + j]
    {
      assert Occupied(shape, (y + i) - y, (x + j) - x);
    }
  }

  /** Cell (i, j) comes before cell (i', j') in the row-by-row scan. */
  predicate Before(i: int, j: int, i': int, j': int)
  {
    i < i' || (i == i' && j < j')
  }

  /** The lock loop of `update`: for each occupied cell of the shape, in
      scan order, set the grid cell it covers. */
  method LockCells(g: Grid, shape: Mask, x: int, y: nat) returns (r: Grid)
    requires WellFormed(g) && Fits(shape, x, y)
    ensures WellFormed(r)
    ensures forall i, j :: Occupied(shape, i, j) ==> r[y + i][x + j]
    ensures forall row, col :: 0 <= row < Height && 0 <= col < Width && !Occupied(shape, row - y, col - x) ==>
      r[row][col] == g[row][col]
    ensures r == Stamp(g, shape, x, y)
  {
    r := g;
    var i := 0;
    while i < |shape|
      invariant 0 <= i <= |shape|
      invariant WellFormed(r)
      invariant forall row, col :: 0 <= row < Height && 0 <= col < Width ==>
        r[row][col] == (g[row][col] || (Occupied(shape, row - y, col - x) && row - y < i))
    {
      var j := 0;
      while j < |shape[i]|
        invariant 0 <= j <= |shape[i]|
        invariant WellFormed(r)
        invariant forall row, col :: 0 <= row < Height && 0 <= col < Width ==>
          r[row][col] == (g[row][col] || (Occupied(shape, row - y, col - x) && Before(row - y, col - x, i, j)))
      {
        if shape[i][j] {
          assert Occupied(shape, i, j);
          r := r[y + i := r[y + i][x + j := true]];
        }
        j := j + 1;
      }
      i := i + 1;
    }
    var s := Stamp(g, shape, x, y);
    forall row | 0 <= row < Height
      ensures r[row] == s[row]
    {
      assert forall col :: 0 <= col < Width ==> r[row][col] == s[row][col];
    }
  }
}
