/** The seven piece masks of tetris4k.py and the rotation applied to them.

A mask is a rectangular 0/1 matrix, modelled here as rows of booleans.
A piece is a catalog entry plus a rotation count; its current shape is the
catalog mask turned that many times by "reverse the rows, then transpose".
 */
module Pieces {

  type Mask = seq<seq<bool>>

  /** The keys of the `pieces` dictionary. */
  datatype Kind = I | J | L | O | S | T | Z

  /** The active piece: its catalog key and how many quarter turns to apply.
      The source also stores the mask itself, which is always the catalog
      entry of the key, so it is not repeated here. */
  datatype Piece = Piece(kind: Kind, rotation: nat)

  /** The canonical (rotation 0) mask of each piece: a rectangle of one or
      two rows and two to four columns. */
  function Catalog(k: Kind): (m: Mask)
    ensures 1 <= |m| <= 2
    ensures 2 <= |m[0]| <= 4
    ensures Rect(m, |m|, |m[0]|)
  {
    match k
    case I => [[true, true, true, true]]
    case J => [[true, false, false], [true, true, true]]
    case L => [[false, false, true], [true, true, true]]
    case O => [[true, true], [true, true]]
    case S => [[false, true, true], [true, true, false]]
    case T => [[false, true, false], [true, true, true]]
    case Z => [[true, true, false], [false, true, true]]
  }

  /** Cell (i, j) of m exists and is set. */
  predicate Occupied(m: Mask, i: int, j: int)
  {
    0 <= i < |m| && 0 <= j < |m[i]| && m[i][j]
  }

  /** m has exactly `rows` rows, each of exactly `cols` cells. */
  predicate Rect(m: seq<seq<bool>>, rows: nat, cols: nat)
  {
    |m| == rows && forall i :: 0 <= i < |m| ==> |m[i]| == cols
  }

  /** The set of occupied cells, as (row, column) pairs. */
  ghost function Cells(m: Mask): set<(int, int)>
  {
    set i, j | 0 <= i < |m| && 0 <= j < |m[i]| && m[i][j] :: (i, j)
  }

  /** The number of tuples `zip` yields for the rows of m: the length of
      the shortest row (`ZipWidthIsMin`), and none at all when there are no
      rows. */
  function ZipWidth(m: Mask): (w: nat)
    ensures |m| == 0 ==> w == 0
    ensures |m| > 0 ==> w <= |m[0]|
    decreases |m|
  {
    if |m| == 0 then 0
    else if |m| == 1 then |m[0]|
    else
      var rest := ZipWidth(m[1..]);
      if |m[0]| <= rest then |m[0]| else rest
  }

  /** `ZipWidth` is the length of the shortest row: no row is shorter, and
      some row has exactly that length. */
  lemma {:induction false} ZipWidthIsMin(m: Mask)
    ensures forall i :: 0 <= i < |m| ==> ZipWidth(m) <= |m[i]|
    ensures |m| > 0 ==> exists i :: 0 <= i < |m| && ZipWidth(m) == |m[i]|
    decreases |m|
  {
    if |m| > 1 {
      ZipWidthIsMin(m[1..]);
      assert forall i :: 1 <= i < |m| ==> m[i] == m[1..][i - 1];
      var i :| 0 <= i < |m| - 1 && ZipWidth(m[1..]) == |m[1..][i]|;
      assert ZipWidth(m[1..]) == |m[i + 1]|;
    }
  }

  /** One step of `zip(*shape[::-1])`: row i of the result is column i of
      the mask read from the bottom row upwards. */
  function Turn(m: Mask): (r: Mask)
    ensures |r| == ZipWidth(m)
    ensures forall i :: 0 <= i < |r| ==> |r[i]| == |m|
  {
    ZipWidthIsMin(m);
    seq(ZipWidth(m), i requires 0 <= i < ZipWidth(m) =>
      seq(|m|, j requires 0 <= j < |m| => m[|m| - 1 - j][i]))
  }

  /** The mask after n turns, as the `for _ in range(rotation)` loop
      produces it. */
  function TurnN(m: Mask, n: nat): Mask
    decreases n
  {
    if n == 0 then m else TurnN(Turn(m), n - 1)
  }

  /** `rotate_piece`: advance the rotation count modulo 4. */
  function RotatePiece(p: Piece): (r: Piece)
    ensures r.kind == p.kind
    ensures r.rotation < 4
    ensures p.rotation < 3 ==> r.rotation == p.rotation + 1
    ensures p.rotation == 3 ==> r.rotation == 0
  {
    p.(rotation := (p.rotation + 1) % 4)
  }

  /** `get_piece_shape`: the catalog mask turned `rotation` times. Four
      turns give the mask back, so only the rotation modulo 4 matters. */
  function Shape(p: Piece): (r: Mask)
    ensures r == TurnN(Catalog(p.kind), p.rotation % 4)
  {
    var m := Catalog(p.kind);
    TurnNMod(m, |m|, |m[0]|, p.rotation);
    TurnN(m, p.rotation)
  }

  /** `get_random_piece` once the key has been chosen: rotation 0. */
  function Spawn(k: Kind): (p: Piece)
    ensures p.kind == k && p.rotation == 0
    ensures Shape(p) == Catalog(k)
  {
    Piece(k, 0)
  }

  // ---------------------------------------------------------------------
  // Properties of the catalog

  /** Every catalog mask has exactly four occupied cells. */
  lemma CatalogFourCells(k: Kind)
    ensures |Cells(Catalog(k))| == 4
  {
    if k == I || k == J || k == L || k == O {
      FirstFourCells(k);
    } else {
      LastThreeCells(k);
    }
  }

  /** The occupied cells of the I, J, L and O masks. */
  lemma FirstFourCells(k: Kind)
    requires k == I || k == J || k == L || k == O
    ensures |Cells(Catalog(k))| == 4
  {
    var m := Catalog(k);
    match k
    case I => assert Cells(m) == {(0, 0), (0, 1), (0, 2), (0, 3)};
    case J => assert Cells(m) == {(0, 0), (1, 0), (1, 1), (1, 2)};
    case L => assert Cells(m) == {(0, 2), (1, 0), (1, 1), (1, 2)};
    case O => assert Cells(m) == {(0, 0), (0, 1), (1, 0), (1, 1)};
  }

  /** The occupied cells of the S, T and Z masks. */
  lemma LastThreeCells(k: Kind)
    requires k == S || k == T || k == Z
    ensures |Cells(Catalog(k))| == 4
  {
    var m := Catalog(k);
    match k
    case S => assert Cells(m) == {(0, 1), (0, 2), (1, 0), (1, 1)};
    case T => assert Cells(m) == {(0, 1), (1, 0), (1, 1), (1, 2)};
    case Z => assert Cells(m) == {(0, 0), (0, 1), (1, 1), (1, 2)};
  }

  // ---------------------------------------------------------------------
  // Properties of one turn

  /** One turn maps an R x C mask to a C x R mask whose cell (i, j) is
      cell (R-1-j, i) of the input. */
  lemma TurnRect(m: Mask, rows: nat, cols: nat)
    requires Rect(m, rows, cols) && rows > 0
    ensures Rect(Turn(m), cols, rows)
    ensures forall i, j :: 0 <= i < cols && 0 <= j < rows ==>
      Turn(m)[i][j] == m[rows - 1 - j][i]
  {
    ZipWidthIsMin(m);
  }

  /** Four turns of a non-degenerate rectangle give back the rectangle. */
  lemma TurnFour(m: Mask, rows: nat, cols: nat)
    requires Rect(m, rows, cols) && rows > 0 && cols > 0
    ensures Turn(Turn(Turn(Turn(m)))) == m
  {
    var m1 := Turn(m);
    TurnRect(m, rows, cols);
    var m2 := Turn(m1);
    TurnRect(m1, cols, rows);
    var m3 := Turn(m2);
    TurnRect(m2, rows, cols);
    var m4 := Turn(m3);
    TurnRect(m3, cols, rows);
    forall i | 0 <= i < rows
      ensures m4[i] == m[i]
    {
      forall j | 0 <= j < cols
        ensures m4[i][j] == m[i][j]
      {
        calc {
          m4[i][j];
          m3[cols - 1 - j][i];
          m2[rows - 1 - i][cols - 1 - j];
          m1[j][rows - 1 - i];
          m[i][j];
        }
      }
    }
  }

  /** n turns of an R x C mask give an R x C mask for even n and a C x R
      mask for odd n. */
  lemma {:induction false} TurnNRect(m: Mask, rows: nat, cols: nat, n: nat)
    requires Rect(m, rows, cols) && rows > 0 && cols > 0
    ensures n % 2 == 0 ==> Rect(TurnN(m, n), rows, cols)
    ensures n % 2 == 1 ==> Rect(TurnN(m, n), cols, rows)
    decreases n
  {
    if n > 0 {
      TurnRect(m, rows, cols);
      TurnNRect(Turn(m), cols, rows, n - 1);
    }
  }

  /** The shape of a piece depends on its rotation count only modulo 4. */
  lemma TurnNPeriod(m: Mask, rows: nat, cols: nat, n: nat)
    requires Rect(m, rows, cols) && rows > 0 && cols > 0
    ensures TurnN(m, n + 4) == TurnN(m, n)
  {
    TurnFour(m, rows, cols);
    var t := Turn(m);
    assert TurnN(m, n + 4) == TurnN(t, n + 3);
    assert TurnN(t, n + 3) == TurnN(Turn(t), n + 2);
    assert TurnN(Turn(t), n + 2) == TurnN(Turn(Turn(t)), n + 1);
    assert TurnN(Turn(Turn(t)), n + 1) == TurnN(Turn(Turn(Turn(t))), n);
  }

  /** The image of a set of cells under the map (i, j) |-> (j, R-1-i) that
      one turn applies to positions. */
  ghost function TurnedCells(a: set<(int, int)>, rows: int): set<(int, int)>
  {
    set p | p in a :: (p.1, rows - 1 - p.0)
  }

  /** That map is injective, so it keeps the number of cells. */
  lemma {:induction false} TurnedCellsSize(a: set<(int, int)>, rows: int)
    ensures |TurnedCells(a, rows)| == |a|
    decreases |a|
  {
    if a != {} {
      var p :| p in a;
      var rest := a - {p};
      TurnedCellsSize(rest, rows);
      assert TurnedCells(a, rows) == TurnedCells(rest, rows) + {(p.1, rows - 1 - p.0)};
      assert (p.1, rows - 1 - p.0) !in TurnedCells(rest, rows);
    }
  }

  /** One turn keeps the number of occupied cells. */
  lemma TurnKeepsCellCount(m: Mask, rows: nat, cols: nat)
    requires Rect(m, rows, cols) && rows > 0
    ensures |Cells(Turn(m))| == |Cells(m)|
  {
    TurnRect(m, rows, cols);
    var t := Turn(m);
    forall q | q in Cells(t)
      ensures q in TurnedCells(Cells(m), rows)
    {
      var i, j := q.0, q.1;
      assert (rows - 1 - j, i) in Cells(m);
    }
    forall q | q in TurnedCells(Cells(m), rows)
      ensures q in Cells(t)
    {
      var p :| p in Cells(m) && q == (p.1, rows - 1 - p.0);
      assert t[p.1][rows - 1 - p.0] == m[p.0][p.1];
    }
    assert Cells(t) == TurnedCells(Cells(m), rows);
    TurnedCellsSize(Cells(m), rows);
  }

  // ---------------------------------------------------------------------
  // Properties of pieces

  /** Four calls of `rotate_piece` give back the rotation count reduced
      modulo 4; in particular, the three extra calls after a first one
      restore any count in 0..3. */
  lemma RotateFourTimes(p: Piece)
    ensures RotatePiece(RotatePiece(RotatePiece(RotatePiece(p)))) == p.(rotation := p.rotation % 4)
  {
  }

  /** Pass n of the `for _ in range(rotation)` loop turns the mask that the
      first n - 1 passes produced. */
  lemma {:induction false} TurnNLast(m: Mask, n: nat)
    requires n > 0
    ensures TurnN(m, n) == Turn(TurnN(m, n - 1))
    decreases n
  {
    if n > 1 {
      TurnNLast(Turn(m), n - 1);
    }
  }

  /** n turns of a non-degenerate rectangle keep its number of occupied
      cells. */
  lemma {:induction false} TurnNKeepsCellCount(m: Mask, rows: nat, cols: nat, n: nat)
    requires Rect(m, rows, cols) && rows > 0 && cols > 0
    ensures |Cells(TurnN(m, n))| == |Cells(m)|
    decreases n
  {
    if n > 0 {
      TurnKeepsCellCount(m, rows, cols);
      TurnRect(m, rows, cols);
      TurnNKeepsCellCount(Turn(m), cols, rows, n - 1);
    }
  }

  /** The shape of every piece, in every rotation, is a rectangle of at
      most 4 x 4 cells with at least one row. */
  lemma ShapeBounded(p: Piece)
    ensures 1 <= |Shape(p)| <= 4
    ensures forall i :: 0 <= i < |Shape(p)| ==> 1 <= |Shape(p)[i]| <= 4
  {
    var m := Catalog(p.kind);
    TurnNRect(m, |m|, |m[0]|, p.rotation);
  }

  /** Every piece, in every rotation, covers exactly four cells. */
  lemma ShapeFourCells(p: Piece)
    ensures |Cells(Shape(p))| == 4
  {
    var m := Catalog(p.kind);
    CatalogFourCells(p.kind);
    TurnNKeepsCellCount(m, |m|, |m[0]|, p.rotation);
  }

  /** Turning a non-degenerate rectangle n times is the same as turning it
      n mod 4 times. */
  lemma {:induction false} TurnNMod(m: Mask, rows: nat, cols: nat, n: nat)
    requires Rect(m, rows, cols) && rows > 0 && cols > 0
    ensures TurnN(m, n % 4) == TurnN(m, n)
    decreases n
  {
    if n >= 4 {
      TurnNPeriod(m, rows, cols, n - 4);
      TurnNMod(m, rows, cols, n - 4);
      assert (n - 4) % 4 == n % 4;
    }
  }
}
