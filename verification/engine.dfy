/** The game state of the `Tetris` class in tetris4k.py and the transitions
that change it: the gravity tick `update`, and the three player moves the
main loop applies after checking for a collision (left, right, rotate).

The piece type that `random.choice` would pick is a parameter of every
transition that spawns a piece. The wall-clock drop timer is not modelled:
a tick is an explicit `Tick` intent.

Two engines are modelled. `Update` and `Run` clear full rows as the source
evidently intends (`ClearRows`); `UpdateAsWritten` and `RunAsWritten` use the
source's removal loop as written (`ClearRowsAsWritten`), which can leave a
full row behind.
 */
module Engine {
  import opened Pieces
  import opened Board
  import opened LineClear

  /** All fields of a `Tetris` object that the game logic reads or writes.
      `drop_speed` is only read by the timer and is not kept. */
  datatype Game = Game(
    grid: Grid,
    piece: Piece,
    x: int,
    y: nat,
    score: nat,
    level: nat,
    lines: nat)

  /** `grid_width // 2`: the column a new piece appears at. */
  const SpawnX: int := Width / 2

  /** What holds in every reachable state, whichever way full rows are
      removed: a full-size grid, a rotation count in 0..3, the active piece
      entirely on the board, and the level derived from the lines cleared. */
  predicate OnBoard(g: Game)
  {
    && WellFormed(g.grid)
    && g.piece.rotation < 4
    && Fits(Shape(g.piece), g.x, g.y)
    && g.level == g.lines / 10
  }

  /** What holds in every reachable state of the engine with the corrected
      row removal: in addition, no row of the grid is full. */
  predicate Valid(g: Game)
  {
    OnBoard(g) && NoFullRow(g.grid)
  }

  /** A new piece of any kind fits the board at the spawn anchor. */
  lemma SpawnFits(k: Kind)
    ensures Fits(Shape(Spawn(k)), SpawnX, 0)
  {
  }

  /** `Tetris.__init__`, with the first piece type supplied. */
  function Init(first: Kind): (g: Game)
    ensures Valid(g)
    ensures g.piece == Spawn(first) && g.x == SpawnX && g.y == 0
    ensures g.score == 0 && g.lines == 0 && g.level == 0
    ensures forall r, c :: 0 <= r < Height && 0 <= c < Width ==> !g.grid[r][c]
  {
    SpawnFits(first);
    Game(EmptyGrid(), Spawn(first), SpawnX, 0, 0, 0, 0)
  }

  /** `clear_lines`: removes the full rows (as intended, see `ClearRows`),
      counts them, awards points for them and derives the level. */
  function ClearLines(g: Game): (r: Game)
    requires WellFormed(g.grid)
    ensures WellFormed(r.grid) && NoFullRow(r.grid)
    ensures r.grid == Blanks(|FullRows(g.grid)|) + Kept(g.grid)
    ensures r.lines == g.lines + |FullRows(g.grid)|
    ensures r.level == r.lines / 10
    ensures |FullRows(g.grid)| == 0 ==> r.grid == g.grid && r.score == g.score
    ensures |FullRows(g.grid)| == 1 ==> r.score == g.score + 100
    ensures |FullRows(g.grid)| == 2 ==> r.score == g.score + 300
    ensures |FullRows(g.grid)| == 3 ==> r.score == g.score + 500
    ensures |FullRows(g.grid)| == 4 ==> r.score == g.score + 800
    ensures |FullRows(g.grid)| > 4 ==> r.score == g.score
    ensures r.piece == g.piece && r.x == g.x && r.y == g.y
  {
    var k := |FullRows(g.grid)|;
    g.(grid := ClearRows(g.grid),
       lines := g.lines + k,
       score := g.score + ScoreFor(k),
       level := (g.lines + k) / 10)
  }

  /** `clear_lines` exactly as written: the same bookkeeping, with the
      source's removal loop (see `ClearRowsAsWritten`). */
  function ClearLinesAsWritten(g: Game): (r: Game)
    requires WellFormed(g.grid)
    ensures WellFormed(r.grid)
    ensures r.grid == ClearRowsAsWritten(g.grid)
    ensures r.lines == g.lines + |FullRows(g.grid)| && r.level == r.lines / 10
    ensures r.score == g.score + ScoreFor(|FullRows(g.grid)|)
    ensures r.piece == g.piece && r.x == g.x && r.y == g.y
  {
    var k := |FullRows(g.grid)|;
    g.(grid := ClearRowsAsWritten(g.grid),
       lines := g.lines + k,
       score := g.score + ScoreFor(k),
       level := (g.lines + k) / 10)
  }

  /** `update`: if the piece would collide one row lower it is written into
      the grid, full rows are cleared (as intended, see `ClearRows`) and a
      piece of kind `next` appears at the spawn anchor; otherwise the piece
      falls one row and nothing else changes. */
  function Update(g: Game, next: Kind): (r: Game)
    requires WellFormed(g.grid) && Fits(Shape(g.piece), g.x, g.y)
    ensures !Hits(g.grid, Shape(g.piece), g.x, g.y + 1) ==> r == g.(y := g.y + 1)
    ensures Hits(g.grid, Shape(g.piece), g.x, g.y + 1) ==>
      && r.piece == Spawn(next) && r.x == SpawnX && r.y == 0
      && r.grid == ClearRows(Stamp(g.grid, Shape(g.piece), g.x, g.y))
      && r.lines == g.lines + |FullRows(Stamp(g.grid, Shape(g.piece), g.x, g.y))|
      && r.level == r.lines / 10
      && r.score == g.score + ScoreFor(|FullRows(Stamp(g.grid, Shape(g.piece), g.x, g.y))|)
  {
    var shape := Shape(g.piece);
    if Hits(g.grid, shape, g.x, g.y + 1) then
      var locked := g.(grid := Stamp(g.grid, shape, g.x, g.y));
      ClearLines(locked).(piece := Spawn(next), x := SpawnX, y := 0)
    else
      g.(y := g.y + 1)
  }

  /** `update` exactly as written: the same as `Update` except that the
      lock clears rows with the source's removal loop. */
  function UpdateAsWritten(g: Game, next: Kind): (r: Game)
    requires WellFormed(g.grid) && Fits(Shape(g.piece), g.x, g.y)
    ensures !Hits(g.grid, Shape(g.piece), g.x, g.y + 1) ==> r == g.(y := g.y + 1)
    ensures Hits(g.grid, Shape(g.piece), g.x, g.y + 1) ==>
      && r.piece == Spawn(next) && r.x == SpawnX && r.y == 0
      && r.grid == ClearRowsAsWritten(Stamp(g.grid, Shape(g.piece), g.x, g.y))
      && r.lines == g.lines + |FullRows(Stamp(g.grid, Shape(g.piece), g.x, g.y))|
      && r.level == r.lines / 10
      && r.score == g.score + ScoreFor(|FullRows(Stamp(g.grid, Shape(g.piece), g.x, g.y))|)
  {
    var shape := Shape(g.piece);
    if Hits(g.grid, shape, g.x, g.y + 1) then
      var locked := g.(grid := Stamp(g.grid, shape, g.x, g.y));
      ClearLinesAsWritten(locked).(piece := Spawn(next), x := SpawnX, y := 0)
    else
      g.(y := g.y + 1)
  }

  /** The left-move guard of the main loop: move one column left unless
      the piece would collide there. */
  function MoveLeft(g: Game): (r: Game)
    requires WellFormed(g.grid)
    ensures !Hits(g.grid, Shape(g.piece), g.x - 1, g.y) ==> r == g.(x := g.x - 1)
    ensures Hits(g.grid, Shape(g.piece), g.x - 1, g.y) ==> r == g
  {
    if Hits(g.grid, Shape(g.piece), g.x - 1, g.y) then g else g.(x := g.x - 1)
  }

  /** The right-move guard of the main loop. */
  function MoveRight(g: Game): (r: Game)
    requires WellFormed(g.grid)
    ensures !Hits(g.grid, Shape(g.piece), g.x + 1, g.y) ==> r == g.(x := g.x + 1)
    ensures Hits(g.grid, Shape(g.piece), g.x + 1, g.y) ==> r == g
  {
    if Hits(g.grid, Shape(g.piece), g.x + 1, g.y) then g else g.(x := g.x + 1)
  }

  /** The rotate key: one `rotate_piece`, and three more if the turned
      piece collides at the same anchor. There is no wall kick. */
  function TryRotate(g: Game): (r: Game)
    requires WellFormed(g.grid)
    ensures r == g.(piece := r.piece)
    ensures r.piece.kind == g.piece.kind && r.piece.rotation < 4
    ensures Hits(g.grid, Shape(RotatePiece(g.piece)), g.x, g.y) ==>
      r.piece.rotation == g.piece.rotation % 4
    ensures !Hits(g.grid, Shape(RotatePiece(g.piece)), g.x, g.y) ==>
      r.piece.rotation == (g.piece.rotation + 1) % 4 &&
      !Hits(g.grid, Shape(r.piece), g.x, g.y)
  {
    var turned := g.(piece := RotatePiece(g.piece));
    if Hits(g.grid, Shape(turned.piece), g.x, g.y) then
      RotateFourTimes(g.piece);
      turned.(piece := RotatePiece(RotatePiece(RotatePiece(turned.piece))))
    else
      turned
  }

  // ---------------------------------------------------------------------
  // The invariant

  /** The initial state of any game is valid. */
  lemma InitValid(first: Kind)
    ensures Valid(Init(first))
  {
  }

  /** A tick that lets the piece fall keeps the piece on the board, because
      the row below was free, and leaves the grid alone. */
  lemma UpdateFallOnBoard(g: Game, next: Kind)
    requires OnBoard(g)
    requires !Hits(g.grid, Shape(g.piece), g.x, g.y + 1)
    ensures OnBoard(Update(g, next)) && Update(g, next).grid == g.grid
  {
    NoHitFits(g.grid, Shape(g.piece), g.x, g.y + 1);
    assert Update(g, next) == g.(y := g.y + 1);
  }

  /** A tick that locks the piece keeps the state valid: the cleared grid
      has no full row and the new piece lies on the board at the spawn
      anchor. */
  lemma UpdateLockValid(g: Game, next: Kind)
    requires Valid(g)
    requires Hits(g.grid, Shape(g.piece), g.x, g.y + 1)
    ensures Valid(Update(g, next))
  {
    var r := Update(g, next);
    SpawnFits(next);
    assert r.piece == Spawn(next) && r.x == SpawnX && r.y == 0;
    assert WellFormed(r.grid) && NoFullRow(r.grid);
  }

  /** A gravity tick keeps the state valid. */
  lemma UpdateValid(g: Game, next: Kind)
    requires Valid(g)
    ensures Valid(Update(g, next))
  {
    if Hits(g.grid, Shape(g.piece), g.x, g.y + 1) {
      UpdateLockValid(g, next);
    } else {
      UpdateFallOnBoard(g, next);
    }
  }

  /** A lock clears at most four rows: with no full row before the lock,
      only rows the piece covers can become full, and no shape is taller
      than four rows. So the `> 4` case of the score table never arises. */
  lemma LockClearsAtMostFour(g: Game, next: Kind)
    requires Valid(g)
    requires Hits(g.grid, Shape(g.piece), g.x, g.y + 1)
    ensures Update(g, next).lines <= g.lines + 4
    ensures Update(g, next).score <= g.score + 800
  {
    var shape := Shape(g.piece);
    LockCompletesAtMostShapeRows(g.grid, shape, g.x, g.y);
    ShapeBounded(g.piece);
  }

  /** A guarded move to the left keeps the piece on the board. */
  lemma MoveLeftOnBoard(g: Game)
    requires OnBoard(g)
    ensures OnBoard(MoveLeft(g))
  {
    if !Hits(g.grid, Shape(g.piece), g.x - 1, g.y) {
      NoHitFits(g.grid, Shape(g.piece), g.x - 1, g.y);
    }
  }

  /** A guarded move to the right keeps the piece on the board. */
  lemma MoveRightOnBoard(g: Game)
    requires OnBoard(g)
    ensures OnBoard(MoveRight(g))
  {
    if !Hits(g.grid, Shape(g.piece), g.x + 1, g.y) {
      NoHitFits(g.grid, Shape(g.piece), g.x + 1, g.y);
    }
  }

  /** A rotation attempt keeps the piece on the board: either the turned
      piece does not collide, so it is on the board, or the rotation count
      is restored. */
  lemma TryRotateOnBoard(g: Game)
    requires OnBoard(g)
    ensures OnBoard(TryRotate(g))
  {
    var r := TryRotate(g);
    if Hits(g.grid, Shape(RotatePiece(g.piece)), g.x, g.y) {
      assert r.piece == g.piece;
    } else {
      NoHitFits(g.grid, Shape(r.piece), g.x, g.y);
    }
  }

  /** A rotation that collides at the current anchor changes nothing at
      all: same rotation count, same anchor, same grid. */
  lemma RotateRevert(g: Game)
    requires OnBoard(g)
    requires Hits(g.grid, Shape(RotatePiece(g.piece)), g.x, g.y)
    ensures TryRotate(g) == g
  {
  }

  // ---------------------------------------------------------------------
  // The source's row removal in the engine

  /** A tick of the engine as written that lets the piece fall keeps the
      piece on the board and leaves the grid alone, as in `Update`. */
  lemma UpdateAsWrittenFallOnBoard(g: Game, next: Kind)
    requires OnBoard(g)
    requires !Hits(g.grid, Shape(g.piece), g.x, g.y + 1)
    ensures OnBoard(UpdateAsWritten(g, next)) && UpdateAsWritten(g, next).grid == g.grid
  {
    NoHitFits(g.grid, Shape(g.piece), g.x, g.y + 1);
    assert UpdateAsWritten(g, next) == g.(y := g.y + 1);
  }

  /** A tick of the engine as written that locks the piece puts the new
      piece on the board at the spawn anchor. */
  lemma UpdateAsWrittenLockOnBoard(g: Game, next: Kind)
    requires OnBoard(g)
    requires Hits(g.grid, Shape(g.piece), g.x, g.y + 1)
    ensures OnBoard(UpdateAsWritten(g, next))
  {
    var r := UpdateAsWritten(g, next);
    SpawnFits(next);
    assert r.piece == Spawn(next) && r.x == SpawnX && r.y == 0;
    assert WellFormed(r.grid);
  }

  /** A tick of the engine as written keeps the piece on the board. No row
      is promised to be non-full: the removal loop can leave one. */
  lemma UpdateAsWrittenOnBoard(g: Game, next: Kind)
    requires OnBoard(g)
    ensures OnBoard(UpdateAsWritten(g, next))
  {
    if Hits(g.grid, Shape(g.piece), g.x, g.y + 1) {
      UpdateAsWrittenLockOnBoard(g, next);
    } else {
      UpdateAsWrittenFallOnBoard(g, next);
    }
  }

  /** When a lock completes rows 18 and 19 and no other, the engine as
      written ends with the full old row 18 at the bottom, so it leaves a
      full row and differs from `Update`. */
  lemma AsWrittenUpdateDiffers(g: Game, next: Kind)
    requires OnBoard(g)
    requires Hits(g.grid, Shape(g.piece), g.x, g.y + 1)
    requires IsFull(Stamp(g.grid, Shape(g.piece), g.x, g.y)[18])
    requires IsFull(Stamp(g.grid, Shape(g.piece), g.x, g.y)[19])
    requires forall r :: 0 <= r < 18 ==> !IsFull(Stamp(g.grid, Shape(g.piece), g.x, g.y)[r])
    ensures UpdateAsWritten(g, next).grid[19] == Stamp(g.grid, Shape(g.piece), g.x, g.y)[18]
    ensures !NoFullRow(UpdateAsWritten(g, next).grid)
    ensures UpdateAsWritten(g, next) != Update(g, next)
  {
    var s := Stamp(g.grid, Shape(g.piece), g.x, g.y);
    AsWrittenLeavesFullRow(s);
    assert UpdateAsWritten(g, next).grid == ClearRowsAsWritten(s);
    assert Update(g, next).grid == ClearRows(s);
  }

  // ---------------------------------------------------------------------
  // Runs of the main loop

  /** What the main loop can apply to the game: a guarded move, a rotation
      attempt, or a gravity tick (with the kind of the piece that spawns if
      this tick locks). */
  datatype Intent = Left | Right | Rotate | Tick(next: Kind)

  /** One intent applied to a valid state. */
  function Step(g: Game, i: Intent): (r: Game)
    requires Valid(g)
    ensures Valid(r)
    ensures r.score >= g.score && r.lines >= g.lines
    ensures i.Left? || i.Right? || i.Rotate? ==>
      r.grid == g.grid && r.score == g.score && r.lines == g.lines && r.y == g.y
  {
    match i
    case Left => MoveLeftOnBoard(g); MoveLeft(g)
    case Right => MoveRightOnBoard(g); MoveRight(g)
    case Rotate => TryRotateOnBoard(g); TryRotate(g)
    case Tick(next) => UpdateValid(g, next); Update(g, next)
  }

  /** A whole run: any sequence of intents from a valid state ends in a
      valid state, with the score and the line count never lower. */
  function Run(g: Game, intents: seq<Intent>): (r: Game)
    requires Valid(g)
    ensures Valid(r)
    ensures r.score >= g.score && r.lines >= g.lines
    ensures r.level == r.lines / 10
    decreases |intents|
  {
    if |intents| == 0 then g else Run(Step(g, intents[0]), intents[1..])
  }

  /** One intent applied by the engine as written. */
  function StepAsWritten(g: Game, i: Intent): (r: Game)
    requires OnBoard(g)
    ensures OnBoard(r)
    ensures r.score >= g.score && r.lines >= g.lines
    ensures i.Left? || i.Right? || i.Rotate? ==>
      r.grid == g.grid && r.score == g.score && r.lines == g.lines && r.y == g.y
  {
    match i
    case Left => MoveLeftOnBoard(g); MoveLeft(g)
    case Right => MoveRightOnBoard(g); MoveRight(g)
    case Rotate => TryRotateOnBoard(g); TryRotate(g)
    case Tick(next) => UpdateAsWrittenOnBoard(g, next); UpdateAsWritten(g, next)
  }

  /** A whole run of the engine as written: the piece stays on the board,
      so the lock loop never writes outside the grid, and the score and the
      line count never drop. */
  function RunAsWritten(g: Game, intents: seq<Intent>): (r: Game)
    requires OnBoard(g)
    ensures OnBoard(r)
    ensures r.score >= g.score && r.lines >= g.lines
    decreases |intents|
  {
    if |intents| == 0 then g else RunAsWritten(StepAsWritten(g, intents[0]), intents[1..])
  }
}
