/** The falling-block engine of the Tetris game: a 20 x 10 grid of settled
    cells (0 = empty, k = a cell of the catalog piece k - 1), an active and a
    next piece, and the score, line and level counters. */
module TetrisGame {

  const Rows := 20
  const Cols := 10

  /** A shape or the playfield: rows of cells, non-zero meaning filled. */
  type Matrix = seq<seq<int>>

  /** A catalog entry: a base orientation and its colour tag. */
  datatype Template = Template(shape: Matrix, color: string)

  /** A live piece: its current orientation, colour and board origin. */
  datatype Piece = Piece(shape: Matrix, color: string, x: int, y: int)

  /** The seven tetrominoes I, O, T, J, L, S, Z in catalog order. */
  const Pieces: seq<Template> := [
    Template([[1, 1, 1, 1]], "#00ff41"),
    Template([[1, 1], [1, 1]], "#ffff00"),
    Template([[0, 1, 0], [1, 1, 1]], "#ff00ff"),
    Template([[1, 0, 0], [1, 1, 1]], "#00ffff"),
    Template([[0, 0, 1], [1, 1, 1]], "#ff6600"),
    Template([[1, 1, 0], [0, 1, 1]], "#ff0000"),
    Template([[0, 1, 1], [1, 1, 0]], "#00ff00")
  ]

  // ---------------------------------------------------------------- shapes

  /** A non-empty matrix whose rows all have the length of the first. */
  predicate IsRect(m: Matrix) {
    |m| > 0 && forall i | 0 <= i < |m| :: |m[i]| == |m[0]|
  }

  /** A rectangular matrix with at least one column. */
  predicate IsShape(m: Matrix) {
    IsRect(m) && |m[0]| > 0
  }

  /** Some cell of the matrix is filled. */
  ghost predicate HasBlock(m: Matrix) {
    exists r, c | 0 <= r < |m| && 0 <= c < |m[r]| :: m[r][c] != 0
  }

  /** Column `i` of `m`, top to bottom. */
  function Column(m: Matrix, i: nat): (col: seq<int>)
    requires forall r | 0 <= r < |m| :: i < |m[r]|
  {
    seq(|m|, r requires 0 <= r < |m| => m[r][i])
  }

  function Reverse(s: seq<int>): (r: seq<int>)
    ensures |r| == |s|
    ensures forall k | 0 <= k < |s| :: r[k] == s[|s| - 1 - k]
  {
    if s == [] then [] else Reverse(s[1..]) + [s[0]]
  }

  /** Clockwise quarter turn: column i of the input, read bottom to top,
      becomes row i of the result. */
  function RotateMatrix(m: Matrix): (r: Matrix)
    requires IsRect(m)
    ensures |r| == |m[0]|
    ensures forall i | 0 <= i < |r| :: |r[i]| == |m|
    ensures forall i, j | 0 <= i < |r| && 0 <= j < |m| :: r[i][j] == m[|m| - 1 - j][i]
  {
    seq(|m[0]|, i requires 0 <= i < |m[0]| => Reverse(Column(m, i)))
  }

  lemma {:induction false} RotateKeepsShape(m: Matrix)
    requires IsShape(m)
    ensures IsShape(RotateMatrix(m))
    ensures HasBlock(m) ==> HasBlock(RotateMatrix(m))
  {
    var r := RotateMatrix(m);
    if HasBlock(m) {
      var a, b :| 0 <= a < |m| && 0 <= b < |m[a]| && m[a][b] != 0;
      assert r[b][|m| - 1 - a] == m[a][b];
    }
  }

  /** `h` is `m` turned by half a turn. */
  ghost predicate IsHalfTurn(h: Matrix, m: Matrix)
    requires IsShape(m)
  {
    && |h| == |m|
    && (forall i | 0 <= i < |m| :: |h[i]| == |m[0]|)
    && forall i, j | 0 <= i < |m| && 0 <= j < |m[0]| :: h[i][j] == m[|m| - 1 - i][|m[0]| - 1 - j]
  }

  /** Two quarter turns are a half turn. */
  lemma {:induction false} RotateTwice(m: Matrix)
    requires IsShape(m)
    ensures IsShape(RotateMatrix(RotateMatrix(m)))
    ensures IsHalfTurn(RotateMatrix(RotateMatrix(m)), m)
  {
    RotateKeepsShape(m);
    var r1 := RotateMatrix(m);
    RotateKeepsShape(r1);
    var r2 := RotateMatrix(r1);
    forall i, j | 0 <= i < |m| && 0 <= j < |m[0]|
      ensures |r2[i]| == |m[0]| && r2[i][j] == m[|m| - 1 - i][|m[0]| - 1 - j]
    {
      assert r2[i][j] == r1[|r1| - 1 - j][i];
      assert r1[|r1| - 1 - j][i] == m[|m| - 1 - i][|r1| - 1 - j];
    }
  }

  lemma {:induction false} HalfTurnTwice(m: Matrix, h: Matrix, f: Matrix)
    requires IsShape(m) && IsShape(h)
    requires IsHalfTurn(h, m) && IsHalfTurn(f, h)
    ensures f == m
  {
    var rows, cols := |m|, |m[0]|;
    assert |h[0]| == cols;
    forall i, j | 0 <= i < rows && 0 <= j < cols
      ensures f[i][j] == m[i][j]
    {
      var i', j' := rows - 1 - i, cols - 1 - j;
      assert f[i][j] == h[i'][j'];
      assert h[i'][j'] == m[rows - 1 - i'][cols - 1 - j'];
    }
    forall i | 0 <= i < rows
      ensures f[i] == m[i]
    {
      assert |f[i]| == |m[i]| == cols;
    }
  }

  /** Four quarter turns give back the original matrix. */
  lemma {:induction false} RotateFourTimes(m: Matrix)
    requires IsShape(m)
    ensures RotateMatrix(RotateMatrix(RotateMatrix(RotateMatrix(m)))) == m
  {
    RotateTwice(m);
    var h := RotateMatrix(RotateMatrix(m));
    RotateTwice(h);
    HalfTurnTwice(m, h, RotateMatrix(RotateMatrix(h)));
  }

  // ---------------------------------------------------------------- catalog

  /** findIndex on the catalog by colour: the first entry with that colour, or -1. */
  function ColorIndex(color: string): (k: int)
    ensures -1 <= k < |Pieces|
    ensures 0 <= k ==> Pieces[k].color == color && forall j | 0 <= j < k :: Pieces[j].color != color
    ensures k == -1 ==> forall j | 0 <= j < |Pieces| :: Pieces[j].color != color
  {
    FindColor(color, 0)
  }

  function FindColor(color: string, from: nat): (k: int)
    requires from <= |Pieces|
    decreases |Pieces| - from
    ensures k == -1 || from <= k < |Pieces|
    ensures 0 <= k ==> Pieces[k].color == color && forall j | from <= j < k :: Pieces[j].color != color
    ensures k == -1 ==> forall j | from <= j < |Pieces| :: Pieces[j].color != color
  {
    if from == |Pieces| then -1
    else if Pieces[from].color == color then from
    else FindColor(color, from + 1)
  }

  /** The seven colour tags are distinct, so the colour lookup finds each entry itself. */
  lemma {:induction false} ColorIndexOfCatalog(k: nat)
    requires k < |Pieces|
    ensures ColorIndex(Pieces[k].color) == k
  {
    var i := ColorIndex(Pieces[k].color);
    assert Pieces[i].color == Pieces[k].color;
  }

  /** getRandomPiece: catalog entry `k` (the random draw) at the spawn origin (3, 0). */
  function SpawnPiece(k: nat): (p: Piece)
    requires k < |Pieces|
    ensures p.shape == Pieces[k].shape && p.color == Pieces[k].color
    ensures p.x == 3 && p.y == 0
  {
    Piece(Pieces[k].shape, Pieces[k].color, 3, 0)
  }

  /** Every catalog shape is a filled rectangle at most 2 tall and 4 wide. */
  lemma {:induction false} CatalogShapes(k: nat)
    requires k < |Pieces|
    ensures IsShape(Pieces[k].shape) && HasBlock(Pieces[k].shape)
    ensures |Pieces[k].shape| <= 2 && |Pieces[k].shape[0]| <= 4
  {
    // every catalog shape has a block in its second column
    assert Pieces[k].shape[0][1] != 0 || Pieces[k].shape[1][1] != 0;
  }

  // ---------------------------------------------------------------- grid

  predicate IsGrid(g: Matrix) {
    |g| == Rows && forall i | 0 <= i < |g| :: |g[i]| == Cols
  }

  function EmptyRow(): (row: seq<int>)
    ensures |row| == Cols && !Full(row)
  {
    var row := seq(Cols, _ => 0);
    assert row[0] == 0;
    row
  }

  /** createGrid: 20 rows of 10 empty cells. */
  function CreateGrid(): (g: Matrix)
    ensures IsGrid(g)
    ensures forall i, j | 0 <= i < Rows && 0 <= j < Cols :: g[i][j] == 0
  {
    seq(Rows, _ => EmptyRow())
  }

  /** The legality rule of a placement, cell by cell: every filled cell lies
      between the side walls and above the floor, and, unless it is above the
      top edge, on an empty grid cell. */
  ghost predicate Fits(grid: Matrix, x: int, y: int, shape: Matrix)
    requires IsGrid(grid)
  {
    forall r, c | 0 <= r < |shape| && 0 <= c < |shape[r]| && shape[r][c] != 0 ::
      0 <= x + c < Cols && y + r < Rows && (0 <= y + r ==> grid[y + r][x + c] == 0)
  }

  /** isValidMove: the nested scan with early return over rows and columns. */
  function IsValidMove(grid: Matrix, x: int, y: int, shape: Matrix): (valid: bool)
    requires IsGrid(grid)
    ensures valid <==> Fits(grid, x, y, shape)
  {
    ScanRows(grid, x, y, shape, 0)
  }

  function ScanRows(grid: Matrix, x: int, y: int, shape: Matrix, r: nat): (ok: bool)
    requires IsGrid(grid) && r <= |shape|
    decreases |shape| - r
    ensures ok <==> forall r', c | r <= r' < |shape| && 0 <= c < |shape[r']| && shape[r'][c] != 0 ::
      0 <= x + c < Cols && y + r' < Rows && (0 <= y + r' ==> grid[y + r'][x + c] == 0)
  {
    if r == |shape| then true
    else ScanCols(grid, x, y, shape, r, 0) && ScanRows(grid, x, y, shape, r + 1)
  }

  function ScanCols(grid: Matrix, x: int, y: int, shape: Matrix, r: nat, c: nat): (ok: bool)
    requires IsGrid(grid) && r < |shape| && c <= |shape[r]|
    decreases |shape[r]| - c
    ensures ok <==> forall c' | c <= c' < |shape[r]| && shape[r][c'] != 0 ::
      0 <= x + c' < Cols && y + r < Rows && (0 <= y + r ==> grid[y + r][x + c'] == 0)
  {
    if c == |shape[r]| then true
    else if shape[r][c] != 0 &&
            (x + c < 0 || x + c >= Cols || y + r >= Rows || (y + r >= 0 && grid[y + r][x + c] != 0))
    then false
    else ScanCols(grid, x, y, shape, r, c + 1)
  }

  /** Every filled cell of the piece lies between the walls and above the floor. */
  ghost predicate InBounds(p: Piece) {
    forall r, c | 0 <= r < |p.shape| && 0 <= c < |p.shape[r]| && p.shape[r][c] != 0 ::
      0 <= p.x + c < Cols && p.y + r < Rows
  }

  /** A piece the engine can hold: a filled rectangle in a catalog colour. */
  ghost predicate WellFormed(p: Piece) {
    IsShape(p.shape) && HasBlock(p.shape) && 0 <= ColorIndex(p.color)
  }

  /** The piece is exactly what getRandomPiece produced for its colour. */
  ghost predicate IsSpawn(p: Piece) {
    0 <= ColorIndex(p.color) && p == SpawnPiece(ColorIndex(p.color))
  }

  lemma {:induction false} FitsInBounds(grid: Matrix, p: Piece)
    requires IsGrid(grid) && Fits(grid, p.x, p.y, p.shape)
    ensures InBounds(p)
  {
  }

  /** A spawned catalog piece is well formed and inside the walls, on any grid. */
  lemma {:induction false} SpawnIsSound(k: nat)
    requires k < |Pieces|
    ensures WellFormed(SpawnPiece(k)) && InBounds(SpawnPiece(k)) && IsSpawn(SpawnPiece(k))
  {
    CatalogShapes(k);
    ColorIndexOfCatalog(k);
  }

  /** Every one of the seven spawns is legal on an empty grid. */
  lemma {:induction false} SpawnFitsEmptyGrid(k: nat)
    requires k < |Pieces|
    ensures IsValidMove(CreateGrid(), 3, 0, Pieces[k].shape)
  {
    CatalogShapes(k);
    var g := CreateGrid();
    var s := Pieces[k].shape;
    forall r, c | 0 <= r < |s| && 0 <= c < |s[r]| && s[r][c] != 0
      ensures 0 <= 3 + c < Cols && 0 + r < Rows && g[r][3 + c] == 0
    {
      assert |s[r]| == |s[0]|;
    }
  }

  /** A piece with a filled cell inside the walls has its origin above the floor. */
  lemma {:induction false} OriginAboveFloor(p: Piece)
    requires HasBlock(p.shape) && InBounds(p)
    ensures p.y < Rows
  {
    var r, c :| 0 <= r < |p.shape| && 0 <= c < |p.shape[r]| && p.shape[r][c] != 0;
  }

  // ---------------------------------------------------------------- settling

  /** Cell (i, j) of the grid is under a filled cell of the piece. */
  ghost predicate Covers(p: Piece, i: int, j: int) {
    0 <= i - p.y < |p.shape| && 0 <= j - p.x < |p.shape[i - p.y]| && p.shape[i - p.y][j - p.x] != 0
  }

  /** The grid after placePiece: the piece's catalog number (colour index + 1)
      in every covered cell, every other cell as before. */
  ghost function Placed(g: Matrix, p: Piece): (r: Matrix)
    requires IsGrid(g)
    ensures IsGrid(r)
    ensures forall i, j | 0 <= i < Rows && 0 <= j < Cols && !Covers(p, i, j) :: r[i][j] == g[i][j]
  {
    seq(Rows, i requires 0 <= i < Rows =>
      seq(Cols, j requires 0 <= j < Cols => if Covers(p, i, j) then ColorIndex(p.color) + 1 else g[i][j]))
  }

  /** Settling a well-formed piece writes only values 1..7, and a piece with a
      cell on the visible board no longer fits where it was settled. */
  lemma {:induction false} PlacedBlocksItself(g: Matrix, p: Piece, r: int, c: int)
    requires IsGrid(g) && WellFormed(p) && InBounds(p)
    requires 0 <= r < |p.shape| && 0 <= c < |p.shape[r]| && p.shape[r][c] != 0 && 0 <= p.y + r
    ensures IsGrid(Placed(g, p))
    ensures forall i, j | 0 <= i < Rows && 0 <= j < Cols ::
      Placed(g, p)[i][j] == g[i][j] || 1 <= Placed(g, p)[i][j] <= |Pieces|
    ensures !IsValidMove(Placed(g, p), p.x, p.y, p.shape)
  {
    var q := Placed(g, p);
    assert Covers(p, p.y + r, p.x + c);
    assert q[p.y + r][p.x + c] != 0;
  }

  /** One column of four cells. */
  function Upright(): (m: Matrix)
    ensures IsShape(m) && |m| == 4 && |m[0]| == 1
  {
    [[1], [1], [1], [1]]
  }

  /** The upright column is the I piece turned once by rotatePiece. */
  lemma {:induction false} UprightIsTurnedI()
    ensures Upright() == RotateMatrix(Pieces[0].shape)
  {
    var r := RotateMatrix(Pieces[0].shape);
    assert forall i | 0 <= i < |r| :: r[i] == [1];
  }

  /** A covered cell of the settled grid holds the piece's catalog number. */
  lemma {:induction false} PlacedCovered(g: Matrix, p: Piece, i: int, j: int)
    requires IsGrid(g) && 0 <= i < Rows && 0 <= j < Cols && Covers(p, i, j)
    ensures Placed(g, p)[i][j] == ColorIndex(p.color) + 1
  {
  }

  /** An upright I standing on the floor at column 5 of an empty grid. */
  function FloorUpright(): (p: Piece)
    ensures p.shape == Upright() && p.x == 5 && p.y == 16
  {
    Piece(Upright(), Pieces[0].color, 5, 16)
  }

  /** An upright I with its top in row 16 covers rows 16-19 of its column
      and nothing in the columns beside it. */
  lemma {:induction false} UprightCovers(q: Piece, i: int)
    requires q.shape == Upright() && q.y == 16 && 16 <= i < Rows
    ensures Covers(q, i, q.x) && !Covers(q, i, q.x - 1) && !Covers(q, i, q.x + 1)
  {
    assert Upright()[i - 16] == [1];
  }

  /** movePiece as written settles a piece blocked below but keeps it active
      until the next update. An upright I resting on the floor of an empty
      grid at column 5 is written into the grid, can still move left into
      the free column 4, and is then written there a second time: the grid
      holds two copies of one piece. */
  lemma {:induction false} SettledPieceStillMoves()
    ensures var g, p := CreateGrid(), FloorUpright();
      && !IsValidMove(g, p.x, p.y + 1, p.shape)
      && IsValidMove(Placed(g, p), p.x - 1, p.y, p.shape)
      && forall i | 16 <= i < Rows ::
        Placed(Placed(g, p), p.(x := 4))[i][4] == 1 && Placed(Placed(g, p), p.(x := 4))[i][5] == 1
  {
    UprightBlocked();
    UprightMovesLeft();
    UprightWrittenTwice();
  }

  lemma {:induction false} UprightBlocked()
    ensures !IsValidMove(CreateGrid(), 5, 17, Upright())
  {
    assert Upright()[3][0] != 0;
  }

  lemma {:induction false} UprightMovesLeft()
    ensures IsValidMove(Placed(CreateGrid(), FloorUpright()), 4, 16, Upright())
  {
    var once := Placed(CreateGrid(), FloorUpright());
    forall r, c | 0 <= r < |Upright()| && 0 <= c < |Upright()[r]| && Upright()[r][c] != 0
      ensures 0 <= 4 + c < Cols && 16 + r < Rows && once[16 + r][4 + c] == 0
    {
      assert Upright()[r] == [1];
      UprightCovers(FloorUpright(), 16 + r);
    }
    assert Fits(once, 4, 16, Upright());
  }

  lemma {:induction false} UprightWrittenTwice()
    ensures forall i | 16 <= i < Rows ::
      var p := FloorUpright();
      Placed(Placed(CreateGrid(), p), p.(x := 4))[i][4] == 1 && Placed(Placed(CreateGrid(), p), p.(x := 4))[i][5] == 1
  {
    forall i | 16 <= i < Rows
      ensures var p := FloorUpright();
        Placed(Placed(CreateGrid(), p), p.(x := 4))[i][4] == 1 && Placed(Placed(CreateGrid(), p), p.(x := 4))[i][5] == 1
    {
      UprightWrittenTwiceAt(i);
    }
  }

  lemma {:induction false} UprightWrittenTwiceAt(i: int)
    requires 16 <= i < Rows
    ensures var p := FloorUpright();
      Placed(Placed(CreateGrid(), p), p.(x := 4))[i][4] == 1 && Placed(Placed(CreateGrid(), p), p.(x := 4))[i][5] == 1
  {
    var p := FloorUpright();
    var q := p.(x := 4);
    var once := Placed(CreateGrid(), p);
    ColorIndexOfCatalog(0);
    UprightCovers(p, i);
    UprightCovers(q, i);
    PlacedCovered(CreateGrid(), p, i, 5);
    PlacedCovered(once, q, i, 4);
  }

  // ---------------------------------------------------------------- line clearing

  /** The score, line and level counters. */
  datatype Tally = Tally(lines: int, score: int, level: int)

  /** every(cell => cell !== 0) */
  predicate Full(row: seq<int>) {
    forall j | 0 <= j < |row| :: row[j] != 0
  }

  /** The counters after one cleared row: a line, 100 points per level, and a
      new level on every tenth line. */
  function Award(t: Tally): (r: Tally)
    ensures r.lines == t.lines + 1 && r.score == t.score + 100 * t.level
    ensures r.level == t.level || (r.level == t.level + 1 && r.lines % 10 == 0)
    ensures r.level == t.level + 1 <==> r.lines % 10 == 0
  {
    var lines := t.lines + 1;
    Tally(lines, t.score + 100 * t.level, if lines % 10 == 0 then t.level + 1 else t.level)
  }

  /** The counters as the game keeps them: at least 100 points per line and
      one level per ten lines. */
  ghost predicate Consistent(t: Tally) {
    0 <= t.lines && 100 * t.lines <= t.score && t.level == 1 + t.lines / 10
  }

  /** Remove row y and put an empty row on top (splice, then unshift). */
  function DropRow(g: Matrix, y: nat): (r: Matrix)
    requires y < |g|
    ensures |r| == |g|
  {
    [EmptyRow()] + g[..y] + g[y + 1..]
  }

  /** clearLines as written: scan y = 19 down to 0; after removing row y the
      scan moves on to y - 1, so the row that slid into y is not looked at. */
  function Sweep(g: Matrix, y: int, t: Tally): (r: (Matrix, Tally))
    requires -1 <= y < |g|
    decreases y + 1
    ensures |r.0| == |g|
  {
    if y < 0 then (g, t)
    else if Full(g[y]) then Sweep(DropRow(g, y), y - 1, Award(t))
    else Sweep(g, y - 1, t)
  }

  /** The non-full rows of a grid, in order. */
  function NonFull(g: Matrix): (r: Matrix)
    ensures |r| <= |g|
  {
    if g == [] then [] else (if Full(g[0]) then [] else [g[0]]) + NonFull(g[1..])
  }

  function EmptyRows(n: nat): (r: Matrix)
    ensures |r| == n
  {
    if n == 0 then [] else [EmptyRow()] + EmptyRows(n - 1)
  }

  lemma {:induction false} NonFullAppend(a: Matrix, b: Matrix)
    ensures NonFull(a + b) == NonFull(a) + NonFull(b)
  {
    if a == [] {
      assert a + b == b;
    } else {
      assert (a + b)[1..] == a[1..] + b;
      NonFullAppend(a[1..], b);
    }
  }

  lemma {:induction false} DropRowShape(g: Matrix, y: nat)
    requires IsGrid(g) && y < |g|
    ensures IsGrid(DropRow(g, y))
  {
    var d := DropRow(g, y);
    forall i | 0 <= i < |d| ensures |d[i]| == Cols {
      if i > 0 && i <= y {
        assert d[i] == g[i - 1];
      } else if i > y {
        assert d[i] == g[i];
      }
    }
  }

  /** A full row contributes nothing to the non-full rows. */
  lemma {:induction false} NonFullSkip(g: Matrix, y: nat)
    requires y < |g| && Full(g[y])
    ensures NonFull(g) == NonFull(g[..y]) + NonFull(g[y + 1..])
  {
    var front, rest := g[..y], g[y + 1..];
    var tail := [g[y]] + rest;
    assert g == front + tail;
    NonFullAppend(front, tail);
    assert tail[0] == g[y] && tail[1..] == rest;
    assert NonFull(tail) == NonFull(rest);
  }

  /** Dropping a full row loses no other row: the non-full rows are an empty
      row followed by the old non-full rows. */
  lemma {:induction false} DropRowNonFull(g: Matrix, y: nat)
    requires y < |g| && Full(g[y])
    ensures NonFull(DropRow(g, y)) == [EmptyRow()] + NonFull(g)
  {
    var front, back := g[..y], g[y + 1..];
    NonFullSkip(g, y);
    var rest := front + back;
    NonFullAppend(front, back);
    var e := [EmptyRow()];
    assert DropRow(g, y) == e + rest;
    NonFullAppend(e, rest);
    NonFullOfEmptyRow();
    assert NonFull(DropRow(g, y)) == NonFull(e + rest);
    assert NonFull(e + rest) == e + NonFull(rest);
    assert NonFull(rest) == NonFull(g);
  }

  lemma {:induction false} NonFullOfEmptyRow()
    ensures NonFull([EmptyRow()]) == [EmptyRow()]
  {
    var e := [EmptyRow()];
    assert e[1..] == [];
    assert !Full(e[0]);
  }

  lemma {:induction false} AwardKeepsLevelRule(t: Tally)
    ensures Award(t).level - Award(t).lines / 10 == t.level - t.lines / 10
  {
    var l := t.lines + 1;
    assert (l % 10 == 0) == (l / 10 == t.lines / 10 + 1);
  }

  lemma {:induction false} AwardKeepsConsistent(t: Tally)
    requires Consistent(t)
    ensures Consistent(Award(t))
  {
    AwardKeepsLevelRule(t);
  }

  /** The as-written sweep keeps the grid 20 x 10 and never lowers the line count. */
  lemma {:induction false} SweepKeepsGrid(g: Matrix, y: int, t: Tally)
    requires IsGrid(g) && -1 <= y < |g|
    ensures IsGrid(Sweep(g, y, t).0)
    ensures Sweep(g, y, t).1.lines >= t.lines
    decreases y + 1
  {
    if y >= 0 {
      if Full(g[y]) {
        DropRowShape(g, y);
        SweepKeepsGrid(DropRow(g, y), y - 1, Award(t));
      } else {
        SweepKeepsGrid(g, y - 1, t);
      }
    }
  }

  /** The as-written sweep removes only full rows: one empty row on top per
      cleared line, followed by every non-full row of the input in order. */
  lemma {:induction false} SweepRemovesOnlyFullRows(g: Matrix, y: int, t: Tally)
    requires -1 <= y < |g|
    ensures Sweep(g, y, t).1.lines >= t.lines
    ensures NonFull(Sweep(g, y, t).0) == EmptyRows(Sweep(g, y, t).1.lines - t.lines) + NonFull(g)
    decreases y + 1
  {
    if y < 0 {
      assert EmptyRows(0) + NonFull(g) == NonFull(g);
    } else if Full(g[y]) {
      var d, a := DropRow(g, y), Award(t);
      DropRowNonFull(g, y);
      SweepRemovesOnlyFullRows(d, y - 1, a);
      var r := Sweep(d, y - 1, a);
      assert Sweep(g, y, t) == r;
      var m := r.1.lines - a.lines;
      OneMoreEmptyRow(r.0, d, g, m);
      assert r.1.lines - t.lines == m + 1;
    } else {
      SweepRemovesOnlyFullRows(g, y - 1, t);
      assert Sweep(g, y, t) == Sweep(g, y - 1, t);
    }
  }

  lemma {:induction false} OneMoreEmptyRow(r: Matrix, d: Matrix, g: Matrix, m: nat)
    requires NonFull(r) == EmptyRows(m) + NonFull(d)
    requires NonFull(d) == [EmptyRow()] + NonFull(g)
    ensures NonFull(r) == EmptyRows(m + 1) + NonFull(g)
  {
    EmptyRowsSnoc(m);
    calc {
      NonFull(r);
      EmptyRows(m) + ([EmptyRow()] + NonFull(g));
      (EmptyRows(m) + [EmptyRow()]) + NonFull(g);
      EmptyRows(m + 1) + NonFull(g);
    }
  }

  lemma {:induction false} EmptyRowsSnoc(n: nat)
    ensures EmptyRows(n + 1) == EmptyRows(n) + [EmptyRow()]
  {
    if n > 0 {
      EmptyRowsSnoc(n - 1);
    }
  }

  /** The rows the as-written clear keeps, scanning `p` from the bottom: a
      full row is removed, and the row just above it slides into the index
      the scan has just left, so it is kept without being looked at. */
  function Survivors(p: Matrix): (r: Matrix)
    ensures |r| <= |p|
    decreases |p|
  {
    if p == [] then []
    else if !Full(p[|p| - 1]) then Survivors(p[..|p| - 1]) + [p[|p| - 1]]
    else if |p| == 1 then []
    else Survivors(p[..|p| - 2]) + [p[|p| - 2]]
  }

  /** A non-full row on top of the scanned rows is always kept. */
  lemma {:induction false} SurvivorsCons(x: seq<int>, q: Matrix)
    requires !Full(x)
    ensures Survivors([x] + q) == [x] + Survivors(q)
    decreases |q|
  {
    var p := [x] + q;
    if q == [] {
      assert p[..0] == [];
    } else if !Full(q[|q| - 1]) {
      assert p[..|p| - 1] == [x] + q[..|q| - 1];
      SurvivorsCons(x, q[..|q| - 1]);
    } else if |q| == 1 {
      assert p[..0] == [];
    } else {
      assert p[..|p| - 2] == [x] + q[..|q| - 2];
      SurvivorsCons(x, q[..|q| - 2]);
    }
  }

  /** Regrouping a grid stacked from named parts; the layout proofs below
      use it so that the solver never unfolds the parts. */
  lemma {:induction false} Regroup(r: Matrix, a: Matrix, x0: Matrix, t0: Matrix, e: Matrix, x: Matrix, w: Matrix, tail: Matrix, a2: Matrix, b: Matrix)
    requires r == a + x0 + t0
    requires x0 == e + x && t0 == w + tail
    requires a2 == a + e && b == x + w
    ensures r == a2 + b + tail
  {
  }

  /** Row y splits the rows up to it from the rows from it on. */
  lemma {:induction false} SplitAt(g: Matrix, y: nat)
    requires y < |g|
    ensures g[..y + 1] == g[..y] + [g[y]]
    ensures g[y..] == [g[y]] + g[y + 1..]
  {
  }

  /** The rows of DropRow(g, y) around the scan position. */
  lemma {:induction false} DropRowSlices(g: Matrix, y: nat)
    requires y < |g|
    ensures DropRow(g, y)[..y + 1] == [EmptyRow()] + g[..y]
    ensures DropRow(g, y)[y + 1..] == g[y + 1..]
    ensures 0 < y ==> DropRow(g, y)[..y] == [EmptyRow()] + g[..y - 1]
    ensures 0 < y ==> DropRow(g, y)[y..] == [g[y - 1]] + g[y + 1..]
  {
  }

  /** The counts and the non-full rows of a grid with one more row below. */
  lemma {:induction false} AppendRow(h: Matrix, row: seq<int>)
    ensures FullCount(h + [row]) == FullCount(h) + (if Full(row) then 1 else 0)
    ensures NonFull(h + [row]) == NonFull(h) + (if Full(row) then [] else [row])
  {
    assert [row][1..] == [];
    FullCountAppend(h, [row]);
    NonFullAppend(h, [row]);
  }

  /** Survivors up to a full row y > 0: the row above it, kept unchecked. */
  lemma {:induction false} SurvivorsDropAt(g: Matrix, y: nat)
    requires 0 < y < |g| && Full(g[y])
    ensures Survivors(g[..y + 1]) == Survivors(g[..y - 1]) + [g[y - 1]]
  {
    var p := g[..y + 1];
    assert p[..|p| - 2] == g[..y - 1];
  }

  /** Survivors up to a row that is not full: that row, kept. */
  lemma {:induction false} SurvivorsKeepAt(g: Matrix, y: nat)
    requires y < |g| && !Full(g[y])
    ensures Survivors(g[..y + 1]) == Survivors(g[..y]) + [g[y]]
  {
    var p := g[..y + 1];
    assert p[..|p| - 1] == g[..y];
  }

  /** Where every row goes in the as-written clear from scan position y
      down: one empty row on top per counted line, then the surviving rows
      of g[..y + 1] in their old order, then the rows below y, untouched. */
  ghost predicate SweptAsLaidOut(g: Matrix, y: int, t: Tally)
    requires -1 <= y < |g|
  {
    var res := Sweep(g, y, t);
    res.1.lines >= t.lines && res.0 == EmptyRows(res.1.lines - t.lines) + Survivors(g[..y + 1]) + g[y + 1..]
  }

  /** The as-written clear from scan position y down to 0 keeps the layout. */
  lemma {:induction false} SweepLayout(g: Matrix, y: int, t: Tally)
    requires -1 <= y < |g|
    ensures SweptAsLaidOut(g, y, t)
    decreases y + 1
  {
    if y < 0 {
      SweepLayoutEnd(g, t);
    } else if !Full(g[y]) {
      SweepLayout(g, y - 1, t);
      SweepLayoutKeep(g, y, t);
    } else if y == 0 {
      SweepLayoutDropTop(g, t);
    } else {
      SweepLayout(DropRow(g, y), y - 1, Award(t));
      SweepLayoutDrop(g, y, t);
    }
  }

  /** Where every row goes in the as-written clear of a whole grid: one empty
      row on top per counted line, then the surviving rows in their old order. */
  lemma {:induction false} SweepKeepsSurvivors(g: Matrix, t: Tally)
    requires |g| == Rows
    ensures Sweep(g, Rows - 1, t).1.lines >= t.lines
    ensures Sweep(g, Rows - 1, t).0 == EmptyRows(Sweep(g, Rows - 1, t).1.lines - t.lines) + Survivors(g)
  {
    SweepLayout(g, Rows - 1, t);
    assert g[..Rows] == g && g[Rows..] == [];
  }

  /** The end of the scan: nothing was counted and nothing moved. */
  lemma {:induction false} SweepLayoutEnd(g: Matrix, t: Tally)
    ensures SweptAsLaidOut(g, -1, t)
  {
    assert g[..0] == [] && g[0..] == g;
    assert EmptyRows(0) + [] + g == g;
  }

  /** The step of SweepLayout at a full top row. */
  lemma {:induction false} SweepLayoutDropTop(g: Matrix, t: Tally)
    requires 0 < |g| && Full(g[0])
    ensures SweptAsLaidOut(g, 0, t)
  {
    var d, e := DropRow(g, 0), [EmptyRow()];
    var res := Sweep(g, 0, t);
    assert res == (d, Award(t));
    assert d == e + g[1..];
    assert g[..1] == [g[0]];
    assert Survivors(g[..1]) == [];
    assert EmptyRows(1) == e;
  }

  /** The step of SweepLayout at a full row below the top. */
  lemma {:induction false} SweepLayoutDrop(g: Matrix, y: int, t: Tally)
    requires 0 < y < |g| && Full(g[y])
    requires SweptAsLaidOut(DropRow(g, y), y - 1, Award(t))
    ensures SweptAsLaidOut(g, y, t)
  {
    var d, a, e := DropRow(g, y), Award(t), [EmptyRow()];
    var res := Sweep(g, y, t);
    assert res == Sweep(d, y - 1, a);
    var m := res.1.lines - a.lines;
    EmptyRowsSnoc(m);
    DropRowSlices(g, y);
    SurvivorsCons(EmptyRow(), g[..y - 1]);
    SurvivorsDropAt(g, y);
    Regroup(res.0, EmptyRows(m), Survivors(d[..y]), d[y..], e, Survivors(g[..y - 1]), [g[y - 1]], g[y + 1..],
      EmptyRows(res.1.lines - t.lines), Survivors(g[..y + 1]));
  }

  /** The step of SweepLayout at a row that is not full. */
  lemma {:induction false} SweepLayoutKeep(g: Matrix, y: int, t: Tally)
    requires 0 <= y < |g| && !Full(g[y])
    requires SweptAsLaidOut(g, y - 1, t)
    ensures SweptAsLaidOut(g, y, t)
  {
    var res := Sweep(g, y, t);
    assert res == Sweep(g, y - 1, t);
    SplitAt(g, y);
    SurvivorsKeepAt(g, y);
    var a := EmptyRows(res.1.lines - t.lines);
    assert a + [] == a;
    Regroup(res.0, a, Survivors(g[..y]), g[y..], [], Survivors(g[..y]), [g[y]], g[y + 1..], a, Survivors(g[..y + 1]));
  }


  /** What the as-written sweep does to the counters: none decreases, the
      level stays one step per ten lines, and each cleared row scores 100
      times the level in force, between the old and the new level. */
  lemma {:induction false} SweepTally(g: Matrix, y: int, t: Tally)
    requires IsGrid(g) && -1 <= y < |g| && t.level >= 1
    ensures var t' := Sweep(g, y, t).1;
      && t'.lines >= t.lines && t'.score >= t.score && t'.level >= t.level
      && t'.level - t'.lines / 10 == t.level - t.lines / 10
      && 100 * t.level * (t'.lines - t.lines) <= t'.score - t.score <= 100 * t'.level * (t'.lines - t.lines)
    decreases y + 1
  {
    if y >= 0 {
      if Full(g[y]) {
        DropRowShape(g, y);
        AwardKeepsLevelRule(t);
        var a := Award(t);
        assert a.lines == t.lines + 1 && a.score == t.score + 100 * t.level && t.level <= a.level;
        SweepTally(DropRow(g, y), y - 1, a);
        assert Sweep(g, y, t) == Sweep(DropRow(g, y), y - 1, a);
        var t' := Sweep(g, y, t).1;
        ScoreStep(t.level, a.level, t'.level, t'.lines - a.lines, t'.score - a.score);
      } else {
        SweepTally(g, y - 1, t);
      }
    }
  }

  lemma {:induction false} ScoreStep(l0: int, l1: int, l2: int, m: nat, s: int)
    requires 1 <= l0 <= l1 <= l2
    requires 100 * l1 * m <= s <= 100 * l2 * m
    ensures 100 * l0 * (m + 1) <= s + 100 * l0 <= 100 * l2 * (m + 1)
  {
    assert l0 * m <= l1 * m;
    assert 100 * l2 * (m + 1) == 100 * l2 * m + 100 * l2;
    assert 100 * l0 * (m + 1) == 100 * l0 * m + 100 * l0;
  }

  /** A sweep over rows none of which is full changes nothing. */
  lemma {:induction false} SweepNoFullRow(g: Matrix, y: int, t: Tally)
    requires -1 <= y < |g|
    requires forall i | 0 <= i <= y :: !Full(g[i])
    ensures Sweep(g, y, t) == (g, t)
    decreases y + 1
  {
    if y >= 0 {
      SweepNoFullRow(g, y - 1, t);
    }
  }

  function FullRow(): (row: seq<int>)
    ensures |row| == Cols && Full(row)
  {
    seq(Cols, _ => 1)
  }

  /** The two bottom rows full, everything above empty. */
  function TwoFullRows(): (g: Matrix)
    ensures IsGrid(g)
  {
    var g := seq(Rows, i => if i >= Rows - 2 then FullRow() else EmptyRow());
    assert forall i | 0 <= i < Rows :: g[i] == FullRow() || g[i] == EmptyRow();
    g
  }

  /** As written, two adjacent full rows are not both cleared in one call:
      one line is counted and the bottom row is still full afterwards. */
  lemma {:induction false} AdjacentFullRowsAsWritten(t: Tally)
    ensures Sweep(TwoFullRows(), Rows - 1, t).1 == Award(t)
    ensures Full(Sweep(TwoFullRows(), Rows - 1, t).0[Rows - 1])
  {
    var g := TwoFullRows();
    assert g[Rows - 1] == FullRow();
    var d := DropRow(g, Rows - 1);
    assert d[Rows - 1] == g[Rows - 2];
    forall i | 0 <= i <= Rows - 2 ensures !Full(d[i]) {
      assert d[i] == EmptyRow();
      assert d[i][0] == 0;
    }
    SweepNoFullRow(d, Rows - 2, Award(t));
  }

  predicate NoFullRow(g: Matrix) {
    forall i | 0 <= i < |g| :: !Full(g[i])
  }

  /** Number of full rows. */
  function FullCount(g: Matrix): (n: nat)
    ensures n + |NonFull(g)| == |g|
  {
    if g == [] then 0 else (if Full(g[0]) then 1 else 0) + FullCount(g[1..])
  }

  /** Line clearing as evidently intended: after a row is removed, the scan
      looks again at the same index, which now holds the row from above. */
  function SweepAll(g: Matrix, y: int, t: Tally): (r: (Matrix, Tally))
    requires IsGrid(g) && -1 <= y < |g|
    decreases y + 1, FullCount(g[..y + 1])
    ensures |r.0| == |g|
  {
    if y < 0 then (g, t)
    else if Full(g[y]) then
      DropRowShape(g, y);
      DropRowFullCount(g, y);
      SweepAll(DropRow(g, y), y, Award(t))
    else SweepAll(g, y - 1, t)
  }

  lemma {:induction false} FullCountAppend(a: Matrix, b: Matrix)
    ensures FullCount(a + b) == FullCount(a) + FullCount(b)
  {
    if a != [] {
      assert (a + b)[1..] == a[1..] + b;
      FullCountAppend(a[1..], b);
    } else {
      assert a + b == b;
    }
  }

  /** The intended sweep leaves no full row at all and counts every full row
      of the input as one cleared line. */
  lemma {:induction false} SweepAllClearsEveryFullRow(g: Matrix, y: int, t: Tally)
    requires IsGrid(g) && -1 <= y < |g|
    requires forall i | y < i < |g| :: !Full(g[i])
    ensures NoFullRow(SweepAll(g, y, t).0)
    decreases y + 1, FullCount(g[..y + 1])
  {
    if y >= 0 && Full(g[y]) {
      DropRowShape(g, y);
      DropRowFullCount(g, y);
      var d, a := DropRow(g, y), Award(t);
      forall i | y < i < |d| ensures !Full(d[i]) { assert d[i] == g[i]; }
      SweepAllClearsEveryFullRow(d, y, a);
      assert SweepAll(g, y, t) == SweepAll(d, y, a);
    } else if y >= 0 {
      SweepAllClearsEveryFullRow(g, y - 1, t);
      assert SweepAll(g, y, t) == SweepAll(g, y - 1, t);
    }
  }

  lemma {:induction false} SweepAllCountsEveryFullRow(g: Matrix, y: int, t: Tally)
    requires IsGrid(g) && -1 <= y < |g|
    ensures SweepAll(g, y, t).1.lines == t.lines + FullCount(g[..y + 1])
    decreases y + 1, FullCount(g[..y + 1])
  {
    if y < 0 {
      assert g[..0] == [];
    } else if Full(g[y]) {
      DropRowShape(g, y);
      DropRowFullCount(g, y);
      var d, a := DropRow(g, y), Award(t);
      SweepAllCountsEveryFullRow(d, y, a);
      assert SweepAll(g, y, t) == SweepAll(d, y, a);
    } else {
      assert g[..y + 1] == g[..y] + [g[y]];
      FullCountAppend(g[..y], [g[y]]);
      assert FullCount([g[y]]) == 0 by { assert [g[y]][1..] == []; }
      SweepAllCountsEveryFullRow(g, y - 1, t);
      assert SweepAll(g, y, t) == SweepAll(g, y - 1, t);
    }
  }

  lemma {:induction false} DropRowFullCount(g: Matrix, y: nat)
    requires IsGrid(g) && y < |g| && Full(g[y])
    ensures FullCount(DropRow(g, y)[..y + 1]) + 1 == FullCount(g[..y + 1])
  {
    var d := DropRow(g, y);
    assert d[..y + 1] == [EmptyRow()] + g[..y];
    assert g[..y + 1] == g[..y] + [g[y]];
    FullCountAppend([EmptyRow()], g[..y]);
    FullCountAppend(g[..y], [g[y]]);
    assert !Full(EmptyRow()) by { assert EmptyRow()[0] == 0; }
    assert FullCount([EmptyRow()]) == 0 by { assert [EmptyRow()][1..] == []; }
    assert FullCount([g[y]]) == 1 by { assert [g[y]][1..] == []; }
  }

  /** The two-full-rows grid is emptied completely by the intended sweep,
      which counts both lines. */
  lemma {:induction false} AdjacentFullRowsIntended(t: Tally)
    ensures NoFullRow(SweepAll(TwoFullRows(), Rows - 1, t).0)
    ensures SweepAll(TwoFullRows(), Rows - 1, t).1.lines == t.lines + 2
  {
    var g := TwoFullRows();
    SweepAllClearsEveryFullRow(g, Rows - 1, t);
    SweepAllCountsEveryFullRow(g, Rows - 1, t);
    TwoFullRowsCount();
  }

  lemma {:induction false} TwoFullRowsCount()
    ensures FullCount(TwoFullRows()[..Rows]) == 2
  {
    var g := TwoFullRows();
    assert g[..Rows] == g[..Rows - 2] + [g[Rows - 2]] + [g[Rows - 1]];
    FullCountAppend(g[..Rows - 2] + [g[Rows - 2]], [g[Rows - 1]]);
    FullCountAppend(g[..Rows - 2], [g[Rows - 2]]);
    assert g[Rows - 2] == FullRow() && g[Rows - 1] == FullRow();
    assert FullCount([FullRow()]) == 1 by { assert [FullRow()][1..] == []; }
    forall i | 0 <= i < Rows - 2 ensures !Full(g[i]) {
      assert g[i] == EmptyRow();
    }
    assert NoFullRow(g[..Rows - 2]);
    NoFullCount(g[..Rows - 2]);
  }

  /** The intended clear from scan position y down to 0 keeps the layout. */
  lemma {:induction false} SweepAllLayout(g: Matrix, y: int, t: Tally)
    requires IsGrid(g) && -1 <= y < |g|
    ensures SweptAllAsLaidOut(g, y, t)
    decreases y + 1, FullCount(g[..y + 1])
  {
    if y < 0 {
      assert g[..0] == [] && g[0..] == g;
      assert EmptyRows(0) + [] + g == g;
    } else if Full(g[y]) {
      DropRowShape(g, y);
      DropRowFullCount(g, y);
      SweepAllLayout(DropRow(g, y), y, Award(t));
      SweepAllLayoutDrop(g, y, t);
    } else {
      SweepAllLayout(g, y - 1, t);
      SweepAllLayoutKeep(g, y, t);
    }
  }

  /** Where every row goes in the intended clear from scan position y down:
      one empty row on top per full row of g[..y + 1], then its non-full
      rows in their old order, then the rows below y, untouched. */
  ghost predicate SweptAllAsLaidOut(g: Matrix, y: int, t: Tally)
    requires IsGrid(g) && -1 <= y < |g|
  {
    SweepAll(g, y, t).0 == EmptyRows(FullCount(g[..y + 1])) + NonFull(g[..y + 1]) + g[y + 1..]
  }

  /** The step of SweepAllLayout at a full row. */
  lemma {:induction false} SweepAllLayoutDrop(g: Matrix, y: int, t: Tally)
    requires IsGrid(g) && 0 <= y < |g| && Full(g[y])
    requires IsGrid(DropRow(g, y)) && SweptAllAsLaidOut(DropRow(g, y), y, Award(t))
    ensures SweptAllAsLaidOut(g, y, t)
  {
    var d, a, e := DropRow(g, y), Award(t), [EmptyRow()];
    assert SweepAll(g, y, t) == SweepAll(d, y, a);
    SplitAt(g, y);
    AppendRow(g[..y], g[y]);
    DropRowFullCount(g, y);
    DropRowSlices(g, y);
    NonFullAppend(e, g[..y]);
    NonFullOfEmptyRow();
    var c := FullCount(d[..y + 1]);
    EmptyRowsSnoc(c);
    assert d[y + 1..] == [] + g[y + 1..];
    Regroup(SweepAll(g, y, t).0, EmptyRows(c), NonFull(d[..y + 1]), d[y + 1..], e, NonFull(g[..y]), [], g[y + 1..],
      EmptyRows(FullCount(g[..y + 1])), NonFull(g[..y + 1]));
  }

  /** The step of SweepAllLayout at a row that is not full. */
  lemma {:induction false} SweepAllLayoutKeep(g: Matrix, y: int, t: Tally)
    requires IsGrid(g) && 0 <= y < |g| && !Full(g[y])
    requires SweptAllAsLaidOut(g, y - 1, t)
    ensures SweptAllAsLaidOut(g, y, t)
  {
    assert SweepAll(g, y, t) == SweepAll(g, y - 1, t);
    SplitAt(g, y);
    AppendRow(g[..y], g[y]);
    var target := EmptyRows(FullCount(g[..y + 1]));
    assert target == EmptyRows(FullCount(g[..y]));
    assert target + [] == target;
    Regroup(SweepAll(g, y, t).0, target, NonFull(g[..y]), g[y..], [], NonFull(g[..y]), [g[y]], g[y + 1..],
      target, NonFull(g[..y + 1]));
  }

  /** The intended clear of a whole grid: the full rows are replaced by
      empty rows on top, and the other rows keep their order below them. */
  lemma {:induction false} SweepAllKeepsRowOrder(g: Matrix, t: Tally)
    requires IsGrid(g)
    ensures SweepAll(g, Rows - 1, t).0 == EmptyRows(FullCount(g)) + NonFull(g)
  {
    SweepAllLayout(g, Rows - 1, t);
    assert g[..Rows] == g && g[Rows..] == [];
  }

  lemma {:induction false} NoFullCount(g: Matrix)
    requires NoFullRow(g)
    ensures FullCount(g) == 0
  {
    if g != [] {
      NoFullCount(g[1..]);
    }
  }

  // ---------------------------------------------------------------- gravity

  /** The gravity interval (ms) set whenever the level changes. */
  function DropInterval(level: int): (ms: int)
    ensures ms >= 100 && ms >= 1000 - level * 50
    ensures ms == 100 || ms == 1000 - level * 50
  {
    if 1000 - level * 50 > 100 then 1000 - level * 50 else 100
  }

  /** The interval startGame uses, without the lower bound. */
  function StartInterval(level: int): (ms: int)
    ensures level >= 1 ==> ms <= 950
    ensures ms == DropInterval(level) <==> level <= 18
  {
    1000 - level * 50
  }

  /** Higher levels never fall slower, and up to level 18 the start-up
      interval agrees with the recomputed one. */
  lemma {:induction false} IntervalFacts(level: int, higher: int)
    requires level <= higher
    ensures DropInterval(higher) <= DropInterval(level)
    ensures level <= 18 ==> StartInterval(level) == DropInterval(level)
  {
  }

  /** Every row the piece passed through on its way down from row `from`
      to its current row was a legal position. */
  ghost predicate FallsFreely(grid: Matrix, p: Piece, from: int)
    requires IsGrid(grid)
  {
    forall d | from < d <= p.y :: Fits(grid, p.x, d, p.shape)
  }

  lemma {:induction false} FallStep(grid: Matrix, p: Piece, from: int)
    requires IsGrid(grid) && FallsFreely(grid, p, from) && Fits(grid, p.x, p.y + 1, p.shape)
    ensures FallsFreely(grid, p.(y := p.y + 1), from)
  {
  }

  /** `landed` is where a hard drop of `p` stops: straight below it, reached
      through legal positions only, and unable to move one row further. */
  ghost predicate LandsAt(grid: Matrix, p: Piece, landed: Piece)
    requires IsGrid(grid)
  {
    && landed == p.(y := landed.y) && landed.y >= p.y
    && FallsFreely(grid, landed, p.y)
    && !Fits(grid, landed.x, landed.y + 1, landed.shape)
  }

  /** A hard drop has exactly one landing position. */
  lemma {:induction false} LandingIsUnique(grid: Matrix, p: Piece, a: Piece, b: Piece)
    requires IsGrid(grid) && LandsAt(grid, p, a) && LandsAt(grid, p, b)
    ensures a == b
  {
    // the row below each landing is blocked, so neither lies above the other
    assert !Fits(grid, b.x, a.y + 1, b.shape);
    assert !Fits(grid, a.x, b.y + 1, a.shape);
  }

  /** A spawned piece is a legal piece for the engine to hold. */
  lemma {:induction false} SpawnedIsSound(p: Piece)
    requires IsSpawn(p)
    ensures WellFormed(p) && InBounds(p)
  {
    SpawnIsSound(ColorIndex(p.color));
  }

  /** A piece that may be the active one: well formed and inside the walls and floor. */
  ghost predicate Active(p: Piece) {
    WellFormed(p) && InBounds(p)
  }

  // ---------------------------------------------------------------- engine

  /** The game object: grid, active and next piece, counters. `over` records
      that update found the promoted piece blocked; at that point the source
      stops its game-loop and gravity timers. */
  class Tetris {
    var grid: Matrix
    var currentPiece: Piece
    var nextPiece: Piece
    var score: int
    var level: int
    var lines: int
    var over: bool

    ghost predicate Valid()
      reads this
    {
      IsGrid(grid) && Active(currentPiece) && IsSpawn(nextPiece) && Consistent(Counters())
    }

    function Counters(): Tally
      reads this
    {
      Tally(lines, score, level)
    }

    /** Construction and init: an empty grid, two random pieces, zeroed counters at level 1. */
    constructor (first: nat, second: nat)
      requires first < |Pieces| && second < |Pieces|
      ensures Valid()
      ensures grid == CreateGrid() && currentPiece == SpawnPiece(first) && nextPiece == SpawnPiece(second)
      ensures score == 0 && level == 1 && lines == 0 && !over
    {
      grid := CreateGrid();
      currentPiece := SpawnPiece(first);
      nextPiece := SpawnPiece(second);
      score, level, lines := 0, 1, 0;
      over := false;
      SpawnIsSound(first);
      SpawnIsSound(second);
    }

    /** restart: the same state as a fresh game; the timers run again. */
    method Restart(first: nat, second: nat)
      requires first < |Pieces| && second < |Pieces|
      modifies this
      ensures Valid()
      ensures grid == CreateGrid() && currentPiece == SpawnPiece(first) && nextPiece == SpawnPiece(second)
      ensures score == 0 && level == 1 && lines == 0 && !over
    {
      grid := CreateGrid();
      score, level, lines := 0, 1, 0;
      currentPiece := SpawnPiece(first);
      nextPiece := SpawnPiece(second);
      over := false;
      SpawnIsSound(first);
      SpawnIsSound(second);
    }

    /** movePiece: shift by (dx, dy) when legal; a blocked downward move
        settles the piece into the grid (and nothing else). */
    method MovePiece(dx: int, dy: int)
      requires Valid()
      modifies this`currentPiece, this`grid
      ensures Valid()
      ensures var p := old(currentPiece);
        if IsValidMove(old(grid), p.x + dx, p.y + dy, p.shape) then
          currentPiece == p.(x := p.x + dx, y := p.y + dy) && grid == old(grid)
        else if dy > 0 then
          currentPiece == p && grid == Placed(old(grid), p)
        else
          currentPiece == p && grid == old(grid)
    {
      if IsValidMove(grid, currentPiece.x + dx, currentPiece.y + dy, currentPiece.shape) {
        var moved := currentPiece.(x := currentPiece.x + dx, y := currentPiece.y + dy);
        FitsInBounds(grid, moved);
        assert WellFormed(moved);
        currentPiece := moved;
      } else if dy > 0 {
        PlacePiece();
        assert Active(currentPiece) && Consistent(Counters());
      }
    }

    /** movePiece(0, 1) as evidently intended: a piece blocked below is
        settled and the next piece promoted at once, as update does, so a
        settled piece is never the active piece and, while the game runs,
        the active piece never overlaps the grid. After game over nothing
        moves. */
    method MoveDownOrLock(k: nat) returns (gameOver: bool)
      requires Valid() && k < |Pieces|
      requires Fits(grid, currentPiece.x, currentPiece.y, currentPiece.shape)
      modifies this
      ensures Valid()
      ensures over == (old(over) || gameOver)
      ensures !gameOver ==> Fits(grid, currentPiece.x, currentPiece.y, currentPiece.shape)
      ensures old(over) ==> !gameOver && unchanged(this)
      ensures var p := old(currentPiece);
        !old(over) && IsValidMove(old(grid), p.x, p.y + 1, p.shape) ==>
          !gameOver && currentPiece == p.(y := p.y + 1) && grid == old(grid)
      ensures var p := old(currentPiece);
        !old(over) && !IsValidMove(old(grid), p.x, p.y + 1, p.shape) ==>
          && (grid, Counters()) == Sweep(Placed(old(grid), p), Rows - 1, old(Counters()))
          && currentPiece == old(nextPiece) && nextPiece == SpawnPiece(k)
          && gameOver == !IsValidMove(grid, currentPiece.x, currentPiece.y, currentPiece.shape)
    {
      gameOver := false;
      if over {
        return;
      }
      if IsValidMove(grid, currentPiece.x, currentPiece.y + 1, currentPiece.shape) {
        var lower := currentPiece.(y := currentPiece.y + 1);
        FitsInBounds(grid, lower);
        currentPiece := lower;
        assert Fits(grid, currentPiece.x, currentPiece.y, currentPiece.shape);
      } else {
        gameOver := Tick(k);
        assert !gameOver ==> Fits(grid, currentPiece.x, currentPiece.y, currentPiece.shape);
      }
    }

    /** The gravity timer: movePiece(0, 1) while the game runs. */
    method GravityTick()
      requires Valid()
      modifies this`currentPiece, this`grid
      ensures Valid()
      ensures old(over) ==> currentPiece == old(currentPiece) && grid == old(grid)
      ensures !old(over) ==> var p := old(currentPiece);
        if IsValidMove(old(grid), p.x, p.y + 1, p.shape) then
          currentPiece == p.(y := p.y + 1) && grid == old(grid)
        else
          currentPiece == p && grid == Placed(old(grid), p)
    {
      if !over {
        MovePiece(0, 1);
      }
    }

    /** rotatePiece: take the clockwise turn only if it is legal at the same origin. */
    method RotatePiece()
      requires Valid()
      modifies this`currentPiece
      ensures Valid()
      ensures var p := old(currentPiece);
        var turned := RotateMatrix(p.shape);
        currentPiece == if IsValidMove(grid, p.x, p.y, turned) then p.(shape := turned) else p
    {
      var rotated := RotateMatrix(currentPiece.shape);
      if IsValidMove(grid, currentPiece.x, currentPiece.y, rotated) {
        RotateKeepsShape(currentPiece.shape);
        var turned := currentPiece.(shape := rotated);
        FitsInBounds(grid, turned);
        currentPiece := turned;
      }
    }

    /** placePiece: write the piece's catalog number into every grid cell
        under a filled cell of its shape, skipping rows above the top edge. */
    method PlacePiece()
      requires IsGrid(grid) && InBounds(currentPiece)
      modifies this`grid
      ensures IsGrid(grid)
      ensures grid == Placed(old(grid), currentPiece)
    {
      var p := currentPiece;
      var value := ColorIndex(p.color) + 1;
      var r := 0;
      while r < |p.shape|
        invariant 0 <= r <= |p.shape|
        invariant IsGrid(grid)
        invariant forall i, j | 0 <= i < Rows && 0 <= j < Cols ::
          grid[i][j] == if Covers(p, i, j) && i - p.y < r then value else old(grid)[i][j]
      {
        var c := 0;
        while c < |p.shape[r]|
          invariant 0 <= c <= |p.shape[r]|
          invariant IsGrid(grid)
          invariant forall i, j | 0 <= i < Rows && 0 <= j < Cols ::
            grid[i][j] == if Covers(p, i, j) && (i - p.y < r || (i - p.y == r && j - p.x < c)) then value else old(grid)[i][j]
        {
          if p.shape[r][c] != 0 {
            var gridY, gridX := p.y + r, p.x + c;
            if gridY >= 0 {
              grid := grid[gridY := grid[gridY][gridX := value]];
            }
          }
          c := c + 1;
        }
        r := r + 1;
      }
      forall i | 0 <= i < Rows
        ensures grid[i] == Placed(old(grid), p)[i]
      {
      }
    }

    /** clearLines: the bottom-up scan with splice and unshift, as written. */
    method ClearLines()
      requires IsGrid(grid) && Consistent(Counters())
      modifies this`grid, this`score, this`lines, this`level
      ensures IsGrid(grid) && Consistent(Counters())
      ensures (grid, Counters()) == Sweep(old(grid), Rows - 1, old(Counters()))
    {
      var y := Rows - 1;
      while y >= 0
        invariant -1 <= y < Rows
        invariant IsGrid(grid)
        invariant Sweep(grid, y, Counters()) == Sweep(old(grid), Rows - 1, old(Counters()))
        invariant Consistent(Counters())
      {
        ghost var before, t := grid, Counters();
        if Full(grid[y]) {
          DropRowShape(grid, y);
          AwardKeepsConsistent(t);
          // splice row y out and unshift an empty row on top
          grid := [EmptyRow()] + grid[..y] + grid[y + 1..];
          lines := lines + 1;
          score := score + 100 * level;
          if lines % 10 == 0 {
            level := level + 1;
          }
          assert grid == DropRow(before, y) && Counters() == Award(t);
          assert Sweep(before, y, t) == Sweep(grid, y - 1, Counters());
        } else {
          assert Sweep(before, y, t) == Sweep(grid, y - 1, t);
        }
        y := y - 1;
      }
    }

    /** The common tail of update and dropPiece: settle the active piece,
        clear lines, promote the next piece and draw a new next piece. */
    method Lock(k: nat)
      requires Valid() && k < |Pieces|
      modifies this`grid, this`score, this`lines, this`level, this`currentPiece, this`nextPiece
      ensures Valid()
      ensures (grid, Counters()) == Sweep(Placed(old(grid), old(currentPiece)), Rows - 1, old(Counters()))
      ensures currentPiece == old(nextPiece) && nextPiece == SpawnPiece(k)
    {
      PlacePiece();
      ClearLines();
      SpawnedIsSound(nextPiece);
      currentPiece := nextPiece;
      SpawnIsSound(k);
      nextPiece := SpawnPiece(k);
    }

    /** update: when the piece cannot move down, settle it, clear lines,
        promote the next piece and draw a new one; the game is over when the
        promoted piece does not fit where it stands. After game over the
        game-loop timer no longer fires, so a tick changes nothing. */
    method Tick(k: nat) returns (gameOver: bool)
      requires Valid() && k < |Pieces|
      modifies this
      ensures Valid()
      ensures over == (old(over) || gameOver)
      ensures old(over) ==> !gameOver && unchanged(this)
      ensures var p := old(currentPiece);
        !old(over) && IsValidMove(old(grid), p.x, p.y + 1, p.shape) ==> !gameOver && unchanged(this)
      ensures var p := old(currentPiece);
        !old(over) && !IsValidMove(old(grid), p.x, p.y + 1, p.shape) ==>
          && (grid, Counters()) == Sweep(Placed(old(grid), p), Rows - 1, old(Counters()))
          && currentPiece == old(nextPiece) && nextPiece == SpawnPiece(k)
          && gameOver == !IsValidMove(grid, currentPiece.x, currentPiece.y, currentPiece.shape)
    {
      gameOver := false;
      if over {
        return;
      }
      if !IsValidMove(grid, currentPiece.x, currentPiece.y + 1, currentPiece.shape) {
        Lock(k);
        if !IsValidMove(grid, currentPiece.x, currentPiece.y, currentPiece.shape) {
          gameOver := true;
          over := true;
        }
      }
    }

    /** The loop of dropPiece: move down while the next row down is legal. */
    method Fall()
      requires IsGrid(grid) && Active(currentPiece)
      modifies this`currentPiece
      ensures Active(currentPiece)
      ensures LandsAt(grid, old(currentPiece), currentPiece)
    {
      ghost var start := currentPiece;
      while IsValidMove(grid, currentPiece.x, currentPiece.y + 1, currentPiece.shape)
        invariant Active(currentPiece)
        invariant currentPiece == start.(y := currentPiece.y) && currentPiece.y >= start.y
        invariant FallsFreely(grid, currentPiece, start.y)
        decreases Rows - currentPiece.y
      {
        OriginAboveFloor(currentPiece);
        var lower := currentPiece.(y := currentPiece.y + 1);
        FitsInBounds(grid, lower);
        FallStep(grid, currentPiece, start.y);
        currentPiece := lower;
      }
    }

    /** dropPiece: fall as far as legal, then settle, clear lines and
        promote the next piece, with no game-over check. */
    method DropPiece(k: nat) returns (ghost landed: Piece)
      requires Valid() && k < |Pieces|
      modifies this`grid, this`score, this`lines, this`level, this`currentPiece, this`nextPiece
      ensures Valid()
      ensures LandsAt(old(grid), old(currentPiece), landed)
      ensures (grid, Counters()) == Sweep(Placed(old(grid), landed), Rows - 1, old(Counters()))
      ensures currentPiece == old(nextPiece) && nextPiece == SpawnPiece(k)
    {
      Fall();
      landed := currentPiece;
      Lock(k);
    }
  }
}
