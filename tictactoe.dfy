/** Tic-tac-toe against a rule-based opponent: the human plays X, the
    program plays O on a board of nine cells numbered row by row. */
module TicTacToeGame {

  const Size := 9

  /** A cell: empty, or taken by X or O. */
  datatype Mark = Empty | X | O

  /** Three cell indices that win when they hold the same player's mark. */
  datatype Line = Line(a: nat, b: nat, c: nat)

  /** The eight winning lines: three rows, three columns, two diagonals. */
  const WinPatterns: seq<Line> := [
    Line(0, 1, 2), Line(3, 4, 5), Line(6, 7, 8),
    Line(0, 3, 6), Line(1, 4, 7), Line(2, 5, 8),
    Line(0, 4, 8), Line(2, 4, 6)
  ]

  /** The corner cells, in the order the opponent lists them. */
  const Corners: seq<nat> := [0, 2, 6, 8]

  predicate IsBoard(board: seq<Mark>) {
    |board| == Size
  }

  /** Every index of the line holds `player`'s mark. */
  predicate Complete(board: seq<Mark>, player: Mark, l: Line) {
    l.a < |board| && l.b < |board| && l.c < |board|
    && board[l.a] == player && board[l.b] == player && board[l.c] == player
  }

  // ------------------------------------------------------------ predicates

  /** checkWinner: some listed line is complete for `player`. */
  function CheckWinner(board: seq<Mark>, player: Mark): (won: bool)
    ensures won <==> exists k | 0 <= k < |WinPatterns| :: Complete(board, player, WinPatterns[k])
  {
    AnyComplete(board, player, 0)
  }

  function AnyComplete(board: seq<Mark>, player: Mark, from: nat): (won: bool)
    requires from <= |WinPatterns|
    decreases |WinPatterns| - from
    ensures won <==> exists k | from <= k < |WinPatterns| :: Complete(board, player, WinPatterns[k])
  {
    if from == |WinPatterns| then false
    else Complete(board, player, WinPatterns[from]) || AnyComplete(board, player, from + 1)
  }

  /** Row r of the 3 x 3 grid holds `player`'s mark throughout. */
  predicate FullRow(board: seq<Mark>, player: Mark, r: int)
    requires IsBoard(board)
  {
    0 <= r < 3 && board[3 * r] == player && board[3 * r + 1] == player && board[3 * r + 2] == player
  }

  /** Column c of the 3 x 3 grid holds `player`'s mark throughout. */
  predicate FullColumn(board: seq<Mark>, player: Mark, c: int)
    requires IsBoard(board)
  {
    0 <= c < 3 && board[c] == player && board[c + 3] == player && board[c + 6] == player
  }

  /** Three in a row, column or diagonal of the 3 x 3 grid. */
  ghost predicate ThreeInARow(board: seq<Mark>, player: Mark)
    requires IsBoard(board)
  {
    || (exists r :: FullRow(board, player, r))
    || (exists c :: FullColumn(board, player, c))
    || (board[0] == player && board[4] == player && board[8] == player)
    || (board[2] == player && board[4] == player && board[6] == player)
  }

  /** Every listed pattern is a row, a column or a diagonal. */
  lemma {:induction false} WinnerHasThreeInARow(board: seq<Mark>, player: Mark)
    requires IsBoard(board) && CheckWinner(board, player)
    ensures ThreeInARow(board, player)
  {
    var k :| 0 <= k < |WinPatterns| && Complete(board, player, WinPatterns[k]);
    if k < 3 {
      assert FullRow(board, player, k);
    } else if k < 6 {
      assert FullColumn(board, player, k - 3);
    }
  }

  /** Every row, column and diagonal is a listed pattern. */
  lemma {:induction false} ThreeInARowIsWinner(board: seq<Mark>, player: Mark)
    requires IsBoard(board) && ThreeInARow(board, player)
    ensures CheckWinner(board, player)
  {
    if exists r :: FullRow(board, player, r) {
      var r :| FullRow(board, player, r);
      assert Complete(board, player, WinPatterns[r]);
    } else if exists c :: FullColumn(board, player, c) {
      var c :| FullColumn(board, player, c);
      assert Complete(board, player, WinPatterns[c + 3]);
    } else if board[0] == player && board[4] == player && board[8] == player {
      assert Complete(board, player, WinPatterns[6]);
    } else {
      assert Complete(board, player, WinPatterns[7]);
    }
  }

  /** checkWinner holds exactly when the player has three in a row. */
  lemma {:induction false} WinnerIffThreeInARow(board: seq<Mark>, player: Mark)
    requires IsBoard(board)
    ensures CheckWinner(board, player) <==> ThreeInARow(board, player)
  {
    if CheckWinner(board, player) {
      WinnerHasThreeInARow(board, player);
    }
    if ThreeInARow(board, player) {
      ThreeInARowIsWinner(board, player);
    }
  }

  /** isBoardFull: no cell is empty. */
  predicate IsBoardFull(board: seq<Mark>)
    ensures IsBoardFull(board) <==> forall i | 0 <= i < |board| :: board[i] != Empty
  {
    Empty !in board
  }

  /** The first empty cell at or after `from`, or -1. */
  function FirstEmpty(board: seq<Mark>, from: nat): (i: int)
    requires from <= |board|
    decreases |board| - from
    ensures i == -1 || from <= i < |board|
    ensures i == -1 <==> forall j | from <= j < |board| :: board[j] != Empty
    ensures i != -1 ==> board[i] == Empty && forall j | from <= j < i :: board[j] != Empty
  {
    if from == |board| then -1
    else if board[from] == Empty then from
    else FirstEmpty(board, from + 1)
  }

  // ------------------------------------------------------- the opponent

  /** Cell i is empty and `player` would complete a line by taking it. */
  predicate WinningCell(board: seq<Mark>, player: Mark, i: int)
    ensures WinningCell(board, player, i) ==> 0 <= i < |board| && board[i] == Empty
  {
    0 <= i < |board| && board[i] == Empty && CheckWinner(board[i := player], player)
  }

  /** A winning cell is exactly an empty cell whose taking gives `player`
      a full row, column or diagonal. */
  lemma WinningCellMeans(board: seq<Mark>, player: Mark, i: int)
    requires IsBoard(board)
    ensures WinningCell(board, player, i) <==>
      0 <= i < 9 && board[i] == Empty && ThreeInARow(board[i := player], player)
  {
    if 0 <= i < 9 {
      WinnerIffThreeInARow(board[i := player], player);
    }
  }

  /** The first cell at or after `from` where `player` would win, or -1:
      one of the trial loops of getBestMove. */
  function FirstWinning(board: seq<Mark>, player: Mark, from: nat): (i: int)
    requires from <= |board|
    decreases |board| - from
    ensures i == -1 || from <= i < |board|
    ensures i == -1 <==> forall j | from <= j < |board| :: !WinningCell(board, player, j)
    ensures i != -1 ==> WinningCell(board, player, i) && forall j | from <= j < i :: !WinningCell(board, player, j)
  {
    if from == |board| then -1
    else if WinningCell(board, player, from) then from
    else FirstWinning(board, player, from + 1)
  }

  /** availableCorners: the corners that are still empty, in corner order. */
  function AvailableCorners(board: seq<Mark>, corners: seq<nat>): (r: seq<nat>)
    ensures forall c :: c in r <==> c in corners && c < |board| && board[c] == Empty
    ensures r != [] ==> r[0] in corners && r[0] < |board| && board[r[0]] == Empty
  {
    if corners == [] then []
    else
      var rest := AvailableCorners(board, corners[1..]);
      assert forall c :: c in corners <==> c == corners[0] || c in corners[1..];
      if corners[0] < |board| && board[corners[0]] == Empty then [corners[0]] + rest else rest
  }

  /** getBestMove with `pick` standing for the random corner choice: win,
      else block, else the centre, else a free corner, else the first free
      cell, else -1. */
  function BestMove(board: seq<Mark>, pick: nat): (m: int)
    requires IsBoard(board)
    ensures m == -1 || (0 <= m < Size && board[m] == Empty)
  {
    var win := FirstWinning(board, O, 0);
    var block := FirstWinning(board, X, 0);
    var corners := AvailableCorners(board, Corners);
    if win != -1 then win
    else if block != -1 then block
    else if board[4] == Empty then 4
    else if |corners| > 0 then
      assert corners[pick % |corners|] in corners;
      corners[pick % |corners|]
    else FirstEmpty(board, 0)
  }

  /** The opponent finds no cell exactly when the board is full. */
  lemma {:induction false} BestMoveNoneIffFull(board: seq<Mark>, pick: nat)
    requires IsBoard(board)
    ensures BestMove(board, pick) == -1 <==> IsBoardFull(board)
  {
    if !IsBoardFull(board) {
      var e :| 0 <= e < |board| && board[e] == Empty;
    }
  }

  /** Neither player can complete a line with one more mark. */
  ghost predicate NoThreat(board: seq<Mark>) {
    forall i :: !WinningCell(board, O, i) && !WinningCell(board, X, i)
  }

  /** First priority: the lowest cell where O wins. */
  lemma {:induction false} BestMoveTakesWin(board: seq<Mark>, pick: nat, i: int)
    requires IsBoard(board) && WinningCell(board, O, i)
    ensures var m := BestMove(board, pick);
      WinningCell(board, O, m) && forall j | 0 <= j < m :: !WinningCell(board, O, j)
  {
    assert FirstWinning(board, O, 0) != -1;
  }

  /** Second priority: without a win, the lowest cell that stops X winning. */
  lemma {:induction false} BestMoveBlocks(board: seq<Mark>, pick: nat, i: int)
    requires IsBoard(board) && (forall j :: !WinningCell(board, O, j)) && WinningCell(board, X, i)
    ensures var m := BestMove(board, pick);
      WinningCell(board, X, m) && forall j | 0 <= j < m :: !WinningCell(board, X, j)
  {
    assert FirstWinning(board, O, 0) == -1;
    assert FirstWinning(board, X, 0) != -1;
  }

  /** Third priority: with no threat on the board, the free centre. */
  lemma {:induction false} BestMoveTakesCentre(board: seq<Mark>, pick: nat)
    requires IsBoard(board) && NoThreat(board) && board[4] == Empty
    ensures BestMove(board, pick) == 4
  {
    assert FirstWinning(board, O, 0) == -1 && FirstWinning(board, X, 0) == -1;
  }

  /** Fourth priority: with the centre taken, a free corner when there is one. */
  lemma {:induction false} BestMoveTakesCorner(board: seq<Mark>, pick: nat, c: nat)
    requires IsBoard(board) && NoThreat(board) && board[4] != Empty
    requires c in Corners && board[c] == Empty
    ensures BestMove(board, pick) in Corners
  {
    assert FirstWinning(board, O, 0) == -1 && FirstWinning(board, X, 0) == -1;
    var corners := AvailableCorners(board, Corners);
    assert c in corners;
    assert corners[pick % |corners|] in corners;
  }

  /** Last resort: with the centre and all corners taken, the first free cell. */
  lemma {:induction false} BestMoveFirstFree(board: seq<Mark>, pick: nat)
    requires IsBoard(board) && NoThreat(board) && board[4] != Empty
    requires forall c | c in Corners :: board[c] != Empty
    ensures BestMove(board, pick) == FirstEmpty(board, 0)
  {
    assert FirstWinning(board, O, 0) == -1 && FirstWinning(board, X, 0) == -1;
  }

  // ----------------------------------------------------------------- game

  /** The game object: the board, whose turn it is, and whether it ended. */
  class TicTacToe {
    var board: seq<Mark>
    var currentPlayer: Mark
    var gameOver: bool

    ghost predicate Valid()
      reads this
    {
      IsBoard(board) && currentPlayer != Empty
    }

    constructor ()
      ensures Valid()
      ensures board == seq(Size, _ => Empty) && currentPlayer == X && !gameOver
    {
      board := seq(Size, _ => Empty);
      currentPlayer := X;
      gameOver := false;
    }

    /** restart: an empty board, X to play, the game running. */
    method Restart()
      modifies this
      ensures Valid()
      ensures board == seq(Size, _ => Empty) && currentPlayer == X && !gameOver
    {
      board := seq(Size, _ => Empty);
      currentPlayer := X;
      gameOver := false;
    }

    /** makeMove: the human's click on cell `index`. Refused when the game is
        over, the cell is taken (or does not exist) or it is O's turn. An
        accepted move ends the game on an X line or a full board; otherwise
        O is to play and the opponent's turn is scheduled (`aiTurn`). */
    method MakeMove(index: int) returns (aiTurn: bool)
      requires Valid()
      modifies this
      ensures Valid()
      ensures var refused := old(gameOver) || !(0 <= index < Size) || old(board)[index] != Empty || old(currentPlayer) != X;
        && (refused ==> !aiTurn && board == old(board) && currentPlayer == old(currentPlayer) && gameOver == old(gameOver))
        && (!refused ==>
              && board == old(board)[index := X]
              && (gameOver <==> CheckWinner(board, X) || IsBoardFull(board))
              && aiTurn == !gameOver
              && currentPlayer == if gameOver then X else O)
    {
      if gameOver || !(0 <= index < Size) || board[index] != Empty || currentPlayer != X {
        return false;
      }
      board := board[index := X];
      if CheckWinner(board, X) {
        gameOver := true;
        return false;
      }
      if Empty !in board {
        gameOver := true;
        return false;
      }
      currentPlayer := O;
      aiTurn := true;
    }

    /** One trial loop of getBestMove: try `player`'s mark on each empty
        cell in turn, undo it, and stop at the first that wins. */
    method FirstTrialWin(player: Mark) returns (move: int)
      requires Valid()
      modifies this`board
      ensures board == old(board)
      ensures move == FirstWinning(board, player, 0)
    {
      var i := 0;
      while i < Size
        invariant 0 <= i <= Size && board == old(board)
        invariant FirstWinning(board, player, 0) == FirstWinning(board, player, i)
      {
        if board[i] == Empty {
          board := board[i := player];
          var wins := CheckWinner(board, player);
          board := board[i := Empty];
          assert board == old(board);
          if wins {
            return i;
          }
        }
        i := i + 1;
      }
      return -1;
    }

    /** getBestMove: trial writes of O, then of X, each undone at once, then
        the centre, a corner drawn by `pick`, the first empty cell. */
    method GetBestMove(pick: nat) returns (move: int)
      requires Valid()
      modifies this`board
      ensures board == old(board)
      ensures move == BestMove(board, pick)
    {
      move := FirstTrialWin(O);
      if move != -1 {
        return;
      }
      move := FirstTrialWin(X);
      if move != -1 {
        return;
      }
      if board[4] == Empty {
        return 4;
      }
      var corners := AvailableCorners(board, Corners);
      if |corners| > 0 {
        return corners[pick % |corners|];
      }
      var i := 0;
      while i < Size
        invariant 0 <= i <= Size
        invariant FirstEmpty(board, 0) == FirstEmpty(board, i)
      {
        if board[i] == Empty {
          return i;
        }
        i := i + 1;
      }
      return -1;
    }

    /** aiMove: play O on the chosen cell; end the game on an O line or a
        full board, otherwise hand the turn back to X. Nothing happens when
        no cell is free. */
    method AiMove(pick: nat)
      requires Valid()
      modifies this
      ensures Valid()
      ensures var m := BestMove(old(board), pick);
        && (m == -1 ==> board == old(board) && currentPlayer == old(currentPlayer) && gameOver == old(gameOver))
        && (m != -1 ==>
              && board == old(board)[m := O]
              && (CheckWinner(board, O) || IsBoardFull(board) ==> gameOver && currentPlayer == old(currentPlayer))
              && (!CheckWinner(board, O) && !IsBoardFull(board) ==> currentPlayer == X && gameOver == old(gameOver)))
    {
      var best := GetBestMove(pick);
      if best != -1 {
        board := board[best := O];
        if CheckWinner(board, O) {
          gameOver := true;
          return;
        }
        if Empty !in board {
          gameOver := true;
          return;
        }
        currentPlayer := X;
      }
    }
  }
}
