/**
 * The game session: the board, whose turn it is and whether the game is
 * still running, updated in place by clicks, computer moves and restarts.
 */
module TicTacToe {
  import opened Rules
  import opened Opponent

  datatype Difficulty = Easy | Medium | Hard

  /** The game accepts a click on `index` only while it runs and the cell is empty. */
  predicate AcceptsClick(b: Board, active: bool, index: int) {
    0 <= index < 9 && b[index] == Empty && active
  }

  /** Some line is filled with one mark, or no cell is empty: the game is over. */
  ghost predicate RoundOver(b: Board) {
    (exists k: nat :: k < |WinningConditions| && LineWon(b, k)) || Empty !in b
  }

  /** The evaluator has a result exactly when the round is over. */
  lemma RoundOverIffDecided(b: Board)
    ensures RoundOver(b) <==> CheckWinner(b).Some?
  {
  }

  class Game {
    var cells: array<Cell>
    var currentPlayer: Player
    var gameActive: bool
    var onePlayerMode: bool
    var difficulty: Difficulty

    ghost predicate Valid()
      reads this
    {
      cells.Length == 9
    }

    /** The board as the rules see it. */
    ghost function Cells(): Board
      reads this, cells
      requires Valid()
    {
      cells[..]
    }

    /** A new game: an empty board, X to move, the game running. */
    constructor (onePlayerMode: bool, difficulty: Difficulty)
      ensures Valid() && fresh(cells)
      ensures Cells() == EmptyBoard
      ensures currentPlayer == X && gameActive
      ensures this.onePlayerMode == onePlayerMode && this.difficulty == difficulty
    {
      cells := new Cell[9](_ => Empty);
      currentPlayer := X;
      gameActive := true;
      this.onePlayerMode := onePlayerMode;
      this.difficulty := difficulty;
      new;
      assert cells[..] == EmptyBoard;
    }

    /**
     * Ends the game when some line is filled with one mark or the board is
     * full; otherwise leaves `gameActive` as it was.
     */
    method CheckForWinner()
      requires Valid()
      modifies this`gameActive
      ensures gameActive == (old(gameActive) && !RoundOver(Cells()))
      ensures gameActive == (old(gameActive) && CheckWinner(Cells()).None?)
    {
      var b := cells[..];
      var roundWon := false;
      for k := 0 to |WinningConditions|
        invariant forall j: nat | j < k :: !LineWon(b, j)
        invariant !roundWon
      {
        var (x, y, z) := WinningConditions[k];
        if b[x] == Empty || b[y] == Empty || b[z] == Empty {
          continue;
        }
        if b[x] == b[y] && b[y] == b[z] {
          assert LineWon(b, k);
          roundWon := true;
          break;
        }
      }
      assert roundWon ==> exists j: nat :: j < |WinningConditions| && LineWon(b, j);
      if roundWon {
        gameActive := false;
        return;
      }
      if Empty !in b {
        gameActive := false;
        return;
      }
    }

    /**
     * A click on cell `index`. An occupied cell, an index outside the board
     * or a finished game leaves everything unchanged. Otherwise the cell gets
     * the current player's mark, the game is checked for its end and the turn
     * passes to the other player; `computerTurn` says that the computer is
     * to answer (one-player mode, game still running, X just moved).
     */
    method HandleCellClick(index: int) returns (computerTurn: bool)
      requires Valid()
      modifies cells, this`currentPlayer, this`gameActive
      ensures Valid()
      ensures !AcceptsClick(old(Cells()), old(gameActive), index) ==>
        && Cells() == old(Cells())
        && gameActive == old(gameActive)
        && currentPlayer == old(currentPlayer)
        && !computerTurn
      ensures AcceptsClick(old(Cells()), old(gameActive), index) ==>
        && Cells() == old(Cells())[index := Mark(old(currentPlayer))]
        && gameActive == CheckWinner(Cells()).None?
        && currentPlayer == Other(old(currentPlayer))
        && computerTurn == (onePlayerMode && gameActive && old(currentPlayer) == X)
    {
      if !(0 <= index < 9) || cells[index] != Empty || !gameActive {
        return false;
      }
      cells[index] := Mark(currentPlayer);
      CheckForWinner();
      if onePlayerMode && gameActive && currentPlayer == X {
        currentPlayer := O;
        computerTurn := true;
      } else {
        currentPlayer := if currentPlayer == X then O else X;
        computerTurn := false;
      }
    }

    /**
     * The computer's answer: the move the current difficulty selects
     * (`pick` stands for the random roll), played as O; then the game is
     * checked for its end and X is to move. On a full board nothing changes.
     */
    method ComputerMove(pick: nat) returns (move: Option<nat>)
      requires Valid()
      modifies cells, this`currentPlayer, this`gameActive
      ensures Valid()
      ensures move.None? <==> Empty !in old(Cells())
      ensures move.Some? ==> move.value < 9 && old(Cells())[move.value] == Empty
      ensures difficulty == Easy ==> move == RandomMove(old(Cells()), pick)
      ensures difficulty == Medium ==> move == MediumMove(old(Cells()), pick)
      ensures difficulty == Hard && move.Some? ==> IsHardMove(old(Cells()), move.value)
      ensures move.None? ==>
        Cells() == old(Cells()) && gameActive == old(gameActive) && currentPlayer == old(currentPlayer)
      ensures move.Some? ==>
        && Cells() == old(Cells())[move.value := Mark(O)]
        && gameActive == (old(gameActive) && CheckWinner(Cells()).None?)
        && currentPlayer == X
    {
      match difficulty {
        case Easy => move := RandomMove(cells[..], pick);
        case Medium => move := MediumMove(cells[..], pick);
        case Hard => move := GetHardMove(cells);
      }
      if move.Some? {
        cells[move.value] := Mark(O);
        CheckForWinner();
        currentPlayer := X;
      }
    }

    /** A new round: a fresh empty board, the game running, X to move. */
    method RestartGame()
      modifies this`cells, this`gameActive, this`currentPlayer
      ensures Valid() && fresh(cells)
      ensures Cells() == EmptyBoard
      ensures gameActive && currentPlayer == X
    {
      cells := new Cell[9](_ => Empty);
      gameActive := true;
      currentPlayer := X;
      assert cells[..] == EmptyBoard;
    }
  }

  /** The boards of the round X 0, O 4, X 1, O 3, X 2: open until the last move, which wins the top row for X. */
  lemma TopRowBoards()
    ensures var b1 := EmptyBoard[0 := Mark(X)];
      var b2 := b1[4 := Mark(O)];
      var b3 := b2[1 := Mark(X)];
      var b4 := b3[3 := Mark(O)];
      var b5 := b4[2 := Mark(X)];
      && CheckWinner(b1) == None && CheckWinner(b2) == None
      && CheckWinner(b3) == None && CheckWinner(b4) == None
      && CheckWinner(b5) == Some(Win(X))
  {
    var e, x, o := Empty, Mark(X), Mark(O);
    assert EmptyBoard[0 := x] == [x, e, e, e, e, e, e, e, e];
    NoLineWonByCases([x, e, e, e, e, e, e, e, e]);
    NoLineWonByCases([x, e, e, e, o, e, e, e, e]);
    NoLineWonByCases([x, x, e, e, o, e, e, e, e]);
    NoLineWonByCases([x, x, e, o, o, e, e, e, e]);
    assert IsFirstWonLine([x, x, x, o, o, e, e, e, e], 0);
  }

  /** A two-player round X 0, O 4, X 1, O 3, X 2, played through the game's methods, is a top-row win for X. */
  method TopRowRound() {
    var g := new Game(false, Easy);
    TopRowBoards();
    var turn := g.HandleCellClick(0);
    turn := g.HandleCellClick(4);
    turn := g.HandleCellClick(1);
    turn := g.HandleCellClick(3);
    turn := g.HandleCellClick(2);
    assert CheckWinner(g.Cells()) == Some(Win(X));
    assert !g.gameActive;
    ghost var before := g.Cells();
    turn := g.HandleCellClick(5);
    assert g.Cells() == before;
  }

  /** The board after the opening X 0, O 1, X 2, O 4 of the drawn round. */
  const OpeningBoard: Board := EmptyBoard[0 := Mark(X)][1 := Mark(O)][2 := Mark(X)][4 := Mark(O)]

  /** The boards of the opening X 0, O 1, X 2, O 4: all open. */
  lemma DrawOpeningBoards()
    ensures var b1 := EmptyBoard[0 := Mark(X)];
      var b2 := b1[1 := Mark(O)];
      var b3 := b2[2 := Mark(X)];
      var b4 := b3[4 := Mark(O)];
      && CheckWinner(b1) == None && CheckWinner(b2) == None
      && CheckWinner(b3) == None && CheckWinner(b4) == None
      && b4 == OpeningBoard
  {
    var e, x, o := Empty, Mark(X), Mark(O);
    var b1 := EmptyBoard[0 := x];
    assert b1 == [x, e, e, e, e, e, e, e, e];
    NoLineWonByCases(b1);
    var b2 := b1[1 := o];
    NoLineWonByCases(b2);
    var b3 := b2[2 := x];
    NoLineWonByCases(b3);
    var b4 := b3[4 := o];
    NoLineWonByCases(b4);
  }

  /** The boards after the opening, X 3, O 5, X 7, O 6, X 8: open until the board is full, then a draw. */
  lemma DrawEndingBoards()
    ensures var b5 := OpeningBoard[3 := Mark(X)];
      var b6 := b5[5 := Mark(O)];
      var b7 := b6[7 := Mark(X)];
      var b8 := b7[6 := Mark(O)];
      var b9 := b8[8 := Mark(X)];
      && CheckWinner(b5) == None && CheckWinner(b6) == None
      && CheckWinner(b7) == None && CheckWinner(b8) == None
      && CheckWinner(b9) == Some(Draw)
  {
    var e, x, o := Empty, Mark(X), Mark(O);
    var b4 := OpeningBoard;
    assert b4 == [x, o, x, e, o, e, e, e, e];
    var b5 := b4[3 := x];
    NoLineWonByCases(b5);
    var b6 := b5[5 := o];
    NoLineWonByCases(b6);
    var b7 := b6[7 := x];
    NoLineWonByCases(b7);
    var b8 := b7[6 := o];
    NoLineWonByCases(b8);
    var b9 := b8[8 := x];
    assert b9 == [x, o, x, x, o, o, o, x, x];
    NoLineWonByCases(b9);
    assert b8[8] == e;
  }

  /** A two-player click on an empty cell that leaves the game open: the mark is placed and the turn passes. */
  method ClickOpen(g: Game, index: Index)
    requires g.Valid() && g.gameActive && !g.onePlayerMode
    requires g.Cells()[index] == Empty
    requires CheckWinner(g.Cells()[index := Mark(g.currentPlayer)]) == None
    modifies g.cells, g`currentPlayer, g`gameActive
    ensures g.Valid() && g.gameActive && !g.onePlayerMode
    ensures g.Cells() == old(g.Cells())[index := Mark(old(g.currentPlayer))]
    ensures g.currentPlayer == Other(old(g.currentPlayer))
  {
    var turn := g.HandleCellClick(index);
  }

  /** A restarted two-player game after the opening X 0, O 1, X 2, O 4, with X to move. */
  method PlayDrawOpening() returns (g: Game)
    ensures fresh(g) && fresh(g.cells) && g.Valid()
    ensures g.gameActive && !g.onePlayerMode && g.currentPlayer == X
    ensures g.Cells() == OpeningBoard
  {
    g := new Game(false, Easy);
    g.RestartGame();
    DrawOpeningBoards();
    ClickOpen(g, 0);
    ClickOpen(g, 1);
    ClickOpen(g, 2);
    ClickOpen(g, 4);
  }

  /** The two-player round X 0, O 1, X 2, O 4, X 3, O 5, X 7, O 6, X 8, played after a restart, ends in a draw. */
  method DrawRound() {
    var g := PlayDrawOpening();
    DrawEndingBoards();
    ClickOpen(g, 3);
    ClickOpen(g, 5);
    ClickOpen(g, 7);
    ClickOpen(g, 6);
    var turn := g.HandleCellClick(8);
    assert CheckWinner(g.Cells()) == Some(Draw);
    assert !g.gameActive;
  }

  /**
   * The round X 0, O 1, X 2, O 4, X 7, O 6, X 5, O 3, X 8 fills the board
   * but is not a draw: the last mark completes the right column 2, 5, 8 for X.
   */
  lemma RightColumnIsNotADraw()
    ensures var b := EmptyBoard[0 := Mark(X)][1 := Mark(O)][2 := Mark(X)][4 := Mark(O)]
      [7 := Mark(X)][6 := Mark(O)][5 := Mark(X)][3 := Mark(O)][8 := Mark(X)];
      Empty !in b && LineWon(b, 5) && CheckWinner(b) == Some(Win(X))
  {
    var e, x, o := Empty, Mark(X), Mark(O);
    var b := [x, o, x, o, o, x, o, x, x];
    assert EmptyBoard[0 := Mark(X)][1 := Mark(O)][2 := Mark(X)][4 := Mark(O)]
      [7 := Mark(X)][6 := Mark(O)][5 := Mark(X)][3 := Mark(O)][8 := Mark(X)] == b;
    assert !LineWon(b, 0) && !LineWon(b, 1) && !LineWon(b, 2) && !LineWon(b, 3) && !LineWon(b, 4);
    assert IsFirstWonLine(b, 5);
  }
}
