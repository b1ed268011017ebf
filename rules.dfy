/**
 * The rules engine of the tic-tac-toe game: the 3x3 board, the eight
 * winning lines, the board evaluator and the list of empty cells.
 */
module Rules {

  datatype Option<T> = None | Some(value: T)

  /** The two marks a player can put on the board. */
  datatype Player = X | O

  /** A cell of the board: empty ('' in the game) or holding a mark. */
  datatype Cell = Empty | Mark(player: Player)

  /** A cell index, 0..8 in row-major order. */
  type Index = i: nat | i < 9

  /** The nine cells of the board, in row-major order. */
  type Board = b: seq<Cell> | |b| == 9
    witness [Empty, Empty, Empty, Empty, Empty, Empty, Empty, Empty, Empty]

  const EmptyBoard: Board := seq(9, _ => Empty)

  /** The three rows, three columns and two diagonals, in the order every scan visits them. */
  const WinningConditions: seq<(Index, Index, Index)> := [
    (0, 1, 2),
    (3, 4, 5),
    (6, 7, 8),
    (0, 3, 6),
    (1, 4, 7),
    (2, 5, 8),
    (0, 4, 8),
    (2, 4, 6)
  ]

  /** What the evaluator reports about a finished game. */
  datatype Outcome = Win(winner: Player) | Draw

  function Other(p: Player): Player {
    if p == X then O else X
  }

  /** Line `k` is filled with three copies of one mark. */
  predicate LineWon(b: Board, k: nat)
    requires k < |WinningConditions|
  {
    var (x, y, z) := WinningConditions[k];
    b[x] != Empty && b[x] == b[y] && b[y] == b[z]
  }

  ghost predicate NoLineWon(b: Board) {
    forall k: nat | k < |WinningConditions| :: !LineWon(b, k)
  }

  /** Line `k` is won, and no line before it in the scan order is. */
  ghost predicate IsFirstWonLine(b: Board, k: nat) {
    k < |WinningConditions| && LineWon(b, k) && forall j: nat | j < k :: !LineWon(b, j)
  }

  /** The three indices of each line are pairwise distinct. */
  lemma LineIndicesDistinct(k: nat)
    requires k < |WinningConditions|
    ensures WinningConditions[k].0 != WinningConditions[k].1
    ensures WinningConditions[k].1 != WinningConditions[k].2
    ensures WinningConditions[k].0 != WinningConditions[k].2
  {
    assert k == 0 || k == 1 || k == 2 || k == 3 || k == 4 || k == 5 || k == 6 || k == 7;
  }

  /** A board on which none of the eight lines, checked one by one, is won has no won line. */
  lemma {:induction false} NoLineWonByCases(b: Board)
    requires !LineWon(b, 0) && !LineWon(b, 1) && !LineWon(b, 2) && !LineWon(b, 3)
    requires !LineWon(b, 4) && !LineWon(b, 5) && !LineWon(b, 6) && !LineWon(b, 7)
    ensures NoLineWon(b)
  {
    forall k: nat | k < |WinningConditions|
      ensures !LineWon(b, k)
    {
      assert k == 0 || k == 1 || k == 2 || k == 3 || k == 4 || k == 5 || k == 6 || k == 7;
    }
  }

  /** The first won line at position `k` or later of the scan, if any. */
  function FirstWonLine(b: Board, k: nat): (r: Option<nat>)
    requires k <= |WinningConditions|
    ensures r.Some? ==> k <= r.value < |WinningConditions| && LineWon(b, r.value)
    ensures r.Some? ==> forall j: nat | k <= j < r.value :: !LineWon(b, j)
    ensures r.None? ==> forall j: nat | k <= j < |WinningConditions| :: !LineWon(b, j)
    decreases |WinningConditions| - k
  {
    if k == |WinningConditions| then None
    else if LineWon(b, k) then Some(k)
    else FirstWonLine(b, k + 1)
  }

  /**
   * The board evaluator: the mark of the first won line, a draw when no line
   * is won and no cell is empty, and None while the game is still open.
   */
  function CheckWinner(b: Board): (r: Option<Outcome>)
    ensures forall k: nat :: IsFirstWonLine(b, k) ==>
      r == Some(Win(b[WinningConditions[k].0].player))
    ensures (r.Some? && r.value.Win?) <==> exists k: nat :: k < |WinningConditions| && LineWon(b, k)
    ensures r == Some(Draw) <==> NoLineWon(b) && Empty !in b
    ensures r == None <==> NoLineWon(b) && Empty in b
  {
    match FirstWonLine(b, 0)
    case Some(k) => Some(Win(b[WinningConditions[k].0].player))
    case None => if Empty in b then None else Some(Draw)
  }

  /** The indices below `n` of the empty cells, in ascending order. */
  function EmptyCellsBelow(b: Board, n: nat): (r: seq<nat>)
    requires n <= 9
    ensures forall i: nat :: i in r <==> i < n && b[i] == Empty
    ensures forall p | 0 <= p < |r| :: r[p] < n
    ensures forall p, q | 0 <= p < q < |r| :: r[p] < r[q]
  {
    if n == 0 then []
    else if b[n - 1] == Empty then EmptyCellsBelow(b, n - 1) + [n - 1]
    else EmptyCellsBelow(b, n - 1)
  }

  /** The indices of the empty cells of the board, in ascending order. */
  function EmptyCells(b: Board): (r: seq<nat>)
    ensures forall i: nat :: i in r <==> i < 9 && b[i] == Empty
    ensures forall p, q | 0 <= p < q < |r| :: r[p] < r[q]
    ensures |r| == 0 <==> Empty !in b
  {
    var r := EmptyCellsBelow(b, 9);
    assert Empty in b ==> exists i: nat :: i < 9 && b[i] == Empty && i in r;
    assert |r| > 0 ==> r[0] in r;
    r
  }

  /** The number of empty cells of the board. */
  function EmptyCount(b: Board): nat {
    multiset(b)[Empty]
  }

  lemma {:induction false} EmptyCellsBelowCount(b: Board, n: nat)
    requires n <= 9
    ensures |EmptyCellsBelow(b, n)| == multiset(b[..n])[Empty]
  {
    if n > 0 {
      EmptyCellsBelowCount(b, n - 1);
      assert b[..n] == b[..n - 1] + [b[n - 1]];
    }
  }

  /** There are as many legal moves as empty cells, that is, nine minus the occupied cells. */
  lemma EmptyCellsCount(b: Board)
    ensures |EmptyCells(b)| == EmptyCount(b)
  {
    EmptyCellsBelowCount(b, 9);
    assert b[..9] == b;
  }

  /** On a fresh board the empty cells below `n` are 0, 1, ..., n - 1. */
  lemma {:induction false} EmptyBoardCellsBelow(n: nat)
    requires n <= 9
    ensures EmptyCellsBelow(EmptyBoard, n) == seq(n, i => i)
  {
    if n > 0 {
      EmptyBoardCellsBelow(n - 1);
      assert EmptyBoard[n - 1] == Empty;
      assert EmptyCellsBelow(EmptyBoard, n) == EmptyCellsBelow(EmptyBoard, n - 1) + [n - 1];
      assert seq(n - 1, i => i) + [n - 1] == seq(n, i => i);
    }
  }

  /** A fresh board is still open. */
  lemma EmptyBoardIsOpen()
    ensures CheckWinner(EmptyBoard) == None
  {
    NoLineWonByCases(EmptyBoard);
    assert EmptyBoard[0] == Empty;
  }

  /** On a fresh board all nine cells are legal moves, in index order. */
  lemma EmptyBoardAllLegal()
    ensures EmptyCells(EmptyBoard) == [0, 1, 2, 3, 4, 5, 6, 7, 8]
  {
    EmptyBoardCellsBelow(9);
    assert seq(9, i => i) == [0, 1, 2, 3, 4, 5, 6, 7, 8];
  }
}
