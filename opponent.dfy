/**
 * The computer opponent: a random move, the win-then-block heuristic and
 * exhaustive minimax search. The computer always plays O.
 */
module Opponent {
  import opened Rules

  // ---------------------------------------------------------------------------
  // Easy: a random empty cell
  // ---------------------------------------------------------------------------

  /**
   * A random move: the empty-cell list indexed by `pick % n`, which stands for
   * `Math.floor(Math.random() * n)`; None when the board is full.
   */
  function RandomMove(b: Board, pick: nat): (r: Option<nat>)
    ensures r.None? <==> Empty !in b
    ensures r.Some? ==> r.value < 9 && b[r.value] == Empty
    ensures r.Some? ==> r.value in EmptyCells(b)
  {
    var cells := EmptyCells(b);
    if |cells| > 0 then Some(cells[pick % |cells|]) else None
  }

  /** Every empty cell is the random move for some roll of the dice. */
  lemma RandomMoveReachesEveryEmptyCell(b: Board, i: nat)
    requires i < 9 && b[i] == Empty
    ensures exists pick: nat :: RandomMove(b, pick) == Some(i)
  {
    var cells := EmptyCells(b);
    assert i in cells;
    var t :| 0 <= t < |cells| && cells[t] == i;
    assert t % |cells| == t;
    assert RandomMove(b, t) == Some(i);
  }

  // ---------------------------------------------------------------------------
  // Medium: take a win, else block, else random
  // ---------------------------------------------------------------------------

  /** How many of the three cells of line `k` hold `c`. */
  function CountOnLine(b: Board, k: nat, c: Cell): nat
    requires k < |WinningConditions|
  {
    var (x, y, z) := WinningConditions[k];
    (if b[x] == c then 1 else 0) + (if b[y] == c then 1 else 0) + (if b[z] == c then 1 else 0)
  }

  predicate OnLine(k: nat, i: nat)
    requires k < |WinningConditions|
  {
    var (x, y, z) := WinningConditions[k];
    i == x || i == y || i == z
  }

  /**
   * Cell `i` is the empty cell of line `k` whose two other cells hold `p`:
   * playing `p` at `i` completes the line.
   */
  ghost predicate Threat(b: Board, p: Player, k: nat, i: nat)
    requires k < |WinningConditions|
  {
    OnLine(k, i) && b[i] == Empty && CountOnLine(b, k, Mark(p)) == 2
  }

  ghost predicate LineThreatened(b: Board, p: Player, k: nat)
    requires k < |WinningConditions|
  {
    exists i: nat :: Threat(b, p, k, i)
  }

  /** Line `j` is the first line at position `k` or later that `p` can complete. */
  ghost predicate FirstThreatLine(b: Board, p: Player, k: nat, j: nat) {
    k <= j < |WinningConditions| && LineThreatened(b, p, j) &&
    forall j': nat | k <= j' < j :: !LineThreatened(b, p, j')
  }

  ghost predicate HasThreat(b: Board, p: Player) {
    exists k: nat, i: nat :: k < |WinningConditions| && Threat(b, p, k, i)
  }

  /** A line has at most one cell that completes it: the order the cells are tried in is immaterial. */
  lemma ThreatIsUnique(b: Board, p: Player, k: nat, i: nat, j: nat)
    requires k < |WinningConditions|
    requires Threat(b, p, k, i) && Threat(b, p, k, j)
    ensures i == j
  {
    LineIndicesDistinct(k);
  }

  /** Playing `p` at a threat of `p` wins that line for `p`. */
  lemma ThreatCompletesLine(b: Board, p: Player, k: nat, i: nat)
    requires k < |WinningConditions|
    requires Threat(b, p, k, i)
    ensures LineWon(b[i := Mark(p)], k)
    ensures b[i := Mark(p)][WinningConditions[k].0] == Mark(p)
  {
    LineIndicesDistinct(k);
  }

  /** The cell of line `k` that completes it for `p`, trying the third, second and first cell in turn. */
  function LineCompletion(b: Board, p: Player, k: nat): (r: Option<nat>)
    requires k < |WinningConditions|
    ensures r.Some? ==> Threat(b, p, k, r.value)
    ensures r.None? ==> !LineThreatened(b, p, k)
  {
    LineIndicesDistinct(k);
    var (x, y, z) := WinningConditions[k];
    if b[x] == Mark(p) && b[y] == Mark(p) && b[z] == Empty then Some(z)
    else if b[x] == Mark(p) && b[z] == Mark(p) && b[y] == Empty then Some(y)
    else if b[y] == Mark(p) && b[z] == Mark(p) && b[x] == Empty then Some(x)
    else None
  }

  /** The completing cell of the first line at position `k` or later that `p` can complete. */
  function FindThreat(b: Board, p: Player, k: nat): (r: Option<nat>)
    requires k <= |WinningConditions|
    ensures r.Some? ==> r.value < 9 && b[r.value] == Empty
    ensures r.Some? ==> exists j: nat :: FirstThreatLine(b, p, k, j) && Threat(b, p, j, r.value)
    ensures r.None? ==> forall j: nat | k <= j < |WinningConditions| :: !LineThreatened(b, p, j)
    decreases |WinningConditions| - k
  {
    if k == |WinningConditions| then None
    else
      match LineCompletion(b, p, k)
      case Some(i) => Some(i)
      case None => FindThreat(b, p, k + 1)
  }

  /** The scan from the first line finds a cell exactly when `p` can complete some line. */
  lemma FindThreatIffHasThreat(b: Board, p: Player)
    ensures FindThreat(b, p, 0).Some? <==> HasThreat(b, p)
  {
    var r := FindThreat(b, p, 0);
    if r.Some? {
      var j: nat :| FirstThreatLine(b, p, 0, j) && Threat(b, p, j, r.value);
    }
    if HasThreat(b, p) {
      var k: nat, i: nat :| k < |WinningConditions| && Threat(b, p, k, i);
      assert LineThreatened(b, p, k);
    }
  }

  /**
   * The medium opponent: complete a line of O's if it can, else block a
   * line of X's, else play a random move.
   */
  function MediumMove(b: Board, pick: nat): (r: Option<nat>)
    ensures r.Some? ==> r.value < 9 && b[r.value] == Empty
    ensures r.None? <==> Empty !in b
    ensures HasThreat(b, O) ==>
      r.Some? && exists j: nat :: FirstThreatLine(b, O, 0, j) && Threat(b, O, j, r.value)
    ensures !HasThreat(b, O) && HasThreat(b, X) ==>
      r.Some? && exists j: nat :: FirstThreatLine(b, X, 0, j) && Threat(b, X, j, r.value)
    ensures !HasThreat(b, O) && !HasThreat(b, X) ==> r == RandomMove(b, pick)
  {
    FindThreatIffHasThreat(b, O);
    FindThreatIffHasThreat(b, X);
    var win := FindThreat(b, O, 0);
    if win.Some? then win
    else
      var block := FindThreat(b, X, 0);
      if block.Some? then block
      else RandomMove(b, pick)
  }

  /** When O can complete a line, the medium opponent's move wins the game for O. */
  lemma MediumMoveTakesWin(b: Board, pick: nat)
    requires HasThreat(b, O)
    ensures MediumMove(b, pick).Some?
    ensures exists k: nat ::
      && k < |WinningConditions|
      && LineWon(b[MediumMove(b, pick).value := Mark(O)], k)
      && b[MediumMove(b, pick).value := Mark(O)][WinningConditions[k].0] == Mark(O)
  {
    var m := MediumMove(b, pick).value;
    var j: nat :| FirstThreatLine(b, O, 0, j) && Threat(b, O, j, m);
    ThreatCompletesLine(b, O, j, m);
  }

  /** X would complete line `k` by playing at `m`, and O playing at `m` leaves X no way to complete it. */
  ghost predicate BlocksLine(b: Board, m: nat, k: nat) {
    m < 9 && k < |WinningConditions| &&
    LineWon(b[m := Mark(X)], k) && !LineThreatened(b[m := Mark(O)], X, k)
  }

  /**
   * When O cannot win at once but X can, the medium opponent's move is the
   * cell X would have won with, and after O plays there X can no longer
   * complete that line.
   */
  lemma MediumMoveBlocks(b: Board, pick: nat)
    requires !HasThreat(b, O) && HasThreat(b, X)
    ensures MediumMove(b, pick).Some?
    ensures exists k: nat :: BlocksLine(b, MediumMove(b, pick).value, k)
  {
    var m := MediumMove(b, pick).value;
    var j: nat :| FirstThreatLine(b, X, 0, j) && Threat(b, X, j, m);
    ThreatCompletesLine(b, X, j, m);
    LineIndicesDistinct(j);
    assert CountOnLine(b[m := Mark(O)], j, Mark(X)) == 2;
    assert BlocksLine(b, m, j);
  }

  // ---------------------------------------------------------------------------
  // Hard: minimax
  // ---------------------------------------------------------------------------

  /** The value minimax gives a finished game: X -1, O 1, draw 0. */
  function Score(o: Outcome): int {
    match o
    case Win(X) => -1
    case Win(O) => 1
    case Draw => 0
  }

  /** The mark placed by the side to move: O maximises, X minimises. */
  function Mover(maximizing: bool): Player {
    if maximizing then O else X
  }

  /** The starting best score, standing in for -Infinity (maximising) and Infinity (minimising). */
  function Seed(maximizing: bool): int {
    if maximizing then -2 else 2
  }

  function Max(a: int, b: int): int {
    if a >= b then a else b
  }

  function Min(a: int, b: int): int {
    if a <= b then a else b
  }

  /** The minimax value of the board with the given side to move. */
  function MinimaxValue(b: Board, maximizing: bool): (r: int)
    ensures -1 <= r <= 1
    decreases EmptyCount(b), 10
  {
    match CheckWinner(b)
    case Some(o) => Score(o)
    case None => Best(b, maximizing, 9)
  }

  /** The minimax value after the side to move plays at the empty cell `i`. */
  function ChildValue(b: Board, maximizing: bool, i: nat): (r: int)
    requires i < 9 && b[i] == Empty
    ensures -1 <= r <= 1
    decreases EmptyCount(b), 0
  {
    MinimaxValue(b[i := Mark(Mover(maximizing))], !maximizing)
  }

  /** The best child value over the empty cells below `n`, folded from the seed in index order. */
  function Best(b: Board, maximizing: bool, n: nat): (r: int)
    requires n <= 9
    ensures (forall j: nat | j < n :: b[j] != Empty) ==> r == Seed(maximizing)
    ensures (exists j: nat | j < n :: b[j] == Empty) ==> -1 <= r <= 1
    decreases EmptyCount(b), n
  {
    if n == 0 then Seed(maximizing)
    else if b[n - 1] != Empty then Best(b, maximizing, n - 1)
    else if maximizing then Max(ChildValue(b, maximizing, n - 1), Best(b, maximizing, n - 1))
    else Min(ChildValue(b, maximizing, n - 1), Best(b, maximizing, n - 1))
  }

  /** No empty cell below `n` has a better child value than the fold: it bounds them from above (O) or below (X). */
  lemma {:induction false} BestIsBound(b: Board, maximizing: bool, n: nat)
    requires n <= 9
    ensures forall j: nat | j < n && b[j] == Empty ::
      if maximizing then ChildValue(b, maximizing, j) <= Best(b, maximizing, n)
      else Best(b, maximizing, n) <= ChildValue(b, maximizing, j)
  {
    if n > 0 {
      var m := n - 1;
      BestIsBound(b, maximizing, m);
      if b[m] == Empty {
        var c, prev := ChildValue(b, maximizing, m), Best(b, maximizing, m);
        assert Best(b, maximizing, n) == if maximizing then Max(c, prev) else Min(c, prev);
      } else {
        assert Best(b, maximizing, n) == Best(b, maximizing, m);
      }
    }
  }

  /** Once some cell below `n` is empty, the fold is the child value of one of the empty cells. */
  lemma {:induction false} BestIsAttained(b: Board, maximizing: bool, n: nat)
    requires n <= 9
    requires exists j: nat | j < n :: b[j] == Empty
    ensures exists j: nat | j < n && b[j] == Empty :: ChildValue(b, maximizing, j) == Best(b, maximizing, n)
  {
    var m := n - 1;
    if b[m] != Empty {
      assert Best(b, maximizing, n) == Best(b, maximizing, m);
      BestIsAttained(b, maximizing, m);
      var j: nat :| j < m && b[j] == Empty && ChildValue(b, maximizing, j) == Best(b, maximizing, m);
      assert j < n;
    } else {
      var c, prev := ChildValue(b, maximizing, m), Best(b, maximizing, m);
      assert Best(b, maximizing, n) == if maximizing then Max(c, prev) else Min(c, prev);
      if exists j: nat | j < m :: b[j] == Empty {
        BestIsAttained(b, maximizing, m);
        var j: nat :| j < m && b[j] == Empty && ChildValue(b, maximizing, j) == prev;
        if Best(b, maximizing, n) != c {
          assert Best(b, maximizing, n) == prev;
        }
      } else {
        assert prev == Seed(maximizing);
        assert Best(b, maximizing, n) == c;
      }
    }
  }

  /**
   * The minimax value of an open board is the best value the side to move
   * can reach in one move: no move does better, and some move reaches it.
   */
  lemma MinimaxIsOptimal(b: Board, maximizing: bool)
    requires CheckWinner(b) == None
    ensures forall j: nat | j < 9 && b[j] == Empty ::
      if maximizing then ChildValue(b, maximizing, j) <= MinimaxValue(b, maximizing)
      else MinimaxValue(b, maximizing) <= ChildValue(b, maximizing, j)
    ensures exists j: nat | j < 9 && b[j] == Empty :: ChildValue(b, maximizing, j) == MinimaxValue(b, maximizing)
  {
    assert exists j: nat | j < 9 :: b[j] == Empty;
    BestIsBound(b, maximizing, 9);
    BestIsAttained(b, maximizing, 9);
  }

  /**
   * Minimax search over the board held in `board`, placing and removing
   * marks in place. The board is the same afterwards, and the score is the
   * minimax value of the board it was given.
   */
  method Minimax(board: array<Cell>, maximizing: bool) returns (score: int)
    requires board.Length == 9
    modifies board
    ensures board[..] == old(board[..])
    ensures score == MinimaxValue(old(board[..]), maximizing)
    ensures CheckWinner(old(board[..])).Some? ==> score == Score(CheckWinner(old(board[..])).value)
    ensures -1 <= score <= 1
    decreases EmptyCount(board[..])
  {
    var result := CheckWinner(board[..]);
    if result.Some? {
      return Score(result.value);
    }
    ghost var b: Board := board[..];
    var mark := Mark(Mover(maximizing));
    var bestScore := Seed(maximizing);
    for i := 0 to 9
      invariant board[..] == b
      invariant bestScore == Best(b, maximizing, i)
    {
      if board[i] == Empty {
        board[i] := mark;
        assert board[..] == b[i := mark];
        var s := Minimax(board, !maximizing);
        board[i] := Empty;
        assert board[..] == b;
        bestScore := if maximizing then Max(s, bestScore) else Min(s, bestScore);
      }
    }
    return bestScore;
  }

  /** The score getHardMove gives the empty cell `i`: minimax after O plays there, X to move. */
  function HardScore(b: Board, i: nat): int
    requires i < 9 && b[i] == Empty
  {
    ChildValue(b, true, i)
  }

  /** `m` is an empty cell of best score, and the lowest such cell. */
  ghost predicate IsHardMove(b: Board, m: nat) {
    m < 9 && b[m] == Empty &&
    (forall j: nat | j < 9 && b[j] == Empty :: HardScore(b, j) <= HardScore(b, m)) &&
    (forall j: nat | j < m && b[j] == Empty :: HardScore(b, j) < HardScore(b, m))
  }

  /** At most one cell is the hard move: the hard opponent is deterministic. */
  lemma HardMoveIsUnique(b: Board, m1: nat, m2: nat)
    requires IsHardMove(b, m1) && IsHardMove(b, m2)
    ensures m1 == m2
  {
  }

  /**
   * The hard opponent: tries O at every empty cell in index order, scores
   * it by minimax with X to move, and keeps the first cell of strictly best
   * score. None on a full board.
   */
  method GetHardMove(board: array<Cell>) returns (move: Option<nat>)
    requires board.Length == 9
    modifies board
    ensures board[..] == old(board[..])
    ensures move.None? <==> Empty !in old(board[..])
    ensures move.Some? ==> IsHardMove(old(board[..]), move.value)
  {
    ghost var b: Board := board[..];
    var bestScore := -2;
    move := None;
    for i := 0 to 9
      invariant board[..] == b
      invariant move.None? ==> bestScore == -2 && forall j: nat | j < i :: b[j] != Empty
      invariant move.Some? ==> move.value < i && b[move.value] == Empty && bestScore == HardScore(b, move.value)
      invariant move.Some? ==> forall j: nat | j < i && b[j] == Empty :: HardScore(b, j) <= bestScore
      invariant move.Some? ==> forall j: nat | j < move.value && b[j] == Empty :: HardScore(b, j) < bestScore
    {
      if board[i] == Empty {
        board[i] := Mark(O);
        assert board[..] == b[i := Mark(O)];
        var score := Minimax(board, false);
        board[i] := Empty;
        assert board[..] == b;
        if score > bestScore {
          bestScore := score;
          move := Some(i);
        }
      }
    }
  }

  /**
   * X plays any empty cell of an open board and the game goes on; O answers
   * with the hard move. Then the minimax value, X to move again, is at
   * least what it was before X played: the hard reply never gives up value.
   */
  lemma {:induction false} HardReplyKeepsValue(b: Board, i: nat, m: nat)
    requires CheckWinner(b) == None
    requires i < 9 && b[i] == Empty
    requires CheckWinner(b[i := Mark(X)]) == None
    requires IsHardMove(b[i := Mark(X)], m)
    ensures MinimaxValue(b[i := Mark(X)][m := Mark(O)], false) >= MinimaxValue(b, false)
  {
    var after := b[i := Mark(X)];
    MinimaxIsOptimal(b, false);
    assert MinimaxValue(b, false) <= ChildValue(b, false, i) == MinimaxValue(after, true);
    MinimaxIsOptimal(after, true);
    var j: nat :| j < 9 && after[j] == Empty && ChildValue(after, true, j) == MinimaxValue(after, true);
    assert HardScore(after, j) <= HardScore(after, m);
  }

  /** A finished board whose value is not negative is not a win for X. */
  lemma FinishedNonNegativeIsNoXWin(b: Board, maximizing: bool)
    requires CheckWinner(b).Some?
    requires MinimaxValue(b, maximizing) >= 0
    ensures CheckWinner(b) != Some(Win(X))
  {
  }
}
