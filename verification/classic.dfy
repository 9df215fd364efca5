/**
 * The earlier game page (`Game.tsx`): the same rules on a board fixed at
 * 15 by 15, with a boolean `checkWin` and no move list or saving.
 */
module Classic {
  import opened Wrappers
  import opened Stones
  import opened Lines
  import Session

  /** The hard-coded board size. */
  const Size := 15

  datatype State = State(board: Board, currentPlayer: Stone, gameOver: bool)

  /** An empty 15 by 15 board with Black to move. */
  function Init(): (s: State)
    ensures WellFormed(s.board, Size)
    ensures forall r, c :: InBounds(Size, r, c) ==> s.board[r][c] == Empty
    ensures s.currentPlayer == Black && !s.gameOver
  {
    State(EmptyBoard(Size), Black, false)
  }

  /** The boolean `checkWin`: true as soon as one axis through (row, col) counts five. */
  method CheckWin(b: Board, row: int, col: int) returns (won: bool)
    requires WellFormed(b, Size) && InBounds(Size, row, col)
    ensures won <==> exists d :: 0 <= d < 4 && Axis(b, Size, row, col, d) >= WinLength
    ensures won <==> Winner(b, Size, row, col).Some?
  {
    var w := Lines.CheckWin(b, Size, row, col);
    won := w.Some?;
  }

  /** The cell exists, is empty, and the game is on. */
  predicate Accepts(s: State, row: int, col: int)
    requires WellFormed(s.board, Size)
  {
    !s.gameOver && InBounds(Size, row, col) && s.board[row][col] == Empty
  }

  /**
   * `handleCanvasClick`: ignored when the game is over or the cell is not an
   * empty cell of the board; otherwise the stone is placed, then a win ends
   * the game, else a full board ends it, else the turn passes.
   */
  function Click(s: State, row: int, col: int): (r: (State, Session.Outcome))
    requires WellFormed(s.board, Size)
    requires s.gameOver || 0 <= row < Size
    ensures WellFormed(r.0.board, Size)
    ensures r.1 == Session.Ignored <==> !Accepts(s, row, col)
    ensures r.1 == Session.Ignored ==> r.0 == s
    ensures r.1 != Session.Ignored ==> r.0.board == Place(s.board, Size, row, col, s.currentPlayer)
    ensures r.1 != Session.Ignored ==> (r.1.Won? <==> WinsAt(r.0.board, Size, row, col))
    ensures r.1.Won? ==> r.1.winner == s.currentPlayer
    ensures r.1 == Session.Drawn ==> Full(r.0.board, Size)
    ensures r.1 == Session.Continue ==> !Full(r.0.board, Size)
    ensures r.1.Won? || r.1 == Session.Drawn ==> r.0.gameOver && r.0.currentPlayer == s.currentPlayer
    ensures r.1 == Session.Continue ==> !r.0.gameOver && r.0.currentPlayer == Opponent(s.currentPlayer)
  {
    if s.gameOver || !(0 <= col < Size) || s.board[row][col] != Empty then
      (s, Session.Ignored)
    else
      var p := s.currentPlayer;
      var board := Place(s.board, Size, row, col, p);
      if WinsAt(board, Size, row, col) then
        (State(board, p, true), Session.Won(p))
      else if Full(board, Size) then
        (State(board, p, true), Session.Drawn)
      else
        (State(board, Opponent(p), false), Session.Continue)
  }

  /** `resetGame`: an empty 15 by 15 board, Black to move, the game on. */
  function Reset(s: State): (r: State)
    ensures WellFormed(r.board, Size)
    ensures forall row, col :: InBounds(Size, row, col) ==> r.board[row][col] == Empty
    ensures r.currentPlayer == Black && !r.gameOver
  {
    Init()
  }

  /** The part of the newer page's state this page keeps. */
  function Project(s: Session.State): State {
    State(s.board, s.currentPlayer, s.gameOver)
  }

  /** This page starts exactly as the newer page does at size 15. */
  lemma InitAgrees()
    ensures Init() == Project(Session.Init(Size))
  {
  }

  /**
   * At size 15 the two click handlers agree on board, turn, flag and shown
   * outcome whenever a real colour is to move; only the move list differs.
   */
  lemma ClickAgrees(s: Session.State, row: int, col: int)
    requires s.size == Size && WellFormed(s.board, Size) && s.currentPlayer != Empty
    requires s.gameOver || 0 <= row < Size
    ensures var (s', outcome) := Session.Click(s, row, col);
      Click(Project(s), row, col) == (Project(s'), outcome)
  {
  }
}
