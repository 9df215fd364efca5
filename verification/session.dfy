/**
 * The live game page (`Game/index.tsx`): a `size` by `size` board, the colour
 * to move, the `gameOver`/`gameFinished` flags and the accumulated moves; the
 * click handler, `resetGame`, and `saveGame` on leaving.
 */
module Session {
  import opened Wrappers
  import opened Stones
  import opened Lines
  import opened Records

  /** The board size used when no usable size is stored. */
  const DefaultSize := 15

  /** The stored board size as read back: no entry, a value that is not a number, or a number. */
  datatype SizeSetting = Absent | NotANumber | Stored(value: int)

  /** The size in use: a missing entry reads as 0, and 0 or not-a-number fall back to 15. */
  function BoardSize(setting: SizeSetting): int {
    match setting
    case Stored(v) => if v != 0 then v else DefaultSize
    case _ => DefaultSize
  }

  datatype State = State(
    size: int,
    board: Board,
    currentPlayer: Stone,
    gameOver: bool,
    gameFinished: bool,
    moves: seq<Move>)

  /** Which status the click handler shows: none (click ignored), the next turn, a win, or a draw. */
  datatype Outcome = Ignored | Continue | Won(winner: Stone) | Drawn

  /** Where leaving navigates: '/' or '/game-history'. */
  datatype Destination = Home | History

  /** The initial state of the page for an `n` by `n` board. */
  function Init(n: int): (s: State)
    requires n >= 1
    ensures s.size == n && WellFormed(s.board, n)
    ensures forall r, c :: InBounds(n, r, c) ==> s.board[r][c] == Empty
    ensures s.currentPlayer == Black && !s.gameOver && !s.gameFinished && s.moves == []
  {
    State(n, EmptyBoard(n), Black, false, false, [])
  }

  /** The page as it opens with the stored size setting. */
  function Start(setting: SizeSetting): (s: State)
    requires BoardSize(setting) >= 1
    ensures setting.Absent? || setting.NotANumber? || setting == Stored(0) ==> s.size == DefaultSize
    ensures setting.Stored? && setting.value != 0 ==> s.size == setting.value
    ensures s == Init(s.size)
  {
    Init(BoardSize(setting))
  }

  /** The click handler tests the colour `checkWin` returns for truthiness, so neither `null` nor None (0) counts. */
  predicate Truthy(w: Option<Stone>) {
    w.Some? && w.value != Empty
  }

  /** The click handler places a stone: the game is on, the cell exists and is empty. */
  predicate Accepts(s: State, row: int, col: int)
    requires WellFormed(s.board, s.size)
  {
    !s.gameOver && InBounds(s.size, row, col) && s.board[row][col] == Empty
  }

  /**
   * `handleCanvasClick` on cell (row, col). A finished game ignores clicks; so
   * does an occupied cell, and so does a column off the board, whose
   * cell reads as undefined rather than None. A row off the board
   * would throw, hence the precondition.
   */
  function Click(s: State, row: int, col: int): (r: (State, Outcome))
    requires WellFormed(s.board, s.size)
    requires s.gameOver || 0 <= row < s.size
    ensures r.1 == Ignored <==> !Accepts(s, row, col)
    ensures r.1 == Ignored ==> r.0 == s
    ensures r.1 != Ignored ==>
      && r.0.size == s.size
      && r.0.board == Place(s.board, s.size, row, col, s.currentPlayer)
      && r.0.moves == s.moves + [Move(row, col, s.currentPlayer)]
    ensures r.1 != Ignored ==>
      (r.1.Won? <==> s.currentPlayer != Empty && WinsAt(r.0.board, s.size, row, col))
    ensures r.1.Won? ==> r.1.winner == s.currentPlayer
    ensures r.1 == Drawn ==> Full(r.0.board, s.size)
    ensures r.1 == Continue ==> !Full(r.0.board, s.size)
    ensures r.1.Won? || r.1 == Drawn ==>
      r.0.gameOver && r.0.gameFinished && r.0.currentPlayer == s.currentPlayer
    ensures r.1 == Continue ==>
      !r.0.gameOver && r.0.gameFinished == s.gameFinished && r.0.currentPlayer == Opponent(s.currentPlayer)
  {
    if s.gameOver || !(0 <= col < s.size) || s.board[row][col] != Empty then
      (s, Ignored)
    else
      var p := s.currentPlayer;
      var board := Place(s.board, s.size, row, col, p);
      var moves := s.moves + [Move(row, col, p)];
      if Truthy(Winner(board, s.size, row, col)) then
        (s.(board := board, moves := moves, gameOver := true, gameFinished := true), Won(p))
      else if Full(board, s.size) then
        (s.(board := board, moves := moves, gameOver := true, gameFinished := true), Drawn)
      else
        (s.(board := board, moves := moves, currentPlayer := Opponent(p)), Continue)
  }

  /** `resetGame`: a fresh board, Black to move, the game on again; `moves` and `gameFinished` are kept. */
  function Reset(s: State): (r: State)
    requires s.size >= 0
    ensures WellFormed(r.board, s.size)
    ensures forall row, col :: InBounds(s.size, row, col) ==> r.board[row][col] == Empty
    ensures r.currentPlayer == Black && !r.gameOver
    ensures r.size == s.size && r.moves == s.moves && r.gameFinished == s.gameFinished
  {
    s.(board := EmptyBoard(s.size), currentPlayer := Black, gameOver := false)
  }

  /** The record `saveGameDetails` builds from the page. */
  function MakeRecord(s: State, gameNumber: int, date: string, result: string): Record {
    Record(s.size, gameNumber, date, result, s.moves)
  }

  /**
   * `saveGame` (the Leave button): an unfinished game saves nothing. A
   * finished one re-runs `checkWin` on the last move: any non-null colour
   * saves a win under that colour's name, otherwise a full board saves a
   * draw, otherwise nothing is saved.
   */
  function SaveGame(s: State, store: Store, gameNumber: int, date: string): (r: (Store, Destination))
    requires WellFormed(s.board, s.size)
    requires s.gameFinished ==> |s.moves| > 0 && InBounds(s.size, s.moves[|s.moves| - 1].row, s.moves[|s.moves| - 1].col)
    ensures !s.gameFinished ==> r == (store, Home)
    ensures r.1 == Home ==> r.0 == store
    ensures r.1 == History ==> r.0.Some? && |r.0.value| == |Games(store)| + 1
    ensures r.1 == History ==> var saved := r.0.value[|Games(store)|];
      && r.0.value == Games(store) + [MakeRecord(s, gameNumber, date, saved.result)]
      && saved.result in {"Black", "White", "Draw"}
  {
    if !s.gameFinished then
      (store, Home)
    else
      var last := s.moves[|s.moves| - 1];
      var w := Winner(s.board, s.size, last.row, last.col);
      if w.Some? then
        var result := ColourName(w.value);
        (Some(SaveGameDetails(store, MakeRecord(s, gameNumber, date, result))), History)
      else if Full(s.board, s.size) then
        (Some(SaveGameDetails(store, MakeRecord(s, gameNumber, date, "Draw"))), History)
      else
        (store, Home)
  }

  /** The colour of the `i`-th move (from 0) when turns alternate from Black. */
  function TurnOf(i: int): Stone {
    if i % 2 == 0 then Black else White
  }

  /** The colour the moves leave on (r, c): the player of the first move there, or Empty. */
  function StoneAt(moves: seq<Move>, r: int, c: int): Stone {
    match FirstMoveAt(moves, r, c)
    case None => Empty
    case Some(i) => moves[i].player
  }

  /** No two moves share a cell: a move on the cell of move `i` is move `i`. */
  predicate DistinctCells(moves: seq<Move>) {
    forall i, j :: 0 <= i < |moves| && 0 <= j < |moves| && IsAt(moves[j], moves[i].row, moves[i].col) ==> i == j
  }

  /**
   * The moves of one game: on the board, on distinct cells, alternating from
   * Black, and exactly what the board shows.
   */
  ghost predicate MovesShowBoard(s: State) {
    && s.size >= 1
    && WellFormed(s.board, s.size)
    && (forall i :: 0 <= i < |s.moves| ==> InBounds(s.size, s.moves[i].row, s.moves[i].col))
    && (forall i :: 0 <= i < |s.moves| ==> s.moves[i].player == TurnOf(i))
    && DistinctCells(s.moves)
    && (forall r, c :: InBounds(s.size, r, c) ==> s.board[r][c] == StoneAt(s.moves, r, c))
  }

  /**
   * The flags fit the board: a game in progress has no line of five anywhere
   * and the next colour in turn to move; a finished game's last move won or
   * filled the board, and the turn stayed with its player.
   */
  ghost predicate StatusFits(s: State)
    requires MovesShowBoard(s)
  {
    && s.gameFinished == s.gameOver
    && if s.gameOver then
         && |s.moves| > 0
         && var last := s.moves[|s.moves| - 1];
         && s.currentPlayer == last.player
         && (WinsAt(s.board, s.size, last.row, last.col) || Full(s.board, s.size))
       else
         && s.currentPlayer == TurnOf(|s.moves|)
         && !FiveAnywhere(s.board, s.size)
  }

  /** The state of a game played by clicks since the page opened, with no reset. */
  ghost predicate Consistent(s: State) {
    MovesShowBoard(s) && StatusFits(s)
  }

  lemma InitConsistent(n: int)
    requires n >= 1
    ensures Consistent(Init(n))
  {
    var s := Init(n);
    forall r, c | InBounds(n, r, c)
      ensures s.board[r][c] == StoneAt(s.moves, r, c)
    {
    }
  }

  /** On distinct cells, a move's own cell reports that move. */
  lemma FirstMoveIsOwn(moves: seq<Move>, i: int)
    requires DistinctCells(moves) && 0 <= i < |moves|
    ensures FirstMoveAt(moves, moves[i].row, moves[i].col) == Some(i)
  {
    var k := FirstMoveAt(moves, moves[i].row, moves[i].col);
    assert IsAt(moves[i], moves[i].row, moves[i].col);
    assert IsAt(moves[k.value], moves[i].row, moves[i].col);
  }

  /** The cell a click accepts has no move on it yet. */
  lemma AcceptedCellIsFresh(s: State, row: int, col: int)
    requires Consistent(s) && Accepts(s, row, col)
    ensures FirstMoveAt(s.moves, row, col).None?
  {
    assert StoneAt(s.moves, row, col) == Empty;
    assert forall i :: 0 <= i < |s.moves| ==> s.moves[i].player != Empty;
  }

  /** Appending a move on a fresh cell keeps the moves on distinct cells. */
  lemma AppendKeepsDistinct(moves: seq<Move>, m: Move)
    requires DistinctCells(moves) && FirstMoveAt(moves, m.row, m.col).None?
    ensures DistinctCells(moves + [m])
  {
    var ms := moves + [m];
    assert forall k :: 0 <= k < |moves| ==> ms[k] == moves[k];
    assert forall k :: 0 <= k < |moves| ==> !IsAt(moves[k], m.row, m.col);
    assert ms[|moves|] == m;
  }

  /** Playing a move on a fresh cell keeps the board equal to what the moves show. */
  lemma AppendKeepsBoard(b: Board, n: int, moves: seq<Move>, m: Move)
    requires WellFormed(b, n) && InBounds(n, m.row, m.col)
    requires forall r, c :: InBounds(n, r, c) ==> b[r][c] == StoneAt(moves, r, c)
    requires FirstMoveAt(moves, m.row, m.col).None?
    ensures var b' := Place(b, n, m.row, m.col, m.player);
      forall r, c :: InBounds(n, r, c) ==> b'[r][c] == StoneAt(moves + [m], r, c)
  {
    var b' := Place(b, n, m.row, m.col, m.player);
    var ms := moves + [m];
    forall r, c | InBounds(n, r, c)
      ensures b'[r][c] == StoneAt(ms, r, c)
    {
      FirstMoveAtAppend(moves, m, r, c);
      var k := FirstMoveAt(moves, r, c);
      if k.Some? {
        assert ms[k.value] == moves[k.value];
      } else if IsAt(m, r, c) {
        assert ms[|moves|] == m;
      }
    }
  }

  /** Every click on a consistent state leads to a consistent state. */
  lemma ClickPreservesConsistent(s: State, row: int, col: int)
    requires Consistent(s)
    requires s.gameOver || 0 <= row < s.size
    ensures Consistent(Click(s, row, col).0)
  {
    if !Accepts(s, row, col) {
      return;
    }
    var (s', outcome) := Click(s, row, col);
    var n, p := s.size, s.currentPlayer;
    var m := Move(row, col, p);
    AcceptedCellIsFresh(s, row, col);
    assert MovesShowBoard(s') by {
      AppendKeepsDistinct(s.moves, m);
      AppendKeepsBoard(s.board, n, s.moves, m);
      assert forall i :: 0 <= i < |s.moves| ==> s'.moves[i] == s.moves[i];
      assert s'.moves[|s.moves|] == m;
    }
    if outcome == Continue {
      PlacedCellSuffices(s.board, n, row, col, p);
    } else {
      assert s'.moves[|s'.moves| - 1] == m;
    }
  }

  /** The cells the board shows occupied. */
  ghost function Occupied(b: Board, n: int): set<(int, int)>
    requires WellFormed(b, n)
  {
    set r, c | 0 <= r < n && 0 <= c < n && b[r][c] != Empty :: (r, c)
  }

  /** The cells the moves were played on. */
  ghost function Cells(moves: seq<Move>): set<(int, int)> {
    set i | 0 <= i < |moves| :: (moves[i].row, moves[i].col)
  }

  /** Moves on distinct cells cover as many cells as there are moves. */
  lemma {:induction false} CellsCount(moves: seq<Move>)
    requires DistinctCells(moves)
    ensures |Cells(moves)| == |moves|
  {
    if |moves| > 0 {
      var init, m := moves[..|moves| - 1], moves[|moves| - 1];
      assert DistinctCells(init) by {
        forall i, j | 0 <= i < |init| && 0 <= j < |init| && IsAt(init[j], init[i].row, init[i].col)
          ensures i == j
        {
          assert init[i] == moves[i] && init[j] == moves[j];
        }
      }
      CellsCount(init);
      assert Cells(moves) == Cells(init) + {(m.row, m.col)} by {
        forall x | x in Cells(moves)
          ensures x in Cells(init) + {(m.row, m.col)}
        {
          var i :| 0 <= i < |moves| && x == (moves[i].row, moves[i].col);
          if i < |init| {
            assert init[i] == moves[i];
          }
        }
        forall x | x in Cells(init)
          ensures x in Cells(moves)
        {
          var i :| 0 <= i < |init| && x == (init[i].row, init[i].col);
          assert moves[i] == init[i];
        }
      }
      assert (m.row, m.col) !in Cells(init) by {
        forall i | 0 <= i < |init|
          ensures (init[i].row, init[i].col) != (m.row, m.col)
        {
          assert init[i] == moves[i];
        }
      }
    }
  }

  /** During one game the number of stones on the board equals the number of moves played. */
  lemma OccupiedCountsMoves(s: State)
    requires Consistent(s)
    ensures |Occupied(s.board, s.size)| == |s.moves|
  {
    var n := s.size;
    assert Occupied(s.board, n) == Cells(s.moves) by {
      forall x | x in Occupied(s.board, n)
        ensures x in Cells(s.moves)
      {
        var r, c :| 0 <= r < n && 0 <= c < n && s.board[r][c] != Empty && x == (r, c);
        assert StoneAt(s.moves, r, c) != Empty;
        var i := FirstMoveAt(s.moves, r, c).value;
        assert x == (s.moves[i].row, s.moves[i].col);
      }
      forall x | x in Cells(s.moves)
        ensures x in Occupied(s.board, n)
      {
        var i :| 0 <= i < |s.moves| && x == (s.moves[i].row, s.moves[i].col);
        FirstMoveIsOwn(s.moves, i);
        assert s.board[x.0][x.1] == TurnOf(i);
      }
    }
    CellsCount(s.moves);
  }

  /**
   * Leaving a game that finished (with no reset since) appends exactly one
   * record holding all the moves; its result names the last mover when that
   * move completed five, and is "Draw" only when the board is full without a
   * five through the last move.
   */
  lemma SavedResultIsOutcome(s: State, store: Store, gameNumber: int, date: string)
    requires Consistent(s) && s.gameFinished
    ensures var last := s.moves[|s.moves| - 1];
      var won := WinsAt(s.board, s.size, last.row, last.col);
      var result := if won then ColourName(last.player) else "Draw";
      && SaveGame(s, store, gameNumber, date) == (Some(Games(store) + [MakeRecord(s, gameNumber, date, result)]), History)
      && (won ==> last.player == s.currentPlayer && last.player != Empty)
      && (!won ==> Full(s.board, s.size))
  {
    var last := s.moves[|s.moves| - 1];
    FirstMoveIsOwn(s.moves, |s.moves| - 1);
    assert s.board[last.row][last.col] == last.player;
  }

  /** An `n` by `n` empty board with `n` at least five wins at every cell for None: its whole row is a run. */
  lemma EmptyBoardWins(n: int, row: int, col: int)
    requires n >= WinLength && InBounds(n, row, col)
    ensures Winner(EmptyBoard(n), n, row, col) == Some(Empty)
  {
    var b := EmptyBoard(n);
    var right, left, ahead := col + 1, col - 1, n - 1 - col;
    forall i | 0 <= i < ahead
      ensures MatchesAt(b, n, row, right, 0, 1, Empty, i)
    {
    }
    RunAtLeast(b, n, row, right, 0, 1, Empty, ahead);
    forall i | 0 <= i < col
      ensures MatchesAt(b, n, row, left, 0, -1, Empty, i)
    {
    }
    RunAtLeast(b, n, row, left, 0, -1, Empty, col);
    assert Axis(b, n, row, col, 1) >= WinLength;
  }

  /**
   * Reset followed by Leave on a finished game of size five or more: the
   * cleared board makes `checkWin` return None (0), which is not `null`, so
   * the record saved says "White" whoever won, and even after a draw.
   */
  lemma ResetThenLeaveSavesWhite(s: State, store: Store, gameNumber: int, date: string)
    requires Consistent(s) && s.gameFinished && s.size >= WinLength
    ensures SaveGame(Reset(s), store, gameNumber, date)
      == (Some(Games(store) + [MakeRecord(s, gameNumber, date, "White")]), History)
  {
    var last := s.moves[|s.moves| - 1];
    EmptyBoardWins(s.size, last.row, last.col);
  }

  /** A game Black won is recorded as White once the board is reset before leaving. */
  lemma ResetMislabelsBlackWin(s: State, store: Store, gameNumber: int, date: string)
    requires Consistent(s) && s.gameFinished && s.size >= WinLength
    requires var last := s.moves[|s.moves| - 1];
      last.player == Black && WinsAt(s.board, s.size, last.row, last.col)
    ensures SaveGame(s, store, gameNumber, date).0 == Some(Games(store) + [MakeRecord(s, gameNumber, date, "Black")])
    ensures SaveGame(Reset(s), store, gameNumber, date).0 == Some(Games(store) + [MakeRecord(s, gameNumber, date, "White")])
  {
    SavedResultIsOutcome(s, store, gameNumber, date);
    ResetThenLeaveSavesWhite(s, store, gameNumber, date);
  }

  /** The evidently intended reset: it also forgets the moves and the finished flag. */
  function Restart(s: State): (r: State)
    requires s.size >= 1
    ensures r == Init(s.size)
  {
    s.(board := EmptyBoard(s.size), currentPlayer := Black, gameOver := false, gameFinished := false, moves := [])
  }

  /**
   * After the corrected reset, leaving at once saves nothing, and the page is
   * consistent again, so a game played from there is saved with its own result.
   */
  lemma RestartKeepsRecordsFaithful(s: State, store: Store, gameNumber: int, date: string)
    requires s.size >= 1
    ensures Consistent(Restart(s))
    ensures SaveGame(Restart(s), store, gameNumber, date) == (store, Home)
  {
    InitConsistent(s.size);
  }
}
