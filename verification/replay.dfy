/**
 * The game log page (`GameLog/index.tsx`): look a record up by its number
 * and derive, for every cell of its board, the stone to draw and its move
 * number; plus the result line.
 */
module Replay {
  import opened Wrappers
  import opened Stones
  import opened Lines
  import opened Records
  import Session

  /** A replayed cell: nothing drawn, or a stone of `colour` labelled with its 1-based move number. */
  datatype Cell = Blank | Shown(colour: Stone, number: int)

  /** The page: the not-found message, or the result line and the replayed board. */
  datatype View = NotFound | Found(status: string, grid: seq<seq<Cell>>)

  /** The fill colour: black for a Black move, white for anything else. */
  function ShownColour(p: Stone): Stone {
    if p == Black then Black else White
  }

  /** The cell as drawn: the first move at (row, col), if any, gives its colour and label. */
  function CellAt(moves: seq<Move>, row: int, col: int): (cell: Cell)
    ensures cell.Blank? <==> forall j :: 0 <= j < |moves| ==> !IsAt(moves[j], row, col)
    ensures cell.Shown? ==> 1 <= cell.number <= |moves|
    ensures cell.Shown? ==> var i := cell.number - 1;
      && IsAt(moves[i], row, col)
      && (forall j :: 0 <= j < i ==> !IsAt(moves[j], row, col))
      && (cell.colour == Black <==> moves[i].player == Black)
      && cell.colour != Empty
  {
    match FirstMoveAt(moves, row, col)
    case None => Blank
    case Some(i) => Shown(ShownColour(moves[i].player), i + 1)
  }

  /** The side of the replayed board: `size` cells, none when the stored size is negative. */
  function Side(rec: Record): nat {
    if rec.size < 0 then 0 else rec.size
  }

  /** The cells `drawGameDetails` visits, rows and columns 0 to `size - 1`. */
  function Grid(rec: Record): (g: seq<seq<Cell>>)
    ensures |g| == Side(rec)
    ensures forall r :: 0 <= r < |g| ==> |g[r]| == |g|
    ensures forall r, c :: 0 <= r < |g| && 0 <= c < |g| ==> g[r][c] == CellAt(rec.moves, r, c)
  {
    seq(Side(rec), r => seq(Side(rec), c => CellAt(rec.moves, r, c)))
  }

  /** The result line. */
  function Status(result: string): (t: string)
    ensures t == "Game is a draw" <==> result == "Draw"
    ensures result != "Draw" ==> t == "Winner: " + result
  {
    if result == "Draw" then "Game is a draw"
    else
      var t := "Winner: " + result;
      assert t[0] == 'W' != "Game is a draw"[0];
      t
  }

  /** The page for `/game-log/<id>`: the first record numbered `id`, or not found. */
  function Show(store: Store, id: int): (v: View)
    ensures v.NotFound? <==> forall i :: 0 <= i < |Games(store)| ==> Games(store)[i].gameNumber != id
    ensures store.None? ==> v.NotFound?
    ensures v.Found? ==> exists i :: (FirstNumbered(Games(store), i, id)
      && v == Found(Status(Games(store)[i].result), Grid(Games(store)[i])))
  {
    match Find(store, id)
    case None => NotFound
    case Some(rec) => Found(Status(rec.result), Grid(rec))
  }

  /** Two different cells never carry the same move number. */
  lemma LabelsDistinct(rec: Record, r: int, c: int, r': int, c': int)
    requires InBounds(Side(rec), r, c) && InBounds(Side(rec), r', c') && (r, c) != (r', c')
    requires Grid(rec)[r][c].Shown? && Grid(rec)[r'][c'].Shown?
    ensures Grid(rec)[r][c].number != Grid(rec)[r'][c'].number
  {
    var a, b := CellAt(rec.moves, r, c), CellAt(rec.moves, r', c');
    assert IsAt(rec.moves[a.number - 1], r, c) && IsAt(rec.moves[b.number - 1], r', c');
  }

  /** A move played off the board never shows its number. */
  lemma OffBoardMoveHidden(rec: Record, i: int, r: int, c: int)
    requires 0 <= i < |rec.moves| && !InBounds(Side(rec), rec.moves[i].row, rec.moves[i].col)
    requires InBounds(Side(rec), r, c)
    ensures Grid(rec)[r][c] == Blank || Grid(rec)[r][c].number != i + 1
  {
    var cell := CellAt(rec.moves, r, c);
    assert cell.Shown? ==> IsAt(rec.moves[cell.number - 1], r, c);
  }

  /**
   * Replaying the moves of a game played to this point shows exactly the live
   * board: a stone where the board has one, of the same colour, labelled with
   * the number of the move that placed it.
   */
  lemma ReplayShowsBoard(s: Session.State, rec: Record)
    requires Session.Consistent(s) && rec.size == s.size && rec.moves == s.moves
    ensures forall r, c :: InBounds(s.size, r, c) ==>
      && (Grid(rec)[r][c].Blank? <==> s.board[r][c] == Empty)
      && (Grid(rec)[r][c].Shown? ==> Grid(rec)[r][c].colour == s.board[r][c])
      && (Grid(rec)[r][c].Shown? ==> IsAt(s.moves[Grid(rec)[r][c].number - 1], r, c))
  {
    forall r, c | InBounds(s.size, r, c)
      ensures Grid(rec)[r][c].Blank? <==> s.board[r][c] == Empty
      ensures Grid(rec)[r][c].Shown? ==> Grid(rec)[r][c].colour == s.board[r][c]
      ensures Grid(rec)[r][c].Shown? ==> IsAt(s.moves[Grid(rec)[r][c].number - 1], r, c)
    {
      var k := FirstMoveAt(s.moves, r, c);
      assert s.board[r][c] == Session.StoneAt(s.moves, r, c);
      if k.Some? {
        assert s.moves[k.value].player == Session.TurnOf(k.value);
      }
    }
  }

  /**
   * Leaving a finished game and then opening its log, when no earlier record
   * has the same number, shows that game's result and its final board.
   */
  lemma SavedGameReplays(s: Session.State, store: Store, gameNumber: int, date: string)
    requires Session.Consistent(s) && s.gameFinished
    requires forall i :: 0 <= i < |Games(store)| ==> Games(store)[i].gameNumber != gameNumber
    ensures var (store', _) := Session.SaveGame(s, store, gameNumber, date);
      var v := Show(store', gameNumber);
      && v.Found?
      && |v.grid| == s.size
      && forall r, c :: InBounds(s.size, r, c) ==>
           && (v.grid[r][c].Blank? <==> s.board[r][c] == Empty)
           && (v.grid[r][c].Shown? ==> v.grid[r][c].colour == s.board[r][c])
  {
    Session.SavedResultIsOutcome(s, store, gameNumber, date);
    var (store', _) := Session.SaveGame(s, store, gameNumber, date);
    var rec := store'.value[|Games(store)|];
    FindAfterSave(store, rec, gameNumber);
    ReplayShowsBoard(s, rec);
  }
}
