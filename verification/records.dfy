/**
 * Moves, finished-game records (`IGameDetails`) and the append-only `games`
 * collection they are stored in.
 */
module Records {
  import opened Wrappers
  import opened Stones

  /** One placement: the cell and the colour that played it. */
  datatype Move = Move(row: int, col: int, player: Stone)

  /** A finished game as stored: `result` is "Black", "White" or "Draw". */
  datatype Record = Record(size: int, gameNumber: int, date: string, result: string, moves: seq<Move>)

  /** The stored `games` collection; `None` is a missing blob. */
  type Store = Option<seq<Record>>

  /** The collection a reader sees: a missing blob reads as `[]`. */
  function Games(store: Store): seq<Record> {
    match store
    case None => []
    case Some(games) => games
  }

  /** The result text for a winning colour: Black, and anything else is reported as White. */
  function ColourName(w: Stone): string {
    if w == Black then "Black" else "White"
  }

  predicate IsAt(m: Move, row: int, col: int) {
    m.row == row && m.col == col
  }

  /**
   * The index of the first move at (row, col), as the log page finds it (first
   * matching move, then its position); `None` when no move is there.
   */
  function FirstMoveAt(moves: seq<Move>, row: int, col: int): (r: Option<nat>)
    ensures r.Some? ==> r.value < |moves| && IsAt(moves[r.value], row, col)
    ensures r.Some? ==> forall j :: 0 <= j < r.value ==> !IsAt(moves[j], row, col)
    ensures r.None? <==> forall j :: 0 <= j < |moves| ==> !IsAt(moves[j], row, col)
  {
    if |moves| == 0 then None
    else if IsAt(moves[0], row, col) then Some(0)
    else match FirstMoveAt(moves[1..], row, col)
      case None => None
      case Some(i) => Some(i + 1)
  }

  /** Appending a move only adds an answer for its own cell, and only when that cell had none. */
  lemma FirstMoveAtAppend(moves: seq<Move>, m: Move, row: int, col: int)
    ensures FirstMoveAt(moves + [m], row, col) ==
      if FirstMoveAt(moves, row, col).Some? then FirstMoveAt(moves, row, col)
      else if IsAt(m, row, col) then Some(|moves|)
      else None
  {
    var ms := moves + [m];
    var r, r' := FirstMoveAt(moves, row, col), FirstMoveAt(ms, row, col);
    if r.Some? {
      assert ms[r.value] == moves[r.value];
      assert forall j :: 0 <= j < r.value ==> ms[j] == moves[j];
    } else {
      assert forall j :: 0 <= j < |moves| ==> ms[j] == moves[j];
      if IsAt(m, row, col) {
        assert ms[|moves|] == m;
      }
    }
  }

  /**
   * `saveGameDetails`: read the collection (a missing blob is empty), push the
   * new record, write it back.
   */
  function SaveGameDetails(store: Store, rec: Record): (games: seq<Record>)
    ensures |games| == |Games(store)| + 1
    ensures games[..|Games(store)|] == Games(store)
    ensures games[|games| - 1] == rec
  {
    Games(store) + [rec]
  }

  /** `games[i]` is the first record numbered `id`. */
  predicate FirstNumbered(games: seq<Record>, i: int, id: int) {
    0 <= i < |games| && games[i].gameNumber == id && forall j :: 0 <= j < i ==> games[j].gameNumber != id
  }

  /** The log page's lookup: the first stored record whose number is `id`. */
  function Find(store: Store, id: int): (r: Option<Record>)
    ensures r.Some? ==> exists i :: FirstNumbered(Games(store), i, id) && Games(store)[i] == r.value
    ensures r.None? <==> forall i :: 0 <= i < |Games(store)| ==> Games(store)[i].gameNumber != id
  {
    FindIn(Games(store), id)
  }

  /** The first record of `games` numbered `id`. */
  function FindIn(games: seq<Record>, id: int): (r: Option<Record>)
    ensures r.Some? ==> exists i :: FirstNumbered(games, i, id) && games[i] == r.value
    ensures r.None? <==> forall i :: 0 <= i < |games| ==> games[i].gameNumber != id
  {
    if |games| == 0 then None
    else if games[0].gameNumber == id then
      assert FirstNumbered(games, 0, id);
      Some(games[0])
    else
      var r := FindIn(games[1..], id);
      if r.Some? then
        var i :| FirstNumbered(games[1..], i, id) && games[1..][i] == r.value;
        assert FirstNumbered(games, i + 1, id);
        r
      else r
  }

  /** Appending never disturbs a lookup that already succeeds; an unused number finds the new record. */
  lemma FindAfterSave(store: Store, rec: Record, id: int)
    ensures var games := SaveGameDetails(store, rec);
      Find(Some(games), id) ==
        if Find(store, id).Some? then Find(store, id)
        else if rec.gameNumber == id then Some(rec)
        else None
  {
    var old_ := Games(store);
    var games := SaveGameDetails(store, rec);
    assert forall j :: 0 <= j < |old_| ==> games[j] == old_[j];
    var r := Find(Some(games), id);
    if Find(store, id).Some? {
      var i :| FirstNumbered(old_, i, id) && old_[i] == Find(store, id).value;
      var i' :| FirstNumbered(games, i', id) && games[i'] == r.value;
      assert games[i].gameNumber == id;
      assert forall j :: 0 <= j < i ==> games[j].gameNumber != id;
      assert i' == i;
    } else if rec.gameNumber == id {
      assert games[|old_|].gameNumber == id;
      var i' :| FirstNumbered(games, i', id) && games[i'] == r.value;
      assert i' == |old_|;
    }
  }
}
