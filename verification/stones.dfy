/**
 * Stones and boards of the game pages: a square grid of StoneColor values.
 * Boards are immutable; placing a stone yields a new board.
 */
module Stones {

  /** StoneColor: `Empty` is the enum's `None` (0), then `Black` (1) and `White` (2). */
  datatype Stone = Empty | Black | White

  type Board = seq<seq<Stone>>

  /** The colour to move after `p`; the click handler flips Black to White and anything else to Black. */
  function Opponent(p: Stone): Stone {
    if p == Black then White else Black
  }

  /** `b` is an `n` by `n` grid. */
  predicate WellFormed(b: Board, n: int) {
    |b| == n && forall r :: 0 <= r < n ==> |b[r]| == n
  }

  predicate InBounds(n: int, r: int, c: int) {
    0 <= r < n && 0 <= c < n
  }

  /** The all-None `n` by `n` grid the game pages start from. */
  function EmptyBoard(n: nat): (b: Board)
    ensures WellFormed(b, n)
    ensures forall r, c :: InBounds(n, r, c) ==> b[r][c] == Empty
  {
    seq(n, _ => seq(n, _ => Empty))
  }

  /** The board after writing `p` into cell (r, c). */
  function Place(b: Board, n: int, r: int, c: int, p: Stone): (b': Board)
    requires WellFormed(b, n) && InBounds(n, r, c)
    ensures WellFormed(b', n)
    ensures b'[r][c] == p
    ensures forall r', c' :: InBounds(n, r', c') && (r' != r || c' != c) ==> b'[r'][c'] == b[r'][c']
  {
    b[r := b[r][c := p]]
  }

  /** No cell of the board is empty. */
  predicate Full(b: Board, n: int)
    requires WellFormed(b, n)
  {
    forall r, c :: 0 <= r < n && 0 <= c < n ==> b[r][c] != Empty
  }

  /** The row-by-row scan of `isDraw`, returning at the first empty cell. */
  method IsDraw(b: Board, n: int) returns (draw: bool)
    requires WellFormed(b, n)
    ensures draw <==> Full(b, n)
  {
    var row := 0;
    while row < n
      invariant 0 <= row <= n
      invariant forall r, c :: 0 <= r < row && 0 <= c < n ==> b[r][c] != Empty
    {
      var col := 0;
      while col < n
        invariant 0 <= col <= n
        invariant forall c :: 0 <= c < col ==> b[row][c] != Empty
      {
        if b[row][col] == Empty {
          return false;
        }
        col := col + 1;
      }
      row := row + 1;
    }
    return true;
  }
}
