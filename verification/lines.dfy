/**
 * Win detection (`checkWin`): along each of four axes through the cell just
 * played, count the stone itself plus the maximal runs of equal in-bounds
 * cells forward and backward; five or more wins.
 */
module Lines {
  import opened Wrappers
  import opened Stones

  /** The fixed length of a winning line, independent of the board size. */
  const WinLength := 5

  /** A unit step: each coordinate moves by -1, 0 or 1, not both 0. */
  predicate IsDir(dx: int, dy: int) {
    -1 <= dx <= 1 && -1 <= dy <= 1 && (dx != 0 || dy != 0)
  }

  /**
   * The axes in the order `checkWin` visits them. The first steps the row
   * index, so it is the vertical axis; the second is horizontal.
   */
  function Dir(d: int): (v: (int, int))
    requires 0 <= d < 4
    ensures IsDir(v.0, v.1)
  {
    if d == 0 then (1, 0) else if d == 1 then (0, 1) else if d == 2 then (1, 1) else (1, -1)
  }

  /** The coordinate reached from `x` after `i` steps of `d` (for `d` in -1..1). */
  function Step(x: int, d: int, i: int): int {
    if d > 0 then x + i else if d < 0 then x - i else x
  }

  /** How many more steps from (x, y) stay on the board along the dominant coordinate. */
  function Budget(n: int, x: int, y: int, dx: int, dy: int): int {
    if dx > 0 then n - x else if dx < 0 then x + 1 else if dy > 0 then n - y else y + 1
  }

  /** The loop guard of `checkWin`: (x, y) is on the board and holds `s`. */
  predicate Matches(b: Board, n: int, x: int, y: int, s: Stone)
    requires WellFormed(b, n)
  {
    InBounds(n, x, y) && b[x][y] == s
  }

  /** The `i`-th cell from (x, y) along (dx, dy) is on the board and holds `s`. */
  predicate MatchesAt(b: Board, n: int, x: int, y: int, dx: int, dy: int, s: Stone, i: int)
    requires WellFormed(b, n)
  {
    Matches(b, n, Step(x, dx, i), Step(y, dy, i), s)
  }

  /** The number of consecutive cells holding `s` from (x, y) on, along (dx, dy). */
  function Run(b: Board, n: int, x: int, y: int, dx: int, dy: int, s: Stone): nat
    requires WellFormed(b, n) && IsDir(dx, dy)
    decreases if Matches(b, n, x, y, s) then Budget(n, x, y, dx, dy) else 0
  {
    if Matches(b, n, x, y, s) then 1 + Run(b, n, x + dx, y + dy, dx, dy, s) else 0
  }

  /** The stone at (row, col) plus its runs of equal stones forward and backward along (dx, dy). */
  function AxisCount(b: Board, n: int, row: int, col: int, dx: int, dy: int): int
    requires WellFormed(b, n) && InBounds(n, row, col) && IsDir(dx, dy)
  {
    var s := b[row][col];
    1 + Run(b, n, row + dx, col + dy, dx, dy, s) + Run(b, n, row - dx, col - dy, -dx, -dy, s)
  }

  /** The count `checkWin` computes for its `d`-th axis. */
  function Axis(b: Board, n: int, row: int, col: int, d: int): int
    requires WellFormed(b, n) && InBounds(n, row, col) && 0 <= d < 4
  {
    AxisCount(b, n, row, col, Dir(d).0, Dir(d).1)
  }

  /** Some axis through (row, col) reaches the winning length. */
  predicate WinsAt(b: Board, n: int, row: int, col: int)
    requires WellFormed(b, n) && InBounds(n, row, col)
  {
    exists d :: 0 <= d < 4 && Axis(b, n, row, col, d) >= WinLength
  }

  /** The value `checkWin(row, col)` returns: the colour at (row, col) on a win, `null` otherwise. */
  function Winner(b: Board, n: int, row: int, col: int): Option<Stone>
    requires WellFormed(b, n) && InBounds(n, row, col)
  {
    if WinsAt(b, n, row, col) then Some(b[row][col]) else None
  }

  /** One step and then `i` more reach the same cell as `i + 1` steps. */
  lemma StepShift(x: int, d: int, i: int)
    requires -1 <= d <= 1
    ensures Step(x + d, d, i) == Step(x, d, i + 1)
  {
  }

  /** The run is maximal: its cells all hold `s` and the cell just past it does not. */
  lemma {:induction false} RunIsMaximal(b: Board, n: int, x: int, y: int, dx: int, dy: int, s: Stone)
    requires WellFormed(b, n) && IsDir(dx, dy)
    ensures forall i :: 0 <= i < Run(b, n, x, y, dx, dy, s) ==> MatchesAt(b, n, x, y, dx, dy, s, i)
    ensures !MatchesAt(b, n, x, y, dx, dy, s, Run(b, n, x, y, dx, dy, s))
    decreases if Matches(b, n, x, y, s) then Budget(n, x, y, dx, dy) else 0
  {
    if Matches(b, n, x, y, s) {
      var x1, y1 := x + dx, y + dy;
      var k := Run(b, n, x1, y1, dx, dy, s);
      assert Run(b, n, x, y, dx, dy, s) == k + 1;
      RunIsMaximal(b, n, x1, y1, dx, dy, s);
      forall i | 0 <= i < k + 1
        ensures MatchesAt(b, n, x, y, dx, dy, s, i)
      {
        if i == 0 {
          assert Step(x, dx, 0) == x && Step(y, dy, 0) == y;
        } else {
          assert MatchesAt(b, n, x1, y1, dx, dy, s, i - 1);
          StepShift(x, dx, i - 1);
          StepShift(y, dy, i - 1);
        }
      }
      assert !MatchesAt(b, n, x1, y1, dx, dy, s, k);
      StepShift(x, dx, k);
      StepShift(y, dy, k);
    } else {
      assert Step(x, dx, 0) == x && Step(y, dy, 0) == y;
    }
  }

  /** A run covers every prefix of matching cells. */
  lemma RunAtLeast(b: Board, n: int, x: int, y: int, dx: int, dy: int, s: Stone, m: int)
    requires WellFormed(b, n) && IsDir(dx, dy)
    requires forall i :: 0 <= i < m ==> MatchesAt(b, n, x, y, dx, dy, s, i)
    ensures Run(b, n, x, y, dx, dy, s) >= m
  {
    RunIsMaximal(b, n, x, y, dx, dy, s);
  }

  /** A run never leaves the board: it is at most the remaining budget. */
  lemma {:induction false} RunWithinBudget(b: Board, n: int, x: int, y: int, dx: int, dy: int, s: Stone)
    requires WellFormed(b, n) && IsDir(dx, dy)
    ensures Run(b, n, x, y, dx, dy, s) <= if Budget(n, x, y, dx, dy) < 0 then 0 else Budget(n, x, y, dx, dy)
    decreases if Matches(b, n, x, y, s) then Budget(n, x, y, dx, dy) else 0
  {
    if Matches(b, n, x, y, s) {
      RunWithinBudget(b, n, x + dx, y + dy, dx, dy, s);
    }
  }

  /** Each axis count of `checkWin` lies between 1 and the board size. */
  lemma AxisCountBounds(b: Board, n: int, row: int, col: int, dx: int, dy: int)
    requires WellFormed(b, n) && InBounds(n, row, col) && IsDir(dx, dy)
    ensures 1 <= AxisCount(b, n, row, col, dx, dy) <= n
  {
    var s := b[row][col];
    RunWithinBudget(b, n, row + dx, col + dy, dx, dy, s);
    RunWithinBudget(b, n, row - dx, col - dy, -dx, -dy, s);
  }

  /**
   * The loops of `checkWin`: per axis, walk forward then backward while the
   * cell is on the board and equals the placed one; return that colour as
   * soon as a count reaches five, and `null` after the four axes.
   */
  method CheckWin(b: Board, n: int, row: int, col: int) returns (r: Option<Stone>)
    requires WellFormed(b, n) && InBounds(n, row, col)
    ensures r.Some? <==> exists d :: 0 <= d < 4 && Axis(b, n, row, col, d) >= WinLength
    ensures r.Some? ==> r.value == b[row][col]
  {
    var d := 0;
    while d < 4
      invariant 0 <= d <= 4
      invariant forall e :: 0 <= e < d ==> Axis(b, n, row, col, e) < WinLength
    {
      var (dx, dy) := Dir(d);
      var s := b[row][col];
      var count := 1;
      var x, y := row + dx, col + dy;
      while 0 <= x < n && 0 <= y < n && b[x][y] == s
        invariant count - 1 + Run(b, n, x, y, dx, dy, s) == Run(b, n, row + dx, col + dy, dx, dy, s)
        decreases if Matches(b, n, x, y, s) then Budget(n, x, y, dx, dy) else 0
      {
        count := count + 1;
        x, y := x + dx, y + dy;
      }
      var fwd := count;
      x, y := row - dx, col - dy;
      while 0 <= x < n && 0 <= y < n && b[x][y] == s
        invariant count - fwd + Run(b, n, x, y, -dx, -dy, s) == Run(b, n, row - dx, col - dy, -dx, -dy, s)
        decreases if Matches(b, n, x, y, s) then Budget(n, x, y, -dx, -dy) else 0
      {
        count := count + 1;
        x, y := x - dx, y - dy;
      }
      assert count == Axis(b, n, row, col, d);
      if count >= WinLength {
        return Some(s);
      }
      d := d + 1;
    }
    return None;
  }

  /** Five consecutive cells from (x, y) along axis `d` are on the board and hold `s`. */
  predicate FiveFrom(b: Board, n: int, x: int, y: int, d: int, s: Stone)
    requires WellFormed(b, n) && 0 <= d < 4
  {
    forall i :: 0 <= i < WinLength ==> MatchesAt(b, n, x, y, Dir(d).0, Dir(d).1, s, i)
  }

  /** The five cells from (x, y) along axis `d` include (row, col). */
  predicate Covers(x: int, y: int, d: int, row: int, col: int)
    requires 0 <= d < 4
  {
    exists k :: 0 <= k < WinLength && Step(x, Dir(d).0, k) == row && Step(y, Dir(d).1, k) == col
  }

  /** Somewhere on the board five stones of one colour stand in a line. */
  ghost predicate FiveAnywhere(b: Board, n: int)
    requires WellFormed(b, n)
  {
    exists x, y, d :: InBounds(n, x, y) && 0 <= d < 4 && b[x][y] != Empty && FiveFrom(b, n, x, y, d, b[x][y])
  }

  /** (row, col) lies on a line of five stones of its own colour. */
  ghost predicate OnFive(b: Board, n: int, row: int, col: int)
    requires WellFormed(b, n) && InBounds(n, row, col)
  {
    exists x, y, d :: 0 <= d < 4 && FiveFrom(b, n, x, y, d, b[row][col]) && Covers(x, y, d, row, col)
  }

  /** Steps along one axis compose. */
  lemma StepCompose(x: int, d: int, i: int, j: int)
    requires -1 <= d <= 1
    ensures Step(Step(x, d, i), d, j) == Step(x, d, i + j)
  {
  }

  /** Walking backward from the cell before (x, y) visits the cells behind (x, y). */
  lemma StepBack(x: int, d: int, j: int)
    requires -1 <= d <= 1
    ensures Step(x - d, -d, j) == Step(x, d, -(j + 1))
  {
  }

  /** The forward and backward runs through (row, col) join into one segment of matching cells. */
  lemma Segment(b: Board, n: int, row: int, col: int, dx: int, dy: int)
    requires WellFormed(b, n) && InBounds(n, row, col) && IsDir(dx, dy)
    ensures var s := b[row][col];
      forall i :: 0 <= i + Run(b, n, row - dx, col - dy, -dx, -dy, s) && i <= Run(b, n, row + dx, col + dy, dx, dy, s) ==>
        MatchesAt(b, n, row, col, dx, dy, s, i)
  {
    var s := b[row][col];
    var fx, fy, px, py, ndx, ndy := row + dx, col + dy, row - dx, col - dy, -dx, -dy;
    RunIsMaximal(b, n, fx, fy, dx, dy, s);
    RunIsMaximal(b, n, px, py, ndx, ndy, s);
    forall i | 0 <= i + Run(b, n, px, py, ndx, ndy, s) && i <= Run(b, n, fx, fy, dx, dy, s)
      ensures MatchesAt(b, n, row, col, dx, dy, s, i)
    {
      if i < 0 {
        assert MatchesAt(b, n, px, py, ndx, ndy, s, -i - 1);
        StepBack(row, dx, -i - 1);
        StepBack(col, dy, -i - 1);
      } else if i > 0 {
        assert MatchesAt(b, n, fx, fy, dx, dy, s, i - 1);
        StepShift(row, dx, i - 1);
        StepShift(col, dy, i - 1);
      } else {
        assert Step(row, dx, 0) == row && Step(col, dy, 0) == col;
      }
    }
  }

  /** An axis count of five yields a line of five of that colour through the cell. */
  lemma AxisGivesFive(b: Board, n: int, row: int, col: int, d: int)
    requires WellFormed(b, n) && InBounds(n, row, col) && 0 <= d < 4
    requires Axis(b, n, row, col, d) >= WinLength
    ensures OnFive(b, n, row, col)
  {
    var s := b[row][col];
    var (dx, dy) := Dir(d);
    var f := Run(b, n, row + dx, col + dy, dx, dy, s);
    var g := Run(b, n, row - dx, col - dy, -dx, -dy, s);
    Segment(b, n, row, col, dx, dy);
    var k: int := if g < 4 then g else 4;
    var x, y := Step(row, dx, -k), Step(col, dy, -k);
    forall i | 0 <= i < WinLength
      ensures MatchesAt(b, n, x, y, dx, dy, s, i)
    {
      StepCompose(row, dx, -k, i);
      StepCompose(col, dy, -k, i);
      assert MatchesAt(b, n, row, col, dx, dy, s, i - k);
    }
    assert FiveFrom(b, n, x, y, d, s);
    StepCompose(row, dx, -k, k);
    StepCompose(col, dy, -k, k);
    assert Covers(x, y, d, row, col);
  }

  /** A line of five through the cell makes the axis count reach five. */
  lemma FiveGivesAxis(b: Board, n: int, row: int, col: int, x: int, y: int, d: int, k: int)
    requires WellFormed(b, n) && InBounds(n, row, col) && 0 <= d < 4
    requires FiveFrom(b, n, x, y, d, b[row][col])
    requires 0 <= k < WinLength && Step(x, Dir(d).0, k) == row && Step(y, Dir(d).1, k) == col
    ensures Axis(b, n, row, col, d) >= WinLength
  {
    var s := b[row][col];
    var (dx, dy) := Dir(d);
    var fx, fy, px, py, ndx, ndy := row + dx, col + dy, row - dx, col - dy, -dx, -dy;
    forall i | 0 <= i < WinLength - 1 - k
      ensures MatchesAt(b, n, fx, fy, dx, dy, s, i)
    {
      assert MatchesAt(b, n, x, y, dx, dy, s, k + 1 + i);
      StepCompose(x, dx, k, i + 1);
      StepCompose(y, dy, k, i + 1);
      StepShift(row, dx, i);
      StepShift(col, dy, i);
    }
    RunAtLeast(b, n, fx, fy, dx, dy, s, WinLength - 1 - k);
    forall i | 0 <= i < k
      ensures MatchesAt(b, n, px, py, ndx, ndy, s, i)
    {
      assert MatchesAt(b, n, x, y, dx, dy, s, k - 1 - i);
      StepCompose(x, dx, k, -(i + 1));
      StepCompose(y, dy, k, -(i + 1));
      StepBack(row, dx, i);
      StepBack(col, dy, i);
    }
    RunAtLeast(b, n, px, py, ndx, ndy, s, k);
  }

  /** A run counted by `checkWin` reaches five exactly when the cell lies on a five-line of its colour. */
  lemma WinsAtIffOnFive(b: Board, n: int, row: int, col: int)
    requires WellFormed(b, n) && InBounds(n, row, col)
    ensures WinsAt(b, n, row, col) <==> OnFive(b, n, row, col)
  {
    if WinsAt(b, n, row, col) {
      var d :| 0 <= d < 4 && Axis(b, n, row, col, d) >= WinLength;
      AxisGivesFive(b, n, row, col, d);
    }
    if OnFive(b, n, row, col) {
      var x, y, d :| 0 <= d < 4 && FiveFrom(b, n, x, y, d, b[row][col]) && Covers(x, y, d, row, col);
      var k :| 0 <= k < WinLength && Step(x, Dir(d).0, k) == row && Step(y, Dir(d).1, k) == col;
      FiveGivesAxis(b, n, row, col, x, y, d, k);
    }
  }

  /**
   * Checking only the cell just played is enough: if the board held no line
   * of five before a stone is placed on an empty cell, it holds one afterwards
   * exactly when `checkWin` succeeds at that cell.
   */
  lemma PlacedCellSuffices(b: Board, n: int, row: int, col: int, p: Stone)
    requires WellFormed(b, n) && InBounds(n, row, col)
    requires b[row][col] == Empty && p != Empty
    requires !FiveAnywhere(b, n)
    ensures var b' := Place(b, n, row, col, p);
      FiveAnywhere(b', n) <==> WinsAt(b', n, row, col)
  {
    var b' := Place(b, n, row, col, p);
    WinsAtIffOnFive(b', n, row, col);
    if WinsAt(b', n, row, col) {
      var x, y, d :| 0 <= d < 4 && FiveFrom(b', n, x, y, d, p) && Covers(x, y, d, row, col);
      assert MatchesAt(b', n, x, y, Dir(d).0, Dir(d).1, p, 0);
      assert InBounds(n, x, y) && b'[x][y] == p;
      assert FiveAnywhere(b', n);
    }
    if FiveAnywhere(b', n) {
      var x, y, d :| InBounds(n, x, y) && 0 <= d < 4 && b'[x][y] != Empty && FiveFrom(b', n, x, y, d, b'[x][y]);
      var s := b'[x][y];
      var (dx, dy) := Dir(d);
      if !Covers(x, y, d, row, col) {
        forall i | 0 <= i < WinLength
          ensures MatchesAt(b, n, x, y, dx, dy, s, i)
        {
          assert MatchesAt(b', n, x, y, dx, dy, s, i);
        }
        assert Step(x, dx, 0) == x && Step(y, dy, 0) == y;
        assert b[x][y] == s;
        assert FiveFrom(b, n, x, y, d, b[x][y]);
        assert false;
      }
      var k :| 0 <= k < WinLength && Step(x, dx, k) == row && Step(y, dy, k) == col;
      assert MatchesAt(b', n, x, y, dx, dy, s, k);
      assert b'[row][col] == s;
      assert OnFive(b', n, row, col);
    }
  }
}
