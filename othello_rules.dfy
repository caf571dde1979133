/**
 * The rules that src/core/Board.java implements, stated on grid values: the
 * directional scan shared by the check* and valid* methods, the flips a
 * capturing check* writes, the short-circuit move of isValidMove, the
 * terminal test gameOver and the winner comparison of isGameOver.
 */
module OthelloRules {
  import opened OthelloGrid

  /** What a scan in one direction finds: a capture of `flips` opponent discs, or none. */
  datatype ScanResult = Capture(flips: nat) | NoCapture

  /** The result of isValidMove on a board: the new board and whether the move was valid. */
  datatype MoveResult = MoveResult(board: Grid, valid: bool)

  /** The outcome the game-over dialog announces. */
  datatype Outcome = DarkWins | LightWins | Draw

  /** Whether isGameOver ends the game, and with which outcome. */
  datatype Status = InProgress | Over(outcome: Outcome)

  /** Steps left before coordinate x leaves the board moving by dx. */
  function Span(x: int, dx: int): nat {
    if dx > 0 && x < 8 then 8 - x else if dx < 0 && x >= 0 then x + 1 else 0
  }

  /** A measure that every in-bounds step in direction d decreases. */
  function Reach(r: int, c: int, d: Direction): nat {
    Span(r, d.DRow()) + Span(c, d.DCol())
  }

  /** Coordinate x moved k steps by the unit step dx. */
  function Along(x: int, dx: int, k: int): int {
    if dx > 0 then x + k else if dx < 0 then x - k else x
  }

  /**
   * The scan of a check* loop, resumed at tile (r, c) with `run` opponent
   * discs already counted: an empty tile or the board edge ends it without a
   * capture, an opponent disc is counted, and the mover's own disc ends it
   * with a capture exactly when at least one opponent disc was counted.
   */
  function ScanFrom(g: Grid, r: int, c: int, d: Direction, color: Tile, run: nat): (s: ScanResult)
    ensures s.Capture? ==> s.flips >= run && s.flips > 0
    decreases Reach(r, c, d)
  {
    if !InBounds(r, c) || g[r][c] == Empty then NoCapture
    else if g[r][c] != color then ScanFrom(g, r + d.DRow(), c + d.DCol(), d, color, run + 1)
    else if run > 0 then Capture(run)
    else NoCapture
  }

  /** The scan from origin (r, c), starting one step away from it. */
  function ScanDir(g: Grid, r: int, c: int, d: Direction, color: Tile): ScanResult {
    ScanFrom(g, r + d.DRow(), c + d.DCol(), d, color, 0)
  }

  /** Placing `color` at (r, c) captures in direction d. */
  predicate Captures(g: Grid, r: int, c: int, d: Direction, color: Tile) {
    ScanDir(g, r, c, d, color).Capture?
  }

  /**
   * The reference definition of a capture of n discs: the n tiles stepping
   * away from (r, c) hold opponent discs and the next tile, still on the
   * board, holds the mover's own disc.
   */
  ghost predicate CaptureLine(g: Grid, r: int, c: int, d: Direction, color: Tile, n: nat)
    requires IsDisc(color)
  {
    && n >= 1
    && OpponentRun(g, r, c, d, color, n)
    && InBounds(Along(r, d.DRow(), n + 1), Along(c, d.DCol(), n + 1))
    && g[Along(r, d.DRow(), n + 1)][Along(c, d.DCol(), n + 1)] == color
  }

  /** The flip loop of check*: step away from (r, c) n times, writing `color` each time. */
  function FlipLine(g: Grid, r: int, c: int, d: Direction, color: Tile, n: nat): Grid
    decreases n
  {
    if n == 0 then g
    else FlipLine(Set(g, r + d.DRow(), c + d.DCol(), color), r + d.DRow(), c + d.DCol(), d, color, n - 1)
  }

  /** The board after a capturing check*: the origin and n tiles beyond it take `color`. */
  function FlipDirection(g: Grid, r: int, c: int, d: Direction, color: Tile, n: nat): Grid {
    FlipLine(Set(g, r, c, color), r, c, d, color, n)
  }

  /** The steps from (r, c) to (i, j) along d, when (i, j) lies on that ray. */
  function StepsTo(r: int, c: int, d: Direction, i: int, j: int): int {
    if d.DRow() > 0 then i - r
    else if d.DRow() < 0 then r - i
    else if d.DCol() > 0 then j - c
    else c - j
  }

  /** (i, j) is one of the n tiles stepping away from (r, c) in direction d. */
  predicate OnRun(r: int, c: int, d: Direction, n: nat, i: int, j: int) {
    var k := StepsTo(r, c, d, i, j);
    1 <= k <= n && i == Along(r, d.DRow(), k) && j == Along(c, d.DCol(), k)
  }

  /**
   * isValidMove from direction index i on: the first capturing direction in
   * table order is flipped and no later direction is examined.
   */
  function Attempt(g: Grid, r: int, c: int, color: Tile, i: nat): MoveResult
    requires i <= 8
    decreases 8 - i
  {
    if i == 8 then MoveResult(g, false)
    else match ScanDir(g, r, c, Directions[i], color)
      case Capture(n) => MoveResult(FlipDirection(g, r, c, Directions[i], color, n), true)
      case NoCapture => Attempt(g, r, c, color, i + 1)
  }

  /** The effect of isValidMove(r, c, color) on board g. */
  function AttemptMove(g: Grid, r: int, c: int, color: Tile): MoveResult {
    Attempt(g, r, c, color, 0)
  }

  /** Some direction captures from (r, c). */
  ghost predicate Legal(g: Grid, r: int, c: int, color: Tile) {
    exists d: Direction :: Captures(g, r, c, d, color)
  }

  /** What hasMove decides: some empty tile has a capturing direction for `color`. */
  ghost predicate CanMove(g: Grid, color: Tile) {
    exists r, c :: InBounds(r, c) && g[r][c] == Empty && Legal(g, r, c, color)
  }

  /** What gameOver decides for the player of `color` and the given scores. */
  ghost predicate GameOverSpec(g: Grid, color: Tile, darkScore: int, lightScore: int) {
    darkScore + lightScore == 64 || darkScore == 0 || lightScore == 0 || !CanMove(g, color)
  }

  /** The winner comparison of isGameOver. */
  function Winner(darkScore: int, lightScore: int): (w: Outcome)
    ensures w == DarkWins <==> darkScore > lightScore
    ensures w == LightWins <==> darkScore < lightScore
    ensures w == Draw <==> darkScore == lightScore
  {
    if darkScore > lightScore then DarkWins
    else if darkScore < lightScore then LightWins
    else Draw
  }

  /**
   * getNextColor: player one plays Dark and player two Light, so the colour
   * after Dark is Light and after anything else Dark.
   */
  function NextColor(color: Tile): (next: Tile)
    ensures IsDisc(next)
    ensures IsDisc(color) ==> next != color
  {
    if color == Dark then Light else Dark
  }

  // ---------------------------------------------------------------------
  // The scan against its reference definition

  lemma AlongStep(x: int, dx: int, k: int)
    requires -1 <= dx <= 1
    ensures Along(x, dx, k + 1) == Along(x, dx, k) + dx
    ensures Along(x + dx, dx, k) == Along(x, dx, k + 1)
  {
  }

  /** The n tiles stepping away from (r, c) in direction d hold opponent discs. */
  ghost predicate OpponentRun(g: Grid, r: int, c: int, d: Direction, color: Tile, n: nat)
    requires IsDisc(color)
  {
    forall k :: 1 <= k <= n ==>
      InBounds(Along(r, d.DRow(), k), Along(c, d.DCol(), k)) &&
      g[Along(r, d.DRow(), k)][Along(c, d.DCol(), k)] == Opponent(color)
  }

  /** A run blocked by the edge or an empty tile at step run + 1 is no capture. */
  lemma BlockedNoLine(g: Grid, r: int, c: int, d: Direction, color: Tile, run: nat, n: nat)
    requires IsDisc(color) && OpponentRun(g, r, c, d, color, run)
    requires var i, j := Along(r, d.DRow(), run + 1), Along(c, d.DCol(), run + 1);
      !InBounds(i, j) || g[i][j] == Empty
    ensures !CaptureLine(g, r, c, d, color, n)
  {
    if n < run {
      assert g[Along(r, d.DRow(), n + 1)][Along(c, d.DCol(), n + 1)] == Opponent(color);
    }
  }

  /** A run ended by the mover's disc at step run + 1 is the capture of exactly run discs. */
  lemma AnchoredLine(g: Grid, r: int, c: int, d: Direction, color: Tile, run: nat, n: nat)
    requires IsDisc(color) && OpponentRun(g, r, c, d, color, run)
    requires var i, j := Along(r, d.DRow(), run + 1), Along(c, d.DCol(), run + 1);
      InBounds(i, j) && g[i][j] == color
    ensures CaptureLine(g, r, c, d, color, n) <==> run > 0 && n == run
  {
    if n < run {
      assert g[Along(r, d.DRow(), n + 1)][Along(c, d.DCol(), n + 1)] == Opponent(color);
    }
  }

  /** One more opponent disc at step run + 1 extends the run. */
  lemma ExtendRun(g: Grid, r: int, c: int, d: Direction, color: Tile, run: nat)
    requires IsDisc(color) && OpponentRun(g, r, c, d, color, run)
    requires var i, j := Along(r, d.DRow(), run + 1), Along(c, d.DCol(), run + 1);
      InBounds(i, j) && g[i][j] == Opponent(color)
    ensures OpponentRun(g, r, c, d, color, run + 1)
    ensures Along(r, d.DRow(), run + 2) == Along(r, d.DRow(), run + 1) + d.DRow()
    ensures Along(c, d.DCol(), run + 2) == Along(c, d.DCol(), run + 1) + d.DCol()
  {
  }

  /**
   * Resuming a scan run + 1 steps from (r, c), after `run` opponent discs,
   * captures n discs exactly when the reference definition holds for n.
   */
  lemma {:induction false} ScanFromSpec(g: Grid, r: int, c: int, d: Direction, color: Tile, run: nat, n: nat)
    requires IsDisc(color) && OpponentRun(g, r, c, d, color, run)
    ensures ScanFrom(g, Along(r, d.DRow(), run + 1), Along(c, d.DCol(), run + 1), d, color, run) == Capture(n)
      <==> CaptureLine(g, r, c, d, color, n)
    decreases Reach(Along(r, d.DRow(), run + 1), Along(c, d.DCol(), run + 1), d)
  {
    var i, j := Along(r, d.DRow(), run + 1), Along(c, d.DCol(), run + 1);
    if !InBounds(i, j) || g[i][j] == Empty {
      BlockedNoLine(g, r, c, d, color, run, n);
    } else if g[i][j] != color {
      ExtendRun(g, r, c, d, color, run);
      ScanFromSpec(g, r, c, d, color, run + 1, n);
    } else {
      AnchoredLine(g, r, c, d, color, run, n);
    }
  }

  /** A direction scan captures n discs exactly when the reference definition holds. */
  lemma ScanDirSpec(g: Grid, r: int, c: int, d: Direction, color: Tile, n: nat)
    requires IsDisc(color)
    ensures ScanDir(g, r, c, d, color) == Capture(n) <==> CaptureLine(g, r, c, d, color, n)
  {
    ScanFromSpec(g, r, c, d, color, 0, n);
  }

  /** A capture is the reference line for the counted number of discs. */
  lemma CapturesLine(g: Grid, r: int, c: int, d: Direction, color: Tile)
    requires IsDisc(color) && Captures(g, r, c, d, color)
    ensures CaptureLine(g, r, c, d, color, ScanDir(g, r, c, d, color).flips)
  {
    ScanDirSpec(g, r, c, d, color, ScanDir(g, r, c, d, color).flips);
  }

  /**
   * The scan fails exactly in the three cases of a check* method: the board
   * edge or an empty tile is reached before the mover's colour, or the
   * mover's colour is found next to the origin.
   */
  lemma ScanFails(g: Grid, r: int, c: int, d: Direction, color: Tile)
    requires IsDisc(color) && InBounds(r, c)
    ensures !Captures(g, r, c, d, color) <==> forall n: nat :: !CaptureLine(g, r, c, d, color, n)
  {
    if Captures(g, r, c, d, color) {
      CapturesLine(g, r, c, d, color);
    } else {
      forall n: nat ensures !CaptureLine(g, r, c, d, color, n) {
        ScanDirSpec(g, r, c, d, color, n);
      }
    }
  }

  // ---------------------------------------------------------------------
  // The flips of a capturing check*

  lemma StepsToStep(r: int, c: int, d: Direction, i: int, j: int)
    ensures StepsTo(r + d.DRow(), c + d.DCol(), d, i, j) == StepsTo(r, c, d, i, j) - 1
  {
  }

  /** FlipLine writes `color` into exactly the n tiles stepping away from (r, c). */
  lemma {:induction false} FlipLineAt(g: Grid, r: int, c: int, d: Direction, color: Tile, n: nat, i: int, j: int)
    requires InBounds(i, j)
    ensures FlipLine(g, r, c, d, color, n)[i][j] == if OnRun(r, c, d, n, i, j) then color else g[i][j]
    decreases n
  {
    if n > 0 {
      var r', c' := r + d.DRow(), c + d.DCol();
      FlipLineAt(Set(g, r', c', color), r', c', d, color, n - 1, i, j);
      StepsToStep(r, c, d, i, j);
      var k := StepsTo(r, c, d, i, j);
      AlongStep(r, d.DRow(), k - 1);
      AlongStep(c, d.DCol(), k - 1);
      if OnRun(r, c, d, n, i, j) && k > 1 {
        assert OnRun(r', c', d, n - 1, i, j);
      }
      if OnRun(r', c', d, n - 1, i, j) {
        assert OnRun(r, c, d, n, i, j);
      }
      if i == r' && j == c' {
        assert OnRun(r, c, d, n, i, j);
      }
      if OnRun(r, c, d, n, i, j) && k == 1 {
        assert i == r' && j == c';
      }
    }
  }

  /**
   * A capturing check* sets the origin and the n tiles stepping away from it
   * to the mover's colour; every other tile, the anchoring one included, is
   * unchanged.
   */
  lemma FlipDirectionAt(g: Grid, r: int, c: int, d: Direction, color: Tile, n: nat, i: int, j: int)
    requires InBounds(i, j)
    ensures FlipDirection(g, r, c, d, color, n)[i][j]
      == if (i == r && j == c) || OnRun(r, c, d, n, i, j) then color else g[i][j]
  {
    FlipLineAt(Set(g, r, c, color), r, c, d, color, n, i, j);
  }

  /** The n tiles stepping away from (r, c) in direction d are all on the board. */
  ghost predicate RunOnBoard(r: int, c: int, d: Direction, n: nat) {
    forall k :: 1 <= k <= n ==> InBounds(Along(r, d.DRow(), k), Along(c, d.DCol(), k))
  }

  /** A capture's run lies on the board. */
  lemma CaptureOnBoard(g: Grid, r: int, c: int, d: Direction, color: Tile)
    requires IsDisc(color) && Captures(g, r, c, d, color)
    ensures RunOnBoard(r, c, d, ScanDir(g, r, c, d, color).flips)
  {
    CapturesLine(g, r, c, d, color);
  }

  /** The first tile of a run on the board is on the board, and so is the rest of the run. */
  lemma ShiftOnBoard(r: int, c: int, d: Direction, n: nat)
    requires n > 0 && RunOnBoard(r, c, d, n)
    ensures InBounds(r + d.DRow(), c + d.DCol())
    ensures RunOnBoard(r + d.DRow(), c + d.DCol(), d, n - 1)
  {
    var r', c' := r + d.DRow(), c + d.DCol();
    assert Along(r, d.DRow(), 1) == r' && Along(c, d.DCol(), 1) == c';
    forall k | 1 <= k <= n - 1
      ensures InBounds(Along(r', d.DRow(), k), Along(c', d.DCol(), k))
    {
      AlongStep(r, d.DRow(), k);
      AlongStep(c, d.DCol(), k);
      assert 1 <= k + 1 <= n;
    }
  }

  /** No tile of a run is the origin, and run tiles are pairwise distinct. */
  lemma RunDistinct(r: int, c: int, d: Direction, k: int, m: int)
    requires 0 <= k < m
    ensures Along(r, d.DRow(), k) != Along(r, d.DRow(), m) || Along(c, d.DCol(), k) != Along(c, d.DCol(), m)
  {
  }

  /** After flipping the first tile of a run, the rest is a run from that tile. */
  lemma ShiftRun(g: Grid, r: int, c: int, d: Direction, color: Tile, n: nat)
    requires IsDisc(color) && n > 0 && OpponentRun(g, r, c, d, color, n)
    ensures OpponentRun(Set(g, r + d.DRow(), c + d.DCol(), color), r + d.DRow(), c + d.DCol(), d, color, n - 1)
  {
    var r', c' := r + d.DRow(), c + d.DCol();
    var g' := Set(g, r', c', color);
    forall k | 1 <= k <= n - 1
      ensures InBounds(Along(r', d.DRow(), k), Along(c', d.DCol(), k))
      ensures g'[Along(r', d.DRow(), k)][Along(c', d.DCol(), k)] == Opponent(color)
    {
      AlongStep(r, d.DRow(), k);
      AlongStep(c, d.DCol(), k);
      assert 1 <= k + 1 <= n;
      RunDistinct(r, c, d, 1, k + 1);
    }
  }

  /** Flipping a run of n opponent discs moves n from the opponent's count to the mover's. */
  lemma {:induction false} FlipLineCounts(g: Grid, r: int, c: int, d: Direction, color: Tile, n: nat)
    requires IsDisc(color) && OpponentRun(g, r, c, d, color, n)
    ensures Count(FlipLine(g, r, c, d, color, n), color) == Count(g, color) + n
    ensures Count(FlipLine(g, r, c, d, color, n), Opponent(color)) == Count(g, Opponent(color)) - n
    ensures Count(FlipLine(g, r, c, d, color, n), Empty) == Count(g, Empty)
    decreases n
  {
    if n > 0 {
      var r', c' := r + d.DRow(), c + d.DCol();
      assert Along(r, d.DRow(), 1) == r' && Along(c, d.DCol(), 1) == c';
      var g' := Set(g, r', c', color);
      CountSet(g, r', c', color, color);
      CountSet(g, r', c', color, Opponent(color));
      CountSet(g, r', c', color, Empty);
      ShiftRun(g, r, c, d, color, n);
      FlipLineCounts(g', r', c', d, color, n - 1);
    }
  }

  /**
   * A capturing check* from an empty origin: the mover gains the placed disc
   * and the n flipped ones, the opponent loses n, and one empty tile is filled.
   */
  lemma FlipDirectionCounts(g: Grid, r: int, c: int, d: Direction, color: Tile)
    requires IsDisc(color) && InBounds(r, c) && g[r][c] == Empty && Captures(g, r, c, d, color)
    ensures var n := ScanDir(g, r, c, d, color).flips;
      && Count(FlipDirection(g, r, c, d, color, n), color) == Count(g, color) + n + 1
      && Count(FlipDirection(g, r, c, d, color, n), Opponent(color)) == Count(g, Opponent(color)) - n
      && Count(FlipDirection(g, r, c, d, color, n), Empty) == Count(g, Empty) - 1
  {
    var n := ScanDir(g, r, c, d, color).flips;
    CapturesLine(g, r, c, d, color);
    var g' := Set(g, r, c, color);
    CountSet(g, r, c, color, color);
    CountSet(g, r, c, color, Opponent(color));
    CountSet(g, r, c, color, Empty);
    forall k | 1 <= k <= n
      ensures InBounds(Along(r, d.DRow(), k), Along(c, d.DCol(), k))
      ensures g'[Along(r, d.DRow(), k)][Along(c, d.DCol(), k)] == Opponent(color)
    {
      RunDistinct(r, c, d, 0, k);
    }
    FlipLineCounts(g', r, c, d, color, n);
  }

  // ---------------------------------------------------------------------
  // The short-circuit move of isValidMove

  lemma {:induction false} AttemptValid(g: Grid, r: int, c: int, color: Tile, i: nat)
    requires i <= 8
    ensures Attempt(g, r, c, color, i).valid <==> exists m :: i <= m < 8 && Captures(g, r, c, Directions[m], color)
    ensures !Attempt(g, r, c, color, i).valid ==> Attempt(g, r, c, color, i).board == g
    decreases 8 - i
  {
    if i < 8 && !Captures(g, r, c, Directions[i], color) {
      AttemptValid(g, r, c, color, i + 1);
    }
  }

  /** isValidMove reports a valid move exactly when some direction captures. */
  lemma AttemptMoveLegal(g: Grid, r: int, c: int, color: Tile)
    ensures AttemptMove(g, r, c, color).valid <==> Legal(g, r, c, color)
  {
    AttemptValid(g, r, c, color, 0);
    if Legal(g, r, c, color) {
      var d :| Captures(g, r, c, d, color);
      assert Captures(g, r, c, Directions[IndexOf(d)], color);
    }
  }

  /** A failed isValidMove leaves the board exactly as it was. */
  lemma AttemptMoveUnchanged(g: Grid, r: int, c: int, color: Tile)
    requires !AttemptMove(g, r, c, color).valid
    ensures AttemptMove(g, r, c, color).board == g
    ensures forall d :: !Captures(g, r, c, d, color)
  {
    AttemptValid(g, r, c, color, 0);
    AttemptMoveLegal(g, r, c, color);
  }

  lemma {:induction false} AttemptFirst(g: Grid, r: int, c: int, color: Tile, i: nat)
    requires i <= 8 && Attempt(g, r, c, color, i).valid
    ensures exists m :: && i <= m < 8 && Captures(g, r, c, Directions[m], color)
                        && (forall k :: i <= k < m ==> !Captures(g, r, c, Directions[k], color))
                        && Attempt(g, r, c, color, i).board
                           == FlipDirection(g, r, c, Directions[m], color, ScanDir(g, r, c, Directions[m], color).flips)
    decreases 8 - i
  {
    if !Captures(g, r, c, Directions[i], color) {
      AttemptFirst(g, r, c, color, i + 1);
      var m :| i + 1 <= m < 8 && Captures(g, r, c, Directions[m], color)
        && (forall k :: i + 1 <= k < m ==> !Captures(g, r, c, Directions[k], color))
        && Attempt(g, r, c, color, i + 1).board
           == FlipDirection(g, r, c, Directions[m], color, ScanDir(g, r, c, Directions[m], color).flips);
      assert forall k :: i <= k < m ==> !Captures(g, r, c, Directions[k], color);
    }
  }

  /** m is the first index of the direction table whose direction captures. */
  ghost predicate FirstCapturing(g: Grid, r: int, c: int, color: Tile, m: int) {
    && 0 <= m < 8
    && Captures(g, r, c, Directions[m], color)
    && forall k :: 0 <= k < m ==> !Captures(g, r, c, Directions[k], color)
  }

  /** h is g with the origin and the n tiles stepping away from it in direction d set to color. */
  ghost predicate FlippedRun(g: Grid, h: Grid, r: int, c: int, d: Direction, color: Tile, n: nat) {
    forall i, j :: InBounds(i, j) ==>
      h[i][j] == if (i == r && j == c) || OnRun(r, c, d, n, i, j) then color else g[i][j]
  }

  /**
   * A valid isValidMove flips the FIRST capturing direction in the order Up,
   * UpLeft, Left, DownLeft, Down, DownRight, Right, UpRight, and only that
   * one: the new board sets the origin and exactly that direction's run.
   */
  lemma AttemptMoveFirst(g: Grid, r: int, c: int, color: Tile)
    requires AttemptMove(g, r, c, color).valid
    ensures exists m ::
              && FirstCapturing(g, r, c, color, m)
              && FlippedRun(g, AttemptMove(g, r, c, color).board, r, c, Directions[m], color,
                            ScanDir(g, r, c, Directions[m], color).flips)
  {
    AttemptFirst(g, r, c, color, 0);
    var m :| 0 <= m < 8 && Captures(g, r, c, Directions[m], color)
      && (forall k :: 0 <= k < m ==> !Captures(g, r, c, Directions[k], color))
      && AttemptMove(g, r, c, color).board
         == FlipDirection(g, r, c, Directions[m], color, ScanDir(g, r, c, Directions[m], color).flips);
    var n := ScanDir(g, r, c, Directions[m], color).flips;
    forall i, j | InBounds(i, j)
      ensures AttemptMove(g, r, c, color).board[i][j]
        == if (i == r && j == c) || OnRun(r, c, Directions[m], n, i, j) then color else g[i][j]
    {
      FlipDirectionAt(g, r, c, Directions[m], color, n, i, j);
    }
    assert FirstCapturing(g, r, c, color, m);
    assert FlippedRun(g, AttemptMove(g, r, c, color).board, r, c, Directions[m], color, n);
  }

  /**
   * A valid move on an empty origin fills exactly one empty tile: the
   * mover's count rises by the flips plus one, the opponent's falls by the
   * flips, so Dark plus Light rises by exactly one.
   */
  lemma AttemptMoveCounts(g: Grid, r: int, c: int, color: Tile)
    requires IsDisc(color) && InBounds(r, c) && g[r][c] == Empty
    requires AttemptMove(g, r, c, color).valid
    ensures Count(AttemptMove(g, r, c, color).board, color) - Count(g, color)
      == Count(g, Opponent(color)) - Count(AttemptMove(g, r, c, color).board, Opponent(color)) + 1
    ensures Count(AttemptMove(g, r, c, color).board, color) >= Count(g, color) + 2
    ensures Count(AttemptMove(g, r, c, color).board, Empty) == Count(g, Empty) - 1
    ensures Count(AttemptMove(g, r, c, color).board, Dark) + Count(AttemptMove(g, r, c, color).board, Light)
      == Count(g, Dark) + Count(g, Light) + 1
  {
    AttemptFirst(g, r, c, color, 0);
    var m :| 0 <= m < 8 && Captures(g, r, c, Directions[m], color)
      && AttemptMove(g, r, c, color).board
         == FlipDirection(g, r, c, Directions[m], color, ScanDir(g, r, c, Directions[m], color).flips);
    FlipDirectionCounts(g, r, c, Directions[m], color);
    CountPartition(g);
    CountPartition(AttemptMove(g, r, c, color).board);
  }

  // ---------------------------------------------------------------------
  // The terminal test

  /** A capture needs a disc of each colour on the board. */
  lemma LegalNeedsBothColours(g: Grid, r: int, c: int, color: Tile)
    requires IsDisc(color) && Legal(g, r, c, color)
    ensures Count(g, Dark) > 0 && Count(g, Light) > 0
  {
    var d :| Captures(g, r, c, d, color);
    CapturesLine(g, r, c, d, color);
    var n := ScanDir(g, r, c, d, color).flips;
    var own := (Along(r, d.DRow(), n + 1), Along(c, d.DCol(), n + 1));
    var opp := (Along(r, d.DRow(), 1), Along(c, d.DCol(), 1));
    assert g[own.0][own.1] == color;
    assert g[opp.0][opp.1] == Opponent(color);
    if Count(g, Dark) == 0 {
      CountZero(g, Dark);
    }
    if Count(g, Light) == 0 {
      CountZero(g, Light);
    }
  }

  /**
   * With the exact recounted scores, the full-board and eliminated-colour
   * tests of gameOver never decide anything that hasMove would not: the
   * game is over exactly when the side to move has no placement.
   */
  lemma GameOverIsNoMove(g: Grid, color: Tile)
    requires IsDisc(color)
    ensures GameOverSpec(g, color, Count(g, Dark), Count(g, Light)) <==> !CanMove(g, color)
  {
    if CanMove(g, color) {
      var r, c :| InBounds(r, c) && g[r][c] == Empty && Legal(g, r, c, color);
      LegalNeedsBothColours(g, r, c, color);
      CountPartition(g);
      if Count(g, Empty) == 0 {
        CountZero(g, Empty);
      }
    }
  }
}
