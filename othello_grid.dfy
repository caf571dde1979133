/**
 * The data model of the Othello board in src/core/Board.java: the colour of a
 * tile, the eight compass directions, the 8x8 grid as a value, and counting
 * tiles of one colour (the recount done by calculateScore).
 */
module OthelloGrid {

  /** The colour of one tile. The source's `null` colour is `Empty`. */
  datatype Tile = Empty | Dark | Light

  /** A colour a player can move with. */
  predicate IsDisc(t: Tile) {
    t != Empty
  }

  /** The other player's colour. */
  function Opponent(t: Tile): (o: Tile)
    requires IsDisc(t)
    ensures IsDisc(o) && o != t
  {
    if t == Dark then Light else Dark
  }

  /** Both board dimensions are 8 (Constants.ROWS and Constants.COLUMNS). */
  predicate InBounds(r: int, c: int) {
    0 <= r < 8 && 0 <= c < 8
  }

  /** An 8x8 grid of tiles, indexed `g[row][column]`, 0-based. */
  type Grid = g: seq<seq<Tile>> | |g| == 8 && forall r :: 0 <= r < 8 ==> |g[r]| == 8
    witness seq(8, _ => seq(8, _ => Empty))

  /** One `setDiscColor`: tile (r, c) becomes t; positions off the board change nothing. */
  function Set(g: Grid, r: int, c: int, t: Tile): (h: Grid)
    ensures forall i, j :: InBounds(i, j) ==> h[i][j] == if i == r && j == c then t else g[i][j]
  {
    if InBounds(r, c) then g[r := g[r][c := t]] else g
  }

  /** The eight directions in which a move is checked, as a unit step (row, column). */
  datatype Direction = Up | UpLeft | Left | DownLeft | Down | DownRight | Right | UpRight {
    function DRow(): int {
      match this
      case Up | UpLeft | UpRight => -1
      case Left | Right => 0
      case DownLeft | Down | DownRight => 1
    }
    function DCol(): int {
      match this
      case UpLeft | Left | DownLeft => -1
      case Up | Down => 0
      case DownRight | Right | UpRight => 1
    }
  }

  /** The order in which isValidMove and hasMove try the directions. */
  const Directions: seq<Direction> := [Up, UpLeft, Left, DownLeft, Down, DownRight, Right, UpRight]

  /** Every direction has a place in the table. */
  function IndexOf(d: Direction): (i: nat)
    ensures i < |Directions| && Directions[i] == d
  {
    match d
    case Up => 0
    case UpLeft => 1
    case Left => 2
    case DownLeft => 3
    case Down => 4
    case DownRight => 5
    case Right => 6
    case UpRight => 7
  }

  /** The tile setup made by initObjects: the four centre discs, all else empty. */
  function InitialTile(r: int, c: int): Tile {
    if (r == 8 / 2 - 1 && c == 8 / 2 - 1) || (r == 8 / 2 && c == 8 / 2) then Light
    else if (r == 8 / 2 - 1 && c == 8 / 2) || (r == 8 / 2 && c == 8 / 2 - 1) then Dark
    else Empty
  }

  function InitialGrid(): Grid {
    seq(8, r => seq(8, c => InitialTile(r, c)))
  }

  /** The number of tiles of colour t in a row. */
  function CountRow(s: seq<Tile>, t: Tile): (n: nat)
    ensures n <= |s|
  {
    if s == [] then 0 else CountRow(s[..|s| - 1], t) + (if s[|s| - 1] == t then 1 else 0)
  }

  /** The number of tiles of colour t in a sequence of rows. */
  function CountRows(rows: seq<seq<Tile>>, t: Tile): nat {
    if rows == [] then 0 else CountRows(rows[..|rows| - 1], t) + CountRow(rows[|rows| - 1], t)
  }

  /** The number of tiles of colour t on the board. */
  function Count(g: Grid, t: Tile): nat {
    CountRows(g, t)
  }

  /** Every tile of a row has exactly one of the three colours. */
  lemma {:induction false} CountRowPartition(s: seq<Tile>)
    ensures CountRow(s, Empty) + CountRow(s, Dark) + CountRow(s, Light) == |s|
  {
    if s != [] {
      CountRowPartition(s[..|s| - 1]);
    }
  }

  lemma {:induction false} CountRowsPartition(rows: seq<seq<Tile>>)
    requires forall r :: 0 <= r < |rows| ==> |rows[r]| == 8
    ensures CountRows(rows, Empty) + CountRows(rows, Dark) + CountRows(rows, Light) == 8 * |rows|
  {
    if rows != [] {
      CountRowsPartition(rows[..|rows| - 1]);
      CountRowPartition(rows[|rows| - 1]);
    }
  }

  /** Empty, Dark and Light tiles together are the 64 tiles of the board. */
  lemma CountPartition(g: Grid)
    ensures Count(g, Empty) + Count(g, Dark) + Count(g, Light) == 64
    ensures Count(g, Dark) + Count(g, Light) <= 64
  {
    CountRowsPartition(g);
  }

  lemma {:induction false} CountRowUpdate(s: seq<Tile>, c: int, t: Tile, x: Tile)
    requires 0 <= c < |s|
    ensures CountRow(s[c := t], x) == CountRow(s, x) - (if s[c] == x then 1 else 0) + (if t == x then 1 else 0)
  {
    var s' := s[c := t];
    if c == |s| - 1 {
      assert s'[..|s'| - 1] == s[..|s| - 1];
    } else {
      assert s'[..|s'| - 1] == s[..|s| - 1][c := t];
      CountRowUpdate(s[..|s| - 1], c, t, x);
    }
  }

  lemma {:induction false} CountRowsUpdate(rows: seq<seq<Tile>>, r: int, row: seq<Tile>, x: Tile)
    requires 0 <= r < |rows|
    ensures CountRows(rows[r := row], x) == CountRows(rows, x) - CountRow(rows[r], x) + CountRow(row, x)
  {
    var rows' := rows[r := row];
    if r == |rows| - 1 {
      assert rows'[..|rows'| - 1] == rows[..|rows| - 1];
    } else {
      assert rows'[..|rows'| - 1] == rows[..|rows| - 1][r := row];
      CountRowsUpdate(rows[..|rows| - 1], r, row, x);
    }
  }

  /** Setting one tile moves exactly one tile from its old colour's count to t's count. */
  lemma CountSet(g: Grid, r: int, c: int, t: Tile, x: Tile)
    requires InBounds(r, c)
    ensures Count(Set(g, r, c, t), x) == Count(g, x) - (if g[r][c] == x then 1 else 0) + (if t == x then 1 else 0)
  {
    CountRowsUpdate(g, r, g[r][c := t], x);
    CountRowUpdate(g[r], c, t, x);
  }

  lemma {:induction false} CountRowZero(s: seq<Tile>, t: Tile, c: int)
    requires 0 <= c < |s| && CountRow(s, t) == 0
    ensures s[c] != t
  {
    if c < |s| - 1 {
      CountRowZero(s[..|s| - 1], t, c);
    }
  }

  lemma {:induction false} CountRowsZero(rows: seq<seq<Tile>>, t: Tile, r: int, c: int)
    requires 0 <= r < |rows| && 0 <= c < |rows[r]| && CountRows(rows, t) == 0
    ensures rows[r][c] != t
  {
    if r < |rows| - 1 {
      CountRowsZero(rows[..|rows| - 1], t, r, c);
    } else {
      CountRowZero(rows[r], t, c);
    }
  }

  /** A colour with count zero occurs nowhere on the board. */
  lemma CountZero(g: Grid, t: Tile)
    requires Count(g, t) == 0
    ensures forall r, c :: InBounds(r, c) ==> g[r][c] != t
  {
    forall r, c | InBounds(r, c)
      ensures g[r][c] != t
    {
      CountRowsZero(g, t, r, c);
    }
  }
}
