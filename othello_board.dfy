/**
 * The Board class of src/core/Board.java: an 8x8 array of tile colours that
 * isValidMove changes in place, and the two score fields calculateScore
 * recounts. The ghost field Cells is the board as a grid value; Valid() ties
 * it to the array, and every method states its effect on Cells through the
 * functions of OthelloRules.
 */
module OthelloBoard {
  import opened OthelloGrid
  import opened OthelloRules

  class Board {
    var grid: array2<Tile>
    var darkCount: int
    var lightCount: int
    ghost var Cells: Grid

    ghost predicate Valid()
      reads this, grid
    {
      && grid.Length0 == 8 && grid.Length1 == 8
      && forall r, c :: 0 <= r < 8 && 0 <= c < 8 ==> grid[r, c] == Cells[r][c]
    }

    /** initObjects: every tile empty, then the four centre discs. */
    constructor ()
      ensures Valid() && fresh(grid)
      ensures Cells == InitialGrid()
      ensures darkCount == 0 && lightCount == 0
    {
      var a := new Tile[8, 8];
      for row := 0 to 8
        invariant forall i, j :: 0 <= i < row && 0 <= j < 8 ==> a[i, j] == Empty
      {
        for col := 0 to 8
          invariant forall i, j :: 0 <= i < row && 0 <= j < 8 ==> a[i, j] == Empty
          invariant forall j :: 0 <= j < col ==> a[row, j] == Empty
        {
          a[row, col] := Empty;
        }
      }
      var topMiddleRow, bottomMiddleRow := 8 / 2 - 1, 8 / 2;
      var leftMiddleColumn, rightMiddleColumn := 8 / 2 - 1, 8 / 2;
      a[topMiddleRow, leftMiddleColumn] := Light;
      a[topMiddleRow, rightMiddleColumn] := Dark;
      a[bottomMiddleRow, leftMiddleColumn] := Dark;
      a[bottomMiddleRow, rightMiddleColumn] := Light;
      grid := a;
      darkCount, lightCount := 0, 0;
      Cells := InitialGrid();
    }

    /** calculateScore: recount the Dark and Light tiles of the whole board. */
    method CalculateScore()
      requires Valid()
      modifies this`darkCount, this`lightCount
      ensures Valid()
      ensures darkCount == Count(Cells, Dark) && lightCount == Count(Cells, Light)
      ensures darkCount + lightCount <= 64
    {
      darkCount := 0;
      lightCount := 0;
      for row := 0 to 8
        invariant darkCount == CountRows(Cells[..row], Dark)
        invariant lightCount == CountRows(Cells[..row], Light)
      {
        for col := 0 to 8
          invariant darkCount == CountRows(Cells[..row], Dark) + CountRow(Cells[row][..col], Dark)
          invariant lightCount == CountRows(Cells[..row], Light) + CountRow(Cells[row][..col], Light)
        {
          assert Cells[row][..col + 1][..col] == Cells[row][..col];
          if grid[row, col] == Dark {
            darkCount := darkCount + 1;
          } else if grid[row, col] == Light {
            lightCount := lightCount + 1;
          }
        }
        assert Cells[..row + 1][..row] == Cells[..row];
        assert Cells[row][..8] == Cells[row];
      }
      assert Cells[..8] == Cells;
      CountPartition(Cells);
    }

    /**
     * The check* methods, one per direction: scan away from (row, col)
     * counting opponent discs; on a capture write `color` into the origin and
     * the counted discs, otherwise write nothing.
     */
    method CheckDirection(row: int, col: int, d: Direction, color: Tile) returns (validMove: bool)
      requires Valid() && InBounds(row, col) && IsDisc(color)
      modifies this`Cells, grid
      ensures Valid()
      ensures validMove == Captures(old(Cells), row, col, d, color)
      ensures Cells == if validMove
                       then FlipDirection(old(Cells), row, col, d, color, ScanDir(old(Cells), row, col, d, color).flips)
                       else old(Cells)
    {
      ghost var before := Cells;
      ghost var scan := ScanDir(before, row, col, d, color);
      var matchFound := false;
      var tilesToFlip := 0;
      var rowToCheck, columnToCheck := row + d.DRow(), col + d.DCol();
      while InBounds(rowToCheck, columnToCheck) && !matchFound
        invariant !matchFound ==> scan == ScanFrom(before, rowToCheck, columnToCheck, d, color, tilesToFlip)
        invariant matchFound ==> scan == if tilesToFlip > 0 then Capture(tilesToFlip) else NoCapture
        decreases Reach(rowToCheck, columnToCheck, d)
      {
        if grid[rowToCheck, columnToCheck] == Empty {
          assert scan == NoCapture;
          return false;
        } else if grid[rowToCheck, columnToCheck] != color {
          tilesToFlip := tilesToFlip + 1;
        } else {
          matchFound := true;
        }
        rowToCheck, columnToCheck := rowToCheck + d.DRow(), columnToCheck + d.DCol();
      }

      if matchFound && tilesToFlip > 0 {
        assert scan == Capture(tilesToFlip);
        CaptureOnBoard(before, row, col, d, color);
        WriteRun(row, col, d, color, tilesToFlip);
        validMove := true;
      } else {
        assert scan == NoCapture;
        validMove := false;
      }
    }

    /**
     * The writes of a capturing check*: the origin, then each of the n tiles
     * stepping away from it, take `color`.
     */
    method WriteRun(row: int, col: int, d: Direction, color: Tile, n: nat)
      requires Valid() && InBounds(row, col) && RunOnBoard(row, col, d, n)
      modifies this`Cells, grid
      ensures Valid()
      ensures Cells == FlipDirection(old(Cells), row, col, d, color, n)
    {
      ghost var target := FlipDirection(Cells, row, col, d, color, n);
      grid[row, col] := color;
      Cells := Set(Cells, row, col, color);
      var r, c := row, col;
      var tilesToFlip := n;
      while tilesToFlip > 0
        invariant Valid()
        invariant RunOnBoard(r, c, d, tilesToFlip)
        invariant FlipLine(Cells, r, c, d, color, tilesToFlip) == target
      {
        ShiftOnBoard(r, c, d, tilesToFlip);
        r, c := r + d.DRow(), c + d.DCol();
        tilesToFlip := tilesToFlip - 1;
        grid[r, c] := color;
        Cells := Set(Cells, r, c, color);
      }
    }

    /**
     * isValidMove: the eight checks joined by a short-circuit ||, so only the
     * first capturing direction in table order is flipped. On a valid move the
     * scores are recounted and isGameOver is consulted for the other player;
     * `status` is what its dialog would announce (InProgress when it shows
     * nothing, as for an invalid move).
     */
    method IsValidMove(row: int, col: int, color: Tile) returns (valid: bool, status: Status)
      requires Valid() && InBounds(row, col) && Cells[row][col] == Empty && IsDisc(color)
      modifies this`Cells, this`darkCount, this`lightCount, grid
      ensures Valid()
      ensures valid == AttemptMove(old(Cells), row, col, color).valid
      ensures valid <==> Legal(old(Cells), row, col, color)
      ensures Cells == AttemptMove(old(Cells), row, col, color).board
      ensures !valid ==> Cells == old(Cells) && darkCount == old(darkCount) && lightCount == old(lightCount)
      ensures !valid ==> status == InProgress
      ensures valid ==> darkCount == Count(Cells, Dark) && lightCount == Count(Cells, Light)
      ensures valid ==> darkCount + lightCount == Count(old(Cells), Dark) + Count(old(Cells), Light) + 1
      ensures valid ==> status == if GameOverSpec(Cells, NextColor(color), darkCount, lightCount)
                                  then Over(Winner(darkCount, lightCount)) else InProgress
    {
      ghost var g := Cells;
      AttemptMoveLegal(g, row, col, color);
      valid := false;
      var i := 0;
      while i < 8 && !valid
        invariant 0 <= i <= 8 && Valid()
        invariant !valid ==> Cells == g && Attempt(g, row, col, color, i) == AttemptMove(g, row, col, color)
        invariant valid ==> AttemptMove(g, row, col, color) == MoveResult(Cells, true)
        invariant darkCount == old(darkCount) && lightCount == old(lightCount)
      {
        valid := CheckDirection(row, col, Directions[i], color);
        i := i + 1;
      }
      if !valid {
        AttemptValid(g, row, col, color, 8);
      }
      status := InProgress;
      if valid {
        AttemptMoveCounts(g, row, col, color);
        CalculateScore();
        status := IsGameOver(color);
      }
    }

    /**
     * isGameOver: decide from the next player's perspective whether the game
     * is over and, if so, who won.
     */
    method IsGameOver(color: Tile) returns (status: Status)
      requires Valid()
      ensures status == if GameOverSpec(Cells, NextColor(color), darkCount, lightCount)
                        then Over(Winner(darkCount, lightCount)) else InProgress
    {
      var nextColor := NextColor(color);
      var over := GameOver(nextColor, darkCount, lightCount);
      if over {
        status := Over(Winner(darkCount, lightCount));
      } else {
        status := InProgress;
      }
    }

    /** gameOver: a full board, an eliminated colour, or no placement for `color`. */
    method GameOver(color: Tile, darkScore: int, lightScore: int) returns (over: bool)
      requires Valid() && IsDisc(color)
      ensures over <==> darkScore + lightScore == 64 || darkScore == 0 || lightScore == 0 || !CanMove(Cells, color)
    {
      if darkScore + lightScore == 64 {
        return true;
      }
      if darkScore == 0 || lightScore == 0 {
        return true;
      }
      var found := HasMove(color);
      if found {
        return false;
      } else {
        return true;
      }
    }

    /** hasMove: some empty tile has a capturing direction for `color`. */
    method HasMove(color: Tile) returns (found: bool)
      requires Valid() && IsDisc(color)
      ensures found <==> CanMove(Cells, color)
    {
      for row := 0 to 8
        invariant forall i, j :: 0 <= i < row && 0 <= j < 8 ==> !(Cells[i][j] == Empty && Legal(Cells, i, j, color))
      {
        for col := 0 to 8
          invariant forall i, j :: 0 <= i < row && 0 <= j < 8 ==> !(Cells[i][j] == Empty && Legal(Cells, i, j, color))
          invariant forall j :: 0 <= j < col ==> !(Cells[row][j] == Empty && Legal(Cells, row, j, color))
        {
          if grid[row, col] == Empty {
            var legal := AnyValidDirection(row, col, color);
            if legal {
              return true;
            }
          }
        }
      }
      return false;
    }

    /** The eight valid* calls of hasMove for one empty tile, in table order. */
    method AnyValidDirection(row: int, col: int, color: Tile) returns (legal: bool)
      requires Valid() && InBounds(row, col) && IsDisc(color)
      ensures legal <==> Legal(Cells, row, col, color)
    {
      for k := 0 to 8
        invariant forall m :: 0 <= m < k ==> !Captures(Cells, row, col, Directions[m], color)
      {
        var v := ValidDirection(row, col, Directions[k], color);
        if v {
          return true;
        }
      }
      forall d: Direction
        ensures !Captures(Cells, row, col, d, color)
      {
        assert Directions[IndexOf(d)] == d;
      }
      return false;
    }

    /**
     * The valid* methods, one per direction: without writing anything, report
     * whether the adjacent tile holds an opponent disc and the run of opponent
     * discs ends, on the board, at a disc of `color`.
     */
    method ValidDirection(row: int, col: int, d: Direction, color: Tile) returns (valid: bool)
      requires Valid() && InBounds(row, col) && IsDisc(color)
      ensures valid == Captures(Cells, row, col, d, color)
    {
      var rowToCheck, columnToCheck := row + d.DRow(), col + d.DCol();
      if !InBounds(rowToCheck, columnToCheck) {
        return false;
      }
      if grid[rowToCheck, columnToCheck] == Empty || grid[rowToCheck, columnToCheck] == color {
        return false;
      }
      ghost var run := 1;
      rowToCheck, columnToCheck := rowToCheck + d.DRow(), columnToCheck + d.DCol();
      while InBounds(rowToCheck, columnToCheck)
            && grid[rowToCheck, columnToCheck] != Empty
            && grid[rowToCheck, columnToCheck] != color
        invariant run >= 1
        invariant ScanDir(Cells, row, col, d, color) == ScanFrom(Cells, rowToCheck, columnToCheck, d, color, run)
        decreases Reach(rowToCheck, columnToCheck, d)
      {
        rowToCheck, columnToCheck := rowToCheck + d.DRow(), columnToCheck + d.DCol();
        run := run + 1;
      }
      if !InBounds(rowToCheck, columnToCheck) || grid[rowToCheck, columnToCheck] == Empty {
        return false;
      } else {
        return true;
      }
    }
  }
}
