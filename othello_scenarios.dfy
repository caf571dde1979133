/**
 * Concrete boards: the starting position built by initObjects and the
 * opening move of Dark at row 2, column 3.
 */
module OthelloScenarios {
  import opened OthelloGrid
  import opened OthelloRules

  /** After initObjects exactly the four centre tiles hold discs. */
  lemma InitialLayout()
    ensures InitialGrid()[3][3] == Light && InitialGrid()[4][4] == Light
    ensures InitialGrid()[3][4] == Dark && InitialGrid()[4][3] == Dark
    ensures forall i, j :: InBounds(i, j) ==>
      (InitialGrid()[i][j] != Empty <==> (i == 3 || i == 4) && (j == 3 || j == 4))
  {
  }

  /** The starting position has two discs of each colour and sixty empty tiles. */
  lemma InitialCounts()
    ensures Count(InitialGrid(), Dark) == 2
    ensures Count(InitialGrid(), Light) == 2
    ensures Count(InitialGrid(), Empty) == 60
  {
    var g := InitialGrid();
    assert g[..0] == [];
    var k := 0;
    while k < 8
      invariant 0 <= k <= 8
      invariant CountRows(g[..k], Dark) == (if k <= 3 then 0 else if k == 4 then 1 else 2)
      invariant CountRows(g[..k], Light) == (if k <= 3 then 0 else if k == 4 then 1 else 2)
      invariant CountRows(g[..k], Empty) == 8 * k - (if k <= 3 then 0 else if k == 4 then 2 else 4)
    {
      assert g[..k + 1][..k] == g[..k];
      RowCounts(k);
      k := k + 1;
    }
    assert g[..8] == g;
  }

  lemma RowCounts(k: int)
    requires 0 <= k < 8
    ensures CountRow(InitialGrid()[k], Dark) == (if k == 3 || k == 4 then 1 else 0)
    ensures CountRow(InitialGrid()[k], Light) == (if k == 3 || k == 4 then 1 else 0)
    ensures CountRow(InitialGrid()[k], Empty) == (if k == 3 || k == 4 then 6 else 8)
  {
    var s := InitialGrid()[k];
    assert s[..0] == [];
    var j := 0;
    while j < 8
      invariant 0 <= j <= 8
      invariant CountRow(s[..j], Dark)
        == if (k == 3 && j > 4) || (k == 4 && j > 3) then 1 else 0
      invariant CountRow(s[..j], Light)
        == if (k == 3 && j > 3) || (k == 4 && j > 4) then 1 else 0
      invariant CountRow(s[..j], Empty) + CountRow(s[..j], Dark) + CountRow(s[..j], Light) == j
    {
      assert s[..j + 1][..j] == s[..j];
      j := j + 1;
    }
    assert s[..8] == s;
  }

  /** Both players have a move in the starting position. */
  lemma InitialBothCanMove()
    ensures CanMove(InitialGrid(), Dark)
    ensures CanMove(InitialGrid(), Light)
  {
    var g := InitialGrid();
    assert ScanFrom(g, 4, 3, Down, Dark, 1) == Capture(1);
    assert Captures(g, 2, 3, Down, Dark);
    assert InBounds(2, 3) && g[2][3] == Empty && Legal(g, 2, 3, Dark);
    assert ScanFrom(g, 4, 4, Down, Light, 1) == Capture(1);
    assert Captures(g, 2, 4, Down, Light);
    assert InBounds(2, 4) && g[2][4] == Empty && Legal(g, 2, 4, Light);
  }

  /**
   * From the starting position Dark plays row 2, column 3: the first four
   * directions meet an empty tile, Down captures the Light disc at (3, 3), and
   * the board gains the Dark disc at (2, 3) and turns (3, 3) Dark.
   */
  lemma OpeningMove()
    ensures AttemptMove(InitialGrid(), 2, 3, Dark).valid
    ensures AttemptMove(InitialGrid(), 2, 3, Dark).board == Set(Set(InitialGrid(), 2, 3, Dark), 3, 3, Dark)
  {
    var g := InitialGrid();
    assert !Captures(g, 2, 3, Up, Dark);
    assert !Captures(g, 2, 3, UpLeft, Dark);
    assert !Captures(g, 2, 3, Left, Dark);
    assert !Captures(g, 2, 3, DownLeft, Dark);
    assert ScanFrom(g, 4, 3, Down, Dark, 1) == Capture(1);
    assert ScanDir(g, 2, 3, Down, Dark) == Capture(1);
    assert Attempt(g, 2, 3, Dark, 4) == MoveResult(FlipDirection(g, 2, 3, Down, Dark, 1), true);
    assert FlipDirection(g, 2, 3, Down, Dark, 1) == Set(Set(g, 2, 3, Dark), 3, 3, Dark);
  }

  /** After the opening move Dark has four discs and Light one. */
  lemma OpeningCounts()
    ensures Count(AttemptMove(InitialGrid(), 2, 3, Dark).board, Dark) == 4
    ensures Count(AttemptMove(InitialGrid(), 2, 3, Dark).board, Light) == 1
  {
    var g := InitialGrid();
    OpeningMove();
    InitialCounts();
    CountSet(g, 2, 3, Dark, Dark);
    CountSet(g, 2, 3, Dark, Light);
    CountSet(Set(g, 2, 3, Dark), 3, 3, Dark, Dark);
    CountSet(Set(g, 2, 3, Dark), 3, 3, Dark, Light);
  }
}
