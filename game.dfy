// Class MineSweeper of minesweeper.rb: the game around one board, and the
// hidden-tile count of its `win?`.
module Game {
  import opened Grid
  import opened Boards

  class MineSweeper {
    const board: Board

    /** `MineSweeper.new`: a game on a fresh `Board.new`, whose defaults are 15 x 9. */
    constructor ()
      ensures board.Valid() && fresh(board.Repr())
      ensures board.height == 15 && board.width == 9
      ensures board.State() == FreshBoard(15, 9)
    {
      board := new Board(15, 9);
    }

    /** `win?`: count the tiles that are not revealed, row by row, and compare
        the count with the number of bombs, which is given here. */
    method Win(bombCount: int) returns (won: bool, hiddenTileCount: nat)
      requires board.Valid()
      ensures hiddenTileCount == HiddenCount(board.State())
      ensures hiddenTileCount <= board.height * board.width
      ensures won <==> hiddenTileCount == bombCount
    {
      ghost var s := board.State();
      hiddenTileCount := 0;
      var i := 0;
      while i < |board.tiles|
        invariant 0 <= i <= board.height
        invariant hiddenTileCount == RowsHidden(s.tiles[..i])
      {
        var row := board.tiles[i];
        var j := 0;
        while j < |row|
          invariant 0 <= j <= board.width
          invariant hiddenTileCount == RowsHidden(s.tiles[..i]) + RowHidden(s.tiles[i][..j])
        {
          if !row[j].revealed {
            hiddenTileCount := hiddenTileCount + 1;
          }
          assert s.tiles[i][..j + 1][..j] == s.tiles[i][..j];
          j := j + 1;
        }
        assert s.tiles[i][..j] == s.tiles[i];
        assert s.tiles[..i + 1][..i] == s.tiles[..i];
        i := i + 1;
      }
      assert s.tiles[..i] == s.tiles;
      HiddenCountBound(s);
      won := hiddenTileCount == bombCount;
    }
  }
}
