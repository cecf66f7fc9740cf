// The queries of class Board in minesweeper.rb, and the effect of its
// updating operations, stated over a value: the board's dimensions and the
// states of its tiles. Class Board (board.dfy) is tied to this value by its
// State() function.
module Grid {
  import opened Tiles
  import Decimal

  datatype Option<T> = None | Some(value: T)

  /** A position `[y, x]`: `pos.first` is y, `pos.last` is x. */
  datatype Pos = Pos(y: int, x: int)

  /** A board: `height` rows of `width` tiles each (when Shaped). */
  datatype BoardState = BoardState(height: nat, width: nat, tiles: seq<seq<TileState>>)

  predicate Shaped(b: BoardState) {
    |b.tiles| == b.height && forall i | 0 <= i < |b.tiles| :: |b.tiles[i]| == b.width
  }

  /** Row i, column j is a cell of the table. */
  predicate IsCell(b: BoardState, i: int, j: int) {
    0 <= i < b.height && 0 <= j < b.width
  }

  /** A position whose coordinates are a cell of the table as they stand. */
  predicate InTable(b: BoardState, p: Pos) {
    IsCell(b, p.y, p.x)
  }

  predicate NoDuplicates<T(==)>(s: seq<T>) {
    forall i, j | 0 <= i < j < |s| :: s[i] != s[j]
  }

  // ----- Board.new -----

  /** The table `Board.new(height, width)` builds: every tile as `Tile.new` makes it. */
  function FreshBoard(height: nat, width: nat): (b: BoardState)
    ensures Shaped(b) && b.height == height && b.width == width
    ensures forall i, j | IsCell(b, i, j) :: b.tiles[i][j] == Initial
  {
    BoardState(height, width, seq(height, _ => seq(width, _ => Initial)))
  }

  /** Two shaped boards with the same dimensions and the same tiles are equal. */
  lemma SameTiles(s: BoardState, e: BoardState)
    requires Shaped(s) && Shaped(e) && s.height == e.height && s.width == e.width
    requires forall i, j | IsCell(s, i, j) :: s.tiles[i][j] == e.tiles[i][j]
    ensures s == e
  {
    forall i | 0 <= i < s.height
      ensures s.tiles[i] == e.tiles[i]
    {
      assert forall j | 0 <= j < s.width :: s.tiles[i][j] == e.tiles[i][j];
    }
  }

  // ----- Indexing @tiles[pos.first][pos.last] -----

  /** Ruby's `a[i]` on an array of length n: a negative i counts from the end;
      any other i outside the array gives nil (None). */
  function RubyIndex(i: int, n: nat): (r: Option<nat>)
    ensures r.Some? <==> -(n as int) <= i < n
    ensures r.Some? ==> r.value < n && (r.value == i || r.value == i + n)
  {
    if 0 <= i < n then Some(i) else if -(n as int) <= i < 0 then Some(i + n) else None
  }

  /** The cell `@tiles[pos.first][pos.last]` reaches, or None where one of the
      two lookups gives nil (and the next call on it is a NoMethodError). */
  function Locate(height: nat, width: nat, pos: Pos): (r: Option<(nat, nat)>)
    ensures r.Some? <==> -(height as int) <= pos.y < height && -(width as int) <= pos.x < width
    ensures r.Some? ==> r.value.0 < height && r.value.1 < width
    ensures r.Some? && 0 <= pos.y ==> r.value.0 == pos.y
    ensures r.Some? && 0 <= pos.x ==> r.value.1 == pos.x
  {
    match (RubyIndex(pos.y, height), RubyIndex(pos.x, width))
    case (Some(i), Some(j)) => Some((i, j))
    case _ => None
  }

  /** A position with no negative coordinate reaches a tile exactly when it is in
      the table, and then reaches the tile at its own coordinates. */
  lemma LocateInTable(b: BoardState, p: Pos)
    requires 0 <= p.y && 0 <= p.x
    ensures Locate(b.height, b.width, p).Some? <==> InTable(b, p)
    ensures InTable(b, p) ==> Locate(b.height, b.width, p) == Some((p.y, p.x))
  {
  }

  /** The tile a position reaches. */
  function TileAt(b: BoardState, pos: Pos): TileState
    requires Shaped(b) && Locate(b.height, b.width, pos).Some?
  {
    var c := Locate(b.height, b.width, pos).value;
    b.tiles[c.0][c.1]
  }

  /** The board with the tile at row i, column j replaced by t. */
  function WithTile(b: BoardState, i: nat, j: nat, t: TileState): (r: BoardState)
    requires Shaped(b) && IsCell(b, i, j)
    ensures Shaped(r) && r.height == b.height && r.width == b.width
    ensures r.tiles[i][j] == t
    ensures forall k, l | IsCell(b, k, l) && (k != i || l != j) :: r.tiles[k][l] == b.tiles[k][l]
  {
    b.(tiles := b.tiles[i := b.tiles[i][j := t]])
  }

  /** Writing back the tile that is already there changes nothing. */
  lemma WithSameTile(b: BoardState, i: nat, j: nat)
    requires Shaped(b) && IsCell(b, i, j)
    ensures WithTile(b, i, j, b.tiles[i][j]) == b
  {
    SameTiles(WithTile(b, i, j, b.tiles[i][j]), b);
  }

  /** Two writes to the same cell: only the second one is seen. */
  lemma WithTileTwice(b: BoardState, i: nat, j: nat, t: TileState, u: TileState)
    requires Shaped(b) && IsCell(b, i, j)
    ensures WithTile(WithTile(b, i, j, t), i, j, u) == WithTile(b, i, j, u)
  {
    SameTiles(WithTile(WithTile(b, i, j, t), i, j, u), WithTile(b, i, j, u));
  }

  /** `reveal` or `flag` twice on the same tile, or `set_bomb` twice, gives the
      board back. */
  lemma ToggleTwiceRestoresBoard(b: BoardState, i: nat, j: nat)
    requires Shaped(b) && IsCell(b, i, j)
    ensures var t := b.tiles[i][j];
      WithTile(WithTile(b, i, j, ToggleRevealed(t)), i, j, ToggleRevealed(ToggleRevealed(t))) == b
    ensures var t := b.tiles[i][j];
      WithTile(WithTile(b, i, j, ToggleFlagged(t)), i, j, ToggleFlagged(ToggleFlagged(t))) == b
    ensures var t := b.tiles[i][j];
      WithTile(WithTile(b, i, j, ToggleBomb(t)), i, j, ToggleBomb(ToggleBomb(t))) == b
  {
    var t := b.tiles[i][j];
    TogglesAreInvolutions(t);
    WithTileTwice(b, i, j, ToggleRevealed(t), t);
    WithTileTwice(b, i, j, ToggleFlagged(t), t);
    WithTileTwice(b, i, j, ToggleBomb(t), t);
    WithSameTile(b, i, j);
  }

  // ----- on_board? and neighbors -----

  /** `on_board?`, with the axes as written: the FIRST coordinate is compared with
      the width and the SECOND with the height. */
  predicate OnBoard(height: nat, width: nat, p: Pos)
    ensures OnBoard(height, width, p) <==>
      0 <= p.y && 0 <= p.x && Locate(height, width, Pos(p.x, p.y)) == Some((p.x, p.y))
  {
    0 <= p.y < width && 0 <= p.x < height
  }

  /** On a square board `on_board?` is exactly membership of the table. */
  lemma OnBoardSquare(b: BoardState, p: Pos)
    requires b.height == b.width
    ensures OnBoard(b.height, b.width, p) <==> InTable(b, p)
  {
  }

  /** q is one of the eight positions around p. */
  predicate Adjacent(p: Pos, q: Pos) {
    q != p && -1 <= q.y - p.y <= 1 && -1 <= q.x - p.x <= 1
  }

  /** The eight positions `neighbors` lists, in its order. */
  function Candidates(pos: Pos): (r: seq<Pos>)
    ensures |r| == 8 && NoDuplicates(r)
    ensures forall q :: q in r <==> Adjacent(pos, q)
  {
    var y, x := pos.y, pos.x;
    [Pos(y - 1, x - 1), Pos(y - 1, x), Pos(y - 1, x + 1),
     Pos(y, x - 1), Pos(y, x + 1),
     Pos(y + 1, x - 1), Pos(y + 1, x), Pos(y + 1, x + 1)]
  }

  /** a is s with some elements left out, the rest in their order. */
  predicate IsSubsequence(a: seq<Pos>, s: seq<Pos>)
    decreases |s|
  {
    if a == [] then true
    else if s == [] then false
    else (a[0] == s[0] && IsSubsequence(a[1..], s[1..])) || IsSubsequence(a, s[1..])
  }

  /** `select { |position| on_board?(position) }` */
  function SelectOnBoard(height: nat, width: nat, ps: seq<Pos>): (r: seq<Pos>)
    ensures |r| <= |ps|
    ensures forall q :: q in r <==> q in ps && OnBoard(height, width, q)
    ensures IsSubsequence(r, ps)
    ensures NoDuplicates(ps) ==> NoDuplicates(r)
  {
    if ps == [] then []
    else if OnBoard(height, width, ps[0]) then [ps[0]] + SelectOnBoard(height, width, ps[1..])
    else SelectOnBoard(height, width, ps[1..])
  }

  /** `neighbors(pos)`: the surrounding positions that pass `on_board?`, at most
      eight of them, none of them pos itself, in the listed order. */
  function Neighbors(height: nat, width: nat, pos: Pos): (r: seq<Pos>)
    ensures |r| <= 8 && NoDuplicates(r) && pos !in r
    ensures forall q | q in r ::
      (OnBoard(height, width, q) && -1 <= q.y - pos.y <= 1 && -1 <= q.x - pos.x <= 1)
    ensures forall q :: q in r <==> Adjacent(pos, q) && OnBoard(height, width, q)
    ensures IsSubsequence(r, Candidates(pos))
  {
    SelectOnBoard(height, width, Candidates(pos))
  }

  /** Every neighbour lies in the table, so `@tiles[y][x]` is a tile for each. */
  predicate NeighborsInTable(b: BoardState, pos: Pos) {
    forall q | q in Neighbors(b.height, b.width, pos) :: InTable(b, q)
  }

  /** On a square board no neighbour falls off the table. */
  lemma SquareNeighborsInTable(b: BoardState, pos: Pos)
    requires b.height == b.width
    ensures NeighborsInTable(b, pos)
  {
  }

  /** On a board that is not square `on_board?` admits a position past the last row. */
  lemma NarrowBoardNeighborLeavesTable(b: BoardState)
    requires b.height == 1 && b.width == 2
    ensures Pos(1, 0) in Neighbors(b.height, b.width, Pos(0, 0))
    ensures !NeighborsInTable(b, Pos(0, 0))
  {
    assert Adjacent(Pos(0, 0), Pos(1, 0));
  }

  // ----- neighbor_bomb_count -----

  /** `select { |pos| @tiles[pos.first][pos.last].bombed? }.count` */
  function CountBombed(b: BoardState, ps: seq<Pos>): (n: nat)
    requires Shaped(b) && forall p | p in ps :: InTable(b, p)
    ensures n <= |ps|
  {
    if ps == [] then 0
    else
      var p := ps[0];
      assert p in ps && InTable(b, p);
      var here := if b.tiles[p.y][p.x].bomb then 1 else 0;
      here + CountBombed(b, ps[1..])
  }

  /** The positions of ps that address a bombed tile. */
  function BombedAmong(b: BoardState, ps: seq<Pos>): set<Pos>
    requires Shaped(b)
  {
    set q | q in ps && InTable(b, q) && b.tiles[q.y][q.x].bomb
  }

  /** Over distinct in-table positions the count is the number of bombed ones. */
  lemma {:induction false} CountBombedIsSetSize(b: BoardState, ps: seq<Pos>)
    requires Shaped(b) && NoDuplicates(ps) && forall p | p in ps :: InTable(b, p)
    ensures CountBombed(b, ps) == |BombedAmong(b, ps)|
  {
    if ps != [] {
      var rest := ps[1..];
      assert NoDuplicates(rest) by {
        forall i, j | 0 <= i < j < |rest| ensures rest[i] != rest[j] {
          assert rest[i] == ps[i + 1] && rest[j] == ps[j + 1];
        }
      }
      CountBombedIsSetSize(b, rest);
      assert ps[0] !in rest by {
        forall k | 0 <= k < |rest| ensures rest[k] != ps[0] {
          assert rest[k] == ps[k + 1];
        }
      }
      assert forall q :: q in ps <==> q == ps[0] || q in rest by {
        assert ps == [ps[0]] + rest;
      }
      if b.tiles[ps[0].y][ps[0].x].bomb {
        assert BombedAmong(b, ps) == {ps[0]} + BombedAmong(b, rest);
      } else {
        assert BombedAmong(b, ps) == BombedAmong(b, rest);
      }
    }
  }

  /** `neighbor_bomb_count(pos)`. Defined where every neighbour is a tile of the
      table; elsewhere Ruby dereferences nil. */
  function NeighborBombCount(b: BoardState, pos: Pos): (n: nat)
    requires Shaped(b) && NeighborsInTable(b, pos)
    ensures n <= |Neighbors(b.height, b.width, pos)| && n <= 8
  {
    CountBombed(b, Neighbors(b.height, b.width, pos))
  }

  /** The count is the number of neighbours whose tile is bombed; it is zero
      exactly when no neighbour is bombed. */
  lemma NeighborBombCountMeaning(b: BoardState, pos: Pos)
    requires Shaped(b) && NeighborsInTable(b, pos)
    ensures NeighborBombCount(b, pos)
      == |set q | q in Neighbors(b.height, b.width, pos) && InTable(b, q) && b.tiles[q.y][q.x].bomb|
    ensures NeighborBombCount(b, pos) == 0
      <==> forall q | q in Neighbors(b.height, b.width, pos) :: !b.tiles[q.y][q.x].bomb
  {
    var ns := Neighbors(b.height, b.width, pos);
    CountBombedIsSetSize(b, ns);
    forall q | q in ns && b.tiles[q.y][q.x].bomb ensures NeighborBombCount(b, pos) > 0 {
      assert q in BombedAmong(b, ns);
    }
    if NeighborBombCount(b, pos) != 0 {
      var q :| q in BombedAmong(b, ns);
    }
  }

  // ----- get_symbol -----

  /** `get_symbol(pos)`: "F" for a flagged tile, "*" for an unflagged hidden one,
      and for an unflagged revealed one "_" when no neighbour is bombed and the
      count's numeral otherwise. The count is only needed on that last path. */
  function GetSymbol(b: BoardState, pos: Pos): (s: string)
    requires Shaped(b) && Locate(b.height, b.width, pos).Some?
    requires TileAt(b, pos).revealed && !TileAt(b, pos).flagged ==> NeighborsInTable(b, pos)
    ensures s == "F" <==> TileAt(b, pos).flagged
    ensures s == "*" <==> !TileAt(b, pos).flagged && !TileAt(b, pos).revealed
    ensures s == "_" <==>
      (!TileAt(b, pos).flagged && TileAt(b, pos).revealed && NeighborBombCount(b, pos) == 0)
    ensures !TileAt(b, pos).flagged && TileAt(b, pos).revealed && NeighborBombCount(b, pos) > 0
      ==> |s| == 1 && '1' <= s[0] <= '8' && Decimal.Value(s) == NeighborBombCount(b, pos)
  {
    var tile := TileAt(b, pos);
    if tile.flagged then "F"
    else if tile.revealed then
      var count := NeighborBombCount(b, pos);
      if count == 0 then "_"
      else
        Decimal.ValueOfToString(count);
        Decimal.ToString(count)
    else "*"
  }

  // ----- set_bombs -----

  /** How many of the positions ps reach row i, column j. */
  function Hits(height: nat, width: nat, ps: seq<Pos>, i: nat, j: nat): nat
  {
    if ps == [] then 0
    else
      var here := if Locate(height, width, ps[|ps| - 1]) == Some((i, j)) then 1 else 0;
      Hits(height, width, ps[..|ps| - 1], i, j) + here
  }

  /** `set_bombs(placements)`: toggle the bomb flag of each addressed tile, in order. */
  function ApplyBombs(b: BoardState, ps: seq<Pos>): (r: BoardState)
    requires Shaped(b) && forall p | p in ps :: Locate(b.height, b.width, p).Some?
    ensures Shaped(r) && r.height == b.height && r.width == b.width
    ensures forall i, j | IsCell(b, i, j) ::
      r.tiles[i][j] == b.tiles[i][j].(bomb := b.tiles[i][j].bomb != (Hits(b.height, b.width, ps, i, j) % 2 == 1))
    decreases |ps|
  {
    if ps == [] then b
    else
      var prev := ApplyBombs(b, ps[..|ps| - 1]);
      var c := Locate(b.height, b.width, ps[|ps| - 1]).value;
      WithTile(prev, c.0, c.1, ToggleBomb(prev.tiles[c.0][c.1]))
  }

  /** Distinct in-table positions each reach their own cell once and no other. */
  lemma {:induction false} HitsOfDistinct(b: BoardState, ps: seq<Pos>, i: nat, j: nat)
    requires NoDuplicates(ps) && forall p | p in ps :: InTable(b, p)
    ensures Hits(b.height, b.width, ps, i, j) == if Pos(i, j) in ps then 1 else 0
  {
    if ps != [] {
      var front, last := ps[..|ps| - 1], ps[|ps| - 1];
      assert NoDuplicates(front);
      assert forall p | p in front :: p in ps;
      HitsOfDistinct(b, front, i, j);
      assert last !in front by {
        forall k | 0 <= k < |front| ensures front[k] != last {
          assert front[k] == ps[k];
        }
      }
      assert forall p :: p in ps <==> p in front || p == last by {
        assert ps == front + [last];
      }
      LocateInTable(b, last);
    }
  }

  /** `set_bombs` on distinct in-table placements over a board without bombs
      bombs exactly the listed tiles and changes nothing else. */
  lemma PlacedBombsAreListed(b: BoardState, ps: seq<Pos>)
    requires Shaped(b) && forall i, j | IsCell(b, i, j) :: !b.tiles[i][j].bomb
    requires NoDuplicates(ps) && forall p | p in ps :: InTable(b, p)
    ensures forall p | p in ps :: Locate(b.height, b.width, p).Some?
    ensures forall i, j | IsCell(b, i, j) ::
      (ApplyBombs(b, ps).tiles[i][j].bomb <==> Pos(i, j) in ps)
      && ApplyBombs(b, ps).tiles[i][j] == b.tiles[i][j].(bomb := Pos(i, j) in ps)
  {
    forall p | p in ps ensures Locate(b.height, b.width, p).Some? {
      LocateInTable(b, p);
    }
    forall i, j | IsCell(b, i, j)
      ensures ApplyBombs(b, ps).tiles[i][j] == b.tiles[i][j].(bomb := Pos(i, j) in ps)
    {
      HitsOfDistinct(b, ps, i, j);
    }
  }

  // ----- generate_bombs -----

  /** `bomb_placements << loc unless bomb_placements.include?(loc)` over the
      draws in turn: the draws without repeats, each at its first occurrence. */
  function Distinct(s: seq<Pos>): (d: seq<Pos>)
    ensures NoDuplicates(d)
    ensures forall p :: p in d <==> p in s
    ensures |d| <= |s|
  {
    if s == [] then []
    else
      var d := Distinct(s[..|s| - 1]);
      assert forall p :: p in s <==> p in s[..|s| - 1] || p == s[|s| - 1] by {
        assert s == s[..|s| - 1] + [s[|s| - 1]];
      }
      if s[|s| - 1] in d then d else d + [s[|s| - 1]]
  }

  /** One more draw adds at most one placement. */
  lemma DistinctGrowsByOne(s: seq<Pos>, p: Pos)
    ensures |Distinct(s)| <= |Distinct(s + [p])| <= |Distinct(s)| + 1
  {
    assert (s + [p])[..|s + [p]| - 1] == s;
  }

  /** Every element of a sequence without repeats is counted once. */
  lemma {:induction false} DistinctSetSize(s: seq<Pos>)
    requires NoDuplicates(s)
    ensures |set p | p in s| == |s|
  {
    if s != [] {
      var front, last := s[..|s| - 1], s[|s| - 1];
      assert NoDuplicates(front);
      DistinctSetSize(front);
      assert last !in front by {
        forall k | 0 <= k < |front| ensures front[k] != last {
          assert front[k] == s[k];
        }
      }
      assert (set p | p in s) == (set p | p in front) + {last} by {
        assert s == front + [last];
      }
    }
  }

  /** The cells that hold a bomb. */
  function BombCells(b: BoardState): set<Pos>
    requires Shaped(b)
  {
    set i, j | 0 <= i < b.height && 0 <= j < b.width && b.tiles[i][j].bomb :: Pos(i, j)
  }

  /** Placing distinct in-table positions on a board without bombs gives
      exactly as many bombs as positions, on exactly those cells. */
  lemma PlacedBombCount(b: BoardState, ps: seq<Pos>)
    requires Shaped(b) && forall i, j | IsCell(b, i, j) :: !b.tiles[i][j].bomb
    requires NoDuplicates(ps) && forall p | p in ps :: InTable(b, p)
    ensures forall p | p in ps :: Locate(b.height, b.width, p).Some?
    ensures BombCells(ApplyBombs(b, ps)) == set p | p in ps
    ensures |BombCells(ApplyBombs(b, ps))| == |ps|
  {
    PlacedBombsAreListed(b, ps);
    var r := ApplyBombs(b, ps);
    forall p | p in ps ensures p in BombCells(r) {
      assert IsCell(b, p.y, p.x);
      assert r.tiles[p.y][p.x].bomb;
    }
    DistinctSetSize(ps);
  }

  // ----- The count of hidden tiles in MineSweeper#win? -----

  /** Unrevealed tiles in a row. */
  function RowHidden(row: seq<TileState>): (n: nat)
    ensures n <= |row|
  {
    if row == [] then 0
    else RowHidden(row[..|row| - 1]) + (if row[|row| - 1].revealed then 0 else 1)
  }

  /** Unrevealed tiles in a list of rows. */
  function RowsHidden(rows: seq<seq<TileState>>): nat
  {
    if rows == [] then 0 else RowsHidden(rows[..|rows| - 1]) + RowHidden(rows[|rows| - 1])
  }

  /** The cells (row, column) of a list of rows whose tile is not revealed. */
  ghost function HiddenCells(rows: seq<seq<TileState>>): set<(int, int)> {
    set i, j | 0 <= i < |rows| && 0 <= j < |rows[i]| && !rows[i][j].revealed :: (i, j)
  }

  /** The columns of row k whose tile is not revealed, as cells. */
  ghost function RowHiddenCells(k: int, row: seq<TileState>): set<(int, int)> {
    set j | 0 <= j < |row| && !row[j].revealed :: (k, j)
  }

  lemma {:induction false} RowHiddenIsCellCount(k: int, row: seq<TileState>)
    ensures RowHidden(row) == |RowHiddenCells(k, row)|
  {
    if row != [] {
      var n := |row| - 1;
      var front := row[..n];
      RowHiddenIsCellCount(k, front);
      assert forall j | 0 <= j < n :: front[j] == row[j];
      if row[n].revealed {
        assert RowHiddenCells(k, row) == RowHiddenCells(k, front);
      } else {
        assert RowHiddenCells(k, row) == RowHiddenCells(k, front) + {(k, n)};
        assert (k, n) !in RowHiddenCells(k, front);
      }
    }
  }

  lemma {:induction false} RowsHiddenIsCellCount(rows: seq<seq<TileState>>)
    ensures RowsHidden(rows) == |HiddenCells(rows)|
  {
    if rows != [] {
      var n := |rows| - 1;
      var front := rows[..n];
      RowsHiddenIsCellCount(front);
      RowHiddenIsCellCount(n, rows[n]);
      assert forall i | 0 <= i < n :: front[i] == rows[i];
      var top, last := HiddenCells(front), RowHiddenCells(n, rows[n]);
      assert HiddenCells(rows) == top + last;
      assert top !! last by {
        forall c | c in top ensures c !in last {
          assert c.0 < n;
        }
      }
      assert |top + last| == |top| + |last|;
    }
  }

  /** The number of tiles that are not revealed: the size of the set of cells
      whose tile is hidden. */
  function HiddenCount(b: BoardState): (n: nat)
    ensures n == |HiddenCells(b.tiles)|
  {
    RowsHiddenIsCellCount(b.tiles);
    RowsHidden(b.tiles)
  }

  /** There are never more hidden tiles than tiles: at most height * width. */
  lemma {:induction false} RowsHiddenBound(rows: seq<seq<TileState>>, w: nat)
    requires forall i | 0 <= i < |rows| :: |rows[i]| == w
    ensures RowsHidden(rows) <= |rows| * w
  {
    if rows != [] {
      RowsHiddenBound(rows[..|rows| - 1], w);
      assert (|rows| - 1) * w + w == |rows| * w;
    }
  }

  lemma HiddenCountBound(b: BoardState)
    requires Shaped(b)
    ensures HiddenCount(b) <= b.height * b.width
  {
    RowsHiddenBound(b.tiles, b.width);
  }

  /** No tile of a fresh board is revealed. */
  lemma {:induction false} FreshBoardHidden(height: nat, width: nat)
    ensures HiddenCount(FreshBoard(height, width)) == height * width
  {
    var b := FreshBoard(height, width);
    forall i | 0 <= i < height ensures RowHidden(b.tiles[i]) == width {
      AllHiddenRow(b.tiles[i]);
    }
    AllHiddenRows(b.tiles, width);
  }

  lemma {:induction false} AllHiddenRow(row: seq<TileState>)
    requires forall k | 0 <= k < |row| :: !row[k].revealed
    ensures RowHidden(row) == |row|
  {
    if row != [] {
      AllHiddenRow(row[..|row| - 1]);
    }
  }

  lemma {:induction false} AllHiddenRows(rows: seq<seq<TileState>>, w: nat)
    requires forall i | 0 <= i < |rows| :: RowHidden(rows[i]) == w
    ensures RowsHidden(rows) == |rows| * w
  {
    if rows != [] {
      AllHiddenRows(rows[..|rows| - 1], w);
      assert (|rows| - 1) * w + w == |rows| * w;
    }
  }

  /** Replacing one tile of a row changes its hidden count by the difference in that tile. */
  lemma {:induction false} RowHiddenUpdate(row: seq<TileState>, j: nat, t: TileState)
    requires j < |row|
    ensures RowHidden(row[j := t]) + (if row[j].revealed then 0 else 1)
      == RowHidden(row) + (if t.revealed then 0 else 1)
  {
    var n := |row|;
    var r := row[j := t];
    assert r[..n - 1] == if j == n - 1 then row[..n - 1] else row[..n - 1][j := t];
    if j < n - 1 {
      RowHiddenUpdate(row[..n - 1], j, t);
    }
  }

  lemma {:induction false} RowsHiddenUpdate(rows: seq<seq<TileState>>, i: nat, row: seq<TileState>)
    requires i < |rows|
    ensures RowsHidden(rows[i := row]) + RowHidden(rows[i]) == RowsHidden(rows) + RowHidden(row)
  {
    var n := |rows|;
    var r := rows[i := row];
    assert r[..n - 1] == if i == n - 1 then rows[..n - 1] else rows[..n - 1][i := row];
    if i < n - 1 {
      RowsHiddenUpdate(rows[..n - 1], i, row);
    }
  }

  /** Changing one tile changes the hidden count by the change in that tile alone. */
  lemma HiddenCountWithTile(b: BoardState, i: nat, j: nat, t: TileState)
    requires Shaped(b) && IsCell(b, i, j)
    ensures HiddenCount(WithTile(b, i, j, t)) + (if b.tiles[i][j].revealed then 0 else 1)
      == HiddenCount(b) + (if t.revealed then 0 else 1)
  {
    RowHiddenUpdate(b.tiles[i], j, t);
    RowsHiddenUpdate(b.tiles, i, b.tiles[i][j := t]);
  }

  /** `flag` never changes the hidden count; `reveal` lowers it by one when it
      uncovers a tile and raises it by one when it covers a tile up again. */
  lemma FlagAndRevealHiddenCount(b: BoardState, i: nat, j: nat)
    requires Shaped(b) && IsCell(b, i, j)
    ensures HiddenCount(WithTile(b, i, j, ToggleFlagged(b.tiles[i][j]))) == HiddenCount(b)
    ensures HiddenCount(WithTile(b, i, j, ToggleRevealed(b.tiles[i][j])))
      == if b.tiles[i][j].revealed then HiddenCount(b) + 1 else HiddenCount(b) - 1
  {
    HiddenCountWithTile(b, i, j, ToggleFlagged(b.tiles[i][j]));
    HiddenCountWithTile(b, i, j, ToggleRevealed(b.tiles[i][j]));
  }
}
