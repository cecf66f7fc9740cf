// Class Board of minesweeper.rb: a height x width table of Tile objects. The
// table itself never changes; the board's operations update tiles in place.
// State() gives the board as a Grid.BoardState, and every operation is
// specified by what it does to that value.
module Boards {
  import opened Tiles
  import opened Grid

  /** What `reveal` ends with: it returns nil when the tile is now revealed and
      bombed; otherwise it calls `get_symbol` on the Tile, which Tile does not
      define, so the call raises NoMethodError (after the tile has changed). */
  datatype RevealResult = ReturnedNil | UndefinedGetSymbol

  class Board {
    const height: nat
    const width: nat
    const tiles: seq<seq<Tile>>
    /** Where each tile object sits in the table. It makes the tiles pairwise
        distinct, as `Tile.new` once per cell does. */
    ghost const Index: map<Tile, (int, int)>

    ghost predicate Valid() {
      && |tiles| == height
      && (forall i | 0 <= i < height :: |tiles[i]| == width)
      && (forall i, j | 0 <= i < height && 0 <= j < width ::
            tiles[i][j] in Index && Index[tiles[i][j]] == (i, j))
    }

    /** The tile objects of the board. */
    ghost function Repr(): set<Tile> {
      Index.Keys
    }

    /** The board as a value: its dimensions and the state of every tile. */
    ghost function State(): (s: BoardState)
      requires Valid()
      reads Repr()
      ensures Shaped(s) && s.height == height && s.width == width
      ensures forall i, j | IsCell(s, i, j) :: s.tiles[i][j] == tiles[i][j].State()
    {
      BoardState(height, width,
        seq(height, i requires 0 <= i < height reads Repr() =>
          seq(width, j requires 0 <= j < width reads Repr() => tiles[i][j].State())))
    }

    /** The tile object `@tiles[pos.first][pos.last]` reaches. */
    function TileObject(pos: Pos): Tile
      requires Valid() && Locate(height, width, pos).Some?
    {
      var c := Locate(height, width, pos).value;
      tiles[c.0][c.1]
    }

    /** When every tile object other than the one at row i, column j still has
        the state it has in was, the board is was with that one tile's current
        state written into its cell. */
    lemma StateWithTile(was: BoardState, i: nat, j: nat)
      requires Valid() && Shaped(was) && was.height == height && was.width == width
      requires i < height && j < width
      requires forall k, l | IsCell(was, k, l) && tiles[k][l] != tiles[i][j] ::
        tiles[k][l].State() == was.tiles[k][l]
      ensures State() == WithTile(was, i, j, tiles[i][j].State())
    {
      var want := WithTile(was, i, j, tiles[i][j].State());
      forall k, l | IsCell(was, k, l) ensures State().tiles[k][l] == want.tiles[k][l] {
        if k != i || l != j {
          assert Index[tiles[k][l]] != Index[tiles[i][j]];
        }
      }
      SameTiles(State(), want);
    }

    /** `Board.new(height, width)`: a table of fresh tiles. */
    constructor (height: nat, width: nat)
      ensures Valid() && this.height == height && this.width == width
      ensures fresh(Repr())
      ensures State() == FreshBoard(height, width)
    {
      var rows: seq<seq<Tile>> := [];
      ghost var index: map<Tile, (int, int)> := map[];
      var i := 0;
      while i < height
        invariant 0 <= i <= height && |rows| == i
        invariant forall r | 0 <= r < i :: |rows[r]| == width
        invariant forall r, c | 0 <= r < i && 0 <= c < width ::
          rows[r][c] in index && index[rows[r][c]] == (r, c)
        invariant forall t | t in index :: fresh(t) && t.State() == Initial
      {
        var row: seq<Tile> := [];
        var j := 0;
        while j < width
          invariant 0 <= j <= width && |row| == j
          invariant forall r, c | 0 <= r < i && 0 <= c < width ::
            rows[r][c] in index && index[rows[r][c]] == (r, c)
          invariant forall c | 0 <= c < j :: row[c] in index && index[row[c]] == (i, c)
          invariant forall t | t in index :: fresh(t) && t.State() == Initial
        {
          var t := new Tile();
          row := row + [t];
          index := index[t := (i, j)];
          j := j + 1;
        }
        rows := rows + [row];
        i := i + 1;
      }
      this.height := height;
      this.width := width;
      tiles := rows;
      Index := index;
      new;
      SameTiles(State(), FreshBoard(height, width));
    }

    /** The placement loop of `generate_bombs`. Each `rand` pair is taken from
        draws in turn; the loop runs while fewer than target placements are
        collected, and also stops if the draws run out. `used` is how many draws
        it took. */
    method DrawPlacements(draws: seq<Pos>, target: int) returns (placements: seq<Pos>, used: nat)
      requires forall d | d in draws :: 0 <= d.y < height && 0 <= d.x < width
      ensures used <= |draws| && placements == Distinct(draws[..used])
      ensures NoDuplicates(placements)
      ensures forall p | p in placements :: 0 <= p.y < height && 0 <= p.x < width
      ensures |placements| <= if target < 0 then 0 else target
      ensures used < |draws| ==> |placements| >= target
      ensures 0 < used ==> |Distinct(draws[..used - 1])| < target
    {
      placements := [];
      used := 0;
      while |placements| < target && used < |draws|
        invariant used <= |draws| && placements == Distinct(draws[..used])
        invariant |placements| <= if target < 0 then 0 else target
        invariant 0 < used ==> |Distinct(draws[..used - 1])| < target
      {
        var loc := draws[used];
        ghost var taken := draws[..used + 1];
        assert taken[..|taken| - 1] == draws[..used] && taken[|taken| - 1] == loc;
        assert Distinct(taken) == if loc in placements then placements else placements + [loc];
        if loc !in placements {
          placements := placements + [loc];
        }
        used := used + 1;
      }
      forall p | p in placements ensures 0 <= p.y < height && 0 <= p.x < width {
        assert p in draws[..used];
      }
    }

    /** One step of `set_bombs`: `@tiles[i][j].set_bomb`. */
    method ToggleBombAt(i: nat, j: nat)
      requires Valid() && i < height && j < width
      modifies tiles[i][j]
      ensures State() == WithTile(old(State()), i, j, ToggleBomb(old(State()).tiles[i][j]))
    {
      ghost var was := State();
      var bombed := tiles[i][j].SetBomb();
      StateWithTile(was, i, j);
    }

    /** `set_bombs(placements)`: toggle the bomb flag of each addressed tile. */
    method SetBombs(placements: seq<Pos>)
      requires Valid()
      requires forall p | p in placements :: Locate(height, width, p).Some?
      modifies Repr()
      ensures State() == ApplyBombs(old(State()), placements)
    {
      var k := 0;
      while k < |placements|
        invariant 0 <= k <= |placements|
        invariant State() == ApplyBombs(old(State()), placements[..k])
      {
        var c := Locate(height, width, placements[k]).value;
        ToggleBombAt(c.0, c.1);
        assert placements[..k + 1][..k] == placements[..k];
        k := k + 1;
      }
      assert placements[..k] == placements;
    }

    /** `generate_bombs`: collect placements from the draws, then `set_bombs` them. */
    method GenerateBombs(draws: seq<Pos>, target: int) returns (placements: seq<Pos>, used: nat)
      requires Valid()
      requires forall d | d in draws :: 0 <= d.y < height && 0 <= d.x < width
      modifies Repr()
      ensures used <= |draws| && placements == Distinct(draws[..used])
      ensures NoDuplicates(placements)
      ensures |placements| <= if target < 0 then 0 else target
      ensures used < |draws| ==> |placements| >= target
      ensures 0 < used ==> |Distinct(draws[..used - 1])| < target
      ensures forall p | p in placements :: InTable(old(State()), p)
      ensures State() == ApplyBombs(old(State()), placements)
    {
      placements, used := DrawPlacements(draws, target);
      forall p | p in placements ensures Locate(height, width, p).Some? {
        LocateInTable(State(), p);
      }
      SetBombs(placements);
    }

    /** `reveal(pos)`: toggle the addressed tile's revealed flag; no other tile
        and no other field changes. */
    method Reveal(pos: Pos) returns (result: RevealResult)
      requires Valid() && Locate(height, width, pos).Some?
      modifies TileObject(pos)
      ensures var c := Locate(height, width, pos).value;
        State() == WithTile(old(State()), c.0, c.1, ToggleRevealed(old(State()).tiles[c.0][c.1]))
      ensures var c := Locate(height, width, pos).value;
        result == ReturnedNil <==> State().tiles[c.0][c.1].revealed && State().tiles[c.0][c.1].bomb
    {
      ghost var was := State();
      var tile := TileObject(pos);
      var revealed := tile.SetRevealed();
      StateWithTile(was, Locate(height, width, pos).value.0, Locate(height, width, pos).value.1);
      if tile.revealed && tile.Bombed() {
        result := ReturnedNil;
      } else {
        result := UndefinedGetSymbol;
      }
    }

    /** `flag(pos)`: toggle the addressed tile's flagged flag and return its new
        value; no other tile and no other field changes. */
    method Flag(pos: Pos) returns (flagged: bool)
      requires Valid() && Locate(height, width, pos).Some?
      modifies TileObject(pos)
      ensures var c := Locate(height, width, pos).value;
        State() == WithTile(old(State()), c.0, c.1, ToggleFlagged(old(State()).tiles[c.0][c.1]))
      ensures var c := Locate(height, width, pos).value;
        flagged == State().tiles[c.0][c.1].flagged
    {
      ghost var was := State();
      flagged := TileObject(pos).SetFlagged();
      StateWithTile(was, Locate(height, width, pos).value.0, Locate(height, width, pos).value.1);
    }
  }
}
