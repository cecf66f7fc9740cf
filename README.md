# Mine-field rule engine (minesweeper.rb), modelled in Dafny

This project models the rule engine in `minesweeper.rb`, an early and unfinished
Ruby version of a mine-detection puzzle. It has three classes:

- `Tile` holds three boolean flags (`bomb`, `flagged`, `revealed`) and a `mark`.
  Each flag setter *toggles* its flag.
- `Board` is a `height` x `width` table of tiles. Its queries are `on_board?`,
  `neighbors`, `neighbor_bomb_count` and `get_symbol`. Its updates are
  `set_bombs`, `generate_bombs` (rejection-sampled bomb placement), `reveal`
  and `flag`. Each update changes one tile, or the listed tiles, in place.
- `MineSweeper#win?` counts the tiles that are not revealed.

The model follows the code as written. It has no flood-fill cascade, no lose
predicate, no reveal-all and no bounds checks, because the code has none.

Modules:

- `Tiles` (tiles.dfy) has the tile state as a value (`TileState`), the setters
  as functions on that value, and class `Tile`. Each method of `Tile` is
  specified by the function it applies to `State()`.
- `Grid` (grid.dfy) has the board as a value (`BoardState`: dimensions plus a
  table of tile states). It holds the pure queries of `Board` and a
  value-level description of what each update does.
- `Boards` (board.dfy) has class `Board`. It holds a `seq<seq<Tile>>` of
  distinct tile objects, and a ghost `Index` map that records each object's
  cell. `State()` reads the objects back as a `BoardState`. Each method's
  postcondition gives the new `State()` as a `Grid` function of the old one.
- `Game` (game.dfy) has class `MineSweeper`, with the counting loop of `win?`.
- `Decimal` (decimal.dfy) models `Integer#to_s`, which `get_symbol` uses.

Behaviour of the code that the model keeps:

- `on_board?` compares the FIRST coordinate with the width and the SECOND with
  the height. A table lookup, however, uses the first coordinate as the row
  (`@tiles[pos.first][pos.last]`).
  - On a square board the two agree (`Grid.SquareNeighborsInTable`).
  - On other boards a neighbour can fall outside the table
    (`Grid.NarrowBoardNeighborLeavesTable`), and Ruby then calls a method on
    nil. So `neighbor_bomb_count` is defined only where every neighbour is a
    cell of the table.
- Positions are looked up with Ruby's array indexing. A negative index counts
  from the end of the row or the table. Any other index outside the array gives
  nil (`Grid.RubyIndex`, `Grid.Locate`). Operations that index a tile require a
  position that reaches one.
- `reveal` toggles `revealed` whatever the flag states are. It returns nil when
  the tile is then revealed and bombed. Otherwise it calls `get_symbol` on the
  `Tile`, which `Tile` does not define, so the call fails after the tile has
  changed. The model returns `UndefinedGetSymbol` for that outcome.
- `win?` compares its count with `board.bomb_count`. Neither `board` nor
  `bomb_count` is defined, so `Win` takes the bomb count as a parameter.
- The loop of `generate_bombs` runs while `count < total_bombs`, where
  `total_bombs` is the float `height * width * 0.15`. It therefore stops at the
  first whole number at or above that value: 21 bombs on the default 15 x 9
  board, where the threshold is 20.25. A rounded count would give 20. The
  model takes the threshold as an integer `target`.

## Model

| member | source | states |
|---|---|---|
| Tiles.ToggleBomb | minesweeper.rb:12-14 | `set_bomb` negates `bomb`; `flagged`, `revealed` and `mark` are unchanged |
| Tiles.ToggleFlagged | minesweeper.rb:16-18 | `set_flagged` negates `flagged`; the other three fields are unchanged |
| Tiles.ToggleRevealed | minesweeper.rb:20-22 | `set_revealed` negates `revealed`; the other three fields are unchanged |
| Tiles.WithMark | minesweeper.rb:24-26 | `set_mark(m)` makes the mark `m`; the three flags are unchanged |
| Tiles.TogglesAreInvolutions | minesweeper.rb:12-22 | applying any of the three flag setters twice gives the tile back |
| Tiles.TogglesClearSetFlags | minesweeper.rb:12-22 | no setter sets its flag to true unconditionally: on a set flag each one clears it |
| Tiles.Tile.constructor | minesweeper.rb:5-10 | a new tile has no bomb, is not flagged, is not revealed and has mark "*" |
| Tiles.Tile.SetBomb | minesweeper.rb:12-14 | the tile's new state is `ToggleBomb` of its old state; returns the new flag |
| Tiles.Tile.SetFlagged | minesweeper.rb:16-18 | the tile's new state is `ToggleFlagged` of its old state; returns the new flag |
| Tiles.Tile.SetRevealed | minesweeper.rb:20-22 | the tile's new state is `ToggleRevealed` of its old state; returns the new flag |
| Tiles.Tile.SetMark | minesweeper.rb:24-26 | the tile's new state is `WithMark` of its old state; returns the mark |
| Tiles.Tile.Bombed | minesweeper.rb:28-30 | `bombed?` is the tile's bomb flag |
| Decimal.ToString | minesweeper.rb:81 | `to_s` gives a non-empty string of decimal digits, one digit exactly when n < 10, with no leading zero |
| Decimal.ValueOfToString | minesweeper.rb:81 | reading the numeral back gives n: `to_s` loses nothing |
| Grid.FreshBoard | minesweeper.rb:40 | the new table has `height` rows of `width` tiles, each in the state `Tile.new` gives |
| Grid.RubyIndex | minesweeper.rb:74 | a Ruby array lookup reaches an element exactly for -n <= i < n, and then element i or i + n |
| Grid.Locate | minesweeper.rb:74 | `@tiles[pos.first][pos.last]` reaches a tile exactly when both coordinates are within Ruby's index range, and then the cell at the non-negative coordinates unchanged |
| Grid.LocateInTable | minesweeper.rb:74 | a position with no negative coordinate reaches a tile exactly when it is in the table, and then reaches its own cell |
| Grid.WithTile | minesweeper.rb:110-122 | replacing one cell keeps the shape, puts the new tile in that cell and leaves every other cell unchanged |
| Grid.ToggleTwiceRestoresBoard | minesweeper.rb:110-122 | revealing, flagging or bombing the same cell twice gives the board back |
| Grid.OnBoard | minesweeper.rb:102-104 | the first coordinate is in [0, width) and the second in [0, height), with the axes as written: it holds exactly when the transposed position is a cell of the table |
| Grid.OnBoardSquare | minesweeper.rb:102-104 | on a square board `on_board?` (first coordinate against the width, second against the height) is membership of the table |
| Grid.Candidates | minesweeper.rb:90-98 | the eight listed offsets are distinct and are exactly the positions adjacent to `pos` |
| Grid.SelectOnBoard | minesweeper.rb:99 | `select` keeps exactly the positions that pass `on_board?`, in their order, adding no duplicate |
| Grid.Neighbors | minesweeper.rb:88-100 | at most 8 distinct positions, never `pos`; each differs from `pos` by at most 1 per coordinate and passes `on_board?`; exactly the adjacent on-board positions; in the listed order |
| Grid.SquareNeighborsInTable | minesweeper.rb:99-107 | on a square board every neighbour is a cell of the table |
| Grid.NarrowBoardNeighborLeavesTable | minesweeper.rb:102-107 | on a 1 x 2 board the neighbours of [0, 0] include [1, 0], which has no row |
| Grid.CountBombed | minesweeper.rb:107 | the `select ... count` of bombed tiles is at most the number of positions |
| Grid.CountBombedIsSetSize | minesweeper.rb:107 | over distinct in-table positions the count is the size of the set of positions whose tile is bombed |
| Grid.NeighborBombCount | minesweeper.rb:106-108 | `neighbor_bomb_count` lies between 0 and the number of neighbours, so at most 8 |
| Grid.NeighborBombCountMeaning | minesweeper.rb:106-108 | the count is the number of neighbours whose tile is bombed, and it is 0 exactly when no neighbour is bombed |
| Grid.GetSymbol | minesweeper.rb:72-86 | "F" exactly for a flagged tile, revealed or not; "*" exactly for an unflagged hidden tile; "_" exactly for an unflagged revealed tile with no bombed neighbour; otherwise the count, as one digit from 1 to 8 |
| Grid.ApplyBombs | minesweeper.rb:55-59 | `set_bombs` keeps the shape; a tile's bomb flag flips exactly when an odd number of placements reach it, and its other fields do not change |
| Grid.HitsOfDistinct | minesweeper.rb:55-59 | distinct in-table placements reach their own cell once and no other cell |
| Grid.PlacedBombsAreListed | minesweeper.rb:55-59 | on a board without bombs, distinct in-table placements bomb exactly the listed tiles and change no other field |
| Grid.PlacedBombCount | minesweeper.rb:43-59 | the bombed cells are then exactly the placements, as many as there are placements |
| Grid.Distinct | minesweeper.rb:50 | appending each draw unless already included leaves no duplicate and exactly the drawn positions |
| Grid.DistinctGrowsByOne | minesweeper.rb:50 | each further draw adds at most one placement |
| Grid.DistinctSetSize | minesweeper.rb:45-51 | a duplicate-free list of placements has as many distinct positions as entries |
| Grid.RowHidden | minesweeper.rb:139-141 | a row has no more hidden tiles than tiles |
| Grid.HiddenCount | minesweeper.rb:136-142 | the number of unrevealed tiles, counted row by row, equals the size of the set of cells whose tile is not revealed |
| Grid.HiddenCountBound | minesweeper.rb:136-142 | the hidden-tile count lies in [0, height * width] |
| Grid.FreshBoardHidden | minesweeper.rb:40 | every tile of a new board is hidden: the count is height * width |
| Grid.HiddenCountWithTile | minesweeper.rb:136-142 | replacing one tile changes the hidden count by that tile's change alone |
| Grid.FlagAndRevealHiddenCount | minesweeper.rb:110-122 | `flag` never changes the hidden count; `reveal` lowers it by one on a hidden tile and raises it by one on a revealed tile |
| Boards.Board.constructor | minesweeper.rb:37-41 | `Board.new(height, width)` has fresh, pairwise distinct tiles, and its state is `FreshBoard(height, width)` |
| Boards.Board.DrawPlacements | minesweeper.rb:43-51 | the placements are the repeat-free draws taken so far: no duplicate, each in [0, height) x [0, width), at most `target` of them; the loop stops early only once the count reaches `target`, and not one draw later than that |
| Boards.Board.ToggleBombAt | minesweeper.rb:57 | one `set_bomb` call: the board is the old one with that tile's bomb flag toggled |
| Boards.Board.SetBombs | minesweeper.rb:55-59 | the new board is `ApplyBombs` of the old one with the placements |
| Boards.Board.GenerateBombs | minesweeper.rb:43-53 | places the collected placements on the board with `set_bombs`; the placements and the number of draws taken are as `DrawPlacements` describes (no duplicate, stopping at the first draw that reaches `target`), and all are in the table |
| Boards.Board.Reveal | minesweeper.rb:110-118 | toggles only the addressed tile's `revealed`; every other tile and field is unchanged; returns nil exactly when the tile is now revealed and bombed |
| Boards.Board.Flag | minesweeper.rb:120-122 | toggles only the addressed tile's `flagged` and returns its new value; every other tile and field is unchanged |
| Game.MineSweeper.constructor | minesweeper.rb:128-130 | a game starts on a fresh 15 x 9 board |
| Game.MineSweeper.Win | minesweeper.rb:136-144 | the loop's count is the number of unrevealed tiles, at most height * width, and `win?` holds exactly when it equals the given bomb count |

## Left out

- `Board#display` and its unused `display_board` local. They only print to the terminal.
- `rand`. The draws are an input sequence of in-range positions. The model's
  loop also stops when the draws run out and reports how many it used. With
  the source's threshold `h * w * 0.15` there are always enough distinct cells,
  and on an empty board the loop body never runs. Only the model's free integer
  `target` can exceed the number of cells, or be positive on an empty board,
  where Ruby would loop forever or call `rand(0)`; the model does not cover
  those cases beyond stopping when the draws run out.
- `(@height * @width * 0.15) / 1`. Floating point is not modelled; the threshold is an integer parameter.
- MineSweeper#play. It only calls `win?`.
- `win?`'s `board.bomb_count`. It refers to names that do not exist. The bomb
  count is a parameter, and `Win` also returns the count it computed.
- `Board.new`'s default arguments (15, 9). The constructor takes both
  dimensions. Negative dimensions, which Ruby's `Array.new` rejects, are
  excluded by the `nat` type.
- Boards.Board.SetBombs: requires every placement to reach a tile. A
  placement that reaches none makes Ruby fail part-way, after earlier
  placements have been applied; that partial state is not modelled.
- Boards.Board.Reveal, Boards.Board.Flag and Grid.GetSymbol: require a
  position that reaches a tile. On other positions Ruby calls a method on nil.
  Grid.NeighborBombCount likewise requires every neighbour to be in the table.
- The Ruby `Tile#get_symbol` call in `reveal`. No such method exists; the call
  is modelled only as the `UndefinedGetSymbol` outcome.
- A flood-fill cascade, a lose predicate, reveal-all, guards against flagging a
  revealed tile, and out-of-bounds errors. The code has none of these.
