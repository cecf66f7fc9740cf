// A tile of the mine field: class Tile of minesweeper.rb.
module Tiles {

  /** The four instance variables of a tile, taken together as a value. */
  datatype TileState = TileState(bomb: bool, flagged: bool, revealed: bool, mark: string)

  /** What `Tile.new` sets up: no bomb, not flagged, not revealed, mark "*". */
  const Initial := TileState(false, false, false, "*")

  /** `set_bomb`: flips the bomb flag and nothing else. */
  function ToggleBomb(t: TileState): (r: TileState)
    ensures r.bomb == !t.bomb
    ensures r.flagged == t.flagged && r.revealed == t.revealed && r.mark == t.mark
  {
    t.(bomb := !t.bomb)
  }

  /** `set_flagged`: flips the flagged flag and nothing else. */
  function ToggleFlagged(t: TileState): (r: TileState)
    ensures r.flagged == !t.flagged
    ensures r.bomb == t.bomb && r.revealed == t.revealed && r.mark == t.mark
  {
    t.(flagged := !t.flagged)
  }

  /** `set_revealed`: flips the revealed flag and nothing else. */
  function ToggleRevealed(t: TileState): (r: TileState)
    ensures r.revealed == !t.revealed
    ensures r.bomb == t.bomb && r.flagged == t.flagged && r.mark == t.mark
  {
    t.(revealed := !t.revealed)
  }

  /** `set_mark`: replaces the mark and nothing else. */
  function WithMark(t: TileState, m: string): (r: TileState)
    ensures r.mark == m
    ensures r.bomb == t.bomb && r.flagged == t.flagged && r.revealed == t.revealed
  {
    t.(mark := m)
  }

  /** Every setter is a toggle: applying it twice gives the tile back. */
  lemma TogglesAreInvolutions(t: TileState)
    ensures ToggleBomb(ToggleBomb(t)) == t
    ensures ToggleFlagged(ToggleFlagged(t)) == t
    ensures ToggleRevealed(ToggleRevealed(t)) == t
  {
  }

  /** No setter sets a flag to true unconditionally: each one clears a flag that was set. */
  lemma TogglesClearSetFlags(t: TileState)
    ensures t.bomb ==> !ToggleBomb(t).bomb
    ensures t.flagged ==> !ToggleFlagged(t).flagged
    ensures t.revealed ==> !ToggleRevealed(t).revealed
  {
  }

  class Tile {
    var bomb: bool
    var flagged: bool
    var revealed: bool
    var mark: string

    /** The tile's fields as a value. */
    function State(): TileState
      reads this
    {
      TileState(bomb, flagged, revealed, mark)
    }

    constructor ()
      ensures State() == Initial
    {
      bomb, flagged, revealed, mark := false, false, false, "*";
    }

    /** Like the Ruby setter, returns the value just assigned. */
    method SetBomb() returns (now: bool)
      modifies this
      ensures State() == ToggleBomb(old(State()))
      ensures now == bomb
    {
      bomb := !bomb;
      now := bomb;
    }

    method SetFlagged() returns (now: bool)
      modifies this
      ensures State() == ToggleFlagged(old(State()))
      ensures now == flagged
    {
      flagged := !flagged;
      now := flagged;
    }

    method SetRevealed() returns (now: bool)
      modifies this
      ensures State() == ToggleRevealed(old(State()))
      ensures now == revealed
    {
      revealed := !revealed;
      now := revealed;
    }

    method SetMark(m: string) returns (now: string)
      modifies this
      ensures State() == WithMark(old(State()), m)
      ensures now == m
    {
      mark := m;
      now := mark;
    }

    /** `bombed?` */
    predicate Bombed()
      reads this
      ensures Bombed() <==> State().bomb
    {
      bomb
    }
  }
}
