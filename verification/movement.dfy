/** Grid movement of the player (src/systems/movement_system.c). */
module Movement {
  import opened Wrappers
  import opened MachineInt
  import opened GameState
  import Positions
  import Tilemap

  /** Every tile id is walkable. */
  function IsTileWalkable(tileId: U16): (walkable: bool)
    ensures walkable
  {
    true
  }

  /**
   * MovementSystem_apply_move: the player steps by (dx, dy) when it has a
   * position, the target lies inside the map, and the target tile exists and
   * is walkable; otherwise nothing changes. Only the player's position can
   * change.
   */
  function ApplyMove(st: State, dx: int, dy: int): (st': State)
    ensures st' == st.(positions := st'.positions)
    ensures Positions.Get(st.positions, st.player).None? ==> st' == st
    ensures Positions.Get(st.positions, st.player).Some? ==>
              var p := Positions.Get(st.positions, st.player).value;
              if !InBounds(st, p.x + dx, p.y + dy) || Tilemap.GetTile(st.tilemap, p.x + dx, p.y + dy).None? then st' == st
              else Positions.Get(st'.positions, st.player) == Some(Positions.Position(p.x + dx, p.y + dy))
    ensures forall e :: e != st.player ==> Positions.Get(st'.positions, e) == Positions.Get(st.positions, e)
    ensures st'.positions.Keys == st.positions.Keys
  {
    match Positions.Get(st.positions, st.player)
    case None => st
    case Some(p) =>
      var newX := p.x + dx;
      var newY := p.y + dy;
      if newX < 0 || newX >= st.mapSize || newY < 0 || newY >= st.mapSize then st
      else
        match Tilemap.GetTile(st.tilemap, newX, newY)
        case None => st
        case Some(target) =>
          if IsTileWalkable(target.tileId) then st.(positions := Positions.Set(st.positions, st.player, newX, newY))
          else st
  }

  /** A single move never takes an in-bounds player outside the map. */
  lemma MoveKeepsPlayerInBounds(st: State, dx: int, dy: int)
    requires PlayerInBounds(st)
    ensures PlayerInBounds(ApplyMove(st, dx, dy))
  {
    var st' := ApplyMove(st, dx, dy);
    if st.player in st.positions && st' != st {
      var p := st.positions[st.player];
      assert Positions.Get(st'.positions, st.player) == Some(Positions.Position(p.x + dx, p.y + dy));
    }
  }

  /** Apply a run of moves in order. */
  function ApplyMoves(st: State, moves: seq<(int, int)>): State
    decreases |moves|
  {
    if moves == [] then st else ApplyMoves(ApplyMove(st, moves[0].0, moves[0].1), moves[1..])
  }

  /**
   * The player stays on the map through any sequence of moves, and no move
   * touches anything but the position store.
   */
  lemma {:induction false} MovesKeepPlayerInBounds(st: State, moves: seq<(int, int)>)
    requires PlayerInBounds(st)
    ensures PlayerInBounds(ApplyMoves(st, moves))
    ensures ApplyMoves(st, moves) == st.(positions := ApplyMoves(st, moves).positions)
    decreases |moves|
  {
    if moves != [] {
      MoveKeepsPlayerInBounds(st, moves[0].0, moves[0].1);
      MovesKeepPlayerInBounds(ApplyMove(st, moves[0].0, moves[0].1), moves[1..]);
    }
  }
}
