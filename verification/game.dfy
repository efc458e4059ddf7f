/**
 * Game setup and the per-frame command handling of
 * src/systems/game_system.c: the initial tile pattern, the player, and the
 * frame that drains the input queue, settles the camera and then applies the
 * deferred tile placements.
 */
module Game {
  import opened Wrappers
  import opened MachineInt
  import opened Coords
  import opened Commands
  import opened GameState
  import Entities
  import BitMask
  import Positions
  import Healths
  import Sprites
  import Tilemap
  import InputQueue
  import Input
  import Movement
  import TileEdit

  // ---------------------------------------------------------------- setup

  /** The tile id init_tilemap's switch on `x % 8` gives column x. */
  function PatternTile(x: nat): (id: U16)
    ensures id <= 3
    ensures id == (x % 8) / 2
  {
    match x % 8
    case 0 => 0
    case 1 => 0
    case 2 => 1
    case 3 => 1
    case 4 => 2
    case 5 => 2
    case 6 => 3
    case 7 => 3
  }

  /**
   * init_tilemap: a mapSize × mapSize map where every in-range cell carries
   * its column's pattern tile, and no cell outside the square is set.
   */
  method InitTilemap(mapSize: int) returns (m: Tilemap.Tilemap)
    ensures m.width == mapSize && m.height == mapSize
    ensures forall x, y :: 0 <= x < mapSize && 0 <= y < mapSize ==>
              Tilemap.GetTile(m, x, y) == Some(Tilemap.Tile(PatternTile(x)))
    ensures forall x, y :: !(0 <= x < mapSize && 0 <= y < mapSize) ==> Tilemap.GetTile(m, x, y) == None
  {
    m := Tilemap.New(mapSize, mapSize);
    var y := 0;
    while y < mapSize
      invariant 0 <= y && (0 <= mapSize ==> y <= mapSize)
      invariant m.width == mapSize && m.height == mapSize
      invariant forall x', y' :: Tilemap.GetTile(m, x', y')
                  == if 0 <= x' < mapSize && 0 <= y' < y then Some(Tilemap.Tile(PatternTile(x'))) else None
    {
      var x := 0;
      while x < mapSize
        invariant 0 <= x <= mapSize
        invariant m.width == mapSize && m.height == mapSize
        invariant forall x', y' :: Tilemap.GetTile(m, x', y')
                    == if 0 <= x' < mapSize && (0 <= y' < y || (y' == y && x' < x))
                       then Some(Tilemap.Tile(PatternTile(x'))) else None
      {
        m := Tilemap.SetTile(m, x, y, PatternTile(x));
        x := x + 1;
      }
      y := y + 1;
    }
  }

  /** The player's starting health and sprite tile. */
  const PLAYER_HEALTH: real := 100.0
  const PLAYER_TILE: int := 4

  /** The stores init_entities creates, with the player they were set up for. */
  datatype Setup = Setup(
    entities: Entities.Registry,
    positions: Positions.Store,
    healths: Healths.Store,
    sprites: Sprites.Store,
    player: Entities.EntityId)

  /** The player's component bits: position, health and sprite. */
  function PlayerComponents(): (bits: Entities.ComponentBits)
    ensures bits == Entities.COMPONENT_POSITION + Entities.COMPONENT_HEALTH + Entities.COMPONENT_SPRITE
  {
    BitMask.SetBits(BitMask.SetBits(Entities.COMPONENT_POSITION, Entities.COMPONENT_HEALTH), Entities.COMPONENT_SPRITE)
  }

  /**
   * init_entities: fresh stores, the first entity of a new registry as the
   * player with position, health and sprite bits, standing at
   * (mapSize / 2, mapSize / 2) with full health 100 and sprite tile 4.
   */
  function InitEntities(mapSize: int, atlas: Sprites.AtlasRef): (s: Setup)
    ensures s.player == Entities.EntityId(1, 0)
    ensures s.entities.table == map[s.player := PlayerComponents()]
    ensures Entities.Counter(s.entities) == Entities.Counter(Entities.NewRegistry()) + 1
    ensures s.positions == map[s.player := Positions.Position(CDiv(mapSize, 2), CDiv(mapSize, 2))]
    ensures s.healths == map[s.player := Healths.BarValue(PLAYER_HEALTH, PLAYER_HEALTH)]
    ensures s.sprites == map[s.player := Sprites.Sprite(atlas, PLAYER_TILE)]
  {
    var c := Entities.Create(Entities.NewRegistry());
    FirstId(c.id);
    var entities := Entities.AddComponentType(c.registry, c.id, PlayerComponents());
    var startX := CDiv(mapSize, 2);
    var startY := CDiv(mapSize, 2);
    Setup(entities,
          Positions.Add(Positions.New(), c.id, startX, startY),
          Healths.Add(Healths.New(), c.id, PLAYER_HEALTH),
          Sprites.Add(Sprites.New(), c.id, atlas, PLAYER_TILE),
          c.id)
  }

  /** The identifier whose value is 2^64 is (high 1, low 0). */
  lemma FirstId(id: Entities.EntityId)
    requires Entities.Value(id) == TWO_64
    ensures id == Entities.EntityId(1, 0)
  {
    Entities.ValueLexicographic(id, Entities.EntityId(1, 0));
  }

  /** On a non-empty map the player starts inside it. */
  lemma InitialPlayerInBounds(mapSize: int)
    requires mapSize > 0
    ensures 0 <= CDiv(mapSize, 2) < mapSize
  {
  }

  /** GameSystem: the game state and its input system. */
  datatype GameSystem = GameSystem(state: State, input: Input.InputSystem)

  /**
   * GameSystem_create: debug and last-click flags off, the pattern tilemap,
   * the player, and a running input system with an empty queue. The atlas,
   * the initial camera and the queue's uninitialised slots are supplied.
   */
  method Create(mapSize: int, tileSize: int, atlas: Sprites.AtlasRef, cam: Camera, slots: seq<Command>)
    returns (g: GameSystem)
    requires |slots| == InputQueue.CAP
    ensures g.state.mapSize == mapSize && g.state.tileSize == tileSize && g.state.atlas == atlas
    ensures !g.state.debug && !g.state.hasLastClick && g.state.dirtyTiles == []
    ensures forall x, y :: InBounds(g.state, x, y) ==>
              Tilemap.GetTile(g.state.tilemap, x, y) == Some(Tilemap.Tile(PatternTile(x)))
    ensures g.state.cam == cam
    ensures g.state.tilemap.width == mapSize && g.state.tilemap.height == mapSize
    ensures forall x, y :: !InBounds(g.state, x, y) ==> Tilemap.GetTile(g.state.tilemap, x, y) == None
    ensures g.state.player == Entities.EntityId(1, 0)
    ensures g.state.entities.table == map[g.state.player := PlayerComponents()]
    ensures Entities.Counter(g.state.entities) == TWO_64 + 1
    ensures g.state.positions == map[g.state.player := Positions.Position(CDiv(mapSize, 2), CDiv(mapSize, 2))]
    ensures g.state.healths == map[g.state.player := Healths.BarValue(PLAYER_HEALTH, PLAYER_HEALTH)]
    ensures g.state.sprites == map[g.state.player := Sprites.Sprite(atlas, PLAYER_TILE)]
    ensures 0 < mapSize ==> PlayerInBounds(g.state)
    ensures Input.Valid(g.input) && g.input.running && InputQueue.Contents(g.input.queue) == []
    ensures g.input.snapshot == Input.ZERO_SNAPSHOT && g.input.lastSeq == 0
  {
    var tilemap := InitTilemap(mapSize);
    var setup := InitEntities(mapSize, atlas);
    if 0 < mapSize {
      InitialPlayerInBounds(mapSize);
    }
    var st := State(mapSize, tileSize, atlas, tilemap, setup.entities, setup.positions, setup.healths,
                    setup.sprites, setup.player, cam, false, false, 0, 0, []);
    g := GameSystem(st, Input.Create(slots));
  }

  // ---------------------------------------------------------------- frame

  /**
   * The floating-point camera work, as abstract functions: applying a wheel
   * zoom to the camera (it reads nothing else of the state), following the
   * player, computing the aspect fit (which reads the window size), clamping,
   * and resolving a mouse position to a tile (None when the click misses the
   * map).
   */
  datatype CameraOps = CameraOps(
    zoom: (Camera, real) -> Camera,
    follow: State -> Camera,
    fit: State -> AspectFit,
    clamp: (State, AspectFit) -> Camera,
    resolve: (Camera, AspectFit, Vec2) -> Option<TileCoord>)

  /** Capacity of the frame's deferred-placement buffer. */
  const MAX_DEFERRED: nat := 64

  /** The state while draining, with the mouse positions of deferred placements. */
  datatype Drained = Drained(st: State, deferred: seq<Vec2>)

  /**
   * One popped command: ToggleDebug flips the debug flag, Zoom and Move act
   * at once, PlaceTile is deferred while the buffer has room.
   */
  function Apply(ops: CameraOps, d: Drained, c: Command): (d': Drained)
    ensures d'.st.debug == (d.st.debug != (c == ToggleDebug))
    ensures d'.st.tilemap == d.st.tilemap && d'.st.mapSize == d.st.mapSize && d'.st.player == d.st.player
    ensures !c.PlaceTile? ==> d'.deferred == d.deferred
    ensures c.PlaceTile? ==> d'.deferred == d.deferred + (if |d.deferred| < MAX_DEFERRED then [c.mousePos] else [])
    ensures !c.Move? ==> d'.st.positions == d.st.positions
    ensures c.Move? ==> d' == d.(st := Movement.ApplyMove(d.st, c.dx, c.dy))
    ensures c.Zoom? ==> d' == d.(st := d.st.(cam := ops.zoom(d.st.cam, c.wheel)))
    ensures c == ToggleDebug ==> d' == d.(st := d.st.(debug := !d.st.debug))
    ensures c.PlaceTile? ==> d'.st == d.st
    ensures c.NoCommand? ==> d' == d
  {
    match c
    case ToggleDebug => d.(st := d.st.(debug := !d.st.debug))
    case Zoom(wheel) => d.(st := d.st.(cam := ops.zoom(d.st.cam, wheel)))
    case Move(dx, dy) => d.(st := Movement.ApplyMove(d.st, dx, dy))
    case PlaceTile(mousePos) =>
      if |d.deferred| < MAX_DEFERRED then d.(deferred := d.deferred + [mousePos]) else d
    case NoCommand => d
  }

  /** Reference for the drain loop: the commands applied in queue order. */
  function ApplyAll(ops: CameraOps, d: Drained, cs: seq<Command>): Drained
    decreases |cs|
  {
    if cs == [] then d else ApplyAll(ops, Apply(ops, d, cs[0]), cs[1..])
  }

  /** Number of ToggleDebug commands. */
  function Toggles(cs: seq<Command>): nat
    decreases |cs|
  {
    if cs == [] then 0 else (if cs[0] == ToggleDebug then 1 else 0) + Toggles(cs[1..])
  }

  /** Mouse positions of the PlaceTile commands, in order. */
  function Placements(cs: seq<Command>): seq<Vec2>
    decreases |cs|
  {
    if cs == [] then [] else (if cs[0].PlaceTile? then [cs[0].mousePos] else []) + Placements(cs[1..])
  }

  /** The first n elements, or all of them if there are fewer. */
  function Take<T>(s: seq<T>, n: nat): seq<T>
  {
    if |s| <= n then s else s[..n]
  }

  /** Each toggle flips the flag, so the flag changes iff there was an odd number of them. */
  lemma {:induction false} DrainDebugParity(ops: CameraOps, d: Drained, cs: seq<Command>)
    ensures ApplyAll(ops, d, cs).st.debug == (d.st.debug != (Toggles(cs) % 2 == 1))
    decreases |cs|
  {
    if cs != [] {
      DrainDebugParity(ops, Apply(ops, d, cs[0]), cs[1..]);
    }
  }

  /**
   * The deferred buffer ends up holding the first 64 placements (after any
   * already deferred), in queue order; later ones are dropped.
   */
  lemma {:induction false} DrainDeferred(ops: CameraOps, d: Drained, cs: seq<Command>)
    requires |d.deferred| <= MAX_DEFERRED
    ensures ApplyAll(ops, d, cs).deferred == Take(d.deferred + Placements(cs), MAX_DEFERRED)
    decreases |cs|
  {
    if cs != [] {
      var d1 := Apply(ops, d, cs[0]);
      var head := if cs[0].PlaceTile? then [cs[0].mousePos] else [];
      assert Placements(cs) == head + Placements(cs[1..]);
      assert d1.deferred == d.deferred + (if |d.deferred| < MAX_DEFERRED then head else []);
      DrainDeferred(ops, d1, cs[1..]);
      if |d.deferred| < MAX_DEFERRED {
        assert d.deferred + Placements(cs) == d1.deferred + Placements(cs[1..]);
      } else {
        assert (d.deferred + Placements(cs))[..MAX_DEFERRED] == d.deferred;
        assert (d1.deferred + Placements(cs[1..]))[..MAX_DEFERRED] == d.deferred;
      }
    }
  }

  /** Draining never moves the player off the map and never changes a tile. */
  lemma {:induction false} DrainKeepsPlayerInBounds(ops: CameraOps, d: Drained, cs: seq<Command>)
    requires PlayerInBounds(d.st)
    ensures PlayerInBounds(ApplyAll(ops, d, cs).st)
    ensures ApplyAll(ops, d, cs).st.tilemap == d.st.tilemap
    decreases |cs|
  {
    if cs != [] {
      if cs[0].Move? {
        Movement.MoveKeepsPlayerInBounds(d.st, cs[0].dx, cs[0].dy);
      }
      DrainKeepsPlayerInBounds(ops, Apply(ops, d, cs[0]), cs[1..]);
    }
  }

  /** The (dx, dy) of the Move commands, in queue order; other commands are skipped. */
  function MovesIn(cs: seq<Command>): seq<(int, int)>
    decreases |cs|
  {
    if cs == [] then [] else (if cs[0].Move? then [(cs[0].dx, cs[0].dy)] else []) + MovesIn(cs[1..])
  }

  /**
   * A move reads only the player, the map size, the tile map and the position
   * store, so two states that agree on those end with the same positions.
   */
  lemma {:induction false} MovesIgnoreOtherFields(st1: State, st2: State, moves: seq<(int, int)>)
    requires st1.player == st2.player && st1.mapSize == st2.mapSize
    requires st1.tilemap == st2.tilemap && st1.positions == st2.positions
    ensures Movement.ApplyMoves(st1, moves).positions == Movement.ApplyMoves(st2, moves).positions
    decreases |moves|
  {
    if moves != [] {
      var a := Movement.ApplyMove(st1, moves[0].0, moves[0].1);
      var b := Movement.ApplyMove(st2, moves[0].0, moves[0].1);
      assert a.positions == b.positions;
      MovesIgnoreOtherFields(a, b, moves[1..]);
    }
  }

  /**
   * Whatever else the queue holds, its Move commands are applied immediately
   * and in queue order: the position store after the drain is the one the
   * moves alone produce.
   */
  lemma {:induction false} DrainMovesInOrder(ops: CameraOps, d: Drained, cs: seq<Command>)
    ensures ApplyAll(ops, d, cs).st.positions == Movement.ApplyMoves(d.st, MovesIn(cs)).positions
    decreases |cs|
  {
    if cs != [] {
      var d1 := Apply(ops, d, cs[0]);
      DrainMovesInOrder(ops, d1, cs[1..]);
      if cs[0].Move? {
        assert MovesIn(cs)[0] == (cs[0].dx, cs[0].dy) && MovesIn(cs)[1..] == MovesIn(cs[1..]);
      } else {
        assert MovesIn(cs) == MovesIn(cs[1..]);
        MovesIgnoreOtherFields(d1.st, d.st, MovesIn(cs));
      }
    }
  }

  /** The wheel deltas of the Zoom commands, in queue order; other commands are skipped. */
  function ZoomsIn(cs: seq<Command>): seq<real>
    decreases |cs|
  {
    if cs == [] then [] else (if cs[0].Zoom? then [cs[0].wheel] else []) + ZoomsIn(cs[1..])
  }

  /** Apply a run of wheel zooms to a camera in order. */
  function ZoomAll(ops: CameraOps, cam: Camera, wheels: seq<real>): Camera
    decreases |wheels|
  {
    if wheels == [] then cam else ZoomAll(ops, ops.zoom(cam, wheels[0]), wheels[1..])
  }

  /**
   * Whatever else the queue holds, its Zoom commands are applied immediately
   * and in queue order: the camera after the drain is the one the zooms alone
   * produce from the starting camera.
   */
  lemma {:induction false} DrainZoomsInOrder(ops: CameraOps, d: Drained, cs: seq<Command>)
    ensures ApplyAll(ops, d, cs).st.cam == ZoomAll(ops, d.st.cam, ZoomsIn(cs))
    decreases |cs|
  {
    if cs != [] {
      var d1 := Apply(ops, d, cs[0]);
      DrainZoomsInOrder(ops, d1, cs[1..]);
      if cs[0].Zoom? {
        assert ZoomsIn(cs)[0] == cs[0].wheel && ZoomsIn(cs)[1..] == ZoomsIn(cs[1..]);
      } else {
        assert ZoomsIn(cs) == ZoomsIn(cs[1..]);
        assert d1.st.cam == d.st.cam;
      }
    }
  }

  /** The camera after follow-then-clamp, and the fit used for both clamping and placement. */
  datatype Settled = Settled(st: State, fit: AspectFit)

  /** Camera update: follow the player, compute the fit, clamp. Only the camera changes. */
  function Settle(ops: CameraOps, st: State): (s: Settled)
    ensures s.st == st.(cam := s.st.cam)
    ensures s.fit == ops.fit(st.(cam := ops.follow(st)))
    ensures s.st.cam == ops.clamp(st.(cam := ops.follow(st)), s.fit)
  {
    var followed := st.(cam := ops.follow(st));
    var fit := ops.fit(followed);
    Settled(followed.(cam := ops.clamp(followed, fit)), fit)
  }

  /** Reference for the placement loop: each deferred click in order, with the settled camera and fit. */
  function PlaceAll(ops: CameraOps, fit: AspectFit, st: State, clicks: seq<Vec2>): State
    decreases |clicks|
  {
    if clicks == [] then st
    else PlaceAll(ops, fit, TileEdit.PlaceTileAtMouse(st, fit, clicks[0], ops.resolve), clicks[1..])
  }

  /** Placements touch only the tilemap, the last-click fields and the dirty log. */
  lemma {:induction false} PlaceAllKeeps(ops: CameraOps, fit: AspectFit, st: State, clicks: seq<Vec2>)
    ensures var st' := PlaceAll(ops, fit, st, clicks);
            st' == st.(tilemap := st'.tilemap, hasLastClick := st'.hasLastClick, lastClickTileX := st'.lastClickTileX,
                       lastClickTileY := st'.lastClickTileY, dirtyTiles := st'.dirtyTiles)
    decreases |clicks|
  {
    if clicks != [] {
      PlaceAllKeeps(ops, fit, TileEdit.PlaceTileAtMouse(st, fit, clicks[0], ops.resolve), clicks[1..]);
    }
  }

  /**
   * A queue never holds more than 63 commands, so a frame never has more than
   * 63 placements and the 64-slot deferred buffer never drops one.
   */
  lemma NoPlacementDropped(g: GameSystem, keys: Input.KeyState)
    requires Input.Valid(g.input)
    ensures Take(Placements(Published(g, keys)), MAX_DEFERRED) == Placements(Published(g, keys))
  {
    PlacementsBound(Published(g, keys));
  }

  /** There are no more placements than commands. */
  lemma {:induction false} PlacementsBound(cs: seq<Command>)
    ensures |Placements(cs)| <= |cs|
    decreases |cs|
  {
    if cs != [] {
      PlacementsBound(cs[1..]);
    }
  }

  /** The commands a frame publishes and then drains. */
  function Published(g: GameSystem, keys: Input.KeyState): seq<Command>
    requires Input.Valid(g.input)
  {
    InputQueue.Contents(Input.PollAndPublish(g.input, keys).queue)
  }

  /**
   * GameSystem_frame without rendering: publish this frame's input, pop every
   * command (toggling, zooming and moving at once, deferring up to 64
   * placements), settle the camera, then apply the deferred placements in
   * order.
   */
  method Frame(ops: CameraOps, g: GameSystem, keys: Input.KeyState) returns (g': GameSystem)
    requires Input.Valid(g.input)
    ensures Input.Valid(g'.input) && InputQueue.Contents(g'.input.queue) == []
    ensures g'.input == Input.PollAndPublish(g.input, keys).(queue := g'.input.queue)
    ensures var d := ApplyAll(ops, Drained(g.state, []), Published(g, keys));
            var settled := Settle(ops, d.st);
            g'.state == PlaceAll(ops, settled.fit, settled.st, Take(Placements(Published(g, keys)), MAX_DEFERRED))
    ensures g'.state.debug == (g.state.debug != (Toggles(Published(g, keys)) % 2 == 1))
    ensures PlayerInBounds(g.state) ==> PlayerInBounds(g'.state)
  {
    var sys := Input.PollAndPublish(g.input, keys);
    ghost var published := InputQueue.Contents(sys.queue);
    var start := Drained(g.state, []);
    var d := start;
    var cmd := NoCommand;
    var p := Input.Pop(sys, cmd);
    while p.ok
      invariant Input.Valid(sys) && p == Input.Pop(sys, cmd)
      invariant sys == Input.PollAndPublish(g.input, keys).(queue := sys.queue)
      invariant ApplyAll(ops, d, InputQueue.Contents(sys.queue)) == ApplyAll(ops, start, published)
      decreases |InputQueue.Contents(sys.queue)|
    {
      d := Apply(ops, d, p.out);
      sys := p.sys;
      cmd := p.out;
      p := Input.Pop(sys, cmd);
    }
    assert InputQueue.Contents(sys.queue) == [];
    assert d == ApplyAll(ops, start, published);
    DrainDeferred(ops, start, published);
    assert start.deferred + Placements(published) == Placements(published);
    DrainDebugParity(ops, start, published);
    if PlayerInBounds(g.state) {
      DrainKeepsPlayerInBounds(ops, start, published);
    }

    var settled := Settle(ops, d.st);
    var st := settled.st;
    var i := 0;
    while i < |d.deferred|
      invariant 0 <= i <= |d.deferred|
      invariant PlaceAll(ops, settled.fit, st, d.deferred[i..]) == PlaceAll(ops, settled.fit, settled.st, d.deferred)
    {
      assert d.deferred[i..][1..] == d.deferred[i + 1..];
      st := TileEdit.PlaceTileAtMouse(st, settled.fit, d.deferred[i], ops.resolve);
      i := i + 1;
    }
    assert d.deferred[i..] == [];
    PlaceAllKeeps(ops, settled.fit, settled.st, d.deferred);
    g' := GameSystem(st, sys);
  }
}
