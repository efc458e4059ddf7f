/**
 * The game state of include/systems/game_state.h, with the component stores
 * held as the registries game_system.c creates. Render targets and the arena
 * are not part of this model; the camera is kept as a record whose fields
 * only the abstract camera operations of the frame read or write.
 */
module GameState {
  import opened Commands
  import opened Coords
  import Entities
  import Positions
  import Healths
  import Sprites
  import Tilemap

  /** Camera2DEx: world position, zoom and its limits, pan speed, logical size. */
  datatype Camera = Camera(pos: Vec2, zoom: real, minZoom: real, maxZoom: real, speed: real, logicalSize: Vec2)

  /** AspectFit: the letterboxed destination rectangle and its scale. */
  datatype AspectFit = AspectFit(destX: real, destY: real, destW: real, destH: real, scale: real)

  /**
   * GameState. `dirtyTiles` records, in order, every tile whose render chunk
   * was marked dirty; what a chunk is lies outside this model.
   */
  datatype State = State(
    mapSize: int,
    tileSize: int,
    atlas: Sprites.AtlasRef,
    tilemap: Tilemap.Tilemap,
    entities: Entities.Registry,
    positions: Positions.Store,
    healths: Healths.Store,
    sprites: Sprites.Store,
    player: Entities.EntityId,
    cam: Camera,
    debug: bool,
    hasLastClick: bool,
    lastClickTileX: int,
    lastClickTileY: int,
    dirtyTiles: seq<TileCoord>)

  /** The square [0, mapSize)² the movement and tile-edit rules check against. */
  predicate InBounds(st: State, x: int, y: int)
  {
    0 <= x < st.mapSize && 0 <= y < st.mapSize
  }

  /** The player, if it has a position, stands inside the map. */
  predicate PlayerInBounds(st: State)
  {
    st.player in st.positions ==> InBounds(st, st.positions[st.player].x, st.positions[st.player].y)
  }
}
