/** Tile placement at a clicked tile (src/systems/tile_edit_system.c). */
module TileEdit {
  import opened Wrappers
  import opened MachineInt
  import opened Coords
  import opened GameState
  import opened Commands
  import Tilemap

  /** The tile id a click places. */
  const PLACED_TILE: U16 := 4

  /**
   * The body of TileEditSystem_place_tile_at_mouse once the click has been
   * resolved: a rejected click (None) or a tile outside the map changes
   * nothing; otherwise the click is remembered, the tile is set to id 4 and
   * its chunk is marked dirty.
   */
  function PlaceTileAt(st: State, click: Option<TileCoord>): (st': State)
    ensures click.None? ==> st' == st
    ensures click.Some? && !InBounds(st, click.value.x, click.value.y) ==> st' == st
    ensures click.Some? && InBounds(st, click.value.x, click.value.y) ==>
              && st'.hasLastClick
              && st'.lastClickTileX == click.value.x && st'.lastClickTileY == click.value.y
              && Tilemap.GetTile(st'.tilemap, click.value.x, click.value.y) == Some(Tilemap.Tile(PLACED_TILE))
              && st'.dirtyTiles == st.dirtyTiles + [click.value]
    ensures forall x, y :: (click.None? || x != click.value.x || y != click.value.y) ==>
              Tilemap.GetTile(st'.tilemap, x, y) == Tilemap.GetTile(st.tilemap, x, y)
    ensures st' == st.(tilemap := st'.tilemap, hasLastClick := st'.hasLastClick, lastClickTileX := st'.lastClickTileX,
                       lastClickTileY := st'.lastClickTileY, dirtyTiles := st'.dirtyTiles)
    ensures st'.tilemap.width == st.tilemap.width && st'.tilemap.height == st.tilemap.height
  {
    match click
    case None => st
    case Some(c) =>
      if c.x < 0 || c.x >= st.mapSize || c.y < 0 || c.y >= st.mapSize then st
      else
        st.(hasLastClick := true, lastClickTileX := c.x, lastClickTileY := c.y,
            tilemap := Tilemap.SetTile(st.tilemap, c.x, c.y, PLACED_TILE),
            dirtyTiles := st.dirtyTiles + [c])
  }

  /**
   * TileEditSystem_place_tile_at_mouse: the click-to-tile conversion is the
   * abstract partial function `resolve`, given the camera, the fit and the
   * mouse position.
   */
  function PlaceTileAtMouse(st: State, fit: AspectFit, mousePos: Vec2,
                            resolve: (Camera, AspectFit, Vec2) -> Option<TileCoord>): (st': State)
    ensures st'.cam == st.cam && st'.positions == st.positions && st'.debug == st.debug
    ensures resolve(st.cam, fit, mousePos).None? ==> st' == st
  {
    PlaceTileAt(st, resolve(st.cam, fit, mousePos))
  }

  /** Placing twice at the same tile is the same as placing once, except for the dirty log. */
  lemma PlaceTwice(st: State, c: TileCoord)
    ensures PlaceTileAt(PlaceTileAt(st, Some(c)), Some(c)).tilemap == PlaceTileAt(st, Some(c)).tilemap
  {
    if InBounds(st, c.x, c.y) {
      Tilemap.SetTileOverwrites(st.tilemap, c.x, c.y, PLACED_TILE, PLACED_TILE);
    }
  }
}
