/**
 * The tile map (src/components/tilemap.c): recorded dimensions and a table
 * from coordinate value to tile. Lookups build a fresh key, so two keys with
 * the same (x, y) find the same tile.
 */
module Tilemap {
  import opened Wrappers
  import opened MachineInt
  import Table
  import opened Coords

  /** A tile; its flag byte is never initialised by the map and is not modelled. */
  datatype Tile = Tile(tileId: U16)

  datatype Tilemap = Tilemap(width: int, height: int, tiles: map<TileCoord, Tile>)

  /** Tilemap_new: records the dimensions; no tile is set. */
  function New(width: int, height: int): (m: Tilemap)
    ensures m.width == width && m.height == height
    ensures forall x, y :: GetTile(m, x, y) == None
  {
    Tilemap(width, height, map[])
  }

  /** Tilemap_get_tile: the tile at (x, y), or None (a null pointer). */
  function GetTile(m: Tilemap, x: int, y: int): (r: Option<Tile>)
    ensures r.Some? <==> TileCoord(x, y) in m.tiles
    ensures r.Some? ==> r.value == m.tiles[TileCoord(x, y)]
  {
    Table.Get(m.tiles, TileCoord(x, y))
  }

  /**
   * Tilemap_set_tile: stores a tile with the given id at (x, y), replacing any
   * earlier one. There is no bounds check, the dimensions stay as they were,
   * and every other coordinate keeps its tile.
   */
  function SetTile(m: Tilemap, x: int, y: int, tileId: U16): (m': Tilemap)
    ensures GetTile(m', x, y) == Some(Tile(tileId))
    ensures m'.width == m.width && m'.height == m.height
    ensures forall x', y' :: (x', y') != (x, y) ==> GetTile(m', x', y') == GetTile(m, x', y')
  {
    m.(tiles := Table.Put(m.tiles, TileCoord(x, y), Tile(tileId)))
  }

  /** A second set_tile at the same coordinate overwrites the first. */
  lemma SetTileOverwrites(m: Tilemap, x: int, y: int, id1: U16, id2: U16)
    ensures SetTile(SetTile(m, x, y, id1), x, y, id2) == SetTile(m, x, y, id2)
  {
    Table.PutPut(m.tiles, TileCoord(x, y), Tile(id1), Tile(id2));
  }

  /** Lookup is by coordinate value: keys the coordinate comparator calls equal find the same tile. */
  lemma LookupByValue(m: Tilemap, a: TileCoord, b: TileCoord)
    requires Cmp(a, b) == 0
    ensures GetTile(m, a.x, a.y) == GetTile(m, b.x, b.y)
  {
  }

  /** Three tiles set, then looked up again through fresh keys; a coordinate never set has no tile. */
  lemma SetThenLookupScenario()
    ensures var m := SetTile(SetTile(SetTile(New(100, 100), 58, 91, 100), 4, 6, 200), 0, 0, 300);
            && GetTile(m, 58, 91) == Some(Tile(100))
            && GetTile(m, 4, 6) == Some(Tile(200))
            && GetTile(m, 0, 0) == Some(Tile(300))
            && GetTile(m, 99, 99) == None
  {
  }
}
