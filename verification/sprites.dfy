/** The sprite component store (src/components/sprite.c): entity to (atlas, tile id). */
module Sprites {
  import opened Wrappers
  import Table
  import opened Entities

  /** An atlas pointer; the model only ever stores and compares it. */
  datatype AtlasRef = AtlasRef(handle: nat)

  datatype Sprite = Sprite(atlas: AtlasRef, tileId: int)

  type Store = map<EntityId, Sprite>

  /** SpriteRegistry_new: no entity has a sprite. */
  function New(): (s: Store)
    ensures forall e :: Get(s, e) == None
  {
    map[]
  }

  /** Sprite_get: the entity's sprite, or None (a null pointer). */
  function Get(s: Store, e: EntityId): (r: Option<Sprite>)
    ensures r.Some? <==> e in s
    ensures r.Some? ==> r.value == s[e]
  {
    Table.Get(s, e)
  }

  /** Sprite_add: stores (atlas, tile id), replacing any earlier record of the entity. */
  function Add(s: Store, e: EntityId, atlas: AtlasRef, tileId: int): (s': Store)
    ensures Get(s', e) == Some(Sprite(atlas, tileId))
    ensures forall other :: other != e ==> Get(s', other) == Get(s, other)
  {
    Table.Put(s, e, Sprite(atlas, tileId))
  }

  /** Sprite_set_tile: changes only the tile id of a present sprite; the atlas is kept; absent is a no-op. */
  function SetTile(s: Store, e: EntityId, tileId: int): (s': Store)
    ensures Get(s, e) == None ==> s' == s
    ensures Get(s, e) != None ==> Get(s', e) == Some(Sprite(Get(s, e).value.atlas, tileId))
    ensures forall other :: other != e ==> Get(s', other) == Get(s, other)
  {
    match Get(s, e)
    case None => s
    case Some(sprite) => Table.Put(s, e, sprite.(tileId := tileId))
  }

  /** Sprite_remove: the entity has no sprite afterwards. */
  function Remove(s: Store, e: EntityId): (s': Store)
    ensures Get(s', e) == None
    ensures forall other :: other != e ==> Get(s', other) == Get(s, other)
  {
    Table.Remove(s, e)
  }

  /** Re-adding a sprite for the same entity overwrites the earlier record. */
  lemma AddOverwrites(s: Store, e: EntityId, a1: AtlasRef, t1: int, a2: AtlasRef, t2: int)
    ensures Add(Add(s, e, a1, t1), e, a2, t2) == Add(s, e, a2, t2)
  {
    Table.PutPut(s, e, Sprite(a1, t1), Sprite(a2, t2));
  }

  /** Setting the tile after an add is the same as adding with that tile in the first place. */
  lemma SetTileAfterAdd(s: Store, e: EntityId, atlas: AtlasRef, t1: int, t2: int)
    ensures SetTile(Add(s, e, atlas, t1), e, t2) == Add(s, e, atlas, t2)
  {
    Table.PutPut(s, e, Sprite(atlas, t1), Sprite(atlas, t2));
  }
}
