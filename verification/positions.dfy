/** The position component store (src/components/position.c): entity to grid cell. */
module Positions {
  import opened Wrappers
  import Table
  import opened Entities

  datatype Position = Position(x: int, y: int)

  type Store = map<EntityId, Position>

  /** PositionRegistry_new: no entity has a position. */
  function New(): (s: Store)
    ensures forall e :: Get(s, e) == None
  {
    map[]
  }

  /** Position_get: the entity's position, or None (a null pointer). */
  function Get(s: Store, e: EntityId): (r: Option<Position>)
    ensures r.Some? <==> e in s
    ensures r.Some? ==> r.value == s[e]
  {
    Table.Get(s, e)
  }

  /** Position_add: stores (x, y), replacing any earlier record of the entity. */
  function Add(s: Store, e: EntityId, x: int, y: int): (s': Store)
    ensures Get(s', e) == Some(Position(x, y))
    ensures forall other :: other != e ==> Get(s', other) == Get(s, other)
  {
    Table.Put(s, e, Position(x, y))
  }

  /** Position_set: updates both coordinates of a present entity; an absent entity is not created. */
  function Set(s: Store, e: EntityId, x: int, y: int): (s': Store)
    ensures Get(s, e) == None ==> s' == s
    ensures Get(s, e) != None ==> Get(s', e) == Some(Position(x, y))
    ensures forall other :: other != e ==> Get(s', other) == Get(s, other)
  {
    match Get(s, e)
    case None => s
    case Some(_) => Table.Put(s, e, Position(x, y))
  }

  /** Position_remove: the entity has no position afterwards. */
  function Remove(s: Store, e: EntityId): (s': Store)
    ensures Get(s', e) == None
    ensures forall other :: other != e ==> Get(s', other) == Get(s, other)
  {
    Table.Remove(s, e)
  }

  /** A second Position_add for the same entity replaces the first record. */
  lemma AddOverwrites(s: Store, e: EntityId, x1: int, y1: int, x2: int, y2: int)
    ensures Add(Add(s, e, x1, y1), e, x2, y2) == Add(s, e, x2, y2)
  {
    Table.PutPut(s, e, Position(x1, y1), Position(x2, y2));
  }

  /** On a present entity, Position_set is the same as adding the new position again. */
  lemma SetPresentIsAdd(s: Store, e: EntityId, x: int, y: int)
    requires Get(s, e) != None
    ensures Set(s, e, x, y) == Add(s, e, x, y)
  {
  }
}
