/**
 * The health component store (src/components/health.c): entity to a bar value.
 * The C fields are `float`; the model only copies them, so `real` stands in.
 */
module Healths {
  import opened Wrappers
  import Table
  import opened Entities

  datatype BarValue = BarValue(value: real, maxValue: real)

  type Store = map<EntityId, BarValue>

  /** HealthRegistry_new: no entity has health. */
  function New(): (s: Store)
    ensures forall e :: Get(s, e) == None
  {
    map[]
  }

  /** Health_get: the entity's bar, or None (a null pointer). */
  function Get(s: Store, e: EntityId): (r: Option<BarValue>)
    ensures r.Some? <==> e in s
    ensures r.Some? ==> r.value == s[e]
  {
    Table.Get(s, e)
  }

  /** Health_add: a full bar, value = maxValue = the given maximum, replacing any earlier record. */
  function Add(s: Store, e: EntityId, maxHealth: real): (s': Store)
    ensures Get(s', e).Some?
    ensures Get(s', e).value.value == maxHealth && Get(s', e).value.maxValue == maxHealth
    ensures forall other :: other != e ==> Get(s', other) == Get(s, other)
  {
    Table.Put(s, e, BarValue(maxHealth, maxHealth))
  }

  /** Health_remove: the entity has no health afterwards. */
  function Remove(s: Store, e: EntityId): (s': Store)
    ensures Get(s', e) == None
    ensures forall other :: other != e ==> Get(s', other) == Get(s, other)
  {
    Table.Remove(s, e)
  }

  /** Re-adding health for the same entity overwrites the earlier record. */
  lemma AddOverwrites(s: Store, e: EntityId, m1: real, m2: real)
    ensures Add(Add(s, e, m1), e, m2) == Add(s, e, m2)
  {
    Table.PutPut(s, e, BarValue(m1, m1), BarValue(m2, m2));
  }
}
