/**
 * The entity registry (src/entity.c): a 128-bit identifier counter split into
 * two 64-bit halves, and a table from identifier to a component bitmask.
 */
module Entities {
  import opened MachineInt
  import opened Wrappers
  import Table
  import BitMask

  /** A 128-bit identifier, stored as its high and low 64-bit halves. */
  datatype EntityId = EntityId(high: U64, low: U64)

  /** The ComponentType flags; an entity's mask is their bitwise or. */
  type ComponentBits = BitMask.Mask

  const COMPONENT_NONE: ComponentBits := {}
  const COMPONENT_POSITION: ComponentBits := BitMask.Flag(0)
  const COMPONENT_HEALTH: ComponentBits := BitMask.Flag(1)
  const COMPONENT_SPRITE: ComponentBits := BitMask.Flag(2)

  datatype Registry = Registry(table: map<EntityId, ComponentBits>, nextHigh: U64, nextLow: U64)

  /** The number an identifier denotes when read as one 128-bit unsigned value. */
  function Value(id: EntityId): nat
  {
    id.high * TWO_64 + id.low
  }

  /** The identifier the next Entity_create will hand out, read as a number. */
  function Counter(r: Registry): nat
  {
    Value(EntityId(r.nextHigh, r.nextLow))
  }

  lemma ValueBelow(id: EntityId)
    ensures Value(id) < TWO_128
  {
    assert id.high <= TWO_64 - 1;
    assert id.high * TWO_64 <= (TWO_64 - 1) * TWO_64;
  }

  /** Reading two identifiers as numbers orders them lexicographically on (high, low). */
  lemma {:induction false} ValueLexicographic(a: EntityId, b: EntityId)
    ensures Value(a) < Value(b) <==> a.high < b.high || (a.high == b.high && a.low < b.low)
    ensures Value(a) == Value(b) <==> a == b
  {
    if a.high < b.high {
      assert (b.high - a.high) * TWO_64 >= TWO_64;
      assert Value(b) - Value(a) == (b.high - a.high) * TWO_64 + b.low - a.low;
    } else if a.high > b.high {
      assert (a.high - b.high) * TWO_64 >= TWO_64;
      assert Value(a) - Value(b) == (a.high - b.high) * TWO_64 + a.low - b.low;
    }
  }

  /** EntityRegistry_new: no entities, and the counter starts at high = 1, low = 0. */
  function NewRegistry(): (r: Registry)
    ensures r.table == map[]
    ensures r.nextHigh == 1 && r.nextLow == 0
    ensures Counter(r) == TWO_64
  {
    Registry(map[], 1, 0)
  }

  datatype Created = Created(id: EntityId, registry: Registry)

  /**
   * Entity_create: hands out the current counter, then increments the low half
   * modulo 2^64 and carries into the (also wrapping) high half when the low
   * half wraps to zero. As a whole this is a 128-bit increment. The new entity
   * starts with an empty mask; if the identifier was in use (only possible
   * after the counter wrapped) its mask is reset.
   */
  function Create(r: Registry): (c: Created)
    ensures Value(c.id) == Counter(r)
    ensures Counter(c.registry) == (Counter(r) + 1) % TWO_128
    ensures Table.Get(c.registry.table, c.id) == Some(COMPONENT_NONE)
    ensures forall other :: other != c.id ==> Table.Get(c.registry.table, other) == Table.Get(r.table, other)
  {
    var id := EntityId(r.nextHigh, r.nextLow);
    var low := Wrap64(r.nextLow + 1);
    var high := if low == 0 then Wrap64(r.nextHigh + 1) else r.nextHigh;
    var c := Created(id, Registry(Table.Put(r.table, id, COMPONENT_NONE), high, low));
    CounterStep(r, c.registry);
    c
  }

  lemma CounterStep(r: Registry, r': Registry)
    requires r'.nextLow == Wrap64(r.nextLow + 1)
    requires r'.nextHigh == if r'.nextLow == 0 then Wrap64(r.nextHigh + 1) else r.nextHigh
    ensures Counter(r') == (Counter(r) + 1) % TWO_128
  {
    ValueBelow(EntityId(r.nextHigh, r.nextLow));
    if r.nextLow + 1 < TWO_64 {
      assert Counter(r') == Counter(r) + 1;
      ValueBelow(EntityId(r'.nextHigh, r'.nextLow));
    } else if r.nextHigh + 1 < TWO_64 {
      assert Counter(r') == (r.nextHigh + 1) * TWO_64;
      assert Counter(r') == Counter(r) + 1;
      ValueBelow(EntityId(r'.nextHigh, r'.nextLow));
    } else {
      assert Counter(r) == TWO_128 - 1;
      assert Counter(r') == 0;
    }
  }

  /**
   * Entity_destroy: forgets the entity; the counter is untouched, so
   * identifiers are never reused until the 128-bit counter wraps.
   */
  function Destroy(r: Registry, id: EntityId): (r': Registry)
    ensures Table.Get(r'.table, id) == None
    ensures forall other :: other != id ==> Table.Get(r'.table, other) == Table.Get(r.table, other)
    ensures Counter(r') == Counter(r)
  {
    r.(table := Table.Remove(r.table, id))
  }

  /** Entity_has_component: the entity exists and its mask shares a bit with the query. */
  function HasComponent(r: Registry, id: EntityId, t: ComponentBits): (b: bool)
    ensures Table.Get(r.table, id) == None ==> !b
    ensures t == COMPONENT_NONE ==> !b
    ensures b <==> id in r.table && r.table[id] * t != {}
  {
    if id in r.table then
      BitMask.SharesIffMeet(r.table[id], t);
      BitMask.Shares(r.table[id], t)
    else
      false
  }

  /**
   * Entity_add_component_type: every bit of `t` becomes set and every other
   * bit keeps its value; an unknown identifier is left alone.
   */
  function AddComponentType(r: Registry, id: EntityId, t: ComponentBits): (r': Registry)
    ensures Table.Get(r.table, id) == None ==> r' == r
    ensures id in r.table ==> id in r'.table && t <= r'.table[id]
    ensures id in r.table ==> r'.table[id] - t == r.table[id] - t
    ensures forall other :: other != id ==> Table.Get(r'.table, other) == Table.Get(r.table, other)
    ensures r'.table.Keys == r.table.Keys && r'.nextHigh == r.nextHigh && r'.nextLow == r.nextLow
  {
    if id in r.table then r.(table := r.table[id := BitMask.SetBits(r.table[id], t)]) else r
  }

  /**
   * Entity_remove_component_type: every bit of `t` becomes clear and every
   * other bit keeps its value; an unknown identifier is left alone.
   */
  function RemoveComponentType(r: Registry, id: EntityId, t: ComponentBits): (r': Registry)
    ensures Table.Get(r.table, id) == None ==> r' == r
    ensures id in r.table ==> id in r'.table && r'.table[id] * t == {}
    ensures id in r.table ==> r'.table[id] - t == r.table[id] - t
    ensures forall other :: other != id ==> Table.Get(r'.table, other) == Table.Get(r.table, other)
    ensures r'.table.Keys == r.table.Keys && r'.nextHigh == r.nextHigh && r'.nextLow == r.nextLow
  {
    if id in r.table then r.(table := r.table[id := BitMask.ClearBits(r.table[id], t)]) else r
  }

  /**
   * EntityId_cmp: lexicographic on (high, low), returning -1, 0 or 1. It is
   * the numeric order of the 128-bit values the identifiers denote.
   */
  function Cmp(a: EntityId, b: EntityId): (r: int)
    ensures r == -1 || r == 0 || r == 1
    ensures r == 0 <==> a == b
    ensures r < 0 <==> Value(a) < Value(b)
    ensures r > 0 <==> Value(a) > Value(b)
  {
    ValueLexicographic(a, b);
    ValueLexicographic(b, a);
    if a.high != b.high then (if a.high < b.high then -1 else 1)
    else if a.low != b.low then (if a.low < b.low then -1 else 1)
    else 0
  }

  lemma CmpAntisymmetric(a: EntityId, b: EntityId)
    ensures Cmp(a, b) == -Cmp(b, a)
  {
  }

  lemma CmpTransitive(a: EntityId, b: EntityId, c: EntityId)
    ensures Cmp(a, b) < 0 && Cmp(b, c) < 0 ==> Cmp(a, c) < 0
  {
  }

  /** A freshly created entity has no component of any type. */
  lemma CreatedHasNothing(r: Registry, t: ComponentBits)
    ensures !HasComponent(Create(r).registry, Create(r).id, t)
  {
    BitMask.EmptySharesNothing(t);
  }

  /** After adding a non-empty set of types, the entity has them. */
  lemma HasAfterAdd(r: Registry, id: EntityId, t: ComponentBits)
    requires id in r.table && t != COMPONENT_NONE
    ensures HasComponent(AddComponentType(r, id, t), id, t)
  {
    BitMask.SetBitsShares(r.table[id], t);
  }

  /** After removing a set of types, the entity has none of them. */
  lemma HasAfterRemove(r: Registry, id: EntityId, t: ComponentBits)
    ensures !HasComponent(RemoveComponentType(r, id, t), id, t)
  {
    if id in r.table {
      BitMask.ClearBitsSharesNothing(r.table[id], t);
    }
  }

  /** Adding types does not change the answer to a query disjoint from them. */
  lemma AddKeepsDisjointQuery(r: Registry, id: EntityId, t: ComponentBits, q: ComponentBits)
    requires BitMask.Disjoint(q, t)
    ensures HasComponent(AddComponentType(r, id, t), id, q) == HasComponent(r, id, q)
  {
    if id in r.table {
      BitMask.SetBitsDisjoint(r.table[id], t, q);
    }
  }

  /** Removing types does not change the answer to a query disjoint from them. */
  lemma RemoveKeepsDisjointQuery(r: Registry, id: EntityId, t: ComponentBits, q: ComponentBits)
    requires BitMask.Disjoint(q, t)
    ensures HasComponent(RemoveComponentType(r, id, t), id, q) == HasComponent(r, id, q)
  {
    if id in r.table {
      BitMask.ClearBitsDisjoint(r.table[id], t, q);
    }
  }

  /** A destroyed (or never created) identifier has no components, and adding or removing types on it does nothing. */
  lemma DestroyedIsInert(r: Registry, id: EntityId, t: ComponentBits)
    ensures !HasComponent(Destroy(r, id), id, t)
    ensures AddComponentType(Destroy(r, id), id, t) == Destroy(r, id)
    ensures RemoveComponentType(Destroy(r, id), id, t) == Destroy(r, id)
  {
  }

  datatype CreatedMany = CreatedMany(ids: seq<EntityId>, registry: Registry)

  /** `n` successive calls of Entity_create. */
  function CreateMany(r: Registry, n: nat): (c: CreatedMany)
    ensures |c.ids| == n
    decreases n
  {
    if n == 0 then CreatedMany([], r)
    else
      var first := Create(r);
      var rest := CreateMany(first.registry, n - 1);
      CreatedMany([first.id] + rest.ids, rest.registry)
  }

  /** While the 128-bit counter does not wrap, the i-th created identifier denotes the starting counter plus i. */
  lemma {:induction false} CreateManyValues(r: Registry, n: nat)
    requires Counter(r) + n <= TWO_128
    ensures forall i :: 0 <= i < n ==> Value(CreateMany(r, n).ids[i]) == Counter(r) + i
    ensures Counter(CreateMany(r, n).registry) == (Counter(r) + n) % TWO_128
    decreases n
  {
    if n > 0 {
      var first := Create(r);
      if Counter(r) + 1 < TWO_128 {
        assert Counter(first.registry) == Counter(r) + 1;
      } else {
        assert n == 1 && Counter(first.registry) == 0;
      }
      CreateManyValues(first.registry, n - 1);
      var ids := CreateMany(r, n).ids;
      forall i | 0 <= i < n
        ensures Value(ids[i]) == Counter(r) + i
      {
        if i > 0 {
          assert ids[i] == CreateMany(first.registry, n - 1).ids[i - 1];
        }
      }
    }
  }

  /**
   * While the counter does not wrap, identifiers come out strictly increasing
   * under EntityId_cmp, hence pairwise distinct.
   */
  lemma CreatedIdsIncrease(r: Registry, n: nat)
    requires Counter(r) + n <= TWO_128
    ensures forall i, j :: 0 <= i < j < n ==> Cmp(CreateMany(r, n).ids[i], CreateMany(r, n).ids[j]) == -1
    ensures forall i, j :: 0 <= i < j < n ==> CreateMany(r, n).ids[i] != CreateMany(r, n).ids[j]
  {
    CreateManyValues(r, n);
  }

  /** Two consecutive creations from a registry whose counter is not at its maximum. */
  lemma CreateTwiceIncreasing(r: Registry)
    requires r.nextHigh < TWO_64 - 1 || r.nextLow < TWO_64 - 1
    ensures Cmp(Create(r).id, Create(Create(r).registry).id) == -1
  {
    ValueBelow(EntityId(r.nextHigh, r.nextLow));
    if r.nextHigh < TWO_64 - 1 {
      assert r.nextHigh * TWO_64 <= (TWO_64 - 2) * TWO_64;
    }
    assert Counter(r) + 1 < TWO_128;
  }
}
