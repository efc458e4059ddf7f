# gramarye core in Dafny

A model of the sequential core of gramarye, a tile-map game prototype written
in C. The modelled parts are:

- the input system, which turns each frame's key snapshot into commands on a
  64-slot drop-oldest ring buffer that the game pops without blocking;
- the entity registry, with its 128-bit identifier counter, per-entity
  component bitmasks and identifier comparator;
- the position, sprite and health component stores and the tile map, each a
  table from key to record;
- the coordinate key helpers (comparator and 32-bit hash);
- the per-frame rules: grid movement, tile placement at a resolved click, the
  initial map pattern and player, and the frame's command drain with deferred
  placements.

The code is modelled as immutable datatypes and pure functions. The methods
with loops are the tile-map fill and the frame's drain and placement loops,
which follow the C loops, and `InputQueue.DrainAll`, a pop-until-empty loop
over the queue alone that states what a consumer of the queue sees.

Files and modules:

- `wrappers.dfy` (`Wrappers`): `Option`. It stands in for the C code's
  "null pointer or record" results.
- `machine_int.dfy` (`MachineInt`):
  - unsigned 16/32/64-bit ranges;
  - wrap-around as reduction modulo 2^n;
  - C's truncating division (`CDiv`).
- `coords.dfy` (`Coords`): `TileCoord`, `tilecoord_cmp` and `tilecoord_hash`.
- `table.dfy` (`Table`): the unseen hash table as a Dafny `map`, with get, put
  (overwrite) and remove.
- `bitmask.dfy` (`BitMask`): a 32-bit component mask as the set of its set bits.
  In this representation `|` is union, `& ~` is difference and `& != 0` is
  "shares a bit".
- `entities.dfy` (`Entities`): the entity registry.
- `positions.dfy`, `sprites.dfy`, `healths.dfy`, `tilemap.dfy`: the component
  stores and the tile map.
- `commands.dfy` (`Commands`): the `InputCommand` variants.
- `input_queue.dfy` (`InputQueue`):
  - The ring buffer is a 64-slot sequence with head and tail indices.
  - `Contents` is its abstract FIFO content.
  - `Keep(s, 63)` (the last 63 elements) is the reference for drop-oldest.
- `input_system.dfy` (`Input`): snapshot polling, translation into commands,
  sequence numbering, and the pop.
- `game_state.dfy` (`GameState`): the `GameState` record, the camera and the
  aspect-fit records.
- `movement.dfy`, `tile_edit.dfy`, `game.dfy`: the per-frame rules, game
  creation and the frame.

Parameters standing for what the model does not compute:

- The key state of a frame is a `KeyState` value. It replaces the rendering
  library's `IsKeyPressed`, `GetMouseWheelMove` and similar calls.
- The camera work is a `CameraOps` record of functions:
  - zoom;
  - follow the player;
  - compute the aspect fit, which reads the window size;
  - clamp;
  - resolve a mouse position to a tile, as a partial function.
- The atlas and the initial camera are passed to `Game.Create`.
- The queue's uninitialised slots are passed to `InputQueue.Init`.

Floats (wheel delta, mouse position, health, camera fields) are `real`s. They
are only copied and compared with zero.

## Model

| member | source | states |
|---|---|---|
| `MachineInt.CDiv` | src/systems/game_system.c:60-61 | C `int` division truncates toward zero: the remainder `a - q·b` has the sign of the numerator (or is 0) and is smaller than the divisor in magnitude, for either sign of the divisor |
| `Coords.Cmp` | include/components/coord.h:11-14 | the comparator only returns 0 or 1, and returns 0 exactly when both coordinates are equal |
| `Coords.CmpSymmetricReflexive` | include/components/coord.h:13 | the comparator is symmetric and compares a key equal to itself |
| `Coords.Hash` | include/components/coord.h:16-20 | hash(0,0) = 0; with one coordinate zero the hash is the other coordinate's wrapped product; equal products cancel to 0 |
| `Coords.Xor` | include/components/coord.h:19 | the `^` combining the two parts: a zero part leaves the other unchanged and equal parts cancel to 0 (the commutativity clause is an algebraic fact used by the hash lemmas) |
| `Coords.CmpZeroImpliesEqualHash` | include/components/coord.h:11-20 | keys the comparator calls equal hash equally, as the hash table requires |
| `Table.Get` | tests/test_table_operations.c:97-136 | a lookup finds a value exactly when the key is present, and then finds the stored value |
| `Table.Put` | tests/test_table_operations.c:146-181 | after a put the key maps to the new value, every other key is unchanged, and the key set grows by exactly that key |
| `Positions.Get` | src/components/position.c:22-24 | the lookup finds a position exactly when the entity has one in the store, and then finds the stored record |
| `Sprites.Get` | src/components/sprite.c:22-24 | the lookup finds a sprite exactly when the entity has one in the store, and then finds the stored record |
| `Healths.Get` | src/components/health.c:22-24 | the lookup finds a bar exactly when the entity has one in the store, and then finds the stored record |
| `Tilemap.GetTile` | src/components/tilemap.c:23-26 | the lookup finds a tile exactly when one is stored under the coordinate value (x, y), and then finds that tile |
| `Table.Remove` | src/components/position.c:34-36 | after a remove the key is absent, every other key is unchanged, and removing an absent key changes nothing |
| `Table.PutPut` | tests/test_table_operations.c:165-181 | a second put at the same key replaces the first |
| `Table.PutCommutes` | src/systems/game_system.c:35-48 | a property of the model's table: puts at distinct keys commute, so the map the fill loop builds does not depend on the order it visits the cells |
| `BitMask.SetBits` | src/entity.c:50 | `bits \| type` has exactly the bits of either operand |
| `BitMask.ClearBits` | src/entity.c:57 | `bits & ~type` has exactly the bits of `bits` not in `type` |
| `BitMask.SharesIffMeet` | src/entity.c:44 | `(bits & type) != 0` holds exactly when the two bit sets intersect |
| `BitMask.SetBitsShares` | src/entity.c:44-50 | after or-ing in a non-zero type, the mask shares a bit with it |
| `BitMask.ClearBitsSharesNothing` | src/entity.c:44-57 | after clearing a type, the mask shares no bit with it |
| `BitMask.SetBitsDisjoint` | src/entity.c:44-50 | or-ing in bits does not change the answer for a query disjoint from them |
| `BitMask.ClearBitsDisjoint` | src/entity.c:44-57 | clearing bits does not change the answer for a query disjoint from them |
| `Entities.ValueLexicographic` | src/entity.c:61-67 | comparing (high, low) lexicographically is comparing the 128-bit numbers high·2^64 + low |
| `Entities.NewRegistry` | src/entity.c:5-12 | a new registry has no entities and its counter is high = 1, low = 0, i.e. 2^64 |
| `Entities.Create` | src/entity.c:14-35 | the new id is the current counter, which then steps by one modulo 2^128 (low wraps and carries into high); the entity is stored with no component bits and no other entity changes |
| `Entities.CounterStep` | src/entity.c:20-23 | incrementing low modulo 2^64 and bumping high when low wraps to 0 is a 128-bit increment |
| `Entities.Destroy` | src/entity.c:37-39 | the entity is gone, the others are unchanged, and the counter is untouched |
| `Entities.HasComponent` | src/entity.c:41-45 | true exactly when the entity exists and its mask has a bit in common with the query; so an unknown id, or an empty query, never has a component |
| `Entities.AddComponentType` | src/entity.c:47-52 | an unknown id leaves the registry unchanged; otherwise the entity gains all the given bits and keeps every other bit, and no other entity changes |
| `Entities.RemoveComponentType` | src/entity.c:54-59 | an unknown id leaves the registry unchanged; otherwise the entity loses exactly the given bits and keeps every other bit |
| `Entities.Cmp` | src/entity.c:61-67 | returns -1, 0 or 1: 0 iff the ids are equal, negative iff the first id's 128-bit value is smaller, positive iff it is larger |
| `Entities.CmpAntisymmetric` | src/entity.c:61-67 | swapping the arguments negates the result |
| `Entities.CmpTransitive` | src/entity.c:61-67 | the order the comparator defines is transitive |
| `Entities.CreatedHasNothing` | src/entity.c:26-45 | a freshly created entity has no component of any type |
| `Entities.HasAfterAdd` | src/entity.c:41-52 | after adding a non-empty type to an existing entity, it has that type |
| `Entities.HasAfterRemove` | src/entity.c:41-59 | after removing a type, the entity does not have it |
| `Entities.AddKeepsDisjointQuery` | src/entity.c:41-52 | adding types does not change `has` for a query sharing no bit with them |
| `Entities.RemoveKeepsDisjointQuery` | src/entity.c:41-59 | removing types does not change `has` for a query sharing no bit with them |
| `Entities.DestroyedIsInert` | src/entity.c:37-59 | a destroyed id has no components, and add and remove on it are no-ops |
| `Entities.CreateManyValues` | src/entity.c:14-23 | while the counter does not wrap, the i-th of n created ids is the starting counter plus i, and the counter advances by n |
| `Entities.CreatedIdsIncrease` | src/entity.c:14-67 | while the counter does not wrap, successively created ids are strictly increasing under the comparator and pairwise distinct |
| `Entities.CreateTwiceIncreasing` | src/entity.c:14-67 | unless the counter is at its maximum, the next id compares greater than the previous one |
| `Positions.New` | src/components/position.c:4-9 | a new store holds no position |
| `Positions.Add` | src/components/position.c:11-20 | after an add the entity's position is (x, y) and other entities are unchanged |
| `Positions.Set` | src/components/position.c:26-32 | an absent entity is not created and nothing changes; a present one gets both coordinates; others are unchanged |
| `Positions.Remove` | src/components/position.c:34-36 | after a remove the entity has no position and the others are unchanged |
| `Positions.AddOverwrites` | src/components/position.c:19 | a second add for the same entity replaces the first record |
| `Positions.SetPresentIsAdd` | src/components/position.c:26-32 | on a present entity, set is the same as adding the new position |
| `Sprites.New` | src/components/sprite.c:4-9 | a new store holds no sprite |
| `Sprites.Add` | src/components/sprite.c:11-20 | after an add the entity's sprite is (atlas, tile id) and other entities are unchanged |
| `Sprites.SetTile` | src/components/sprite.c:26-31 | on a present entity only the tile id changes and the atlas is kept; on an absent one nothing changes |
| `Sprites.Remove` | src/components/sprite.c:33-35 | after a remove the entity has no sprite and the others are unchanged |
| `Sprites.AddOverwrites` | src/components/sprite.c:19 | re-adding a sprite overwrites the earlier record |
| `Sprites.SetTileAfterAdd` | src/components/sprite.c:11-31 | setting the tile after an add equals adding with that tile |
| `Healths.New` | src/components/health.c:4-9 | a new store holds no health |
| `Healths.Add` | src/components/health.c:11-20 | the stored bar has value = maxValue = the given maximum; other entities are unchanged |
| `Healths.Remove` | src/components/health.c:26-28 | after a remove the entity has no health and the others are unchanged |
| `Healths.AddOverwrites` | src/components/health.c:19 | re-adding health for the same entity overwrites the earlier record |
| `Tilemap.New` | src/components/tilemap.c:4-11 | the map records the given width and height and has no tile anywhere |
| `Tilemap.SetTile` | src/components/tilemap.c:13-21 | afterwards the coordinate holds a tile with the id; there is no bounds check; the dimensions and every other coordinate are unchanged |
| `Tilemap.SetTileOverwrites` | src/components/tilemap.c:20 | a second set at the same coordinate overwrites the first |
| `Tilemap.LookupByValue` | src/components/tilemap.c:23-26 | lookup is by coordinate value: two keys the comparator calls equal find the same tile |
| `Tilemap.SetThenLookupScenario` | tests/test_table_operations.c:78-143 | tiles set at (58,91), (4,6) and (0,0) are found through fresh keys, and (99,99) has none |
| `InputQueue.Init` | src/systems/input_system.c:30-36 | head = tail = 0: the queue is well formed and empty |
| `InputQueue.FullIffMaxLen` | src/systems/input_system.c:44-45 | the full test next_tail == head holds exactly when 63 commands are queued, so one slot always stays free |
| `InputQueue.Push` | src/systems/input_system.c:38-54 | head and tail stay in [0, 64); on a full queue exactly the oldest command is dropped and the length stays 63; otherwise the command is appended and nothing is dropped |
| `InputQueue.PushKeep` | src/systems/input_system.c:38-54 | one push leaves the last 63 of the old contents followed by the command |
| `InputQueue.PushAllContents` | src/systems/input_system.c:38-54 | after any run of pushes the queue holds the last 63 of the old contents followed by the pushed commands, in push order |
| `InputQueue.PushAllNoDrop` | src/systems/input_system.c:44-51 | while everything fits in 63 slots, pushes drop nothing |
| `InputQueue.PushNotFull` | src/systems/input_system.c:44-51 | a push onto a non-full queue grows it by exactly one and keeps every earlier command in place |
| `InputQueue.PopTry` | src/systems/input_system.c:56-70 | succeeds iff the queue is non-empty; then it hands out the oldest command and the rest stay in order; otherwise the queue and `*out` are unchanged |
| `InputQueue.DrainAll` | src/systems/input_system.c:56-70 | popping until failure hands out exactly the queued commands in FIFO order and leaves the queue empty |
| `Input.PollSnapshot` | src/systems/input_system.c:87-117 | each axis moves by at most one step, up (W/Up) beats down (S/Down) and left (A/Left) beats right (D/Right); the mouse position is read only on a left press |
| `Input.CommandsFor` | src/systems/input_system.c:172-194 | the commands appear in the fixed order ToggleDebug, Zoom, Move, PlaceTile; each is present iff its trigger is set (toggle flag, wheel ≠ 0, move ≠ (0,0), left press); nothing else is produced |
| `Input.Create` | src/systems/input_system.c:197-218 | the system is running with a zeroed snapshot, last sequence 0 and an empty queue |
| `Input.Destroy` | src/systems/input_system.c:220-230 | only the running flag changes, to false |
| `Input.ProcessSnapshot` | src/systems/input_system.c:166-195 | a snapshot with the last processed sequence number changes nothing; any other is remembered and its commands are pushed with drop-oldest |
| `Input.PollAndPublish` | src/systems/input_system.c:232-246 | the published snapshot is the polled one, numbered the previous number plus one modulo 2^32 |
| `Input.PublishAlwaysTranslated` | src/systems/input_system.c:232-246 | starting from creation, every published snapshot gets a fresh number, so its commands are always enqueued and the numbers stay in step |
| `Input.Pop` | src/systems/input_system.c:248-251 | a non-blocking pop of the oldest command; an empty queue gives false and changes nothing |
| `Movement.IsTileWalkable` | src/systems/movement_system.c:7-10 | every tile id is walkable |
| `Movement.ApplyMove` | src/systems/movement_system.c:12-25 | no position: no-op; target outside [0, mapSize)² or without a tile: no-op; otherwise the player moves to (x+dx, y+dy); only the player's position can change |
| `Movement.MoveKeepsPlayerInBounds` | src/systems/movement_system.c:19-23 | a player inside the map stays inside after a move |
| `Movement.MovesKeepPlayerInBounds` | src/systems/movement_system.c:19-23 | the player stays inside through any sequence of moves, and moves touch only positions |
| `TileEdit.PlaceTileAt` | src/systems/tile_edit_system.c:5-24 | a rejected click or an out-of-map tile changes nothing; otherwise the last click is recorded, the tile becomes id 4, its chunk is marked dirty, and no other tile or state changes |
| `TileEdit.PlaceTileAtMouse` | src/systems/tile_edit_system.c:5-14 | placement never changes the camera, positions or debug flag, and a click that does not resolve is a no-op |
| `TileEdit.PlaceTwice` | src/systems/tile_edit_system.c:22 | placing at the same tile twice leaves the same tilemap as placing once |
| `Game.PatternTile` | src/systems/game_system.c:37-46 | the switch gives column x the id (x mod 8) / 2, always in 0..3 |
| `Game.InitTilemap` | src/systems/game_system.c:32-49 | the map is mapSize × mapSize, every cell (x, y) inside has tile (x mod 8) / 2 whatever y is, and no cell outside is set |
| `Game.PlayerComponents` | src/systems/game_system.c:58 | the player's mask is the position, health and sprite bits |
| `Game.InitEntities` | src/systems/game_system.c:51-65 | the player is the first id (high 1, low 0) with position, health and sprite bits, at (mapSize/2, mapSize/2) with health 100/100 and sprite tile 4 |
| `Game.FirstId` | src/entity.c:9-17 | an id whose 128-bit value is 2^64, the counter a new registry starts from, is (high 1, low 0) |
| `Game.InitialPlayerInBounds` | src/systems/game_system.c:60-61 | on a non-empty map the starting cell mapSize/2 is inside the map |
| `Game.Create` | src/systems/game_system.c:79-97 | debug and last-click flags start false; the camera is the given one; the map is mapSize × mapSize with the column pattern inside and no tile outside; the registry holds only the player (1, 0) with position, health and sprite bits and its counter is 2^64 + 1; each store holds exactly the player's record; the input system is running and empty, with the zeroed snapshot and last sequence number 0, so its numbers start in step |
| `Game.Apply` | src/systems/game_system.c:120-135 | ToggleDebug flips the flag and changes nothing else; Zoom replaces the camera by the zoom of the camera alone; Move is the movement rule applied to the state; PlaceTile leaves the state unchanged and is deferred while fewer than 64 are deferred; the default case changes nothing; no command changes a tile |
| `Game.DrainDebugParity` | src/systems/game_system.c:121-122 | after draining, the debug flag is flipped iff there was an odd number of toggles, so an even number restores it |
| `Game.DrainDeferred` | src/systems/game_system.c:131 | the deferred buffer holds the first 64 placements in queue order and later ones are dropped |
| `Game.DrainKeepsPlayerInBounds` | src/systems/game_system.c:119-136 | draining commands keeps the player on the map and changes no tile |
| `Game.DrainMovesInOrder` | src/systems/game_system.c:119-136 | for any mix of commands, the positions after the drain are those the queue's Move commands alone produce, applied in queue order; other commands do not affect where the player goes |
| `Game.DrainZoomsInOrder` | src/systems/game_system.c:119-136 | for any mix of commands, the camera after the drain is the one the queue's Zoom commands alone produce from the starting camera, applied in queue order |
| `Game.NoPlacementDropped` | src/systems/game_system.c:131 | a frame drains at most 63 commands, so taking the first 64 placements keeps all of them: the `deferredCount < 64` guard never rejects one |
| `Game.Settle` | src/systems/game_system.c:138-141 | the camera update changes only the camera: it is the followed camera clamped with the fit, and the fit is computed after following the player |
| `Game.PlaceAllKeeps` | src/systems/game_system.c:143-146 | deferred placements change only the tilemap, the last-click fields and the dirty log |
| `Game.Frame` | src/systems/game_system.c:107-154 | the frame publishes input, pops until the queue is empty, settles the camera, then applies the first 64 placements in queue order; debug flips iff an odd number of toggles was published; the player stays on the map |

## Left out

- Debug logging (`TraceLog` in src/components/tilemap.c:14 and src/systems/tile_edit_system.c:6, 12 and 17) has no effect on the state.
- Null-pointer guards (`if (!sys) return;`, `if (!state) return;`, `if (!g) return;`): every value here exists.
- Floating-point camera maths: zoom, follow, aspect fit, clamp and click-to-tile conversion. They are abstract functions in `Game.CameraOps`. The initial camera (`init_camera`) is a parameter of `Game.Create`.
- Atlas loading (`init_atlas`), rendering, UI, the tilemap renderer, `GameSystem_destroy` and the frame's render step 5. These are side effects in foreign libraries; the atlas is an opaque `Sprites.AtlasRef`.
- Chunk rendering: `ChunkRenderSystem_mark_chunk_dirty` has no implementation available. Marking is recorded as a log of tile coordinates in `GameState.State.dirtyTiles`.
- The commented-out input thread and semaphores in src/systems/input_system.c, and the `dt` argument of the frame (unused).
- Arena allocation and memory ownership. Each store update builds a fresh map rather than writing into a record in place.
- The return value of `Table_put` (the previous value). No modelled caller uses it.
- The tile flag byte: `Tilemap_set_tile` never initialises it.
- The uninitialised `lastClickTileX/Y` of a fresh game are 0 in the model.
- The slots of a fresh queue are uninitialised in C. They are a parameter of `InputQueue.Init` and never observed.
- `process_snapshot` keeps its last sequence number in a function-local `static`, shared by all input systems. The model holds it in each `Input.InputSystem`, which is the same for the one system the game creates.
- Signed `int` overflow in `p->x + dx` and in the hash's multiplications is undefined behaviour in C:
  - The model adds with unbounded integers.
  - The hash products are reduced modulo 2^32, which is what the targeted compilers do.
  - Positions reached by moves are inside the map, so `x + dx` cannot overflow there.
- The identifiers' own hash (`EntityId_hash` / `hash_uuid`) is not part of this model. The stores are Dafny maps keyed by identifier value.
- Inconsistency in the C code: src/systems/movement_system.c reads the player position through an ECS API (`state->ecs`, `positionTypeId`), while src/systems/game_system.c sets up the position registry.
  - `Movement.ApplyMove` reads and writes the position store of the game state.
- The tile map's key comparator and hash (`IntCoord_cmp`, `IntCoord_hash`) are not part of this model. `Tilemap.LookupByValue` is stated with the `TileCoord` comparator of coord.h; tests/test_int_coord_hash.c:55-80 shows `IntCoord_cmp` likewise returns 0 for equal coordinates and non-zero for different ones.
- `Game.Frame` starts the drain with a `NoCommand` in the `cmd` cell. The C variable is uninitialised but is only read after a successful pop.

## Supporting lemmas

These are facts about the model's own arithmetic rather than promises of the
C code:

- `Coords.HashPeriodic`: the hash sees each coordinate only modulo 2^32.
  No C `int` reaches such a shift; the lemma confirms that the wrapped
  products are reduced as 32-bit values.
- `Coords.HashOfMinusOne`: a worked value of the hash at x = -1 and at
  y = -1, through the two's-complement products.
- `Game.MovesIgnoreOtherFields` and `Game.PlacementsBound`: helpers for
  `Game.DrainMovesInOrder` and `Game.NoPlacementDropped`.
