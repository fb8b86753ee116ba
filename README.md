# Invaders simulation core, modelled in Dafny

This project models the deterministic core of a small networked "space
invaders" game. The game is written in Rust, in `gm-gdnative-lib/src/lib.rs`.
The core has these parts:

- **Index allocator.** A free-list allocator (`IndexTable`) hands out row
  indices, with 0 as the end-of-list marker.
- **Random generator.** An MT19937 generator (`MersenneTwister`) has
  `init_genrand` seeding, a rolling `p/q/r` twist and tempering.
- **Input decoding.** Bit fields (`BitMask`) decode the packed input word of
  each player slot.
- **Component store.** `Cp` is a struct-of-arrays store. Each row has a
  generation tag, a component mask (`Cf`) and component records. The store
  comes with a filtered forward cursor (`CpIterMut`), prefab stamping
  (`CpPrefab::set`) and a prefab table (`Data`).
- **Broad phase.** Boxes are built from position ± size, sorted by lower x
  and tested pairwise. Each overlapping pair queues a contact event.
- **The `Game` tick.** One tick runs these stages in order:
  1. input;
  2. animators;
  3. players;
  4. enemies;
  5. movement;
  6. the attract/playing state machine;
  7. contacts;
  8. resolution of the event queue. The queue keeps growing while it is
     drained: contacts append explosions, and creations draw from the
     generator.

All arithmetic is taken as a release build computes it:

- i32, i8, u16 and u8 additions, negations and multiplications wrap (two's
  complement).
- A `try_from(..).unwrap()` or an out-of-range index that would panic
  becomes a precondition.

The code builds a contact's key from the higher kind first
(`gm-gdnative-lib/src/lib.rs:1443-1449`). Bullet is kind 3 and Enemy is kind 2,
so a bullet-versus-enemy key is `0x0302` and the bullet is the first entity. The model follows the code (`Collision.Contact`,
`Systems.BulletKillsEnemy`).

The stateful parts are classes:

- `IndexTable`: its list is a `seq` field.
- `MersenneTwister`: its state is an `array<bv32>`.
- `Cp`: its columns are `seq` fields.
- `CpIter`: the cursor.
- `Game`.

Each pass over the store is a loop. It is proved equal to a function over
the store's rows, and the properties of that function are proved as lemmas.
The modules are:

- `Prelude`: widths, wrap-around and Option.
- `IndexTables`.
- `Mersenne`.
- `Vectors`.
- `BitMasks`.
- `Cf`, `ObjType`, `Components` and `GameData`: flags, kinds, records and
  prefabs.
- `Store`: `Cp` and `CpIter`.
- `Collision`: boxes, the sort and contact generation.
- `Systems`: per-row rules as functions.
- `Passes`: the loops over the store.
- `Simulation`: the `Game` class.

## Model

| member | source | states |
|---|---|---|
| Prelude.WrapI32 | gm-gdnative-lib/src/lib.rs:1494 | a product or sum that fits in i32 is unchanged by the 32-bit wrap a release build applies |
| Prelude.WrapI32Add | gm-gdnative-lib/src/lib.rs:1460 | wrapping an intermediate sum does not change the wrapped final result, so chained wrapping adds compose |
| IndexTables.IndexTable.constructor | gm-gdnative-lib/src/lib.rs:34-39 | a new table has head END_OF_LIST, the list `[END_OF_LIST]`, a sound (empty) free chain and nothing allocated |
| IndexTables.IndexTable.Reset | gm-gdnative-lib/src/lib.rs:41-45 | reset returns the table to the empty state of a new one, with nothing allocated |
| IndexTables.IndexTable.Allocate | gm-gdnative-lib/src/lib.rs:47-59 | never returns 0. It returns the old head and unlinks it when the free list is non-empty. Otherwise it returns the old length and the list grows by one. On a sound table the result was not allocated before and is allocated afterwards |
| IndexTables.IndexTable.Free | gm-gdnative-lib/src/lib.rs:61-68 | an index whose entry is END_OF_LIST is pushed on the free list; any other index leaves the table unchanged. Freeing an allocated index of a sound table keeps it sound and removes exactly that index from the allocated set |
| IndexTables.PopKeepsChain | gm-gdnative-lib/src/lib.rs:53-55 | popping the head of a sound free chain leaves a sound chain and allocates exactly the old head |
| IndexTables.GrowKeepsChain | gm-gdnative-lib/src/lib.rs:49-51 | growing the list when the free list is empty allocates exactly the new last index |
| IndexTables.PushKeepsChain | gm-gdnative-lib/src/lib.rs:64-66 | pushing an allocated index keeps the chain acyclic, duplicate-free and sound, and un-allocates exactly that index |
| IndexTables.DoubleFreeOfTail | gm-gdnative-lib/src/lib.rs:61-68 | freeing the only free index a second time links it to itself, so the next two allocations both return index 1 |
| Mersenne.ImulIsWrappingProduct | gm-gdnative-lib/src/lib.rs:117-125 | the hand-written 16-bit-limb multiply equals `(a * b) mod 2^32` for all u32 inputs. Every intermediate is bound to a u32 local, so the proof shows none of them overflows |
| Mersenne.SeedPrefix | gm-gdnative-lib/src/lib.rs:127-133 | the seeded state starts with the seed, and each word is `1812433253 * (prev ^ (prev >> 30)) + i` mod 2^32 |
| Mersenne.SeedPrefixDeterminedByFirst | gm-gdnative-lib/src/lib.rs:127-133 | any state that obeys the seeding recurrence is the seeding of its first word |
| Mersenne.TemperBijective | gm-gdnative-lib/src/lib.rs:157-160 | tempering is a bijection on 32-bit words: untempering inverts it on both sides |
| Mersenne.Step11Inverse | gm-gdnative-lib/src/lib.rs:157 | the `y ^= y >> 11` step is inverted by `y ^ y>>11 ^ y>>22` |
| Mersenne.Step7Inverse | gm-gdnative-lib/src/lib.rs:158 | the masked `y ^= (y << 7) & 0x9d2c5680` step has an explicit inverse |
| Mersenne.Step15Involution | gm-gdnative-lib/src/lib.rs:159 | the masked shift-15 step is its own inverse |
| Mersenne.Step18Involution | gm-gdnative-lib/src/lib.rs:160 | the shift-18 step is its own inverse |
| Mersenne.OutputRecoversTwistedWord | gm-gdnative-lib/src/lib.rs:144-162 | untempering a draw gives back the word the twist wrote into `x[p]` |
| Mersenne.StepsTwice | gm-gdnative-lib/src/lib.rs:139-163 | two more draws are two more steps of the state |
| Mersenne.Ahead | gm-gdnative-lib/src/lib.rs:148-155 | a cursor moved k steps stays in [0, 624) and is congruent to i + k modulo 624 |
| Mersenne.TopBitsBound | gm-gdnative-lib/src/lib.rs:165-167 | taking the top `bits` bits of a word gives a value below 2^bits |
| Mersenne.MersenneTwister.constructor | gm-gdnative-lib/src/lib.rs:96-103 | a new generator has all cursors at 0 and an all-zero state |
| Mersenne.MersenneTwister.SetSeed | gm-gdnative-lib/src/lib.rs:127-137 | the state is exactly the 624-word seeding of `s`. Afterwards p = 0, q = 1 and r = 397, so q = p+1 and r = p+397 (mod 624) |
| Mersenne.MersenneTwister.NextU32 | gm-gdnative-lib/src/lib.rs:139-163 | returns the tempered twist of `x[p], x[q], x[r]` and changes only `x[p]`. Each cursor advances by one modulo 624, and a seeded generator stays seeded |
| Mersenne.MersenneTwister.NextBits | gm-gdnative-lib/src/lib.rs:165-167 | returns the draw shifted right by `(32 - bits) mod 32`, as the release build masks the shift: the top `bits` bits for 1..32 and the whole word for 0. The generator advances by exactly one draw |
| Mersenne.MersenneTwister.NextFromZero | gm-gdnative-lib/src/lib.rs:169-172 | returns one draw modulo max+1, which lies in [0, max]. The generator advances by exactly one draw |
| Mersenne.MersenneTwister.NextRange | gm-gdnative-lib/src/lib.rs:174-177 | returns one draw modulo the i32-wrapped span max+1-min, plus min (wrapping), for every span that is positive after wrapping. When the span does not wrap, the result lies in [min, max]. The generator advances by exactly one draw |
| Mersenne.MersenneTwister.CopyFrom | gm-gdnative-lib/src/lib.rs:1299 | copying a generator copies its whole state and its three cursors |
| Vectors.Add | gm-gdnative-lib/src/lib.rs:202-208 | componentwise sum, exact whenever it fits in i32 |
| Vectors.Sub | gm-gdnative-lib/src/lib.rs:210-216 | componentwise difference, exact whenever it fits in i32 |
| Vectors.Neg | gm-gdnative-lib/src/lib.rs:194-200 | each component is negated exactly, except an i32::MIN component, which wraps to itself; the other component is unaffected |
| Vectors.SubThenAdd | gm-gdnative-lib/src/lib.rs:202-216 | `(a - b) + b == a` under wrapping, overflow or not |
| Vectors.AddThenSub | gm-gdnative-lib/src/lib.rs:202-216 | `(a + b) - b == a` under wrapping, overflow or not |
| Vectors.SubIsAddNeg | gm-gdnative-lib/src/lib.rs:194-216 | `a - b == a + (-b)` under wrapping |
| BitMasks.From | gm-gdnative-lib/src/lib.rs:399-413 | the loop sets exactly bits start..end-1, with end clamped to 63, and the shift is `start` |
| BitMasks.FieldMaskStep | gm-gdnative-lib/src/lib.rs:387-390 | adding bit i to the mask of start..i gives the mask of start..i+1 |
| BitMasks.GameMaskValues | gm-gdnative-lib/src/lib.rs:1145-1149 | the game's five masks are bits 16, 17 and 18, the low 16 bits and bit 55 |
| BitMasks.FlagDecode | gm-gdnative-lib/src/lib.rs:415-417 | a one-bit field decodes to 1 when its bit is set and to 0 otherwise |
| BitMasks.InputFlags | gm-gdnative-lib/src/lib.rs:1337-1345 | left, right and primary fire decode from bits 16, 17 and 18 of the raw word |
| BitMasks.GameFieldsRoundTrip | gm-gdnative-lib/src/lib.rs:415-421 | the X field decodes below 2^16. Every game field gives back any value that fits, after encode then decode |
| GameData.Prefab | gm-gdnative-lib/src/lib.rs:989-1118 | every prefab carries the Component flag. Non-null kinds are active bodies tagged with their own kind. Exactly players have the Player flag, exactly enemies the Enemy flag, and every kind except null and the shot cleaner an Animator, whose frame is not null |
| Store.Resized | gm-gdnative-lib/src/lib.rs:835-843 | a resize keeps the common prefix and pads with the default |
| Store.StampCaptured | gm-gdnative-lib/src/lib.rs:752-772 | reading a live row into a record with `get` and writing it back with `set` leaves the row unchanged |
| Store.StampIdempotent | gm-gdnative-lib/src/lib.rs:762-772 | stamping the same prefab twice is stamping it once |
| Store.StampKeepsTag | gm-gdnative-lib/src/lib.rs:762-772 | stamping keeps a mask empty or Component-tagged; a Component prefab replaces the mask with its own |
| Store.VisitedRowIsLive | gm-gdnative-lib/src/lib.rs:706-716 | on a Component-tagged store, a row that a non-empty filter matches carries the Component flag, so it reads its own columns and not the scratch row |
| Store.Zip | gm-gdnative-lib/src/lib.rs:779-791 | row i of the store is the record of the i-th entry of each column |
| Store.UptoEnds | gm-gdnative-lib/src/lib.rs:1366-1372 | a pass that has visited nothing leaves the old rows, and a pass that has visited everything gives the new rows |
| Store.Cp.constructor | gm-gdnative-lib/src/lib.rs:797-812 | a new store is empty with a fresh, empty, sound allocator and default scratch rows |
| Store.Cp.Clear | gm-gdnative-lib/src/lib.rs:873-882 | clear empties every column and resets the allocator; the scratch rows stay |
| Store.Cp.Resize | gm-gdnative-lib/src/lib.rs:835-843 | every column is resized to `s`, padded with defaults |
| Store.Cp.Create | gm-gdnative-lib/src/lib.rs:857-871 | returns a non-null handle that is valid, at the index the allocator returned. The columns cover that index and its mask is cleared. Rows that already existed keep their contents and their generation. The allocator's head and list are exactly those after one allocation (`AfterAllocate`): the old head is unlinked, or the list grows by one |
| Store.Cp.Destroy | gm-gdnative-lib/src/lib.rs:845-855 | the handle is invalid afterwards. A valid handle has its generation advanced (mod 2^16) and its mask cleared. Its index is freed, and the allocator's head and list are exactly those after that free (`AfterFree`). An invalid handle changes nothing |
| Store.Cp.Stamp | gm-gdnative-lib/src/lib.rs:762-772 | through a valid handle, only the parts named by the prefab's mask are written. Through an invalid handle nothing changes |
| Store.Cp.Put | gm-gdnative-lib/src/lib.rs:587-595 | writing through a reference changes exactly its row or scratch row, and never the masks or generations |
| Store.Cp.SmartCopy | gm-gdnative-lib/src/lib.rs:814-833 | after the copy, every column, the allocator list and its head equal the other store's. The allocator is sound exactly when the other's is |
| Store.Cp.CopyColumns | gm-gdnative-lib/src/lib.rs:815-832 | each of the seven columns is resized to the other's length and overwritten to equal it |
| Store.CopyRow | gm-gdnative-lib/src/lib.rs:815-832 | resizing a vector to the source's length and copying entry by entry yields the source |
| Store.CpIter.constructor | gm-gdnative-lib/src/lib.rs:605-619 | a new cursor starts at index 0 with the given mask |
| Store.CpIter.Next | gm-gdnative-lib/src/lib.rs:706-734 | moves to the first later index whose mask holds every flag of the filter, skipping index 0. It returns that row under its current handle, or None past the end |
| Store.CpIter.Nth | gm-gdnative-lib/src/lib.rs:686-703 | jumps to the handle's index when the handle is valid and the row at the current cursor matches the filter, and otherwise to 0 |
| Store.CpIter.NthDouble | gm-gdnative-lib/src/lib.rs:621-684 | borrows two distinct rows. A side reads its own row when that row carries the Component flag, and otherwise its own scratch row, so the two targets never alias |
| Collision.From | gm-gdnative-lib/src/lib.rs:484-491 | the box of a body is position ± size, exact when no coordinate overflows, with the kind and handle kept |
| Collision.FromWellFormed | gm-gdnative-lib/src/lib.rs:484-491 | a non-negative size that does not overflow gives lower <= upper |
| Collision.OverlapIffCommonPoint | gm-gdnative-lib/src/lib.rs:497-503 | two well-formed boxes overlap exactly when they share a point (both directions) |
| Collision.OverlapSymmetric | gm-gdnative-lib/src/lib.rs:497-503 | overlap does not depend on the order of the two boxes |
| Collision.ComputeKey | gm-gdnative-lib/src/lib.rs:1176 | the key holds the first kind in its high byte and the second in its low byte |
| Collision.KeyInjective | gm-gdnative-lib/src/lib.rs:1176 | distinct kind pairs have distinct keys |
| Collision.Contact | gm-gdnative-lib/src/lib.rs:1443-1449 | a contact's key is `(higher kind << 8) \| lower kind`, with `a` the entity of the higher kind (the second box on a tie) |
| Collision.Insert | gm-gdnative-lib/src/lib.rs:1426-1434 | inserting adds exactly one element (as a multiset) |
| Collision.InsertSorted | gm-gdnative-lib/src/lib.rs:1426-1434 | inserting into a sorted list keeps it sorted |
| Collision.InsertStable | gm-gdnative-lib/src/lib.rs:1426-1434 | an inserted box goes after every box with the same lower x |
| Collision.SortByLowerX | gm-gdnative-lib/src/lib.rs:1426-1434 | the sort is a permutation of its input |
| Collision.SortSorted | gm-gdnative-lib/src/lib.rs:1426-1434 | the sorted boxes are in non-decreasing order of lower x |
| Collision.SortStable | gm-gdnative-lib/src/lib.rs:1426-1434 | boxes with equal lower x keep their relative order, as `sort_by` guarantees |
| Collision.SortDistinct | gm-gdnative-lib/src/lib.rs:1426-1434 | sorting keeps boxes of distinct rows distinct |
| Collision.ContactsDistinct | gm-gdnative-lib/src/lib.rs:1437-1452 | every contact joins two different rows, both from the box list |
| Collision.PairContacts | gm-gdnative-lib/src/lib.rs:1437-1452 | the nested loops queue exactly the contact list of the sorted boxes, pair by pair in i < j order |
| Collision.ContactsWithMembers | gm-gdnative-lib/src/lib.rs:1440-1451 | an event is queued for box i against boxes j onward exactly when it is the contact of i with an overlapping box m ≥ j |
| Collision.ContactsFromMembers | gm-gdnative-lib/src/lib.rs:1438-1451 | an event is queued from row i on exactly when it is the contact of some overlapping pair i' < j with i <= i' |
| Collision.ContactsExactlyOverlaps | gm-gdnative-lib/src/lib.rs:1437-1452 | an event is queued exactly when it is the contact of an overlapping pair i < j of the sorted list, so no contact is queued for disjoint boxes |
| Systems.FlattenBound | gm-gdnative-lib/src/lib.rs:1464-1479 | a pass that emits at most c events per row emits at most c·n events over n rows |
| Systems.ShapeKeepsPlayers | gm-gdnative-lib/src/lib.rs:1527 | a pass that keeps masks and slots keeps every player in one of the 64 slots |
| Systems.EnemyDelay | gm-gdnative-lib/src/lib.rs:1614-1617 | a created enemy's fire delay is the next draw modulo 2000, so it fits below 2000 |
| Systems.EnemyLook | gm-gdnative-lib/src/lib.rs:1615-1618 | a created enemy's look is the draw after that modulo 12, plus 2, so it lies between the first and last enemy frames |
| Systems.VisitCount | gm-gdnative-lib/src/lib.rs:1505 | the number of rows a filtered pass visits below n is at most n |
| Systems.VisitCountIsSize | gm-gdnative-lib/src/lib.rs:1485-1506 | the counted enemies are exactly the size of the set of visited rows |
| Systems.IntegratedShape | gm-gdnative-lib/src/lib.rs:1457-1462 | integrate moves exactly the visited active bodies by their velocity and changes nothing else |
| Systems.IntegrateMovesByVelocity | gm-gdnative-lib/src/lib.rs:1460 | the move is undone by subtracting the velocity, and only the position changes |
| Systems.AnimatedShape | gm-gdnative-lib/src/lib.rs:1464-1479 | the animator pass changes only the animators of visited rows |
| Systems.AnimatorAdvance | gm-gdnative-lib/src/lib.rs:1466-1477 | moving the pass from one visited row to the next adds that row's tick and its destroy request |
| Systems.NullFrameStays | gm-gdnative-lib/src/lib.rs:1470-1476 | the null frame has no successor, so a row on it asks to be destroyed on every tick. This includes a shot cleaner, which has no animator |
| Systems.LoopingFramesAlternate | gm-gdnative-lib/src/lib.rs:1251-1275 | ship and enemy frames alternate with period two |
| Systems.ExplosionsEnd | gm-gdnative-lib/src/lib.rs:1225-1249 | each explosion frame reaches the null frame after the frames left in its sequence |
| Systems.EnemyAdvance | gm-gdnative-lib/src/lib.rs:1486-1503 | moving the enemy pass from one visited row to the next adds that enemy's step and its shot |
| Systems.VisitCountAdvance | gm-gdnative-lib/src/lib.rs:1505 | each visited row adds one to the count |
| Systems.EnemyShape | gm-gdnative-lib/src/lib.rs:1482-1506 | the enemy pass keeps masks, slots, positions and animators, and leaves unvisited rows alone |
| Systems.EnemyEventsBound | gm-gdnative-lib/src/lib.rs:1500-1503 | each enemy fires at most one shot per tick |
| Systems.EnemyCycle | gm-gdnative-lib/src/lib.rs:1488-1503 | the counter stays in 0..150 and the fire delay in 1..2000. An enemy fires exactly when its delay was at most 1, and then waits 2000 ticks |
| Systems.EnemyTurns | gm-gdnative-lib/src/lib.rs:1488-1492 | an enemy turns round exactly on the tick its counter passes 150 |
| Systems.EnemyVelocity | gm-gdnative-lib/src/lib.rs:1494 | at speeds 0..256 the horizontal velocity is exactly direction × speed, with no wrap |
| Systems.PlayerPlan | gm-gdnative-lib/src/lib.rs:1527 | a visited player row names a slot in range and is stepped with that slot's input |
| Systems.PlayerAdvance | gm-gdnative-lib/src/lib.rs:1525-1565 | moving the player pass from one visited row to the next adds that player's requests and its liveness |
| Systems.PlayerShape | gm-gdnative-lib/src/lib.rs:1520-1566 | the player pass keeps masks and slots and leaves unvisited rows alone |
| Systems.LiveBelowExists | gm-gdnative-lib/src/lib.rs:1540-1543 | the live flag is set exactly when some visited player is undamaged and connected (both directions) |
| Systems.PlayerEventsBound | gm-gdnative-lib/src/lib.rs:1544-1562 | each player queues at most two events per tick |
| Systems.PlayerRules | gm-gdnative-lib/src/lib.rs:1529-1563 | an undamaged player ends its tick within x ∈ [-960, 960]. It fires exactly when asked with its delay run out, and then waits 24 ticks. A disconnected player is killed, set to the persistent null frame, and its explosion is queued first. It is live exactly when it stays undamaged |
| Systems.RepairedShape | gm-gdnative-lib/src/lib.rs:1366-1372 | repair keeps masks and slots. A visited player in a connected slot becomes undamaged and back on its first ship frame |
| Systems.EnemyWave | gm-gdnative-lib/src/lib.rs:1376-1384 | a wave is 24 × 20 = 480 enemy creations |
| Systems.WavePositionsDistinct | gm-gdnative-lib/src/lib.rs:1376-1384 | every wave enemy gets its own position and is an enemy creation |
| Systems.PlayerStart | gm-gdnative-lib/src/lib.rs:1321-1326 | the start event of slot j creates a player keyed by j |
| Systems.BoundsRows | gm-gdnative-lib/src/lib.rs:1418-1421 | the collected boxes lie on distinct visited rows, each under its row's current handle |
| Systems.CollideOnce | gm-gdnative-lib/src/lib.rs:1181-1219 | a collision keeps both masks and slots and spawns at most one explosion. Resolving the same pair again changes nothing |
| Systems.BulletKillsEnemy | gm-gdnative-lib/src/lib.rs:1194-1201 | a live bullet and a live enemy are both put on the null frame, and one explosion appears at the enemy |
| Systems.ContactShape | gm-gdnative-lib/src/lib.rs:1181-1219 | a contact keeps every mask and slot and spawns at most one explosion |
| Systems.SpawnedRow | gm-gdnative-lib/src/lib.rs:1600-1620 | a created object has its prefab's mask and kind and sits at the event's position. A player takes the event's slot and is undamaged. An enemy takes the drawn delay and look |
| Systems.SpawnKeepsPlayers | gm-gdnative-lib/src/lib.rs:1611-1613 | a creation whose player key is below 64 keeps every player in a slot |
| Systems.FitsGrow | gm-gdnative-lib/src/lib.rs:1592-1598 | queued requests that fit a store still fit once it has grown |
| Systems.FlattenFits | gm-gdnative-lib/src/lib.rs:1585-1588 | a queue built from parts whose events fit also fits |
| Systems.AnimatorEventsFit | gm-gdnative-lib/src/lib.rs:1475-1477 | the animator pass's destroy requests name rows of the store |
| Systems.DestroyEventsFit | gm-gdnative-lib/src/lib.rs:1576-1579 | the sweep's destroy requests name rows of the store |
| Systems.PlayerEventsFit | gm-gdnative-lib/src/lib.rs:1549-1561 | every request the player pass queues fits a store of any size: each is a creation of a kind that has a prefab |
| Systems.EnemyEventsFit | gm-gdnative-lib/src/lib.rs:1502 | every shot the enemy pass queues fits a store of any size |
| Systems.WaveFit | gm-gdnative-lib/src/lib.rs:1382 | every wave creation fits a store of any size |
| Passes.VisitsAgree | gm-gdnative-lib/src/lib.rs:706-716 | the store's row-level filter agrees with the column-level filter the cursor applies |
| Passes.UnderCursor | gm-gdnative-lib/src/lib.rs:717-731 | the reference at the cursor reads the unchanged row at the cursor's index |
| Passes.MoveBodies | gm-gdnative-lib/src/lib.rs:1457-1462 | after the integrate loop the rows are the integrated rows. Masks, generations and scratch rows are unchanged |
| Passes.TickAnimators | gm-gdnative-lib/src/lib.rs:1464-1479 | after the animator loop the rows are the animated rows, and the emitted requests are the flattened per-row destroy requests, in index order |
| Passes.StepEnemies | gm-gdnative-lib/src/lib.rs:1485-1506 | after the enemy loop the rows are the stepped rows. The emitted shots are in index order and the count is the number of visited rows |
| Passes.StepPlayers | gm-gdnative-lib/src/lib.rs:1524-1566 | after the player loop the rows are the stepped rows, and the emitted requests are in index order. `live` is set exactly when some visited player is live |
| Passes.RepairShips | gm-gdnative-lib/src/lib.rs:1366-1372 | after the repair loop the rows are the repaired rows |
| Passes.DestroyEvery | gm-gdnative-lib/src/lib.rs:1576-1579 | the sweep emits a destroy request for every visited row, in index order |
| Passes.CollectBounds | gm-gdnative-lib/src/lib.rs:1418-1421 | the collected list is the box of every active body, in index order |
| Passes.BroadPhase | gm-gdnative-lib/src/lib.rs:1412-1452 | the bounds list is the sorted collection, and the contacts are the contacts of its overlapping pairs |
| Passes.ResolveContact | gm-gdnative-lib/src/lib.rs:1182-1218 | the rows become the contact's outcome written back through the two borrowed sides. Masks and generations are unchanged, and the returned spawn is the outcome's explosion. The two scratch rows end as `ContactScratch` says: a side whose row carries the Component flag leaves its scratch row unchanged; a side without it has its scratch row take the outcome's record, keeping its own mask |
| Passes.Make | gm-gdnative-lib/src/lib.rs:1602-1603 | a row is allocated at the allocator's choice, with the kind's prefab stamped on its grown row under a valid handle. The allocator ends as `AfterAllocate` of its old head and list |
| Passes.Place | gm-gdnative-lib/src/lib.rs:1604-1620 | the row is placed by its event. An enemy gets fire delay `Drawn(s) mod 2000` and look `Drawn(Stepped(s)) mod 12 + 2` from the generator state `s` before the call, and the generator ends exactly two draws on. Every other kind gets delay and look 0 and leaves the generator untouched |
| Passes.Spawn | gm-gdnative-lib/src/lib.rs:1600-1620 | a creation succeeds exactly when the allocator has room. The rows become the spawned rows at the allocated index. An enemy's delay and look are the first and second draws (as in `Place`), and the generator ends exactly two draws on; any other kind leaves it untouched. On success the allocator ends as `AfterAllocate` of its old head and list. A full allocator changes nothing |
| Passes.SpawnAt | gm-gdnative-lib/src/lib.rs:1601-1620 | with room in the allocator, the rows become the spawned rows at the allocated index, an enemy taking its delay and look from the next two draws, which the generator ends past. The allocator ends as `AfterAllocate` of its old head and list |
| Passes.Remove | gm-gdnative-lib/src/lib.rs:1597-1599 | the handle is invalid afterwards, the store keeps its size, and every remaining player stays in its slot. A valid handle's generation is bumped (mod 2^16) and its mask cleared, every other row is unchanged, and an allocated index is returned to the allocator, which stays sound and ends as `AfterFree` of its old head and list. An invalid handle changes nothing |
| Passes.PlayersTick | gm-gdnative-lib/src/lib.rs:1520-1582 | this is the player stage. When a round is on and no player is live, destroy requests for every enemy follow the players' own requests. Everything queued fits the store |
| Passes.EnemiesTick | gm-gdnative-lib/src/lib.rs:1482-1506 | this is the enemy stage. The rows are stepped, the shots and the count are as specified, and everything queued fits the store |
| Simulation.Game.constructor | gm-gdnative-lib/src/lib.rs:1151-1169 | a new game has the full animation successor table, 64 default slots, the default round state and an empty store and queue |
| Simulation.Game.Integrate | gm-gdnative-lib/src/lib.rs:1457-1462 | the store's rows become the integrated rows |
| Simulation.Game.ComputeInput | gm-gdnative-lib/src/lib.rs:1337-1345 | each slot's fire, left and right flags are set from bits 18, 16 and 17 of its raw word, and nothing else changes |
| Simulation.Game.UpdateAnimators | gm-gdnative-lib/src/lib.rs:1464-1479 | rows are ticked, destroy requests are appended in index order, and a queue that fitted the store still fits |
| Simulation.Game.UpdatePlayers | gm-gdnative-lib/src/lib.rs:1520-1582 | rows are stepped and requests appended. When no player is live during a round, the round ends on the "no way" banner and every enemy is queued for destruction |
| Simulation.Game.UpdateEnemies | gm-gdnative-lib/src/lib.rs:1482-1518 | rows are stepped and shots appended. The enemy count is recorded and the speed reset to 3. A round with no enemies left ends on the "great" banner |
| Simulation.Game.PushWave | gm-gdnative-lib/src/lib.rs:1376-1384 | the nested loops append exactly the wave |
| Simulation.Game.ResolveState | gm-gdnative-lib/src/lib.rs:1347-1388 | during a round nothing changes. Between rounds the banner timer advances by 8333333 (wrapping). Past 10^9 the game ends unless the banner is "ready". On "ready" the round starts, ships are repaired and a wave is queued |
| Simulation.Game.FillContactList | gm-gdnative-lib/src/lib.rs:1412-1454 | the bounds list is the sorted boxes of all active bodies, and the queue gains exactly their contacts |
| Simulation.Game.CollisionFunction | gm-gdnative-lib/src/lib.rs:1181-1219 | the rows become the contact's outcome, and the queue gains what it spawns. The scratch rows end as `ContactScratch` of the old rows and old scratch rows. It requires both handles valid, which the source's only call site (lib.rs:1589-1596) checks first |
| Simulation.Game.SmartCopy | gm-gdnative-lib/src/lib.rs:1294-1302 | slots, round state, generator state, store rows, generations, allocator and game-over flag all equal the other game's |
| Simulation.Game.QueueStart | gm-gdnative-lib/src/lib.rs:1319-1331 | the queue gains a player for each slot connected from the start, in slot order, then the two shot cleaners |
| Simulation.Game.Init | gm-gdnative-lib/src/lib.rs:1304-1335 | the generator is seeded from `seed` and the round state is "ready" at speed 3. The start queue is resolved without a failed creation, the queue ends empty, and the allocator holds at most the start queue's creations |
| Simulation.Game.FastForward | gm-gdnative-lib/src/lib.rs:1402-1409 | the stages keep the store's masks and generations, and leave only queued requests that fit the store |
| Simulation.Game.Update | gm-gdnative-lib/src/lib.rs:1391-1400 | a full tick ends with an empty queue unless the allocator is full (65536 entries, none free). The store never shrinks |
| Simulation.Game.ResolveEvents | gm-gdnative-lib/src/lib.rs:1585-1632 | the queue is resolved front to back, including appended events, and ends empty. It stops only when a creation finds the allocator full. The queue it resolved starts with the old queue, and every appended event is the creation of an explosion. The allocator grows at most by the queue's creations and contacts. On success the generator ends exactly `Steps(s, 2n)`, where s is its old state and n the number of enemy creations in the old queue: two draws per enemy, none for the appended explosions. Without enemy creations the generator is untouched |
| Simulation.Game.ResolveAt | gm-gdnative-lib/src/lib.rs:1588-1627 | resolving one event shrinks the work left, and only a creation with the allocator full fails. It dispatches on the event's kind. A contact is resolved as `ContactAt` states (`Contacted`). A destruction is resolved as `DestroyAt` states (`Destroyed`). A creation is resolved as `CreateAt` states (`Created`). Any other kind changes nothing. The queue keeps its old events as a prefix, and only a contact appends, always an explosion. The generator ends two steps on (`Stepped(Stepped(s))`) after a successful enemy creation, and untouched after anything else |
| Simulation.Game.ContactAt | gm-gdnative-lib/src/lib.rs:1589-1596 | resolving a contact keeps the store's size, generations and allocator. When both handles are valid, the rows become `ContactRows` of the old rows, the scratch rows become `ContactScratch` of the old rows and scratch rows, and the queue gains that contact's outcome, at most one explosion. Otherwise nothing changes, scratch rows included |
| Simulation.Game.DestroyAt | gm-gdnative-lib/src/lib.rs:1597-1599 | a destroy event with a valid handle bumps its generation (mod 2^16), clears its mask, and leaves the allocator as `AfterFree` of its old head and list. A stale handle changes no row, generation or allocator entry. The queue, the scratch rows and the generator are untouched |
| Simulation.Game.CreateAt | gm-gdnative-lib/src/lib.rs:1600-1621 | a create event succeeds exactly when the allocator has room. On success the allocator ends as `AfterAllocate`, and the rows are the spawned rows at the allocated index. An enemy's delay and look come from the generator state before the call, and the generator ends two steps on. A full allocator changes nothing. The queue and the scratch rows are untouched |
| Simulation.Game.ResolveNext | gm-gdnative-lib/src/lib.rs:1587-1627 | one turn of the resolution loop resolves entry i, and keeps the loop's bookkeeping. The queue still starts with the original queue and has gained explosions only. The allocator stays within the original bound. After a success the generator is `Steps(s, 2m)` past the state s before the loop, with m the enemy creations among the first i+1 entries |
| Simulation.PendingAppend | gm-gdnative-lib/src/lib.rs:1587 | work and growth add up over a concatenated queue |
| Simulation.PendingAt | gm-gdnative-lib/src/lib.rs:1587-1627 | the event at i contributes its own share of work and growth |
| Simulation.ContactQueue | gm-gdnative-lib/src/lib.rs:1200-1212 | appending a contact's explosion keeps the queue fitting, shrinks the work left and adds at most one to growth |
| Simulation.StepsOnCount | gm-gdnative-lib/src/lib.rs:1614-1619 | two draws per enemy creation: a generator `2m` draws past s is `2k` draws past s after one more event, where k is m plus one exactly when that event creates an enemy |
| Simulation.DrawsOfExplosions | gm-gdnative-lib/src/lib.rs:1587-1627 | a queue that grew from q0 by explosions only has moved the generator exactly as q0's enemy creations would |
| Simulation.EnemySpawnsOfExplosions | gm-gdnative-lib/src/lib.rs:1200-1212 | explosions appended behind a queue add no enemy creation |
| Simulation.AppendKeepsExplosions | gm-gdnative-lib/src/lib.rs:1587-1627 | a queue that only ever gains explosions keeps its first k events, and everything after them is an explosion |
| Simulation.ContactsFit | gm-gdnative-lib/src/lib.rs:1437-1452 | every contact names two different rows of the store |
| Simulation.StartQueueShape | gm-gdnative-lib/src/lib.rs:1319-1331 | the start queue holds at most 66 creations, none of them an enemy. It holds a slot's player exactly when that slot is connected from the start |
| Simulation.WaveEntry | gm-gdnative-lib/src/lib.rs:1376-1382 | entry `20j + i` of the wave is the enemy pushed at column j, row i |
| Simulation.EndOf | gm-gdnative-lib/src/lib.rs:1282 | the registration loop stops at the first end-of-list marker |
| Simulation.RegisterAnimation | gm-gdnative-lib/src/lib.rs:1280-1292 | the loop computes the registration of the list into the table |
| Simulation.LinkFromAt | gm-gdnative-lib/src/lib.rs:1281-1291 | each non-null frame of a list of distinct frames maps to the next entry, and the last to the first |
| Simulation.RegistrationCycle | gm-gdnative-lib/src/lib.rs:1280-1292 | registering links the listed frames into a cycle. The list's non-null frames map to their successors and every other frame keeps its entry |
| Simulation.ExplosionRegistered | gm-gdnative-lib/src/lib.rs:1225-1249 | an explosion runs its seven frames forward into the null frame |
| Simulation.PairRegistered | gm-gdnative-lib/src/lib.rs:1251-1274 | a two-frame loop maps each frame to the other |
| Simulation.FixedAnimations | gm-gdnative-lib/src/lib.rs:1221-1278 | the table the setup builds maps a frame above the enemy frames exactly when that frame has a successor in the animation order, and maps it to that successor |
| Simulation.LinkFromKeeps | gm-gdnative-lib/src/lib.rs:1280-1292 | registering a list leaves every frame outside it as it was |
| Simulation.SetupAnimationTable | gm-gdnative-lib/src/lib.rs:1221-1278 | the table maps exactly the animated frames to their successors |
| Simulation.CreateStep | gm-gdnative-lib/src/lib.rs:1600-1621 | a creation keeps the store consistent and every player in a slot. It adds at most one allocator entry and fails only when the allocator is full. On success the rows are the spawned rows at the allocated index, with an enemy's delay and look from the next two draws, and the generator ends exactly two draws on for an enemy; a failure changes nothing |

## Left out

- The `HelloWorld` Godot class and its registration are engine glue, so they are not modelled. This covers the input setters, the rendering through foreign `layer.call` calls, the f32 banner easing and `godot_init!`. Each tick's raw input words, and the Godot side in general, are outside the model: slots are plain values of the `Game` class.
- `Cp::print` is debug output. `MersenneTwister::from_zero`/`from`, `Entity::from_unknown`/`from_index` and the commented-out comparison operators have no behaviour to state. `CpPrefab::get` appears only as the function `Store.Captured`.
- Lifetimes and `split_at_mut`: a borrowed row is a target, either a row index or a scratch row, not a reference. Writes go through `Cp.Put`.
- `nth_double` requires distinct indices. With equal indices the source indexes out of range and panics when the row carries the Component flag, as every live row does.
- `HashMap` is a Dafny `map<u16, u16>`. `sort_by` is a stable insertion sort. The properties used of it are that it is a permutation, that it sorts and that it is stable, all of which the library sort also guarantees.
- Passes.Spawn: the source panics when the allocator table is full (65536 entries, none free). Here the creation returns `ok == false` and changes nothing, and event resolution stops there.
- Systems.SpawnKeepsPlayers: this needs a created player's key to be below 64. The source converts the key to i8 and later indexes one of the 64 slots, and both panic beyond that. The model therefore requires it of queued events (`Systems.EventFits`).
- Mersenne.MersenneTwister.NextFromZero and Mersenne.MersenneTwister.NextRange require the divisor, computed as the source computes it (`max + 1`, or `max + 1 - min` wrapped to i32), to be positive. Exactly the inputs that make the source's `try_from` panic or divide by zero are excluded.
- IndexTables.IndexTable.Free: the allocated-set bookkeeping is a ghost free list. Its soundness is stated only for frees of allocated indices. A second free of the free list's tail is shown as the concrete run `IndexTables.DoubleFreeOfTail`. In the game that free is reachable only after a row's u16 generation wraps around.
- Store.Cp.Destroy: the generation advances modulo 2^16. After 65536 reuses of a row, a stale handle validates again. The model does not restrict this.
- Store.Cp.Valid: does not carry the allocator's soundness (its free chain and allocated set). A handle whose u16 generation has wrapped can validate on a freed index, so Destroy keeps the allocator sound only for allocated indices, as its contract states; carrying soundness would need an invariant over every handle still held in the queue.
- BitMasks.GameFieldsRoundTrip: the decode bound and the encode/decode round trip are proved for the five fields the game uses, not for every `(start, end)` pair.
- Simulation.Game.Init: this states the seeding, the round state, an empty queue and a bound on the allocator. It does not list which rows the start queue created.
- Simulation.Game.Update and Simulation.Game.FastForward state their stages through the stage methods' own contracts, not as one combined formula. Update ends with the queue empty. FastForward leaves the queued events unresolved, as the source does.
- Simulation.Game.SmartCopy does not copy the event queue, the bounds list or the animation table, as in the source. The copied store keeps its own scratch rows.
- Simulation.Game.ResolveEvents: the effect on the rows and the allocator is stated per event (`ResolveAt` with `ContactAt`, `DestroyAt` and `CreateAt`), not as one formula over the whole queue. Over the whole queue it states the prefix, the kinds of the appended events, the allocator's growth bound and the exact generator state.
- Store.CpIter.Nth: as in the source, the filter is tested on the row under the current cursor, not on the handle's row.
- Simulation.Game.ComputeInput: as in the source, the horizontal axis field is not decoded.
- GameData.Prefab: `Data::prefab` indexes an array of eight prefabs, so the kind must be below 8.
