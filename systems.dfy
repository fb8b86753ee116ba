/** The per-row rules of the simulation stages, the events each stage
    emits, the animation successor table and the collision dispatch, all
    as functions of row values. The Game class applies them row by row. */
module Systems {
  import opened Prelude
  import opened Vectors
  import opened Components
  import opened GameData
  import Cf
  import ObjType
  import Collision
  import opened Store
  import Mersenne

  /** The parts below `n`, concatenated in order. */
  function Flatten<T>(parts: seq<seq<T>>, n: nat): seq<T>
  {
    if n == 0 then [] else Flatten(parts, n - 1) + (if n - 1 < |parts| then parts[n - 1] else [])
  }

  /** Empty parts add nothing. */
  lemma {:induction false} FlattenSkip<T>(parts: seq<seq<T>>, a: nat, b: nat)
    requires a <= b
    requires forall k :: a <= k < b && k < |parts| ==> parts[k] == []
    ensures Flatten(parts, b) == Flatten(parts, a)
    decreases b
  {
    if a < b {
      FlattenSkip(parts, a, b - 1);
    }
  }

  /** Moving past part `i` and then over empty parts up to `n` adds
      exactly part `i`. */
  lemma FlattenStep<T>(parts: seq<seq<T>>, i: nat, n: nat)
    requires i < n && i < |parts|
    requires forall k :: i < k < n && k < |parts| ==> parts[k] == []
    ensures Flatten(parts, n) == Flatten(parts, i) + parts[i]
  {
    FlattenSkip(parts, i + 1, n);
  }

  /** The whole of a flattening is no longer than `c` per part. */
  lemma {:induction false} FlattenBound<T>(parts: seq<seq<T>>, n: nat, c: nat)
    requires forall k :: 0 <= k < |parts| ==> |parts[k]| <= c
    ensures |Flatten(parts, n)| <= c * n
    decreases n
  {
    if n > 0 {
      FlattenBound(parts, n - 1, c);
    }
  }

  /** Whether a filtered iteration over `rows` visits row `k`: index 0 is
      never visited. */
  predicate Visits(rows: seq<CpPrefab>, mask: bv8, k: int)
  {
    1 <= k < |rows| && Matches(rows[k].comp, mask)
  }

  /** Two row sequences of one length whose rows have the same masks and
      the same player slots. */
  predicate SameShape(a: seq<CpPrefab>, b: seq<CpPrefab>)
  {
    |a| == |b| && forall k :: 0 <= k < |a| ==> a[k].comp == b[k].comp && a[k].player.slot == b[k].player.slot
  }

  /** Rows of the same shape have their players in the same slots. */
  lemma ShapeKeepsPlayers(a: seq<CpPrefab>, b: seq<CpPrefab>)
    requires SameShape(a, b) && PlayersPlaced(a)
    ensures PlayersPlaced(b)
  {
    forall k | 0 <= k < |b| && b[k].comp & Cf.PLAYER != Cf.NONE
      ensures SlotInRange(b[k])
    {
      assert a[k].comp == b[k].comp && SlotInRange(a[k]);
    }
  }

  /** The number of rows below `n` a filtered pass visits. */
  function VisitCount(rows: seq<CpPrefab>, mask: bv8, n: nat): (c: nat)
    ensures c <= n
  {
    if n == 0 then 0 else VisitCount(rows, mask, n - 1) + (if Visits(rows, mask, n - 1) then 1 else 0)
  }

  /** Rows a pass does not visit add nothing to the count. */
  lemma {:induction false} VisitCountSkip(rows: seq<CpPrefab>, mask: bv8, a: nat, b: nat)
    requires a <= b
    requires forall k :: a <= k < b ==> !Visits(rows, mask, k)
    ensures VisitCount(rows, mask, b) == VisitCount(rows, mask, a)
    decreases b
  {
    if a < b {
      VisitCountSkip(rows, mask, a, b - 1);
    }
  }

  /** The count is the size of the set of visited rows. */
  lemma {:induction false} VisitCountIsSize(rows: seq<CpPrefab>, mask: bv8, n: nat)
    ensures VisitCount(rows, mask, n) == |set k | 0 <= k < n && Visits(rows, mask, k)|
    decreases n
  {
    if n > 0 {
      VisitCountIsSize(rows, mask, n - 1);
      var below := set k | 0 <= k < n - 1 && Visits(rows, mask, k);
      if Visits(rows, mask, n - 1) {
        assert (set k | 0 <= k < n && Visits(rows, mask, k)) == below + {n - 1};
      } else {
        assert (set k | 0 <= k < n && Visits(rows, mask, k)) == below;
      }
    }
  }

  const MOVING: bv8 := Cf.ACTIVE | Cf.BODY
  const ENEMIES: bv8 := Cf.ACTIVE | Cf.BODY | Cf.ENEMY
  const PLAYERS: bv8 := Cf.ACTIVE | Cf.BODY | Cf.PLAYER
  const ACTIVE_PLAYERS: bv8 := Cf.ACTIVE | Cf.PLAYER

  // ---------------------------------------------------------------------
  // integrate

  /** A body moved by its velocity. */
  function Moved(b: Body): Body
  {
    b.(position := Add(b.position, b.velocity))
  }

  /** A row whose body has moved by its velocity. */
  function MovedRow(row: CpPrefab): CpPrefab
  {
    row.(body := Moved(row.body))
  }

  /** The rows after the integrate pass: every active body moved. */
  function Integrated(rows: seq<CpPrefab>): (r: seq<CpPrefab>)
    ensures |r| == |rows|
  {
    seq(|rows|, k requires 0 <= k < |rows| => if Visits(rows, MOVING, k) then MovedRow(rows[k]) else rows[k])
  }

  /** The pass moves nothing but positions of visited rows. */
  lemma IntegratedShape(rows: seq<CpPrefab>)
    ensures SameShape(rows, Integrated(rows))
    ensures forall k :: 0 <= k < |rows| ==>
      Integrated(rows)[k] == if Visits(rows, MOVING, k) then rows[k].(body := Moved(rows[k].body)) else rows[k]
  {
  }

  /** Moving by the velocity is undone by subtracting it, and changes
      nothing but the position. */
  lemma IntegrateMovesByVelocity(b: Body)
    ensures Sub(Moved(b).position, b.velocity) == b.position
    ensures Moved(b).velocity == b.velocity && Moved(b).size == b.size
  {
    AddThenSub(b.position, b.velocity);
  }

  // ---------------------------------------------------------------------
  // animation

  /** One animator tick: the count advances and past 3 resets, moving the
      frame to its successor in `table` if it has one. */
  function Animated(table: map<u16, u16>, a: Animator): Animator
  {
    var count := WrapU16(a.count as int + 1);
    if count > 3 then Animator(if a.frame in table then table[a.frame] else a.frame, 0)
    else a.(count := count)
  }

  /** The rows after the animator pass: every visited row ticked. */
  function AnimatedRows(table: map<u16, u16>, rows: seq<CpPrefab>): (r: seq<CpPrefab>)
    ensures |r| == |rows|
  {
    seq(|rows|, k requires 0 <= k < |rows| =>
      if Visits(rows, MOVING, k) then rows[k].(animator := Animated(table, rows[k].animator)) else rows[k])
  }

  /** The pass changes nothing but the animators of visited rows. */
  lemma AnimatedShape(table: map<u16, u16>, rows: seq<CpPrefab>)
    ensures SameShape(rows, AnimatedRows(table, rows))
    ensures forall k :: 0 <= k < |rows| && !Visits(rows, MOVING, k) ==> AnimatedRows(table, rows)[k] == rows[k]
    ensures forall k :: 0 <= k < |rows| ==>
      AnimatedRows(table, rows)[k].body == rows[k].body && AnimatedRows(table, rows)[k].player == rows[k].player &&
      AnimatedRows(table, rows)[k].enemy == rows[k].enemy
  {
  }

  /** The destroy request of row `k` after its tick: one when the frame it
      ends on is the null frame. */
  function AnimatorEvents(table: map<u16, u16>, rows: seq<CpPrefab>, gens: seq<u16>): (r: seq<seq<Event>>)
    requires |gens| == |rows| <= 0x1_0000
    ensures |r| == |rows|
  {
    seq(|rows|, k requires 0 <= k < |rows| =>
      if Visits(rows, MOVING, k) && Animated(table, rows[k].animator).frame == NULL_FRAME
      then [FromDestroy(Entity(k as u16, gens[k]))] else [])
  }

  /** Moving the animator pass from visited row `i` to row `j`, over rows
      it does not visit, adds row i's destroy request if it ends on the
      null frame. */
  lemma AnimatorAdvance(table: map<u16, u16>, rows: seq<CpPrefab>, gens: seq<u16>, i: int, j: int)
    requires |gens| == |rows| <= 0x1_0000 && Visits(rows, MOVING, i) && i < j
    requires forall k :: i < k < j ==> !Visits(rows, MOVING, k)
    ensures AnimatedRows(table, rows)[i] == rows[i].(animator := Animated(table, rows[i].animator))
    ensures Flatten(AnimatorEvents(table, rows, gens), j) == Flatten(AnimatorEvents(table, rows, gens), i) +
      (if Animated(table, rows[i].animator).frame == NULL_FRAME then [FromDestroy(Entity(i as u16, gens[i]))] else [])
  {
    var parts := AnimatorEvents(table, rows, gens);
    forall k | i < k < j && k < |parts| ensures parts[k] == [] {
      assert !Visits(rows, MOVING, k);
    }
    FlattenStep(parts, i, j);
  }

  /** The successor of every animated frame: enemy looks alternate between
      their two frames, ships and local ships between theirs, and the two
      explosions run forward to the null frame. Other frames have none. */
  function NextFrame(f: u16): Option<u16>
  {
    if ENEMY_00_A <= f < ENEMY_00_B then Some(f + ENEMY_TYPE_COUNT)
    else if ENEMY_00_B <= f < ENEMY_00_B + ENEMY_TYPE_COUNT then Some(f - ENEMY_TYPE_COUNT)
    else if f == PLAYER_SHIP_0 then Some(PLAYER_SHIP_1)
    else if f == PLAYER_SHIP_1 then Some(PLAYER_SHIP_0)
    else if PLAYER_BOOM_0 <= f < PLAYER_BOOM_6 then Some(f + 1)
    else if f == PLAYER_BOOM_6 then Some(NULL_FRAME)
    else if ENEMY_BOOM_0 <= f < ENEMY_BOOM_6 then Some(f + 1)
    else if f == ENEMY_BOOM_6 then Some(NULL_FRAME)
    else if f == LOCAL_PLAYER_0 then Some(LOCAL_PLAYER_1)
    else if f == LOCAL_PLAYER_1 then Some(LOCAL_PLAYER_0)
    else None
  }

  /** A table that maps exactly the animated frames to their successors. */
  predicate IsAnimationTable(t: map<u16, u16>)
  {
    forall f: u16 {:trigger NextFrame(f)} :: (f in t <==> NextFrame(f).Some?) && (f in t ==> t[f] == NextFrame(f).value)
  }

  /** The null frame has no successor, so a row on it stays on it and asks
      to be destroyed on every tick. */
  lemma NullFrameStays(t: map<u16, u16>, a: Animator)
    requires IsAnimationTable(t) && a.frame == NULL_FRAME
    ensures Animated(t, a).frame == NULL_FRAME
  {
    assert NextFrame(NULL_FRAME).None?;
  }

  /** Ship and enemy frames alternate with period two. */
  lemma LoopingFramesAlternate(f: u16)
    requires ENEMY_00_A <= f <= PLAYER_SHIP_1 || f == LOCAL_PLAYER_0 || f == LOCAL_PLAYER_1
    ensures NextFrame(f).Some? && NextFrame(f).value != f
    ensures NextFrame(NextFrame(f).value) == Some(f)
  {
  }

  /** The successor reached after `n` steps from `f`, if every step has
      one. */
  function Advanced(f: u16, n: nat): Option<u16>
    decreases n
  {
    if n == 0 then Some(f)
    else match NextFrame(f)
      case None => None
      case Some(g) => Advanced(g, n - 1)
  }

  /** Each explosion frame reaches the null frame after the frames left in
      its sequence. */
  lemma {:induction false} ExplosionsEnd(f: u16)
    requires PLAYER_BOOM_0 <= f <= ENEMY_BOOM_6
    ensures f <= PLAYER_BOOM_6 ==> Advanced(f, (PLAYER_BOOM_6 - f) as nat + 1) == Some(NULL_FRAME)
    ensures f >= ENEMY_BOOM_0 ==> Advanced(f, (ENEMY_BOOM_6 - f) as nat + 1) == Some(NULL_FRAME)
    decreases ENEMY_BOOM_6 - f
  {
    if f != PLAYER_BOOM_6 && f != ENEMY_BOOM_6 {
      ExplosionsEnd(f + 1);
    }
  }

  // ---------------------------------------------------------------------
  // enemies

  const ENEMY_TURN_COUNT: u8 := 150
  const ENEMY_FIRE_DELAY: u16 := 2000

  /** The fire delay after one tick's countdown. */
  function Countdown(d: u16): u16
  {
    if d > 0 then d - 1 else 0
  }

  /** One enemy tick: the counter advances and past 150 resets and turns
      the enemy round; the horizontal velocity is direction times speed;
      the fire delay counts down and, on reaching 0, restarts at 2000. */
  function EnemyStep(speed: i32, row: CpPrefab): CpPrefab
  {
    var c := WrapU8(row.enemy.counter as int + 1);
    var turn := c > ENEMY_TURN_COUNT;
    var dir := if turn then WrapI8(-(row.enemy.direction as int)) else row.enemy.direction;
    var d := Countdown(row.enemy.delayFire);
    row.(body := row.body.(velocity := row.body.velocity.(x := WrapI32(dir as int * speed as int))),
         enemy := Enemy(dir, if turn then 0 else c, if d == 0 then ENEMY_FIRE_DELAY else d))
  }

  /** The shot an enemy fires when its delay runs out, from where it is. */
  function EnemyShot(row: CpPrefab): seq<Event>
  {
    if Countdown(row.enemy.delayFire) == 0 then [FromEntity(ObjType.BAD_BULLET, row.body.position)] else []
  }

  function EnemyEvents(rows: seq<CpPrefab>): (r: seq<seq<Event>>)
    ensures |r| == |rows|
  {
    seq(|rows|, k requires 0 <= k < |rows| => if Visits(rows, ENEMIES, k) then EnemyShot(rows[k]) else [])
  }

  /** The rows after the enemy pass at speed `speed`. */
  function EnemyRows(speed: i32, rows: seq<CpPrefab>): (r: seq<CpPrefab>)
    ensures |r| == |rows|
  {
    seq(|rows|, k requires 0 <= k < |rows| => if Visits(rows, ENEMIES, k) then EnemyStep(speed, rows[k]) else rows[k])
  }

  /** Moving the enemy pass from visited row `i` to row `j`, over rows it
      does not visit, adds row i's shot. */
  lemma EnemyAdvance(speed: i32, rows: seq<CpPrefab>, i: int, j: int)
    requires Visits(rows, ENEMIES, i) && i < j
    requires forall k :: i < k < j ==> !Visits(rows, ENEMIES, k)
    ensures EnemyRows(speed, rows)[i] == EnemyStep(speed, rows[i])
    ensures Flatten(EnemyEvents(rows), j) == Flatten(EnemyEvents(rows), i) + EnemyShot(rows[i])
  {
    var parts := EnemyEvents(rows);
    forall k | i < k < j && k < |parts| ensures parts[k] == [] {
      assert !Visits(rows, ENEMIES, k);
    }
    FlattenStep(parts, i, j);
  }

  /** Moving a pass from visited row `i` to row `j` counts one more row. */
  lemma VisitCountAdvance(rows: seq<CpPrefab>, mask: bv8, i: nat, j: nat)
    requires Visits(rows, mask, i) && i < j
    requires forall k :: i < k < j ==> !Visits(rows, mask, k)
    ensures VisitCount(rows, mask, j) == VisitCount(rows, mask, i) + 1
  {
    VisitCountSkip(rows, mask, i + 1, j);
  }

  /** The pass changes nothing but the enemies and velocities of visited
      rows, and counts them. */
  lemma EnemyShape(speed: i32, rows: seq<CpPrefab>)
    ensures SameShape(rows, EnemyRows(speed, rows))
    ensures forall k :: 0 <= k < |rows| && !Visits(rows, ENEMIES, k) ==> EnemyRows(speed, rows)[k] == rows[k]
    ensures forall k :: 0 <= k < |rows| ==>
      EnemyRows(speed, rows)[k].body.position == rows[k].body.position &&
      EnemyRows(speed, rows)[k].animator == rows[k].animator
  {
  }

  /** Each enemy fires at most one shot per tick. */
  lemma EnemyEventsBound(rows: seq<CpPrefab>)
    ensures forall k :: 0 <= k < |rows| ==> |EnemyEvents(rows)[k]| <= 1
    ensures |Flatten(EnemyEvents(rows), |rows|)| <= |rows|
  {
    FlattenBound(EnemyEvents(rows), |rows|, 1);
  }

  /** The counter stays within 0..150 and the fire delay within 1..2000;
      an enemy fires exactly when its delay was at most 1, and then waits
      2000 ticks. */
  lemma EnemyCycle(speed: i32, row: CpPrefab)
    requires row.enemy.counter <= ENEMY_TURN_COUNT && row.enemy.delayFire <= ENEMY_FIRE_DELAY
    ensures EnemyStep(speed, row).enemy.counter <= ENEMY_TURN_COUNT
    ensures 1 <= EnemyStep(speed, row).enemy.delayFire <= ENEMY_FIRE_DELAY
    ensures |EnemyShot(row)| == (if row.enemy.delayFire <= 1 then 1 else 0)
    ensures |EnemyShot(row)| == 1 ==> EnemyStep(speed, row).enemy.delayFire == ENEMY_FIRE_DELAY
  {
  }

  /** An enemy turns round exactly on the tick its counter passes 150. */
  lemma EnemyTurns(speed: i32, row: CpPrefab)
    requires row.enemy.counter <= ENEMY_TURN_COUNT && row.enemy.direction != -0x80
    ensures var r := EnemyStep(speed, row);
      r.enemy.direction == (if row.enemy.counter == ENEMY_TURN_COUNT then -row.enemy.direction else row.enemy.direction)
  {
  }

  /** At the game's speeds the horizontal velocity is exactly direction
      times speed: it points the way the enemy faces. */
  lemma EnemyVelocity(speed: i32, row: CpPrefab)
    requires 0 <= speed <= 0x100
    ensures var r := EnemyStep(speed, row);
      r.body.velocity.x == r.enemy.direction as int * speed as int
  {
    var r := EnemyStep(speed, row);
    var d := r.enemy.direction as int;
    assert r.body.velocity.x == WrapI32(d * speed as int);
    SmallProduct(d, speed as int);
  }

  lemma SmallProduct(d: int, s: int)
    requires -0x80 <= d < 0x80 && 0 <= s <= 0x100
    ensures -0x8000 <= d * s <= 0x8000
  {
    if d >= 0 {
      assert d * s <= 0x7f * s;
    } else {
      assert d * s >= -0x80 * s;
    }
  }

  // ---------------------------------------------------------------------
  // players

  const SCREEN_EDGE: i32 := 960
  const PLAYER_SPEED: i32 := 5
  const PLAYER_FIRE_DELAY: u16 := 24
  const DEAD: u16 := 100

  function Clamp(x: i32): i32
  {
    if x < -SCREEN_EDGE then -SCREEN_EDGE else if x > SCREEN_EDGE then SCREEN_EDGE else x
  }

  /** Whether an undamaged player fires this tick. */
  predicate Fires(s: Slot, row: CpPrefab)
  {
    s.input.primary && Countdown(row.player.delayFire) == 0
  }

  /** One player tick, given its slot: the horizontal velocity stops and
      the fire delay counts down. A damaged player does nothing else. An
      undamaged one whose slot has disconnected is killed; it is kept on
      screen, steered by left and right (right winning), and fires when
      asked and its delay is 0, restarting the delay at 24. */
  function PlayerStep(s: Slot, row: CpPrefab): CpPrefab
  {
    var d := Countdown(row.player.delayFire);
    if row.player.damage > 0 then
      row.(body := row.body.(velocity := row.body.velocity.(x := 0)), player := row.player.(delayFire := d))
    else
      var vx: i32 := if s.input.right then PLAYER_SPEED else if s.input.left then -PLAYER_SPEED else 0;
      row.(body := row.body.(position := row.body.position.(x := Clamp(row.body.position.x)),
                             velocity := row.body.velocity.(x := vx)),
           player := Player(row.player.slot,
                            if Fires(s, row) then PLAYER_FIRE_DELAY else d,
                            if s.connected then row.player.damage else DEAD),
           animator := if s.connected then row.animator else row.animator.(frame := NULL_PERSIST))
  }

  /** What an undamaged player emits: its explosion if its slot has
      disconnected (where it was), then its shot if it fires (from where
      it is kept on screen). */
  function PlayerShots(s: Slot, row: CpPrefab): seq<Event>
  {
    if row.player.damage > 0 then []
    else
      (if s.connected then [] else [FromEntity(ObjType.PLAYER_BOOM, row.body.position)]) +
      (if Fires(s, row) then [FromEntity(ObjType.BULLET, row.body.position.(x := Clamp(row.body.position.x)))] else [])
  }

  /** Whether a player row counts as a live player. */
  predicate Alive(s: Slot, row: CpPrefab)
  {
    row.player.damage == 0 && s.connected
  }

  /** The slot a player row belongs to. */
  predicate SlotInRange(row: CpPrefab)
  {
    0 <= row.player.slot < 64
  }

  /** Every row with the Player flag names one of the 64 slots. */
  predicate PlayersPlaced(rows: seq<CpPrefab>)
  {
    forall k :: 0 <= k < |rows| && rows[k].comp & Cf.PLAYER != Cf.NONE ==> SlotInRange(rows[k])
  }

  /** The player pass's functions at a visited row. */
  lemma PlayerPlan(slots: seq<Slot>, rows: seq<CpPrefab>, i: int)
    requires |slots| == 64 && PlayersPlaced(rows) && Visits(rows, PLAYERS, i)
    ensures SlotInRange(rows[i])
    ensures PlayerRows(slots, rows)[i] == PlayerStep(slots[rows[i].player.slot], rows[i])
    ensures PlayerRows(slots, rows)[i].comp == rows[i].comp
  {
  }

  /** Moving the player pass from visited row `i` to row `j`, over rows it
      does not visit, adds row i's requests and its liveness. */
  lemma PlayerAdvance(slots: seq<Slot>, rows: seq<CpPrefab>, i: int, j: int)
    requires |slots| == 64 && PlayersPlaced(rows) && Visits(rows, PLAYERS, i) && i < j
    requires forall k :: i < k < j ==> !Visits(rows, PLAYERS, k)
    ensures SlotInRange(rows[i])
    ensures Flatten(PlayerEvents(slots, rows), j) ==
      Flatten(PlayerEvents(slots, rows), i) + PlayerShots(slots[rows[i].player.slot], rows[i])
    ensures LiveBelow(slots, rows, j) == (LiveBelow(slots, rows, i) || Alive(slots[rows[i].player.slot], rows[i]))
  {
    PlayerEventsAdvance(slots, rows, i, j);
    LiveBelowAdvance(slots, rows, i, j);
  }

  lemma PlayerEventsAdvance(slots: seq<Slot>, rows: seq<CpPrefab>, i: int, j: int)
    requires |slots| == 64 && PlayersPlaced(rows) && Visits(rows, PLAYERS, i) && i < j
    requires forall k :: i < k < j ==> !Visits(rows, PLAYERS, k)
    ensures SlotInRange(rows[i])
    ensures Flatten(PlayerEvents(slots, rows), j) ==
      Flatten(PlayerEvents(slots, rows), i) + PlayerShots(slots[rows[i].player.slot], rows[i])
  {
    var parts := PlayerEvents(slots, rows);
    assert parts[i] == PlayerShots(slots[rows[i].player.slot], rows[i]);
    forall k | i < k < j && k < |parts| ensures parts[k] == [] {
      assert !Visits(rows, PLAYERS, k);
    }
    FlattenStep(parts, i, j);
  }

  lemma LiveBelowAdvance(slots: seq<Slot>, rows: seq<CpPrefab>, i: int, j: int)
    requires |slots| == 64 && PlayersPlaced(rows) && Visits(rows, PLAYERS, i) && i < j
    requires forall k :: i < k < j ==> !Visits(rows, PLAYERS, k)
    ensures SlotInRange(rows[i])
    ensures LiveBelow(slots, rows, j) == (LiveBelow(slots, rows, i) || Alive(slots[rows[i].player.slot], rows[i]))
  {
    assert LiveBelow(slots, rows, i + 1) == (LiveBelow(slots, rows, i) || Alive(slots[rows[i].player.slot], rows[i]));
    LiveBelowSkip(slots, rows, i + 1, j);
  }

  function PlayerEvents(slots: seq<Slot>, rows: seq<CpPrefab>): (r: seq<seq<Event>>)
    requires |slots| == 64 && PlayersPlaced(rows)
    ensures |r| == |rows|
  {
    seq(|rows|, k requires 0 <= k < |rows| =>
      if Visits(rows, PLAYERS, k) then
        assert SlotInRange(rows[k]);
        PlayerShots(slots[rows[k].player.slot], rows[k])
      else [])
  }

  /** The rows after the player pass. */
  function PlayerRows(slots: seq<Slot>, rows: seq<CpPrefab>): (r: seq<CpPrefab>)
    requires |slots| == 64 && PlayersPlaced(rows)
    ensures |r| == |rows|
  {
    seq(|rows|, k requires 0 <= k < |rows| =>
      if Visits(rows, PLAYERS, k) then
        assert SlotInRange(rows[k]);
        PlayerStep(slots[rows[k].player.slot], rows[k])
      else rows[k])
  }

  /** The pass keeps masks and slots and leaves unvisited rows alone. */
  lemma PlayerShape(slots: seq<Slot>, rows: seq<CpPrefab>)
    requires |slots| == 64 && PlayersPlaced(rows)
    ensures SameShape(rows, PlayerRows(slots, rows))
    ensures forall k :: 0 <= k < |rows| && !Visits(rows, PLAYERS, k) ==> PlayerRows(slots, rows)[k] == rows[k]
  {
  }

  /** Whether some row below `n` that the player pass visits is a live
      player. */
  function LiveBelow(slots: seq<Slot>, rows: seq<CpPrefab>, n: nat): bool
    requires |slots| == 64 && PlayersPlaced(rows)
  {
    n > 0 &&
      (LiveBelow(slots, rows, n - 1) ||
       (Visits(rows, PLAYERS, n - 1) && assert SlotInRange(rows[n - 1]); Alive(slots[rows[n - 1].player.slot], rows[n - 1])))
  }

  /** The flag is exactly "some visited player row is live". */
  lemma {:induction false} LiveBelowExists(slots: seq<Slot>, rows: seq<CpPrefab>, n: nat)
    requires |slots| == 64 && PlayersPlaced(rows)
    ensures LiveBelow(slots, rows, n) <==>
      exists k :: 0 <= k < n && Visits(rows, PLAYERS, k) && Alive(slots[rows[k].player.slot], rows[k])
    decreases n
  {
    if n > 0 {
      LiveBelowExists(slots, rows, n - 1);
    }
  }

  /** Rows the pass does not visit do not change the flag. */
  lemma {:induction false} LiveBelowSkip(slots: seq<Slot>, rows: seq<CpPrefab>, a: nat, b: nat)
    requires |slots| == 64 && PlayersPlaced(rows) && a <= b
    requires forall k :: a <= k < b ==> !Visits(rows, PLAYERS, k)
    ensures LiveBelow(slots, rows, b) == LiveBelow(slots, rows, a)
    decreases b
  {
    if a < b {
      LiveBelowSkip(slots, rows, a, b - 1);
    }
  }

  /** Each player emits at most two events per tick. */
  lemma PlayerEventsBound(slots: seq<Slot>, rows: seq<CpPrefab>)
    requires |slots| == 64 && PlayersPlaced(rows)
    ensures |Flatten(PlayerEvents(slots, rows), |rows|)| <= 2 * |rows|
  {
    FlattenBound(PlayerEvents(slots, rows), |rows|, 2);
  }

  /** An undamaged player ends the tick on screen; it fires only when its
      delay has run out, and then waits 24 ticks; a disconnected one is
      killed and explodes. */
  lemma PlayerRules(s: Slot, row: CpPrefab)
    requires row.player.damage == 0
    ensures -SCREEN_EDGE <= PlayerStep(s, row).body.position.x <= SCREEN_EDGE
    ensures FromEntity(ObjType.BULLET, PlayerStep(s, row).body.position) in PlayerShots(s, row) <==> Fires(s, row)
    ensures Fires(s, row) ==> row.player.delayFire <= 1 && PlayerStep(s, row).player.delayFire == PLAYER_FIRE_DELAY
    ensures !s.connected ==>
      && PlayerStep(s, row).player.damage == DEAD
      && PlayerStep(s, row).animator.frame == NULL_PERSIST
      && PlayerShots(s, row)[0] == FromEntity(ObjType.PLAYER_BOOM, row.body.position)
    ensures Alive(s, row) <==> PlayerStep(s, row).player.damage == 0
  {
    var e := FromEntity(ObjType.BULLET, PlayerStep(s, row).body.position);
    if !s.connected {
      assert e != FromEntity(ObjType.PLAYER_BOOM, row.body.position);
    }
  }

  /** The ship of a player whose slot is connected, repaired for a new
      wave. */
  function Repaired(s: Slot, row: CpPrefab): CpPrefab
  {
    if s.connected then row.(player := row.player.(damage := 0), animator := row.animator.(frame := PLAYER_SHIP_0))
    else row
  }

  /** The rows after ships are repaired for a new wave. */
  function RepairedRows(slots: seq<Slot>, rows: seq<CpPrefab>): (r: seq<CpPrefab>)
    requires |slots| == 64 && PlayersPlaced(rows)
    ensures |r| == |rows|
  {
    seq(|rows|, k requires 0 <= k < |rows| =>
      if Visits(rows, ACTIVE_PLAYERS, k) then
        assert SlotInRange(rows[k]);
        Repaired(slots[rows[k].player.slot], rows[k])
      else rows[k])
  }

  /** Repair keeps masks and slots, leaves unvisited rows alone, and a
      repaired connected player is undamaged and back on its ship. */
  lemma RepairedShape(slots: seq<Slot>, rows: seq<CpPrefab>)
    requires |slots| == 64 && PlayersPlaced(rows)
    ensures SameShape(rows, RepairedRows(slots, rows))
    ensures forall k :: 0 <= k < |rows| && !Visits(rows, ACTIVE_PLAYERS, k) ==> RepairedRows(slots, rows)[k] == rows[k]
    ensures forall k :: 0 <= k < |rows| && Visits(rows, ACTIVE_PLAYERS, k) && slots[rows[k].player.slot].connected ==>
      RepairedRows(slots, rows)[k].player.damage == 0 && RepairedRows(slots, rows)[k].animator.frame == PLAYER_SHIP_0
  {
  }

  /** A destroy request for every row the pass visits. */
  function DestroyEvents(rows: seq<CpPrefab>, gens: seq<u16>, mask: bv8): (r: seq<seq<Event>>)
    requires |gens| == |rows| <= 0x1_0000
    ensures |r| == |rows|
  {
    seq(|rows|, k requires 0 <= k < |rows| =>
      if Visits(rows, mask, k) then [FromDestroy(Entity(k as u16, gens[k]))] else [])
  }

  // ---------------------------------------------------------------------
  // waves and start-up

  const WAVE_COLUMNS: nat := 24
  const WAVE_ROWS: nat := 20

  /** The enemies of a new wave, column by column: 24 columns 60 apart
      from x = -928, 20 rows 32 apart from y = -100. */
  function EnemyWave(): (r: seq<Event>)
    ensures |r| == WAVE_COLUMNS * WAVE_ROWS
  {
    seq(WAVE_COLUMNS * WAVE_ROWS, k requires 0 <= k < WAVE_COLUMNS * WAVE_ROWS =>
      FromEntity(ObjType.ENEMY, Vector2((k / WAVE_ROWS) * 60 - 960 + 32, (k % WAVE_ROWS) * 32 - 100)))
  }

  /** Every wave enemy has its own position. */
  lemma WavePositionsDistinct(k: nat, l: nat)
    requires k < l < WAVE_COLUMNS * WAVE_ROWS
    ensures EnemyWave()[k].v != EnemyWave()[l].v
    ensures EnemyWave()[k].id == CREATE_ENTITY && EnemyWave()[k].otype == ObjType.ENEMY
  {
    var w := EnemyWave();
    if k / WAVE_ROWS == l / WAVE_ROWS {
      assert k % WAVE_ROWS != l % WAVE_ROWS;
      assert w[k].v.y != w[l].v.y;
    } else {
      assert w[k].v.x != w[l].v.x;
    }
  }

  /** The player of slot `j` at start-up: its ship appears at the slot's
      column on the bottom row. */
  function PlayerStart(j: nat): (e: Event)
    requires j < 64
    ensures e.id == CREATE_ENTITY && e.otype == ObjType.PLAYER && e.key == j
  {
    FromPlayer(j, Vector2(j * 60 - 960 + 32, -500))
  }

  /** Whether a slot takes part from the start of a round. */
  predicate Starts(s: Slot)
  {
    s.connected && s.connectedAtStart
  }

  /** The box of every row with an active body, under its handle. */
  function BoundsParts(rows: seq<CpPrefab>, gens: seq<u16>): (r: seq<seq<Collision.Bounds>>)
    requires |gens| == |rows| <= 0x1_0000
    ensures |r| == |rows|
  {
    seq(|rows|, k requires 0 <= k < |rows| =>
      if Visits(rows, MOVING, k) then
        [Collision.From(Entity(k as u16, gens[k]), rows[k].objectId, rows[k].body.position, rows[k].body.velocity, rows[k].body.size)]
      else [])
  }

  /** The collected boxes sit on distinct rows, each visited and below
      `n`, under the row's current handle. */
  lemma {:induction false} BoundsRows(rows: seq<CpPrefab>, gens: seq<u16>, n: nat)
    requires |gens| == |rows| <= 0x1_0000 && n <= |rows|
    ensures Collision.DistinctRows(Flatten(BoundsParts(rows, gens), n))
    ensures forall x <- Flatten(BoundsParts(rows, gens), n) ::
      x.entity.index < n && Visits(rows, MOVING, x.entity.index as int) && x.entity.generation == gens[x.entity.index]
    decreases n
  {
    if n > 0 {
      BoundsRows(rows, gens, n - 1);
      var parts := BoundsParts(rows, gens);
      assert Flatten(parts, n) == Flatten(parts, n - 1) + parts[n - 1];
    }
  }

  // ---------------------------------------------------------------------
  // collisions

  const SHOT_CLEANER_VS_BULLET: u16 := Collision.ComputeKey(ObjType.SHOT_CLEANER, ObjType.BULLET)
  const SHOT_CLEANER_VS_BAD_BULLET: u16 := Collision.ComputeKey(ObjType.SHOT_CLEANER, ObjType.BAD_BULLET)
  const BULLET_VS_ENEMY: u16 := Collision.ComputeKey(ObjType.BULLET, ObjType.ENEMY)
  const BAD_BULLET_VS_PLAYER: u16 := Collision.ComputeKey(ObjType.BAD_BULLET, ObjType.PLAYER)

  /** The two rows after a collision and what it spawns. */
  datatype Outcome = Outcome(a: CpPrefab, b: CpPrefab, spawn: seq<Event>)

  function WithFrame(row: CpPrefab, f: u16): CpPrefab
  {
    row.(animator := row.animator.(frame := f))
  }

  /** The response to a contact, by key: a shot cleaner nulls the shot it
      touches; a live bullet and a live enemy null each other and leave an
      explosion where the enemy was; a live enemy shot nulls itself and
      kills a player not already dead, leaving a player explosion. Other
      pairs do nothing. */
  function Collide(key: u16, a: CpPrefab, b: CpPrefab): Outcome
  {
    if key == SHOT_CLEANER_VS_BULLET || key == SHOT_CLEANER_VS_BAD_BULLET then
      Outcome(a, if b.animator.frame != NULL_FRAME then WithFrame(b, NULL_FRAME) else b, [])
    else if key == BULLET_VS_ENEMY then
      if a.animator.frame != NULL_FRAME && b.animator.frame != NULL_FRAME then
        Outcome(WithFrame(a, NULL_FRAME), WithFrame(b, NULL_FRAME), [FromEntity(ObjType.BOOM, b.body.position)])
      else Outcome(a, b, [])
    else if key == BAD_BULLET_VS_PLAYER then
      if a.animator.frame != NULL_FRAME && b.animator.frame != NULL_PERSIST then
        Outcome(WithFrame(a, NULL_FRAME), WithFrame(b, NULL_PERSIST).(player := b.player.(damage := DEAD)),
                [FromEntity(ObjType.PLAYER_BOOM, b.body.position)])
      else Outcome(a, b, [])
    else Outcome(a, b, [])
  }

  /** A collision keeps both masks and the player slot, spawns at most one
      explosion, and resolving the same pair again changes nothing and
      spawns nothing. */
  lemma CollideOnce(key: u16, a: CpPrefab, b: CpPrefab)
    ensures var o := Collide(key, a, b);
      && o.a.comp == a.comp && o.b.comp == b.comp
      && o.a.player.slot == a.player.slot && o.b.player.slot == b.player.slot
      && |o.spawn| <= 1
      && (forall e <- o.spawn :: e.id == CREATE_ENTITY && (e.otype == ObjType.BOOM || e.otype == ObjType.PLAYER_BOOM))
      && Collide(key, o.a, o.b) == Outcome(o.a, o.b, [])
  {
  }

  /** A bullet and an enemy both still live are both put on the null frame
      (so both are destroyed on the next tick) and one explosion appears at
      the enemy. */
  lemma BulletKillsEnemy(a: CpPrefab, b: CpPrefab)
    requires a.animator.frame != NULL_FRAME && b.animator.frame != NULL_FRAME
    ensures var o := Collide(BULLET_VS_ENEMY, a, b);
      o.a.animator.frame == NULL_FRAME && o.b.animator.frame == NULL_FRAME &&
      o.spawn == [FromEntity(ObjType.BOOM, b.body.position)]
  {
  }

  /** What a borrowed row reads and writes: the row itself when it carries
      the Component flag, the scratch row otherwise. */
  function Side(row: CpPrefab, scratch: CpPrefab): CpPrefab
  {
    if row.comp & Cf.COMPONENT != Cf.NONE then row else scratch
  }

  /** The response to contact `e` on what its two handles borrow. */
  function ContactOutcome(e: Event, rows: seq<CpPrefab>, sa: CpPrefab, sb: CpPrefab): Outcome
    requires e.a.index < |rows| && e.b.index < |rows|
  {
    Collide(e.key, Side(rows[e.a.index], sa), Side(rows[e.b.index], sb))
  }

  /** The rows after contact `e`: each side written back to its row when
      the row carries the Component flag. */
  function ContactRows(e: Event, rows: seq<CpPrefab>, sa: CpPrefab, sb: CpPrefab): (r: seq<CpPrefab>)
    requires e.a.index < |rows| && e.b.index < |rows|
    ensures |r| == |rows|
  {
    var o := ContactOutcome(e, rows, sa, sb);
    var ia, ib := e.a.index as nat, e.b.index as nat;
    rows[ia := if rows[ia].comp & Cf.COMPONENT != Cf.NONE then o.a else rows[ia]]
        [ib := if rows[ib].comp & Cf.COMPONENT != Cf.NONE then o.b else rows[ib]]
  }

  /** The scratch rows after contact `e`: a side borrowed from its scratch
      row (its row lacks the Component flag) is written back there, with
      the scratch row's own mask kept. */
  function ContactScratch(e: Event, rows: seq<CpPrefab>, sa: CpPrefab, sb: CpPrefab): (CpPrefab, CpPrefab)
    requires e.a.index < |rows| && e.b.index < |rows|
  {
    var o := ContactOutcome(e, rows, sa, sb);
    (if rows[e.a.index].comp & Cf.COMPONENT != Cf.NONE then sa else o.a.(comp := sa.comp),
     if rows[e.b.index].comp & Cf.COMPONENT != Cf.NONE then sb else o.b.(comp := sb.comp))
  }

  /** Whether `x` creates an explosion, the only event a contact queues. */
  predicate IsExplosion(x: Event)
  {
    x.id == CREATE_ENTITY && (x.otype == ObjType.BOOM || x.otype == ObjType.PLAYER_BOOM)
  }

  /** Whether `e` creates an enemy, the only creation that draws from the
      generator (two draws: fire delay and look). */
  predicate CreatesEnemy(e: Event)
  {
    e.id == CREATE_ENTITY && e.otype == ObjType.ENEMY
  }

  /** How many events of the queue create an enemy. */
  function EnemySpawns(s: seq<Event>): (n: nat)
    ensures n <= |s|
  {
    if s == [] then 0 else EnemySpawns(s[..|s| - 1]) + (if CreatesEnemy(s[|s| - 1]) then 1 else 0)
  }

  /** A contact keeps every mask and player slot, and spawns at most one
      explosion. */
  lemma ContactShape(e: Event, rows: seq<CpPrefab>, sa: CpPrefab, sb: CpPrefab)
    requires e.a.index < |rows| && e.b.index < |rows|
    ensures SameShape(rows, ContactRows(e, rows, sa, sb))
    ensures var o := ContactOutcome(e, rows, sa, sb);
      && |o.spawn| <= 1
      && forall x <- o.spawn :: IsExplosion(x)
  {
    CollideOnce(e.key, Side(rows[e.a.index], sa), Side(rows[e.b.index], sb));
  }

  // ---------------------------------------------------------------------
  // spawning

  const ENEMY_LOOKS: i32 := 11

  /** The fire delay a created enemy takes: the first draw from generator
      state `s`, modulo 2000. */
  function EnemyDelay(s: Mersenne.Snapshot): (d: u16)
    requires Mersenne.InRange(s)
    ensures d < 2000
  {
    Mersenne.Drawn(s) % 2000
  }

  /** The look a created enemy takes: the second draw reduced into
      0..=ENEMY_LOOKS, plus 2, which is one of the enemy frames. */
  function EnemyLook(s: Mersenne.Snapshot): (f: u16)
    requires Mersenne.InRange(s)
    ensures ENEMY_00_A <= f <= ENEMY_00_B
  {
    Mersenne.Drawn(Mersenne.Stepped(s)) % (ENEMY_LOOKS as int + 1) + 2
  }

  /** The delay a creation of kind `otype` gives its row: drawn for an
      enemy, and 0 (no draw) for every other kind. */
  function SpawnDelay(s: Mersenne.Snapshot, otype: u8): u16
    requires Mersenne.InRange(s)
  {
    if otype == ObjType.ENEMY then EnemyDelay(s) else 0
  }

  /** The look a creation of kind `otype` gives its row: drawn for an
      enemy, and 0 (no draw) for every other kind. */
  function SpawnLook(s: Mersenne.Snapshot, otype: u8): u16
    requires Mersenne.InRange(s)
  {
    if otype == ObjType.ENEMY then EnemyLook(s) else 0
  }

  /** A freshly stamped row placed by its create event: the position from
      the event, a player's slot from the event's key, and an enemy's fire
      delay and look from two draws. */
  function Placed(row: CpPrefab, e: Event, delay: u16, look: u16): CpPrefab
    requires row.comp & Cf.PLAYER != Cf.NONE ==> e.key < 0x80
  {
    var r1 := if row.comp & Cf.BODY != Cf.NONE then row.(body := row.body.(position := e.v)) else row;
    var r2 := if r1.comp & Cf.PLAYER != Cf.NONE then r1.(player := r1.player.(slot := e.key as i8)) else r1;
    if r2.comp & Cf.ENEMY != Cf.NONE then r2.(enemy := r2.enemy.(delayFire := delay), animator := r2.animator.(frame := look))
    else r2
  }

  /** A spawned object of a non-null kind has the prefab's mask and kind,
      sits at the event's position, a player has the event's slot, and an
      enemy has the given delay and look; other fields are the prefab's. */
  lemma SpawnedRow(kind: u8, old_row: CpPrefab, e: Event, delay: u16, look: u16)
    requires ObjType.NULL < kind < ObjType.COUNT && (kind == ObjType.PLAYER ==> e.key < 0x80)
    ensures var r := Placed(Stamped(Prefab(kind), old_row), e, delay, look);
      && r.comp == Prefab(kind).comp && r.objectId == kind
      && r.body.position == e.v
      && (kind == ObjType.PLAYER ==> r.player.slot == e.key && r.player.damage == 0)
      && (kind == ObjType.ENEMY ==> r.enemy.delayFire == delay && r.animator.frame == look)
      && (kind != ObjType.ENEMY && kind != ObjType.SHOT_CLEANER ==> r.animator == Prefab(kind).animator)
  {
  }

  /** The row a creation at `at` leaves: the grown row, stamped with the
      prefab of the event's kind and placed. */
  function SpawnedRows(rows: seq<CpPrefab>, n: nat, at: nat, e: Event, delay: u16, look: u16): (r: seq<CpPrefab>)
    requires at < n && e.otype < ObjType.COUNT && (e.otype == ObjType.PLAYER ==> e.key < 0x80)
    ensures |r| == n
  {
    var g := Grown(rows, n, at);
    g[at := Placed(Stamped(Prefab(e.otype), g[at]), e, delay, look)]
  }

  /** A second update at the same index replaces the first. */
  lemma UpdateTwice<T>(s: seq<T>, i: nat, x: T, y: T)
    requires i < |s|
    ensures s[i := x][i := y] == s[i := y]
  {
  }

  /** A creation keeps every player in a slot when a created player's slot
      is one of the 64. */
  lemma SpawnKeepsPlayers(rows: seq<CpPrefab>, n: nat, at: nat, e: Event, delay: u16, look: u16)
    requires |rows| <= n && at < n && e.otype < ObjType.COUNT && (e.otype == ObjType.PLAYER ==> e.key < 64)
    requires PlayersPlaced(rows)
    ensures PlayersPlaced(SpawnedRows(rows, n, at, e, delay, look))
  {
    var r := SpawnedRows(rows, n, at, e, delay, look);
    forall k | 0 <= k < n && r[k].comp & Cf.PLAYER != Cf.NONE ensures SlotInRange(r[k]) {
      if k != at {
        assert k < |rows| && r[k] == rows[k];
      }
    }
  }

  // ---------------------------------------------------------------------
  // queued events

  const SLOT_COUNT: nat := 64

  /** What resolving an event needs of it for the source not to panic: a
      handle it dereferences lies inside the store, a contact joins two
      different rows, a created kind has a prefab, and a created player
      names one of the 64 slots. */
  predicate EventFits(e: Event, n: nat)
  {
    && (e.id == DESTROY_ENTITY ==> e.a.index == 0 || e.a.index < n)
    && (e.id == CONTACT ==>
          && (e.a.index == 0 || e.a.index < n) && (e.b.index == 0 || e.b.index < n)
          && e.a.index != e.b.index)
    && (e.id == CREATE_ENTITY ==> e.otype < ObjType.COUNT && (e.otype == ObjType.PLAYER ==> e.key < SLOT_COUNT))
  }

  predicate EventsFit(s: seq<Event>, n: nat)
  {
    forall e <- s :: EventFits(e, n)
  }

  /** Events that fit a store still fit it once it has grown. */
  lemma FitsGrow(s: seq<Event>, n: nat, m: nat)
    requires EventsFit(s, n) && n <= m
    ensures EventsFit(s, m)
  {
    forall e <- s ensures EventFits(e, m) {
      assert EventFits(e, n);
    }
  }

  /** Parts whose events all fit flatten to a queue that fits. */
  lemma FlattenFits(parts: seq<seq<Event>>, n: nat, m: nat)
    requires forall k, e :: 0 <= k < |parts| && e in parts[k] ==> EventFits(e, m)
    ensures EventsFit(Flatten(parts, n), m)
  {
    FlattenMembers(parts, n);
  }

  lemma {:induction false} FlattenMembers<T>(parts: seq<seq<T>>, n: nat)
    ensures forall x <- Flatten(parts, n) :: exists k :: 0 <= k < |parts| && x in parts[k]
    decreases n
  {
    if n > 0 {
      FlattenMembers(parts, n - 1);
    }
  }

  /** The destroy requests of the animator pass name rows of the store. */
  lemma AnimatorEventsFit(table: map<u16, u16>, rows: seq<CpPrefab>, gens: seq<u16>)
    requires |gens| == |rows| <= 0x1_0000
    ensures EventsFit(Flatten(AnimatorEvents(table, rows, gens), |rows|), |rows|)
  {
    FlattenFits(AnimatorEvents(table, rows, gens), |rows|, |rows|);
  }

  /** The destroy requests of a sweep over a mask name rows of the store. */
  lemma DestroyEventsFit(rows: seq<CpPrefab>, gens: seq<u16>, mask: bv8)
    requires |gens| == |rows| <= 0x1_0000
    ensures EventsFit(Flatten(DestroyEvents(rows, gens, mask), |rows|), |rows|)
  {
    FlattenFits(DestroyEvents(rows, gens, mask), |rows|, |rows|);
  }

  /** Players queue only explosions and bullets. */
  lemma PlayerEventsFit(slots: seq<Slot>, rows: seq<CpPrefab>, n: nat)
    requires |slots| == SLOT_COUNT && PlayersPlaced(rows)
    ensures EventsFit(Flatten(PlayerEvents(slots, rows), |rows|), n)
  {
    FlattenFits(PlayerEvents(slots, rows), |rows|, n);
  }

  /** Enemies queue only enemy shots. */
  lemma EnemyEventsFit(rows: seq<CpPrefab>, n: nat)
    ensures EventsFit(Flatten(EnemyEvents(rows), |rows|), n)
  {
    FlattenFits(EnemyEvents(rows), |rows|, n);
  }

  /** A wave is made of enemy creations only. */
  lemma WaveFit(n: nat)
    ensures EventsFit(EnemyWave(), n)
  {
    forall e <- EnemyWave() ensures EventFits(e, n) {
      var k :| 0 <= k < |EnemyWave()| && EnemyWave()[k] == e;
    }
  }
}
