/** Component flags: which parts of a store row are live. */
module Cf {
  const NONE: bv8 := 0
  const COMPONENT: bv8 := 1
  const OBJECT_ID: bv8 := 2
  const BODY: bv8 := 4
  const PLAYER: bv8 := 8
  const ENEMY: bv8 := 16
  const ANIMATOR: bv8 := 32
  const ACTIVE: bv8 := 64
}

/** Object kinds; a kind also indexes the prefab table. */
module ObjType {
  import opened Prelude

  const NULL: u8 := 0
  const PLAYER: u8 := 1
  const ENEMY: u8 := 2
  const BULLET: u8 := 3
  const BAD_BULLET: u8 := 4
  const BOOM: u8 := 5
  const PLAYER_BOOM: u8 := 6
  const SHOT_CLEANER: u8 := 7
  const COUNT: u8 := 8
}

/** Entity handles, the per-row component records, events and the
    per-slot input state. */
module Components {
  import opened Prelude
  import opened Vectors
  import ObjType

  /** A handle: a row index and the generation the row had when the handle
      was made. Index 0 is the null handle. */
  datatype Entity = Entity(index: u16, generation: u16)
  {
    predicate IsNull()
    {
      index == 0
    }
  }

  const NULL_ENTITY: Entity := Entity(0, 0)

  datatype Animator = Animator(frame: u16, count: u16)
  datatype Body = Body(position: Vector2, velocity: Vector2, size: Vector2)
  datatype Player = Player(slot: i8, delayFire: u16, damage: u16)
  datatype Enemy = Enemy(direction: i8, counter: u8, delayFire: u16)

  const DEFAULT_ANIMATOR: Animator := Animator(0, 0)
  const DEFAULT_BODY: Body := Body(ZERO, ZERO, ZERO)
  const DEFAULT_PLAYER: Player := Player(0, 0, 0)
  const DEFAULT_ENEMY: Enemy := Enemy(0, 0, 0)

  /** One row's worth of components: the record a prefab stamps and the
      contents of each of the store's two scratch rows. */
  datatype CpPrefab = CpPrefab(
    comp: bv8,
    objectId: u8,
    body: Body,
    player: Player,
    enemy: Enemy,
    animator: Animator)

  const DEFAULT_PREFAB: CpPrefab :=
    CpPrefab(0, 0, DEFAULT_BODY, DEFAULT_PLAYER, DEFAULT_ENEMY, DEFAULT_ANIMATOR)

  const EVENT_NULL: u8 := 0
  const DESTROY_ENTITY: u8 := 1
  const CREATE_ENTITY: u8 := 2
  const CONTACT: u8 := 3
  const SHOOT: u8 := 4

  datatype Event = Event(id: u8, a: Entity, b: Entity, key: u16, otype: u8, v: Vector2)

  function FromDestroy(a: Entity): Event
  {
    Event(DESTROY_ENTITY, a, NULL_ENTITY, 0, ObjType.NULL, ZERO)
  }

  function FromContact(key: u16, a: Entity, b: Entity): Event
  {
    Event(CONTACT, a, b, key, ObjType.NULL, ZERO)
  }

  function FromEntity(otype: u8, v: Vector2): Event
  {
    Event(CREATE_ENTITY, NULL_ENTITY, NULL_ENTITY, 0, otype, v)
  }

  function FromPlayer(key: u16, v: Vector2): Event
  {
    Event(CREATE_ENTITY, NULL_ENTITY, NULL_ENTITY, key, ObjType.PLAYER, v)
  }

  /** Decoded input of one player slot. */
  datatype Control = Control(state: u8, x: i16, nonEmpty: bool, left: bool, right: bool, primary: bool, debug: u32)

  /** A player slot: connection state, the raw 64-bit input word (as its
      bit pattern) and the decoded input. */
  datatype Slot = Slot(connected: bool, connectedAtStart: bool, broken: bool, raw: bv64, input: Control)

  datatype GlobalState = GlobalState(playing: bool, enemySpeed: i32, enemyCount: i32, textType: u16, textAnimate: i32)

  const DEFAULT_CONTROL: Control := Control(0, 0, false, false, false, false, 0)
  const DEFAULT_SLOT: Slot := Slot(false, false, false, 0, DEFAULT_CONTROL)
  const DEFAULT_GLOBAL: GlobalState := GlobalState(false, 0, 0, 0, 0)
}

/** Animation frame numbers, tuning constants and the prefab table. */
module GameData {
  import opened Prelude
  import opened Vectors
  import opened Components
  import Cf
  import ObjType

  const TEXT_ANIMATE_COUNTER: i32 := 8333333
  const ENEMY_TYPE_COUNT: u16 := 11

  const NULL_FRAME: u16 := 0
  const NULL_PERSIST: u16 := 1
  const ENEMY_00_A: u16 := 2
  const ENEMY_00_B: u16 := 13
  const PLAYER_SHIP_0: u16 := 24
  const PLAYER_SHIP_1: u16 := 25
  const PLAYER_SHOT: u16 := 26
  const ENEMY_SHOT: u16 := 27
  const PLAYER_BOOM_0: u16 := 30
  const PLAYER_BOOM_6: u16 := 36
  const ENEMY_BOOM_0: u16 := 37
  const ENEMY_BOOM_6: u16 := 43
  const LOCAL_PLAYER_0: u16 := 44
  const LOCAL_PLAYER_1: u16 := 45
  const TEXT_READY: u16 := 46
  const TEXT_NO: u16 := 47
  const TEXT_GREAT: u16 := 48
  const END_LIST: u16 := 51

  /** The flags every moving, drawn object carries. */
  const SPRITE: bv8 := Cf.ACTIVE | Cf.COMPONENT | Cf.BODY | Cf.OBJECT_ID | Cf.ANIMATOR

  function BodyOfSize(w: i32, h: i32): Body
  {
    DEFAULT_BODY.(size := Vector2(w, h))
  }

  /** The prefab of object kind `kind`. */
  function Prefab(kind: u8): (r: CpPrefab)
    requires kind < ObjType.COUNT
    ensures r.comp & Cf.COMPONENT != 0
    ensures kind != ObjType.NULL ==> r.objectId == kind
    ensures kind != ObjType.NULL ==>
      r.comp & (Cf.ACTIVE | Cf.BODY | Cf.OBJECT_ID) == Cf.ACTIVE | Cf.BODY | Cf.OBJECT_ID
    ensures (r.comp & Cf.ANIMATOR != 0) <==> kind != ObjType.NULL && kind != ObjType.SHOT_CLEANER
    ensures (r.comp & Cf.PLAYER != 0) <==> kind == ObjType.PLAYER
    ensures (r.comp & Cf.ENEMY != 0) <==> kind == ObjType.ENEMY
    ensures r.comp & Cf.ANIMATOR != 0 ==> r.animator.frame != NULL_FRAME
  {
    match kind
    case 0 => DEFAULT_PREFAB.(comp := Cf.COMPONENT, objectId := ObjType.NULL)
    case 1 => CpPrefab(SPRITE | Cf.PLAYER, ObjType.PLAYER, BodyOfSize(16, 10),
                Player(-1, 0, 0), DEFAULT_ENEMY, Animator(PLAYER_SHIP_0, 0))
    case 2 => CpPrefab(SPRITE | Cf.ENEMY, ObjType.ENEMY, BodyOfSize(16, 10),
                DEFAULT_PLAYER, Enemy(1, 0, 0), Animator(PLAYER_SHIP_0, 0))
    case 3 => CpPrefab(SPRITE, ObjType.BULLET, BodyOfSize(12, 20).(velocity := Vector2(0, 16)),
                DEFAULT_PLAYER, DEFAULT_ENEMY, Animator(PLAYER_SHOT, 0))
    case 4 => CpPrefab(SPRITE, ObjType.BAD_BULLET, BodyOfSize(7, 7).(velocity := Vector2(0, -8)),
                DEFAULT_PLAYER, DEFAULT_ENEMY, Animator(ENEMY_SHOT, 0))
    case 5 => CpPrefab(SPRITE, ObjType.BOOM, BodyOfSize(14, 14),
                DEFAULT_PLAYER, DEFAULT_ENEMY, Animator(ENEMY_BOOM_0, 0))
    case 6 => CpPrefab(SPRITE, ObjType.PLAYER_BOOM, BodyOfSize(22, 21),
                DEFAULT_PLAYER, DEFAULT_ENEMY, Animator(PLAYER_BOOM_0, 0))
    case 7 => CpPrefab(Cf.ACTIVE | Cf.COMPONENT | Cf.BODY | Cf.OBJECT_ID, ObjType.SHOT_CLEANER,
                BodyOfSize(960, 540), DEFAULT_PLAYER, DEFAULT_ENEMY, DEFAULT_ANIMATOR)
  }
}
