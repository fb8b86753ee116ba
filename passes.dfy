/** The stages of a tick that walk the store with a filtered cursor. Each
    pass borrows every matching row in index order, rewrites it by the
    stage's row rule and collects what the stage emits; each is proved to
    leave the store holding the stage's row function of the old rows and
    to emit the stage's events in row order. */
module Passes {
  import opened Prelude
  import opened Components
  import opened GameData
  import opened Store
  import opened Systems
  import Collision
  import Mersenne
  import Cf
  import ObjType

  /** Part-way through a filtered pass over `cp`: the store keeps the
      generations, masks and scratch rows it had (`fixed`), the rows before
      the cursor are those of `want` and the others still those of `rows0`,
      `want` differs from `rows0` only in rows the pass visits, and `r` is
      the borrowed row under the cursor, if any. */
  ghost predicate Passing(cp: Cp, it: CpIter, r: Option<CpReference>, mask: bv8,
                          fixed: (seq<u16>, seq<bv8>, CpPrefab, CpPrefab), rows0: seq<CpPrefab>, want: seq<CpPrefab>)
    reads cp, cp.manager, it
  {
    && it.cp == cp && it.mask == mask && cp.Valid() && cp.Fixed() == fixed
    && |rows0| == |want| == |cp.comp|
    && (forall k :: 0 <= k < |rows0| && !VisitsRow(cp.comp, mask, k) ==> want[k] == rows0[k])
    && (r.Some? ==>
          && VisitsRow(cp.comp, mask, it.index)
          && r.value == CpReference(Entity(it.index as u16, cp.generation[it.index]), Row(it.index)))
    && (r.None? ==> it.index >= |cp.comp|)
    && cp.Rows() == Upto(want, rows0, it.index)
  }

  /** The rows a filtered pass visits are the rows whose masks match. */
  lemma VisitsAgree(cp: Cp, rows: seq<CpPrefab>, mask: bv8)
    requires cp.Valid() && rows == cp.Rows()
    ensures forall k :: Visits(rows, mask, k) == VisitsRow(cp.comp, mask, k)
  {
    forall k ensures Visits(rows, mask, k) == VisitsRow(cp.comp, mask, k) {
      if 0 <= k < |rows| {
        assert rows[k] == cp.RowAt(k);
      }
    }
  }

  /** Starts a pass: the cursor on the first matching row, nothing
      changed yet. */
  method Begin(cp: Cp, mask: bv8, ghost rows0: seq<CpPrefab>, ghost want: seq<CpPrefab>)
    returns (it: CpIter, r: Option<CpReference>)
    requires cp.Valid() && mask != Cf.NONE && rows0 == cp.Rows() && |want| == |rows0|
    requires forall k :: 0 <= k < |rows0| && !VisitsRow(cp.comp, mask, k) ==> want[k] == rows0[k]
    ensures fresh(it)
    ensures Passing(cp, it, r, mask, cp.Fixed(), rows0, want)
    ensures forall k :: 0 <= k < it.index ==> !VisitsRow(cp.comp, mask, k)
  {
    it := new CpIter(mask, cp);
    r := it.Next();
    UptoSkip(want, rows0, 0, it.index);
    UptoEnds(want, rows0, 0);
  }

  /** Part-way through a pass, the row under the cursor is still the row
      the pass started from. */
  lemma UnderCursor(cp: Cp, it: CpIter, r: Option<CpReference>, mask: bv8,
                    fixed: (seq<u16>, seq<bv8>, CpPrefab, CpPrefab), rows0: seq<CpPrefab>, want: seq<CpPrefab>)
    requires Passing(cp, it, r, mask, fixed, rows0, want) && r.Some?
    ensures it.index < |rows0| && cp.Get(r.value.target) == rows0[it.index]
    ensures cp.comp[it.index] == rows0[it.index].comp
  {
    assert cp.Rows()[it.index] == cp.RowAt(it.index);
  }

  /** One visit of a pass: the row under the cursor takes its value in
      `want` and the cursor moves on, past rows the pass does not visit. */
  method Visit(cp: Cp, it: CpIter, r: Option<CpReference>, v: CpPrefab, mask: bv8,
               ghost rows0: seq<CpPrefab>, ghost want: seq<CpPrefab>)
    returns (r': Option<CpReference>)
    requires Passing(cp, it, r, mask, cp.Fixed(), rows0, want) && r.Some? && mask != Cf.NONE
    requires v == want[it.index] && v.comp == cp.comp[it.index]
    modifies cp, it
    ensures Passing(cp, it, r', mask, old(cp.Fixed()), rows0, want)
    ensures old(it.index) < it.index
    ensures forall k :: old(it.index) < k < it.index ==> !VisitsRow(cp.comp, mask, k)
  {
    cp.Put(r.value.target, v);
    ghost var i := it.index;
    r' := it.Next();
    UptoStep(want, rows0, i, it.index);
  }

  // ---------------------------------------------------------------------
  // integrate

  /** The integrate pass: every row with an active body is moved by its
      velocity. */
  method MoveBodies(cp: Cp)
    requires cp.Valid()
    modifies cp
    ensures cp.Valid() && cp.Fixed() == old(cp.Fixed())
    ensures cp.Rows() == Integrated(old(cp.Rows()))
  {
    ghost var rows0 := cp.Rows();
    ghost var want := Integrated(rows0);
    VisitsAgree(cp, rows0, MOVING);
    var it, r := Begin(cp, MOVING, rows0, want);
    while r.Some?
      invariant Passing(cp, it, r, MOVING, old(cp.Fixed()), rows0, want)
      decreases |rows0| - it.index
    {
      r := MoveStep(cp, it, r, rows0, want);
    }
    UptoEnds(want, rows0, it.index);
  }

  method MoveStep(cp: Cp, it: CpIter, r: Option<CpReference>, ghost rows0: seq<CpPrefab>, ghost want: seq<CpPrefab>)
    returns (r': Option<CpReference>)
    requires Passing(cp, it, r, MOVING, cp.Fixed(), rows0, want) && r.Some?
    requires want == Integrated(rows0)
    modifies cp, it
    ensures Passing(cp, it, r', MOVING, old(cp.Fixed()), rows0, want)
    ensures old(it.index) < it.index
  {
    var row := cp.Get(r.value.target);
    cp.Put(r.value.target, MovedRow(row));
    ghost var i := it.index;
    r' := it.Next();
    UptoStep(want, rows0, i, it.index);
  }

  // ---------------------------------------------------------------------
  // animators

  /** The animator pass: every row with an active body has its animator
      ticked, and a destroy request is emitted for each row that ends on
      the null frame. */
  method TickAnimators(cp: Cp, table: map<u16, u16>) returns (emitted: seq<Event>)
    requires cp.Valid()
    modifies cp
    ensures cp.Valid() && cp.Fixed() == old(cp.Fixed())
    ensures cp.Rows() == AnimatedRows(table, old(cp.Rows()))
    ensures emitted == Flatten(AnimatorEvents(table, old(cp.Rows()), old(cp.generation)), |old(cp.comp)|)
  {
    ghost var rows0 := cp.Rows();
    ghost var want := AnimatedRows(table, rows0);
    ghost var parts := AnimatorEvents(table, rows0, cp.generation);
    VisitsAgree(cp, rows0, MOVING);
    var it, r := Begin(cp, MOVING, rows0, want);
    emitted := [];
    FlattenSkip(parts, 0, it.index);
    while r.Some?
      invariant Passing(cp, it, r, MOVING, old(cp.Fixed()), rows0, want)
      invariant emitted == Flatten(parts, it.index)
      decreases |rows0| - it.index
    {
      r, emitted := TickStep(cp, it, r, table, emitted, rows0, want, parts);
    }
    UptoEnds(want, rows0, it.index);
    FlattenSkip(parts, |rows0|, it.index);
  }

  method TickStep(cp: Cp, it: CpIter, r: Option<CpReference>, table: map<u16, u16>, emitted: seq<Event>,
                  ghost rows0: seq<CpPrefab>, ghost want: seq<CpPrefab>, ghost parts: seq<seq<Event>>)
    returns (r': Option<CpReference>, emitted': seq<Event>)
    requires Passing(cp, it, r, MOVING, cp.Fixed(), rows0, want) && r.Some?
    requires forall k :: Visits(rows0, MOVING, k) == VisitsRow(cp.comp, MOVING, k)
    requires want == AnimatedRows(table, rows0) && parts == AnimatorEvents(table, rows0, cp.generation)
    requires emitted == Flatten(parts, it.index)
    modifies cp, it
    ensures Passing(cp, it, r', MOVING, old(cp.Fixed()), rows0, want)
    ensures emitted' == Flatten(parts, it.index)
    ensures old(it.index) < it.index
  {
    ghost var i := it.index;
    UnderCursor(cp, it, r, MOVING, cp.Fixed(), rows0, want);
    var row := cp.Get(r.value.target);
    var a := Animated(table, row.animator);
    emitted' := emitted;
    if a.frame == NULL_FRAME {
      emitted' := emitted' + [FromDestroy(r.value.entity)];
    }
    ghost var gens := cp.generation;
    r' := Visit(cp, it, r, row.(animator := a), MOVING, rows0, want);
    AnimatorAdvance(table, rows0, gens, i, it.index);
  }

  // ---------------------------------------------------------------------
  // enemies

  /** The enemy pass at speed `speed`: every active enemy takes its step,
      its shots are emitted, and the enemies are counted. */
  method StepEnemies(cp: Cp, speed: i32) returns (emitted: seq<Event>, count: nat)
    requires cp.Valid()
    modifies cp
    ensures cp.Valid() && cp.Fixed() == old(cp.Fixed())
    ensures cp.Rows() == EnemyRows(speed, old(cp.Rows()))
    ensures emitted == Flatten(EnemyEvents(old(cp.Rows())), |old(cp.comp)|)
    ensures count == VisitCount(old(cp.Rows()), ENEMIES, |old(cp.comp)|)
  {
    ghost var rows0 := cp.Rows();
    ghost var want := EnemyRows(speed, rows0);
    ghost var parts := EnemyEvents(rows0);
    VisitsAgree(cp, rows0, ENEMIES);
    var it, r := Begin(cp, ENEMIES, rows0, want);
    emitted, count := [], 0;
    FlattenSkip(parts, 0, it.index);
    VisitCountSkip(rows0, ENEMIES, 0, it.index);
    while r.Some?
      invariant Passing(cp, it, r, ENEMIES, old(cp.Fixed()), rows0, want)
      invariant emitted == Flatten(parts, it.index)
      invariant count == VisitCount(rows0, ENEMIES, it.index)
      decreases |rows0| - it.index
    {
      r, emitted, count := EnemyStepAt(cp, it, r, speed, emitted, count, rows0, want, parts);
    }
    UptoEnds(want, rows0, it.index);
    FlattenSkip(parts, |rows0|, it.index);
    VisitCountSkip(rows0, ENEMIES, |rows0|, it.index);
  }

  method EnemyStepAt(cp: Cp, it: CpIter, r: Option<CpReference>, speed: i32, emitted: seq<Event>, count: nat,
                     ghost rows0: seq<CpPrefab>, ghost want: seq<CpPrefab>, ghost parts: seq<seq<Event>>)
    returns (r': Option<CpReference>, emitted': seq<Event>, count': nat)
    requires Passing(cp, it, r, ENEMIES, cp.Fixed(), rows0, want) && r.Some?
    requires forall k :: Visits(rows0, ENEMIES, k) == VisitsRow(cp.comp, ENEMIES, k)
    requires want == EnemyRows(speed, rows0) && parts == EnemyEvents(rows0)
    requires emitted == Flatten(parts, it.index) && count == VisitCount(rows0, ENEMIES, it.index)
    modifies cp, it
    ensures Passing(cp, it, r', ENEMIES, old(cp.Fixed()), rows0, want)
    ensures emitted' == Flatten(parts, it.index) && count' == VisitCount(rows0, ENEMIES, it.index)
    ensures old(it.index) < it.index
  {
    ghost var i := it.index;
    UnderCursor(cp, it, r, ENEMIES, cp.Fixed(), rows0, want);
    var row := cp.Get(r.value.target);
    emitted' := emitted + EnemyShot(row);
    count' := count + 1;
    r' := Visit(cp, it, r, EnemyStep(speed, row), ENEMIES, rows0, want);
    EnemyAdvance(speed, rows0, i, it.index);
    VisitCountAdvance(rows0, ENEMIES, i, it.index);
  }

  // ---------------------------------------------------------------------
  // players

  /** The player pass: every active player takes its step under its
      slot's input, its explosion and shot are emitted, and whether any
      of them is live is recorded. */
  method StepPlayers(cp: Cp, slots: seq<Slot>) returns (emitted: seq<Event>, live: bool)
    requires cp.Valid() && |slots| == 64 && PlayersPlaced(cp.Rows())
    modifies cp
    ensures cp.Valid() && cp.Fixed() == old(cp.Fixed())
    ensures cp.Rows() == PlayerRows(slots, old(cp.Rows()))
    ensures emitted == Flatten(PlayerEvents(slots, old(cp.Rows())), |old(cp.comp)|)
    ensures live == LiveBelow(slots, old(cp.Rows()), |old(cp.comp)|)
  {
    ghost var rows0 := cp.Rows();
    ghost var want := PlayerRows(slots, rows0);
    ghost var parts := PlayerEvents(slots, rows0);
    VisitsAgree(cp, rows0, PLAYERS);
    var it, r := Begin(cp, PLAYERS, rows0, want);
    emitted, live := [], false;
    FlattenSkip(parts, 0, it.index);
    LiveBelowSkip(slots, rows0, 0, it.index);
    while r.Some?
      invariant Passing(cp, it, r, PLAYERS, old(cp.Fixed()), rows0, want)
      invariant emitted == Flatten(parts, it.index)
      invariant live == LiveBelow(slots, rows0, it.index)
      decreases |rows0| - it.index
    {
      r, emitted, live := PlayerStepAt(cp, it, r, slots, emitted, live, rows0, want);
    }
    UptoEnds(want, rows0, it.index);
    FlattenSkip(parts, |rows0|, it.index);
    LiveBelowSkip(slots, rows0, |rows0|, it.index);
  }

  method PlayerStepAt(cp: Cp, it: CpIter, r: Option<CpReference>, slots: seq<Slot>, emitted: seq<Event>, live: bool,
                      ghost rows0: seq<CpPrefab>, ghost want: seq<CpPrefab>)
    returns (r': Option<CpReference>, emitted': seq<Event>, live': bool)
    requires Passing(cp, it, r, PLAYERS, cp.Fixed(), rows0, want) && r.Some?
    requires forall k :: Visits(rows0, PLAYERS, k) == VisitsRow(cp.comp, PLAYERS, k)
    requires |slots| == 64 && PlayersPlaced(rows0) && want == PlayerRows(slots, rows0)
    requires emitted == Flatten(PlayerEvents(slots, rows0), it.index) && live == LiveBelow(slots, rows0, it.index)
    modifies cp, it
    ensures Passing(cp, it, r', PLAYERS, old(cp.Fixed()), rows0, want)
    ensures emitted' == Flatten(PlayerEvents(slots, rows0), it.index) && live' == LiveBelow(slots, rows0, it.index)
    ensures old(it.index) < it.index
  {
    ghost var i := it.index;
    UnderCursor(cp, it, r, PLAYERS, cp.Fixed(), rows0, want);
    PlayerPlan(slots, rows0, i);
    var row := cp.Get(r.value.target);
    var s := slots[row.player.slot];
    r' := Visit(cp, it, r, PlayerStep(s, row), PLAYERS, rows0, want);
    emitted' := emitted + PlayerShots(s, row);
    live' := live || Alive(s, row);
    PlayerAdvance(slots, rows0, i, it.index);
  }

  /** The repair pass of a new wave: every active player whose slot is
      connected is made undamaged and put back on its ship frame. */
  method RepairShips(cp: Cp, slots: seq<Slot>)
    requires cp.Valid() && |slots| == 64 && PlayersPlaced(cp.Rows())
    modifies cp
    ensures cp.Valid() && cp.Fixed() == old(cp.Fixed())
    ensures cp.Rows() == RepairedRows(slots, old(cp.Rows()))
  {
    ghost var rows0 := cp.Rows();
    ghost var want := RepairedRows(slots, rows0);
    VisitsAgree(cp, rows0, ACTIVE_PLAYERS);
    var it, r := Begin(cp, ACTIVE_PLAYERS, rows0, want);
    while r.Some?
      invariant Passing(cp, it, r, ACTIVE_PLAYERS, old(cp.Fixed()), rows0, want)
      decreases |rows0| - it.index
    {
      r := RepairStep(cp, it, r, slots, rows0, want);
    }
    UptoEnds(want, rows0, it.index);
  }

  method RepairStep(cp: Cp, it: CpIter, r: Option<CpReference>, slots: seq<Slot>,
                    ghost rows0: seq<CpPrefab>, ghost want: seq<CpPrefab>)
    returns (r': Option<CpReference>)
    requires Passing(cp, it, r, ACTIVE_PLAYERS, cp.Fixed(), rows0, want) && r.Some?
    requires forall k :: Visits(rows0, ACTIVE_PLAYERS, k) == VisitsRow(cp.comp, ACTIVE_PLAYERS, k)
    requires |slots| == 64 && PlayersPlaced(rows0) && want == RepairedRows(slots, rows0)
    modifies cp, it
    ensures Passing(cp, it, r', ACTIVE_PLAYERS, old(cp.Fixed()), rows0, want)
    ensures old(it.index) < it.index
  {
    var row := cp.Get(r.value.target);
    assert SlotInRange(rows0[it.index]);
    cp.Put(r.value.target, Repaired(slots[row.player.slot], row));
    ghost var i := it.index;
    r' := it.Next();
    UptoStep(want, rows0, i, it.index);
  }

  // ---------------------------------------------------------------------
  // read-only passes

  /** A destroy request for every row matching `mask`, in index order. */
  method DestroyEvery(cp: Cp, mask: bv8) returns (emitted: seq<Event>)
    requires cp.Valid() && mask != Cf.NONE
    ensures emitted == Flatten(DestroyEvents(cp.Rows(), cp.generation, mask), |cp.comp|)
  {
    ghost var rows := cp.Rows();
    ghost var parts := DestroyEvents(rows, cp.generation, mask);
    VisitsAgree(cp, rows, mask);
    var it := new CpIter(mask, cp);
    var r := it.Next();
    emitted := [];
    FlattenSkip(parts, 0, it.index);
    while r.Some?
      invariant it.cp == cp && it.mask == mask
      invariant r.Some? ==> VisitsRow(cp.comp, mask, it.index) && r.value.entity == Entity(it.index as u16, cp.generation[it.index])
      invariant r.None? ==> it.index >= |cp.comp|
      invariant emitted == Flatten(parts, it.index)
      decreases |cp.comp| - it.index
    {
      emitted := emitted + [FromDestroy(r.value.entity)];
      ghost var i := it.index;
      r := it.Next();
      FlattenStep(parts, i, it.index);
    }
    FlattenSkip(parts, |rows|, it.index);
  }

  /** The box of every row with an active body, in index order. */
  method CollectBounds(cp: Cp) returns (bounds: seq<Collision.Bounds>)
    requires cp.Valid()
    ensures bounds == Flatten(BoundsParts(cp.Rows(), cp.generation), |cp.comp|)
  {
    ghost var rows := cp.Rows();
    ghost var parts := BoundsParts(rows, cp.generation);
    VisitsAgree(cp, rows, MOVING);
    var it := new CpIter(MOVING, cp);
    var r := it.Next();
    bounds := [];
    FlattenSkip(parts, 0, it.index);
    while r.Some?
      invariant it.cp == cp && it.mask == MOVING
      invariant r.Some? ==>
        && VisitsRow(cp.comp, MOVING, it.index)
        && r.value == CpReference(Entity(it.index as u16, cp.generation[it.index]), Row(it.index))
      invariant r.None? ==> it.index >= |cp.comp|
      invariant bounds == Flatten(parts, it.index)
      decreases |cp.comp| - it.index
    {
      var row := cp.Get(r.value.target);
      assert row == rows[it.index];
      bounds := bounds + [Collision.From(r.value.entity, row.objectId, row.body.position, row.body.velocity, row.body.size)];
      ghost var i := it.index;
      r := it.Next();
      FlattenStep(parts, i, it.index);
    }
    FlattenSkip(parts, |rows|, it.index);
  }

  /** The broad phase: the boxes of the active bodies sorted by lower x
      and the contacts between overlapping boxes of that list. */
  method BroadPhase(cp: Cp) returns (sorted: seq<Collision.Bounds>, found: seq<Event>)
    requires cp.Valid()
    ensures sorted == Collision.SortByLowerX(Flatten(BoundsParts(cp.Rows(), cp.generation), |cp.comp|))
    ensures found == Collision.ContactsFrom(sorted, 0)
  {
    var collected := CollectBounds(cp);
    sorted := Collision.SortByLowerX(collected);
    found := Collision.PairContacts(sorted);
  }

  // ---------------------------------------------------------------------
  // event branches

  /** Resolves a contact between two different rows: borrows both, applies
      the collision response of the event's key through the references and
      returns what it spawns. */
  method ResolveContact(cp: Cp, e: Event) returns (spawn: seq<Event>)
    requires cp.Valid() && e.a.index < |cp.comp| && e.b.index < |cp.comp| && e.a.index != e.b.index
    modifies cp
    ensures cp.Valid() && cp.generation == old(cp.generation) && cp.comp == old(cp.comp)
    ensures cp.Rows() == ContactRows(e, old(cp.Rows()), old(cp.emptyA), old(cp.emptyB))
    ensures spawn == ContactOutcome(e, old(cp.Rows()), old(cp.emptyA), old(cp.emptyB)).spawn
    ensures (cp.emptyA, cp.emptyB) == ContactScratch(e, old(cp.Rows()), old(cp.emptyA), old(cp.emptyB))
  {
    ghost var rows := cp.Rows();
    var it := new CpIter(Cf.NONE, cp);
    var a, b := it.NthDouble(e.a, e.b);
    var rowA, rowB := cp.Get(a.target), cp.Get(b.target);
    var o := Collide(e.key, rowA, rowB);
    CollideOnce(e.key, rowA, rowB);
    cp.Put(a.target, o.a);
    cp.Put(b.target, o.b);
    spawn := o.spawn;
  }

  /** Allocates a row for a creation and stamps the prefab of `kind` on
      it: the store is grown to cover the allocated index, whose mask is
      cleared and then set from the prefab. */
  method Make(cp: Cp, kind: u8) returns (at: nat)
    requires cp.Valid() && kind < ObjType.COUNT
    requires cp.manager.head != IndexTables.END_OF_LIST || |cp.manager.list| < 0x1_0000
    modifies cp, cp.manager
    ensures cp.Valid() && 0 < at < |cp.comp| == |cp.manager.list|
    ensures at == if old(cp.manager.head) != IndexTables.END_OF_LIST then old(cp.manager.head) as nat else old(|cp.manager.list|)
    ensures |cp.manager.list| == old(|cp.manager.list|) + (if old(cp.manager.head) == IndexTables.END_OF_LIST then 1 else 0)
    ensures (cp.manager.head, cp.manager.list) == IndexTables.AfterAllocate(old(cp.manager.head), old(cp.manager.list))
    ensures cp.generation == Resized(old(cp.generation), |cp.comp|, 0)
    ensures cp.ValidHandle(Entity(at as u16, cp.generation[at]))
    ensures cp.Rows() == Grown(old(cp.Rows()), |cp.comp|, at)[at := Stamped(Prefab(kind), Grown(old(cp.Rows()), |cp.comp|, at)[at])]
    ensures cp.emptyA == old(cp.emptyA) && cp.emptyB == old(cp.emptyB)
  {
    var entity := cp.Create();
    cp.Stamp(Prefab(kind), entity);
    at := entity.index as nat;
  }

  /** Places a freshly stamped row by its create event: the body at the
      event's position, a player in the event's slot, and an enemy given a
      fire delay (a draw modulo 2000) and a look (a draw in 0..=11, plus 2). */
  method Place(cp: Cp, rand: Mersenne.MersenneTwister, at: nat, e: Event) returns (ghost delay: u16, ghost look: u16)
    requires cp.Valid() && rand.Valid() && 0 < at < |cp.comp| && cp.ValidHandle(Entity(at as u16, cp.generation[at]))
    requires cp.comp[at] & Cf.COMPONENT != Cf.NONE
    requires cp.comp[at] & Cf.PLAYER != Cf.NONE ==> e.key < 0x80
    modifies cp, rand, rand.x
    ensures cp.Valid() && cp.Fixed() == old(cp.Fixed())
    ensures cp.Rows() == old(cp.Rows())[at := Placed(old(cp.Rows())[at], e, delay, look)]
    ensures rand.Valid() && (old(rand.Seeded()) ==> rand.Seeded())
    ensures cp.comp[at] & Cf.ENEMY != Cf.NONE ==>
      && delay == EnemyDelay(old(rand.State())) && look == EnemyLook(old(rand.State()))
      && rand.State() == Mersenne.Stepped(Mersenne.Stepped(old(rand.State())))
    ensures cp.comp[at] & Cf.ENEMY == Cf.NONE ==> delay == 0 && look == 0 && unchanged(rand) && unchanged(rand.x)
  {
    delay, look := 0, 0;
    var it := new CpIter(Cf.NONE, cp);
    var r := it.Nth(Entity(at as u16, cp.generation[at]));
    var row := cp.Get(r.target);
    if row.comp & Cf.BODY != Cf.NONE {
      row := row.(body := row.body.(position := e.v));
    }
    if row.comp & Cf.PLAYER != Cf.NONE {
      row := row.(player := row.player.(slot := e.key as i8));
    }
    if row.comp & Cf.ENEMY != Cf.NONE {
      var w := rand.NextU32();
      var d: u16 := w % 2000;
      var v := rand.NextFromZero(ENEMY_LOOKS);
      var l: u16 := v + 2;
      delay, look := d, l;
      row := row.(enemy := row.enemy.(delayFire := d), animator := row.animator.(frame := l));
    }
    cp.Put(r.target, row);
  }

  /** The create branch of event resolution: allocates a row, stamps the
      prefab of the event's kind on it and places it. With the allocator
      table full (65536 entries, none free) the source panics; here the
      creation is refused and nothing changes. */
  method Spawn(cp: Cp, rand: Mersenne.MersenneTwister, e: Event) returns (ok: bool, ghost at: nat, ghost delay: u16, ghost look: u16)
    requires cp.Valid() && rand.Valid()
    requires e.id == CREATE_ENTITY && e.otype < ObjType.COUNT && (e.otype == ObjType.PLAYER ==> e.key < 0x80)
    modifies cp, cp.manager, rand, rand.x
    ensures cp.Valid() && rand.Valid()
    ensures ok == (old(cp.manager.head) != IndexTables.END_OF_LIST || old(|cp.manager.list|) < 0x1_0000)
    ensures !ok ==> unchanged(cp) && unchanged(cp.manager) && unchanged(rand) && unchanged(rand.x)
    ensures ok ==>
      && at == (if old(cp.manager.head) != IndexTables.END_OF_LIST then old(cp.manager.head) as nat else old(|cp.manager.list|))
      && |cp.comp| == |cp.manager.list| ==
           old(|cp.manager.list|) + (if old(cp.manager.head) == IndexTables.END_OF_LIST then 1 else 0)
      && 0 < at < |cp.comp|
      && (cp.manager.head, cp.manager.list) == IndexTables.AfterAllocate(old(cp.manager.head), old(cp.manager.list))
      && cp.generation == Resized(old(cp.generation), |cp.comp|, 0)
      && cp.ValidHandle(Entity(at as u16, cp.generation[at]))
      && cp.Rows() == SpawnedRows(old(cp.Rows()), |cp.comp|, at, e, delay, look)
      && cp.emptyA == old(cp.emptyA) && cp.emptyB == old(cp.emptyB)
    ensures ok && e.otype == ObjType.ENEMY ==>
      && delay == EnemyDelay(old(rand.State())) && look == EnemyLook(old(rand.State()))
      && rand.State() == Mersenne.Stepped(Mersenne.Stepped(old(rand.State())))
    ensures !(ok && e.otype == ObjType.ENEMY) ==> delay == 0 && look == 0 && unchanged(rand) && unchanged(rand.x)
    ensures old(rand.Seeded()) ==> rand.Seeded()
  {
    at, delay, look := 0, 0, 0;
    if cp.manager.head == IndexTables.END_OF_LIST && |cp.manager.list| >= 0x1_0000 {
      return false, at, delay, look;
    }
    ok := true;
    at, delay, look := SpawnAt(cp, rand, e);
  }

  /** Spawn when the allocator has room. */
  method SpawnAt(cp: Cp, rand: Mersenne.MersenneTwister, e: Event) returns (at: nat, ghost delay: u16, ghost look: u16)
    requires cp.Valid() && rand.Valid()
    requires e.id == CREATE_ENTITY && e.otype < ObjType.COUNT && (e.otype == ObjType.PLAYER ==> e.key < 0x80)
    requires cp.manager.head != IndexTables.END_OF_LIST || |cp.manager.list| < 0x1_0000
    modifies cp, cp.manager, rand, rand.x
    ensures cp.Valid() && rand.Valid()
    ensures at == (if old(cp.manager.head) != IndexTables.END_OF_LIST then old(cp.manager.head) as nat else old(|cp.manager.list|))
    ensures |cp.comp| == |cp.manager.list| ==
      old(|cp.manager.list|) + (if old(cp.manager.head) == IndexTables.END_OF_LIST then 1 else 0)
    ensures 0 < at < |cp.comp|
    ensures (cp.manager.head, cp.manager.list) == IndexTables.AfterAllocate(old(cp.manager.head), old(cp.manager.list))
    ensures cp.generation == Resized(old(cp.generation), |cp.comp|, 0)
    ensures cp.ValidHandle(Entity(at as u16, cp.generation[at]))
    ensures cp.Rows() == SpawnedRows(old(cp.Rows()), |cp.comp|, at, e, delay, look)
    ensures cp.emptyA == old(cp.emptyA) && cp.emptyB == old(cp.emptyB)
    ensures e.otype == ObjType.ENEMY ==>
      && delay == EnemyDelay(old(rand.State())) && look == EnemyLook(old(rand.State()))
      && rand.State() == Mersenne.Stepped(Mersenne.Stepped(old(rand.State())))
    ensures e.otype != ObjType.ENEMY ==> delay == 0 && look == 0 && unchanged(rand) && unchanged(rand.x)
    ensures old(rand.Seeded()) ==> rand.Seeded()
  {
    ghost var rows0 := cp.Rows();
    at := Make(cp, e.otype);
    ghost var g := Grown(rows0, |cp.comp|, at);
    ghost var stamped := Stamped(Prefab(e.otype), g[at]);
    assert cp.comp[at] == stamped.comp;
    delay, look := Place(cp, rand, at, e);
    UpdateTwice(g, at, stamped, Placed(stamped, e, delay, look));
  }

  /** The row a creation takes: the free list's head when there is one,
      otherwise a new row at the end of the allocator's table. */
  function CreatedIndex(head: u16, size: nat): nat
  {
    if head != IndexTables.END_OF_LIST then head as nat else size
  }

  /** The destroy branch of event resolution: retires the handle, which
      leaves every player row that remains where it was. */
  method Remove(cp: Cp, e: Entity)
    requires cp.Valid() && (e.index == 0 || e.index < |cp.comp|)
    modifies cp, cp.manager
    ensures cp.Valid()
    ensures |cp.comp| == old(|cp.comp|) && |cp.manager.list| == old(|cp.manager.list|)
    ensures !cp.ValidHandle(e)
    ensures old(cp.ValidHandle(e)) ==>
      && cp.generation == old(cp.generation)[e.index := WrapU16(old(cp.generation[e.index]) as int + 1)]
      && cp.Rows() == old(cp.Rows())[e.index := old(cp.Rows())[e.index].(comp := Cf.NONE)]
      && (cp.manager.head, cp.manager.list) == IndexTables.AfterFree(old(cp.manager.head), old(cp.manager.list), e.index)
      && (old(cp.manager.Sound()) && e.index as int in old(cp.manager.Allocated()) ==>
            cp.manager.Sound() && cp.manager.Allocated() == old(cp.manager.Allocated()) - {e.index as int})
    ensures !old(cp.ValidHandle(e)) ==>
      cp.generation == old(cp.generation) && cp.Rows() == old(cp.Rows()) && unchanged(cp.manager)
    ensures cp.emptyA == old(cp.emptyA) && cp.emptyB == old(cp.emptyB)
    ensures PlayersPlaced(old(cp.Rows())) ==> PlayersPlaced(cp.Rows())
  {
    ghost var rows := cp.Rows();
    cp.Destroy(e);
    forall k | 0 <= k < |cp.comp| && cp.Rows()[k].comp & Cf.PLAYER != Cf.NONE
      ensures rows[k].player == cp.Rows()[k].player && rows[k].comp == cp.comp[k]
    {
      assert cp.comp[k] != Cf.NONE;
    }
  }

  /** The player stage on the store: every player runs for one tick, and
      when `playing` and no visited player is live, every enemy is
      queued for destruction after the players' own requests. */
  method PlayersTick(cp: Cp, slots: seq<Slot>, playing: bool) returns (emitted: seq<Event>, live: bool)
    requires cp.Valid() && |slots| == SLOT_COUNT && PlayersPlaced(cp.Rows())
    modifies cp
    ensures cp.Valid() && cp.Fixed() == old(cp.Fixed()) && PlayersPlaced(cp.Rows())
    ensures cp.Rows() == PlayerRows(slots, old(cp.Rows()))
    ensures live == LiveBelow(slots, old(cp.Rows()), |old(cp.comp)|)
    ensures emitted == Flatten(PlayerEvents(slots, old(cp.Rows())), |old(cp.comp)|) +
      (if playing && !live then Flatten(DestroyEvents(cp.Rows(), cp.generation, ENEMIES), |cp.comp|) else [])
    ensures EventsFit(emitted, |cp.comp|)
  {
    PlayerEventsFit(slots, cp.Rows(), |cp.comp|);
    PlayerShape(slots, cp.Rows());
    ShapeKeepsPlayers(cp.Rows(), PlayerRows(slots, cp.Rows()));
    emitted, live := StepPlayers(cp, slots);
    if playing && !live {
      DestroyEventsFit(cp.Rows(), cp.generation, ENEMIES);
      var doomed := DestroyEvery(cp, ENEMIES);
      emitted := emitted + doomed;
    }
  }

  /** The enemy stage on the store: every enemy runs for one tick at
      `speed`; the players are left where they were. */
  method EnemiesTick(cp: Cp, speed: i32) returns (emitted: seq<Event>, count: nat)
    requires cp.Valid() && PlayersPlaced(cp.Rows())
    modifies cp
    ensures cp.Valid() && cp.Fixed() == old(cp.Fixed()) && PlayersPlaced(cp.Rows())
    ensures cp.Rows() == EnemyRows(speed, old(cp.Rows()))
    ensures emitted == Flatten(EnemyEvents(old(cp.Rows())), |old(cp.comp)|)
    ensures count == VisitCount(old(cp.Rows()), ENEMIES, |old(cp.comp)|)
    ensures EventsFit(emitted, |cp.comp|)
  {
    EnemyEventsFit(cp.Rows(), |cp.comp|);
    EnemyShape(speed, cp.Rows());
    ShapeKeepsPlayers(cp.Rows(), EnemyRows(speed, cp.Rows()));
    emitted, count := StepEnemies(cp, speed);
  }
}
