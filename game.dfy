/** The game: player slots, global round state, the random generator, the
    component store, and the tick pipeline that updates rows through
    filtered iteration and resolves the queued events. */
module Simulation {
  import opened Prelude
  import opened Vectors
  import opened Components
  import opened GameData
  import opened IndexTables
  import opened Store
  import opened Collision
  import opened Systems
  import opened Passes
  import Mersenne
  import BitMasks
  import Cf
  import ObjType

  class Game {
    var animationTable: map<u16, u16>
    var slots: seq<Slot>
    var global: GlobalState
    const rand: Mersenne.MersenneTwister
    const components: Cp
    var boundList: seq<Bounds>
    var eventList: seq<Event>
    var gameOver: bool

    /** The store is consistent, the generator's cursors are in range,
        there are 64 slots and every player row names one of them. */
    ghost predicate Valid()
      reads this, components, components.manager, rand
    {
      && components.Valid() && rand.Valid()
      && |slots| == SLOT_COUNT
      && PlayersPlaced(components.Rows())
    }

    /** A game with the animation table built, 64 empty slots, the default
        round state, an unseeded generator and an empty store. */
    constructor ()
      ensures Valid()
      ensures fresh(rand) && fresh(rand.x) && fresh(components) && fresh(components.manager)
      ensures IsAnimationTable(animationTable)
      ensures slots == seq(SLOT_COUNT, _ => DEFAULT_SLOT) && global == DEFAULT_GLOBAL
      ensures components.comp == [] && boundList == [] && eventList == [] && !gameOver
    {
      var table := SetupAnimationTable();
      animationTable := table;
      slots := seq(SLOT_COUNT, _ => DEFAULT_SLOT);
      global := DEFAULT_GLOBAL;
      rand := new Mersenne.MersenneTwister();
      components := new Cp();
      boundList := [];
      eventList := [];
      gameOver := false;
    }

    /** Moves every active body by its velocity. */
    method Integrate()
      requires Valid()
      modifies components
      ensures Valid() && components.Fixed() == old(components.Fixed())
      ensures components.Rows() == Integrated(old(components.Rows()))
    {
      MoveBodies(components);
      IntegratedShape(old(components.Rows()));
      ShapeKeepsPlayers(old(components.Rows()), components.Rows());
    }

    /** Refreshes every slot's fire, left and right flags from bits 18, 16
        and 17 of its raw input word; nothing else in a slot changes. */
    method ComputeInput()
      modifies this`slots
      ensures |slots| == |old(slots)|
      ensures forall i :: 0 <= i < |slots| ==>
        slots[i] == old(slots[i]).(input := old(slots[i]).input.(
          primary := old(slots[i]).raw & 0x4_0000 != 0,
          left := old(slots[i]).raw & 0x1_0000 != 0,
          right := old(slots[i]).raw & 0x2_0000 != 0))
    {
      var i := 0;
      while i < |slots|
        invariant 0 <= i <= |slots| == |old(slots)|
        invariant forall k :: 0 <= k < i ==>
          slots[k] == old(slots[k]).(input := old(slots[k]).input.(
            primary := old(slots[k]).raw & 0x4_0000 != 0,
            left := old(slots[k]).raw & 0x1_0000 != 0,
            right := old(slots[k]).raw & 0x2_0000 != 0))
        invariant forall k :: i <= k < |slots| ==> slots[k] == old(slots[k])
      {
        var s := slots[i];
        BitMasks.InputFlags(s.raw);
        var c := s.input.(primary := BitMasks.Decode(BitMasks.PRIMARY_MASK, s.raw) == 1,
                          left := BitMasks.Decode(BitMasks.LEFT_MASK, s.raw) == 1,
                          right := BitMasks.Decode(BitMasks.RIGHT_MASK, s.raw) == 1);
        slots := slots[i := s.(input := c)];
        i := i + 1;
      }
    }

    /** Ticks the animator of every active body and queues a destroy
        request for each one that reaches the null frame. */
    method UpdateAnimators()
      requires Valid()
      modifies this`eventList, components
      ensures Valid() && components.Fixed() == old(components.Fixed())
      ensures components.Rows() == AnimatedRows(animationTable, old(components.Rows()))
      ensures eventList == old(eventList) +
        Flatten(AnimatorEvents(animationTable, old(components.Rows()), old(components.generation)), |old(components.comp)|)
      ensures EventsFit(old(eventList), |components.comp|) ==> EventsFit(eventList, |components.comp|)
    {
      AnimatorEventsFit(animationTable, components.Rows(), components.generation);
      var emitted := TickAnimators(components, animationTable);
      eventList := eventList + emitted;
      AnimatedShape(animationTable, old(components.Rows()));
      ShapeKeepsPlayers(old(components.Rows()), components.Rows());
    }

    /** Runs every player for one tick and queues its explosion and shot.
        When no visited player is live during a round, the round ends on
        the "no way" banner and every enemy is queued for destruction. */
    method UpdatePlayers()
      requires Valid()
      modifies this`eventList, this`global, components
      ensures Valid() && components.Fixed() == old(components.Fixed())
      ensures components.Rows() == PlayerRows(slots, old(components.Rows()))
      ensures var live := LiveBelow(slots, old(components.Rows()), |old(components.comp)|);
        && global == RoundEnd(old(global), !live, TEXT_NO)
        && eventList == old(eventList) + (Flatten(PlayerEvents(slots, old(components.Rows())), |old(components.comp)|) +
             (if old(global.playing) && !live
              then Flatten(DestroyEvents(components.Rows(), components.generation, ENEMIES), |components.comp|)
              else []))
      ensures EventsFit(old(eventList), |components.comp|) ==> EventsFit(eventList, |components.comp|)
    {
      var emitted, live := PlayersTick(components, slots, global.playing);
      eventList := eventList + emitted;
      if global.playing && !live {
        global := global.(playing := false, textAnimate := 0, textType := TEXT_NO);
      }
    }

    /** Runs every enemy for one tick at the current speed, queues its
        shots and counts the enemies; the speed is then reset to 3. When a
        round is in play and no enemy is left, the round ends on the
        "great" banner. */
    method UpdateEnemies()
      requires Valid()
      modifies this`eventList, this`global, components
      ensures Valid() && components.Fixed() == old(components.Fixed())
      ensures components.Rows() == EnemyRows(old(global.enemySpeed), old(components.Rows()))
      ensures eventList == old(eventList) + Flatten(EnemyEvents(old(components.Rows())), |old(components.comp)|)
      ensures var count := VisitCount(old(components.Rows()), ENEMIES, |old(components.comp)|);
        global == RoundEnd(old(global).(enemyCount := count, enemySpeed := 3), count == 0, TEXT_GREAT)
      ensures EventsFit(old(eventList), |components.comp|) ==> EventsFit(eventList, |components.comp|)
    {
      var emitted, count := EnemiesTick(components, global.enemySpeed);
      eventList := eventList + emitted;
      global := global.(enemyCount := count, enemySpeed := 3);
      if global.playing && global.enemyCount == 0 {
        global := global.(playing := false, textAnimate := 0, textType := TEXT_GREAT);
      }
    }

    /** Queues a wave of enemies, 24 columns of 20. */
    method PushWave()
      modifies this`eventList
      ensures eventList == old(eventList) + EnemyWave()
    {
      for j := 0 to WAVE_COLUMNS
        invariant eventList == old(eventList) + EnemyWave()[..j * WAVE_ROWS]
      {
        for i := 0 to WAVE_ROWS
          invariant eventList == old(eventList) + EnemyWave()[..j * WAVE_ROWS + i]
        {
          WaveEntry(j, i);
          eventList := eventList + [FromEntity(ObjType.ENEMY, Vector2(j * 60 - 960 + 32, i * 32 - 100))];
        }
      }
    }

    /** Between rounds, advances the banner timer by 8333333 (wrapping in
        i32). Once it passes 10^9 the game is over unless the banner is the
        "ready" one; in that case play starts, the ships of connected slots
        are repaired and a wave is queued. During a round nothing changes. */
    method ResolveState()
      requires Valid()
      modifies this`global, this`gameOver, this`eventList, components
      ensures Valid() && components.Fixed() == old(components.Fixed())
      ensures old(global.playing) ==>
        global == old(global) && gameOver == old(gameOver) && eventList == old(eventList) &&
        components.Rows() == old(components.Rows())
      ensures !old(global.playing) ==>
        var t := WrapI32(old(global.textAnimate) as int + TEXT_ANIMATE_COUNTER as int);
        var due := t > 1_000_000_000;
        var starts := due && old(global.textType) == TEXT_READY;
        && global == old(global).(textAnimate := t, playing := starts)
        && gameOver == (old(gameOver) || (due && !starts))
        && components.Rows() == (if starts then RepairedRows(slots, old(components.Rows())) else old(components.Rows()))
        && eventList == old(eventList) + (if starts then EnemyWave() else [])
      ensures EventsFit(old(eventList), |components.comp|) ==> EventsFit(eventList, |components.comp|)
    {
      WaveFit(|components.comp|);
      if !global.playing {
        global := global.(textAnimate := WrapI32(global.textAnimate as int + TEXT_ANIMATE_COUNTER as int));
        if global.textAnimate > 1_000_000_000 {
          if global.textType != TEXT_READY {
            gameOver := true;
          } else {
            global := global.(playing := true);
            RepairShips(components, slots);
            RepairedShape(slots, old(components.Rows()));
            ShapeKeepsPlayers(old(components.Rows()), components.Rows());
            PushWave();
          }
        }
      }
    }

    /** Collects the box of every active body, sorts the boxes by lower x
        (stably) and queues a contact for every overlapping pair i < j of
        the sorted list. */
    method FillContactList()
      requires components.Valid()
      modifies this`boundList, this`eventList
      ensures boundList == SortByLowerX(Flatten(BoundsParts(old(components.Rows()), old(components.generation)), old(|components.comp|)))
      ensures eventList == old(eventList) + ContactsFrom(boundList, 0)
    {
      var sorted, found := BroadPhase(components);
      boundList, eventList := sorted, eventList + found;
    }

    /** The contact branch of event resolution for event `index`, both of
        whose handles are live: applies the collision response of the
        event's key to what the two handles borrow and queues what it
        spawns. */
    method CollisionFunction(index: nat)
      requires Valid() && index < |eventList|
      requires eventList[index].id == CONTACT && EventFits(eventList[index], |components.comp|)
      requires components.ValidHandle(eventList[index].a) && components.ValidHandle(eventList[index].b)
      modifies this`eventList, components
      ensures Valid()
      ensures components.generation == old(components.generation) && components.comp == old(components.comp)
      ensures var e := old(eventList[index]);
        var o := ContactOutcome(e, old(components.Rows()), old(components.emptyA), old(components.emptyB));
        && components.Rows() == ContactRows(e, old(components.Rows()), old(components.emptyA), old(components.emptyB))
        && (components.emptyA, components.emptyB) == ContactScratch(e, old(components.Rows()), old(components.emptyA), old(components.emptyB))
        && eventList == old(eventList) + o.spawn
    {
      var e := eventList[index];
      ghost var rows := components.Rows();
      var spawn := ResolveContact(components, e);
      eventList := eventList + spawn;
      ContactShape(e, rows, old(components.emptyA), old(components.emptyB));
      ShapeKeepsPlayers(rows, components.Rows());
    }

    /** Copies another game's slots, round state, generator, store and
        game-over flag. The queue, the box list and the animation table
        stay as they were. */
    method SmartCopy(other: Game)
      requires Valid() && other.Valid()
      requires other.components != components && other.components.manager != components.manager
      requires other.rand != rand && other.rand.x != rand.x
      modifies this`slots, this`global, this`gameOver, components, components.manager, rand, rand.x
      ensures Valid()
      ensures slots == other.slots && global == other.global && gameOver == other.gameOver
      ensures rand.x[..] == other.rand.x[..] && rand.p == other.rand.p && rand.q == other.rand.q && rand.r == other.rand.r
      ensures components.Rows() == other.components.Rows() && components.generation == other.components.generation
      ensures components.manager.head == other.components.manager.head
      ensures components.manager.list == other.components.manager.list
    {
      var copied := CopyRow(slots, other.slots, DEFAULT_SLOT);
      slots := copied;
      global := other.global;
      rand.CopyFrom(other.rand);
      components.SmartCopy(other.components);
      gameOver := other.gameOver;
    }

    /** Queues the start-up creations. */
    method QueueStart()
      requires |slots| == SLOT_COUNT
      modifies this`eventList
      ensures eventList == old(eventList) + StartQueue(slots)
    {
      for j := 0 to |slots|
        invariant eventList == old(eventList) + Flatten(StartParts(slots), j)
      {
        if slots[j].connected && slots[j].connectedAtStart {
          eventList := eventList + [FromPlayer(j, Vector2(j * 60 - 960 + 32, -500))];
        }
      }
      eventList := eventList + [FromEntity(ObjType.SHOT_CLEANER, Vector2(0, 1090)), FromEntity(ObjType.SHOT_CLEANER, Vector2(0, -1090))];
    }

    /** Starts a session from `seed`: seeds the generator, resets the round
        to the "ready" banner at speed 3, empties the store and resolves
        the start queue. The queue ends empty and no creation fails. */
    method Init(seed: u32) returns (ok: bool)
      requires Valid()
      modifies this`gameOver, this`global, this`eventList, components, components.manager, rand, rand.x
      ensures Valid() && ok && eventList == [] && !gameOver
      ensures global == GlobalState(false, 3, 0, TEXT_READY, 0)
      ensures rand.Seeded() && rand.p == 0 && rand.x[..] == Mersenne.SeedPrefix(seed as bv32, Mersenne.N)
      ensures |components.manager.list| <= 1 + |StartQueue(slots)|
    {
      rand.SetSeed(seed);
      gameOver := false;
      global := global.(playing := false, enemySpeed := 3, enemyCount := 0, textType := TEXT_READY, textAnimate := 0);
      components.Clear();
      eventList := [];
      QueueStart();
      StartQueueShape(slots);
      ghost var resolved;
      ok, resolved := ResolveEvents();
    }

    /** One tick without collisions: input, animators, players,
        enemies, movement and the round state, in that order. The queue
        keeps what it held and gains only requests that fit the store,
        which none of the stages resizes. */
    method FastForward()
      requires Valid() && EventsFit(eventList, |components.comp|)
      modifies this`slots, this`global, this`gameOver, this`eventList, components
      ensures Valid() && components.Fixed() == old(components.Fixed())
      ensures EventsFit(eventList, |components.comp|)
    {
      ComputeInput();
      UpdateAnimators();
      UpdatePlayers();
      UpdateEnemies();
      Integrate();
      ResolveState();
    }

    /** One full tick: the stages of FastForward, then the broad phase
        and the resolution of everything queued. */
    method Update() returns (ok: bool)
      requires Valid() && EventsFit(eventList, |components.comp|)
      modifies this`slots, this`global, this`gameOver, this`eventList, this`boundList
      modifies components, components.manager, rand, rand.x
      ensures Valid()
      ensures ok ==> eventList == []
      ensures !ok ==> components.manager.head == END_OF_LIST && |components.manager.list| == 0x1_0000
      ensures old(|components.comp|) <= |components.comp|
    {
      FastForward();
      ContactsFit(components.Rows(), components.generation);
      FillContactList();
      ghost var resolved;
      ok, resolved := ResolveEvents();
    }

    /** Resolves the queue front to back, including the explosions that
        contacts append on the way, and then empties it: a contact whose
        handles are both live runs the collision response, a destroy
        retires its handle, a create makes a row from the kind's prefab.
        The source panics when the allocator table is full; here the
        resolution stops with `ok` false at that point. */
    method ResolveEvents() returns (ok: bool, ghost resolved: seq<Event>)
      requires Valid() && EventsFit(eventList, |components.comp|)
      modifies this`eventList, components, components.manager, rand, rand.x
      ensures Valid()
      ensures ok ==> eventList == []
      ensures |old(eventList)| <= |resolved| && resolved[..|old(eventList)|] == old(eventList)
      ensures forall x <- resolved[|old(eventList)|..] :: IsExplosion(x)
      ensures !ok ==> components.manager.head == END_OF_LIST && |components.manager.list| == 0x1_0000
      ensures old(|components.comp|) <= |components.comp|
      ensures |components.manager.list| <= old(|components.manager.list|) + Growth(old(eventList))
      ensures old(rand.Seeded()) ==> rand.Seeded()
      ensures NoEnemySpawns(old(eventList)) ==> unchanged(rand) && unchanged(rand.x)
      ensures ok ==> rand.State() == Mersenne.Steps(old(rand.State()), 2 * EnemySpawns(old(eventList)))
    {
      ghost var q0, s0, n0 := eventList, rand.State(), |components.comp|;
      ghost var bound, seeded0 := |components.manager.list| + Growth(eventList), rand.Seeded();
      DrawsNone(s0, eventList);
      var i := 0;
      while i < |eventList|
        invariant Progress(i, q0, s0, n0, bound, seeded0)
        invariant NoEnemySpawns(q0) ==> NoEnemySpawns(eventList) && unchanged(rand) && unchanged(rand.x)
        decreases Pending(eventList[i..])
      {
        var made := ResolveNext(i, q0, s0, n0, bound, seeded0);
        if !made {
          return false, eventList;
        }
        i := i + 1;
      }
      DrawsOfExplosions(s0, eventList, q0, rand.State());
      resolved := eventList;
      eventList := [];
      ok := true;
    }

    /** What resolving keeps from the start of the queue's resolution
        (queue `q0`, `n0` rows, `bound` allocator entries at most once the
        queue is done, seeded as `seeded0`): the game is consistent, the
        queue fits the store, which has not shrunk, the queue still begins
        with `q0` and has gained explosions only. */
    ghost predicate Kept(q0: seq<Event>, n0: nat, bound: nat, seeded0: bool)
      reads this, components, components.manager, rand
    {
      && Valid() && EventsFit(eventList, |components.comp|)
      && n0 <= |components.comp| && |components.manager.list| <= bound
      && (seeded0 ==> rand.Seeded())
      && |q0| <= |eventList| && eventList[..|q0|] == q0
      && (forall x <- eventList[|q0|..] :: IsExplosion(x))
    }

    /** Kept, with the first `i` events resolved: the allocator can still
        take the rows the rest of the queue adds, and the generator, from
        `s0`, is two draws on per enemy creation resolved so far. */
    ghost predicate Progress(i: nat, q0: seq<Event>, s0: Mersenne.Snapshot, n0: nat, bound: nat, seeded0: bool)
      reads this, components, components.manager, rand, rand.x
    {
      && Kept(q0, n0, bound, seeded0)
      && i <= |eventList|
      && |components.manager.list| + Growth(eventList[i..]) <= bound
      && Mersenne.InRange(s0) && rand.State() == Mersenne.Steps(s0, 2 * EnemySpawns(eventList[..i]))
    }

    /** Resolving event `i` keeps Kept, and when it succeeds, moves Progress
        on by one event. */
    /** One step of `ResolveEvents`: resolves entry `i` and keeps the
        loop's progress, with one more entry done when it succeeds. */
    method ResolveNext(i: nat, ghost q0: seq<Event>, ghost s0: Mersenne.Snapshot, ghost n0: nat, ghost bound: nat, ghost seeded0: bool) returns (ok: bool)
      requires Progress(i, q0, s0, n0, bound, seeded0) && i < |eventList|
      modifies this`eventList, components, components.manager, rand, rand.x
      ensures Kept(q0, n0, bound, seeded0)
      ensures ok ==> Progress(i + 1, q0, s0, n0, bound, seeded0)
      ensures ok ==> Pending(eventList[i + 1..]) < old(Pending(eventList[i..]))
      ensures !ok ==> components.manager.head == END_OF_LIST && |components.manager.list| == 0x1_0000
      ensures NoEnemySpawns(old(eventList)) ==> NoEnemySpawns(eventList) && unchanged(rand) && unchanged(rand.x)
    {
      ghost var before, drawn := eventList, rand.State();
      ok := ResolveAt(i);
      AppendKeepsExplosions(before, eventList, |q0|);
      if ok {
        EnemySpawnsStep(before, eventList, i);
        StepsOnCount(s0, EnemySpawns(before[..i]), EnemySpawns(eventList[..i + 1]), CreatesEnemy(before[i]), drawn, rand.State());
      }
    }


    /** What resolving event `i` of the queue keeps, whatever its kind: the
        game stays consistent and the queue still fits the store, which
        never shrinks. Only a creation with the allocator table full fails
        (`ok` false); otherwise the work left shrinks and the rows the
        queue can still add, counted with the allocator's entries, do not
        grow. The queue keeps its events and gains explosions only. The
        generator is two draws on after an enemy creation and untouched
        otherwise. */
    twostate predicate Resolved(i: nat, ok: bool)
      reads this, components, components.manager, rand, rand.x
      requires old(Valid()) && i < old(|eventList|)
    {
      && Valid() && i < |eventList| && EventsFit(eventList, |components.comp|)
      && old(|components.comp|) <= |components.comp|
      && (ok ==> Pending(eventList[i + 1..]) < old(Pending(eventList[i..])))
      && (ok ==> |components.manager.list| + Growth(eventList[i + 1..])
                 <= old(|components.manager.list| + Growth(eventList[i..])))
      && (!ok ==> && components.manager.head == END_OF_LIST && |components.manager.list| == 0x1_0000
                  && components.manager.list == old(components.manager.list))
      && (old(rand.Seeded()) ==> rand.Seeded())
      && (NoEnemySpawns(old(eventList)) ==> NoEnemySpawns(eventList))
      && |old(eventList)| <= |eventList| && eventList[..|old(eventList)|] == old(eventList)
      && (forall x <- eventList[|old(eventList)|..] :: IsExplosion(x))
      && rand.State() == (if ok && CreatesEnemy(old(eventList[i]))
                          then Mersenne.Stepped(Mersenne.Stepped(old(rand.State()))) else old(rand.State()))
      && (!(ok && CreatesEnemy(old(eventList[i]))) ==> unchanged(rand) && unchanged(rand.x))
    }

    /** A contact whose two handles are live: the rows and the scratch rows
        take the collision response and the queue gains what it spawns.
        A contact with a stale handle changes nothing. Generations and the
        allocator never change. */
    twostate predicate Contacted(e: Event)
      reads this, components, components.manager
      requires old(components.Valid()) && components.Valid()
      requires e.id == CONTACT && old(EventFits(e, |components.comp|))
    {
      && components.generation == old(components.generation)
      && unchanged(components.manager)
      && if old(components.ValidHandle(e.a) && components.ValidHandle(e.b)) then
           var rows, sa, sb := old(components.Rows()), old(components.emptyA), old(components.emptyB);
           && components.Rows() == ContactRows(e, rows, sa, sb)
           && (components.emptyA, components.emptyB) == ContactScratch(e, rows, sa, sb)
           && eventList == old(eventList) + ContactOutcome(e, rows, sa, sb).spawn
         else
           unchanged(components) && eventList == old(eventList)
    }

    /** A destroy whose handle is live: its row's generation is bumped
        (wrapping at 2^16), its mask cleared and its index freed. A stale
        handle changes nothing. The queue and the scratch rows stay. */
    twostate predicate Destroyed(e: Entity)
      reads this, components, components.manager
      requires old(components.Valid()) && components.Valid()
      requires old(e.index == 0 || e.index < |components.comp|)
    {
      && eventList == old(eventList)
      && components.emptyA == old(components.emptyA) && components.emptyB == old(components.emptyB)
      && if old(components.ValidHandle(e)) then
           && components.generation == old(components.generation)[e.index := WrapU16(old(components.generation[e.index]) as int + 1)]
           && components.Rows() == old(components.Rows())[e.index := old(components.Rows())[e.index].(comp := Cf.NONE)]
           && (components.manager.head, components.manager.list)
              == AfterFree(old(components.manager.head), old(components.manager.list), e.index)
         else
           && components.generation == old(components.generation) && components.Rows() == old(components.Rows())
           && unchanged(components.manager)
    }

    /** A creation: it succeeds exactly when the allocator has room, and
        then the allocator pops its free list or grows, and the rows become
        the spawned rows at the allocated index, an enemy taking its fire
        delay and look from the next two draws. A failed creation changes
        nothing. The queue and the scratch rows stay. */
    twostate predicate Created(e: Event, ok: bool)
      reads this, components, components.manager, rand, rand.x
      requires old(components.Valid()) && components.Valid() && old(rand.Valid())
      requires e.id == CREATE_ENTITY && old(EventFits(e, |components.comp|))
    {
      && eventList == old(eventList)
      && components.emptyA == old(components.emptyA) && components.emptyB == old(components.emptyB)
      && ok == (old(components.manager.head) != END_OF_LIST || old(|components.manager.list|) < 0x1_0000)
      && (!ok ==> unchanged(components) && unchanged(components.manager))
      && (ok ==>
            var at := CreatedIndex(old(components.manager.head), old(|components.manager.list|));
            && 0 < at < |components.comp|
            && (components.manager.head, components.manager.list)
               == AfterAllocate(old(components.manager.head), old(components.manager.list))
            && components.generation == Resized(old(components.generation), |components.comp|, 0)
            && components.ValidHandle(Entity(at as u16, components.generation[at]))
            && components.Rows() == SpawnedRows(old(components.Rows()), |components.comp|, at, e,
                 SpawnDelay(old(rand.State()), e.otype), SpawnLook(old(rand.State()), e.otype)))
    }

    /** Resolves event `i` of the queue by its kind: a contact, a destroy
        or a creation; any other kind changes nothing. */
    method ResolveAt(i: nat) returns (ok: bool)
      requires Valid() && i < |eventList| && EventsFit(eventList, |components.comp|)
      modifies this`eventList, components, components.manager, rand, rand.x
      ensures Resolved(i, ok)
      ensures old(EventFits(eventList[i], |components.comp|))
      ensures old(eventList[i]).id == CONTACT ==> Contacted(old(eventList[i]))
      ensures old(eventList[i]).id == DESTROY_ENTITY ==> Destroyed(old(eventList[i]).a)
      ensures old(eventList[i]).id == CREATE_ENTITY ==> Created(old(eventList[i]), ok)
      ensures old(eventList[i]).id !in {CONTACT, DESTROY_ENTITY, CREATE_ENTITY} ==>
        ok && unchanged(this) && unchanged(components) && unchanged(components.manager)
    {
      var e := eventList[i];
      PendingAt(eventList, i);
      assert EventFits(e, |components.comp|);
      ok := true;
      if e.id == CONTACT {
        ContactAt(i);
      } else if e.id == DESTROY_ENTITY {
        DestroyAt(i);
      } else if e.id == CREATE_ENTITY {
        ok := CreateAt(i);
      }
    }

    /** The destroy branch of event resolution for event `i`. */
    method DestroyAt(i: nat)
      requires Valid() && i < |eventList| && eventList[i].id == DESTROY_ENTITY
      requires EventsFit(eventList, |components.comp|)
      modifies components, components.manager
      ensures Resolved(i, true)
      ensures old(EventFits(eventList[i], |components.comp|))
      ensures Destroyed(eventList[i].a)
    {
      var e := eventList[i];
      PendingAt(eventList, i);
      assert EventFits(e, |components.comp|);
      Remove(components, e.a);
    }

    /** The create branch of event resolution for event `i`. */
    method CreateAt(i: nat) returns (ok: bool)
      requires Valid() && i < |eventList| && eventList[i].id == CREATE_ENTITY
      requires EventsFit(eventList, |components.comp|)
      modifies components, components.manager, rand, rand.x
      ensures Resolved(i, ok)
      ensures old(EventFits(eventList[i], |components.comp|))
      ensures Created(eventList[i], ok)
    {
      var e := eventList[i];
      PendingAt(eventList, i);
      assert EventFits(e, |components.comp|);
      ghost var n := |components.comp|;
      ok := CreateStep(components, rand, e);
      FitsGrow(eventList, n, |components.comp|);
    }

    /** The contact branch of event resolution for event `i`: runs the
        collision response when both handles are live. The queue grows by
        at most one explosion, so the work left shrinks and the rows it can
        still add do not grow. */
    method ContactAt(i: nat)
      requires Valid() && i < |eventList| && eventList[i].id == CONTACT
      requires EventsFit(eventList, |components.comp|)
      modifies this`eventList, components
      ensures Resolved(i, true)
      ensures old(EventFits(eventList[i], |components.comp|))
      ensures Contacted(old(eventList[i]))
    {
      var e := eventList[i];
      ghost var before := eventList;
      PendingAt(before, i);
      assert EventFits(e, |components.comp|);
      if components.ValidHandle(e.a) && components.ValidHandle(e.b) {
        ghost var rows, sa, sb := components.Rows(), components.emptyA, components.emptyB;
        CollisionFunction(i);
        ContactShape(e, rows, sa, sb);
        ContactQueue(before, i, ContactOutcome(e, rows, sa, sb).spawn, |components.comp|);
      }
    }
  }

  // ---------------------------------------------------------------------
  // events

  /** Whether no event creates an enemy (the only kind whose creation
      draws from the generator). */
  predicate NoEnemySpawns(s: seq<Event>)
  {
    forall e <- s :: e.id == CREATE_ENTITY ==> e.otype != ObjType.ENEMY
  }

  /** A queue whose events past `k` are explosions keeps that shape, and
      its first `k` events, when it grows by explosions only. */
  lemma AppendKeepsExplosions(before: seq<Event>, after: seq<Event>, k: nat)
    requires k <= |before| <= |after| && after[..|before|] == before
    requires forall x <- before[k..] :: IsExplosion(x)
    requires forall x <- after[|before|..] :: IsExplosion(x)
    ensures after[..k] == before[..k]
    ensures forall x <- after[k..] :: IsExplosion(x)
  {
    forall x | x in after[k..]
      ensures IsExplosion(x)
    {
      var j :| 0 <= j < |after[k..]| && after[k..][j] == x;
      if k + j < |before| {
        assert x == before[k..][j];
      } else {
        assert x == after[|before|..][k + j - |before|];
      }
    }
  }

  /** Resolving event `i` counts one more enemy creation exactly when it
      creates an enemy, whatever the event appends behind the queue. */
  lemma EnemySpawnsStep(before: seq<Event>, after: seq<Event>, i: nat)
    requires i < |before| <= |after| && after[..|before|] == before
    ensures EnemySpawns(after[..i + 1]) == EnemySpawns(before[..i]) + (if CreatesEnemy(before[i]) then 1 else 0)
  {
    assert after[..i + 1] == before[..i + 1];
    assert before[..i + 1][..i] == before[..i];
  }

  /** Two draws per enemy creation: `m` creations, then `k` after one more
      event, which draws twice exactly when it creates an enemy. */
  lemma StepsOnCount(s0: Mersenne.Snapshot, m: nat, k: nat, enemy: bool, drawn: Mersenne.Snapshot, now: Mersenne.Snapshot)
    requires Mersenne.InRange(s0) && drawn == Mersenne.Steps(s0, 2 * m)
    requires k == m + (if enemy then 1 else 0)
    requires now == if enemy then Mersenne.Stepped(Mersenne.Stepped(drawn)) else drawn
    ensures now == Mersenne.Steps(s0, 2 * k)
  {
    if enemy {
      Mersenne.StepsTwice(s0, 2 * m, 2 * k);
    }
  }

  /** Before any event is resolved the generator has not moved. */
  lemma DrawsNone(s0: Mersenne.Snapshot, q: seq<Event>)
    requires Mersenne.InRange(s0)
    ensures Mersenne.Steps(s0, 2 * EnemySpawns(q[..0])) == s0
  {
    assert q[..0] == [];
  }

  /** Once the whole queue is resolved, the explosions it gained have not
      moved the generator. */
  lemma DrawsOfExplosions(s0: Mersenne.Snapshot, q: seq<Event>, q0: seq<Event>, now: Mersenne.Snapshot)
    requires Mersenne.InRange(s0) && |q0| <= |q| && q[..|q0|] == q0 && forall x <- q[|q0|..] :: IsExplosion(x)
    requires now == Mersenne.Steps(s0, 2 * EnemySpawns(q[..|q|]))
    ensures now == Mersenne.Steps(s0, 2 * EnemySpawns(q0))
  {
    ExplosionsDrawNothing(q, q0);
    StepsOnCount(s0, EnemySpawns(q[..|q|]), EnemySpawns(q0), false, now, now);
  }

  /** A queue that grew from `q0` by explosions only counts the enemy
      creations of `q0`. */
  lemma ExplosionsDrawNothing(q: seq<Event>, q0: seq<Event>)
    requires |q0| <= |q| && q[..|q0|] == q0 && forall x <- q[|q0|..] :: IsExplosion(x)
    ensures EnemySpawns(q[..|q|]) == EnemySpawns(q0)
  {
    assert q[..|q|] == q;
    EnemySpawnsOfExplosions(q, |q0|);
  }

  /** Explosions behind position `k` add no enemy creations. */
  lemma {:induction false} EnemySpawnsOfExplosions(s: seq<Event>, k: nat)
    requires k <= |s| && forall x <- s[k..] :: IsExplosion(x)
    ensures EnemySpawns(s) == EnemySpawns(s[..k])
    decreases |s|
  {
    if |s| > k {
      assert IsExplosion(s[k..][|s| - 1 - k]);
      var t := s[..|s| - 1];
      assert t[k..] == s[k..|s| - 1];
      assert forall x <- t[k..] :: x in s[k..];
      EnemySpawnsOfExplosions(t, k);
      assert t[..k] == s[..k];
    } else {
      assert s[..k] == s;
    }
  }

  /** The work left in a queue: one per event, two per contact (which may
      queue one more event). */
  function Pending(s: seq<Event>): nat
  {
    if s == [] then 0 else (if s[0].id == CONTACT then 2 else 1) + Pending(s[1..])
  }

  /** How many rows a queue can add to the store: one per creation and one
      per contact (its explosion). */
  function Growth(s: seq<Event>): (g: nat)
    ensures g <= |s|
  {
    if s == [] then 0 else (if s[0].id == CREATE_ENTITY || s[0].id == CONTACT then 1 else 0) + Growth(s[1..])
  }

  lemma {:induction false} PendingAppend(s: seq<Event>, t: seq<Event>)
    ensures Pending(s + t) == Pending(s) + Pending(t)
    ensures Growth(s + t) == Growth(s) + Growth(t)
  {
    if s == [] {
      assert s + t == t;
    } else {
      assert (s + t)[1..] == s[1..] + t;
      PendingAppend(s[1..], t);
    }
  }

  /** The queue from `i` on is its event `i` followed by the queue after. */
  lemma PendingAt(s: seq<Event>, i: nat)
    requires i < |s|
    ensures Pending(s[i..]) == (if s[i].id == CONTACT then 2 else 1) + Pending(s[i + 1..])
    ensures Growth(s[i..]) == (if s[i].id == CREATE_ENTITY || s[i].id == CONTACT then 1 else 0) + Growth(s[i + 1..])
  {
    assert s[i..][1..] == s[i + 1..];
  }

  /** Appending a contact's explosion (at most one creation of an
      explosion) to the queue keeps every event fitting the store and
      leaves less work after the contact than from it. */
  lemma ContactQueue(before: seq<Event>, i: nat, spawn: seq<Event>, n: nat)
    requires i < |before| && before[i].id == CONTACT && EventsFit(before, n)
    requires |spawn| <= 1
    requires forall x <- spawn :: IsExplosion(x)
    ensures EventsFit(before + spawn, n)
    ensures Pending((before + spawn)[i + 1..]) < Pending(before[i..])
    ensures Growth((before + spawn)[i + 1..]) <= Growth(before[i + 1..]) + 1
    ensures NoEnemySpawns(before) ==> NoEnemySpawns(before + spawn)
  {
    PendingAt(before, i);
    assert (before + spawn)[i + 1..] == before[i + 1..] + spawn;
    PendingAppend(before[i + 1..], spawn);
    assert Pending(spawn) <= 1 by {
      if spawn != [] {
        assert IsExplosion(spawn[0]) && spawn[1..] == [];
      }
    }
    forall x <- before + spawn ensures EventFits(x, n) {
      if x !in spawn {
        assert x in before;
      }
    }
  }

  /** The broad phase's contacts fit the store the boxes were taken from. */
  lemma ContactsFit(rows: seq<CpPrefab>, gens: seq<u16>)
    requires |gens| == |rows| <= 0x1_0000
    ensures EventsFit(ContactsFrom(SortByLowerX(Flatten(BoundsParts(rows, gens), |rows|)), 0), |rows|)
  {
    var bs := Flatten(BoundsParts(rows, gens), |rows|);
    BoundsRows(rows, gens, |rows|);
    SortDistinct(bs);
    forall e <- ContactsFrom(SortByLowerX(bs), 0) ensures EventFits(e, |rows|) {
      ContactsDistinct(SortByLowerX(bs), e);
      var x :| x in SortByLowerX(bs) && x.entity == e.a;
      var y :| y in SortByLowerX(bs) && y.entity == e.b;
      assert x in multiset(SortByLowerX(bs)) && y in multiset(SortByLowerX(bs));
    }
  }

  /** The start-up creations: a player for every slot that takes part. */
  function StartParts(slots: seq<Slot>): (r: seq<seq<Event>>)
    requires |slots| <= SLOT_COUNT
    ensures |r| == |slots|
  {
    seq(|slots|, j requires 0 <= j < |slots| => if Starts(slots[j]) then [PlayerStart(j)] else [])
  }

  /** The queue a round starts from: a player for every slot that takes
      part, in slot order, then the two shot cleaners 1090 above and below
      the centre. */
  function StartQueue(slots: seq<Slot>): seq<Event>
    requires |slots| <= SLOT_COUNT
  {
    Flatten(StartParts(slots), |slots|) +
      [FromEntity(ObjType.SHOT_CLEANER, Vector2(0, 1090)), FromEntity(ObjType.SHOT_CLEANER, Vector2(0, -1090))]
  }

  /** The start queue holds a player creation for exactly the slots that
      take part, nothing it creates is an enemy, and it is at most two
      longer than the slot table. */
  lemma StartQueueShape(slots: seq<Slot>)
    requires |slots| == SLOT_COUNT
    ensures |StartQueue(slots)| <= SLOT_COUNT + 2
    ensures EventsFit(StartQueue(slots), 0) && NoEnemySpawns(StartQueue(slots))
    ensures forall j :: 0 <= j < SLOT_COUNT ==> (PlayerStart(j) in StartQueue(slots) <==> Starts(slots[j]))
  {
    var parts := StartParts(slots);
    var q := StartQueue(slots);
    FlattenShort(parts, |slots|);
    FlattenMembers(parts, |slots|);
    forall e <- q ensures EventFits(e, 0) && (e.id == CREATE_ENTITY ==> e.otype != ObjType.ENEMY) {
      if e in Flatten(parts, |slots|) {
        var k :| 0 <= k < |parts| && e in parts[k];
      }
    }
    forall j | 0 <= j < SLOT_COUNT ensures PlayerStart(j) in q <==> Starts(slots[j]) {
      if Starts(slots[j]) {
        FlattenHas(parts, |slots|, j);
      }
      if PlayerStart(j) in q {
        assert PlayerStart(j) in Flatten(parts, |slots|);
        var k :| 0 <= k < |parts| && PlayerStart(j) in parts[k];
      }
    }
  }

  /** Parts of at most one element flatten to no more than their count. */
  lemma {:induction false} FlattenShort<T>(parts: seq<seq<T>>, n: nat)
    requires forall k :: 0 <= k < |parts| ==> |parts[k]| <= 1
    ensures |Flatten(parts, n)| <= n
  {
    if n > 0 {
      FlattenShort(parts, n - 1);
    }
  }

  /** Every element of an included part is in the flattening. */
  lemma {:induction false} FlattenHas<T>(parts: seq<seq<T>>, n: nat, j: nat)
    requires j < n && j < |parts|
    ensures forall x <- parts[j] :: x in Flatten(parts, n)
  {
    if j < n - 1 {
      FlattenHas(parts, n - 1, j);
    }
  }

  /** The round state after a stage that ends the round when `over`: a
      round in play stops and its banner restarts showing `text`. */
  function RoundEnd(g: GlobalState, over: bool, text: u16): GlobalState
  {
    if g.playing && over then g.(playing := false, textAnimate := 0, textType := text) else g
  }

  /** Entry `i` of column `j` of the wave is the enemy the nested loop
      pushes there. */
  lemma WaveEntry(j: nat, i: nat)
    requires j < WAVE_COLUMNS && i < WAVE_ROWS
    ensures j * WAVE_ROWS + i < |EnemyWave()|
    ensures EnemyWave()[j * WAVE_ROWS + i] == FromEntity(ObjType.ENEMY, Vector2(j * 60 - 960 + 32, i * 32 - 100))
  {
    var k := j * WAVE_ROWS + i;
    assert k / WAVE_ROWS == j && k % WAVE_ROWS == i;
  }

  /** The index of the first end-of-list marker. */
  function EndOf(list: seq<u16>): (e: nat)
    requires END_LIST in list
    ensures e < |list| && list[e] == END_LIST && END_LIST !in list[..e]
  {
    if list[0] == END_LIST then 0
    else
      assert list == [list[0]] + list[1..];
      EndOf(list[1..]) + 1
  }

  /** Registration from entry `i` on, into table `t`: each non-null entry
      before the end marker is mapped to the entry after it, then the last
      entry before the marker, if not null, to the first entry. */
  function LinkFrom(t: map<u16, u16>, list: seq<u16>, i: nat): map<u16, u16>
    requires END_LIST in list && i <= EndOf(list) && (i > 0 || list[0] != END_LIST)
    decreases EndOf(list) - i
  {
    if list[i] == END_LIST then
      (if list[i - 1] != NULL_FRAME then t[list[i - 1] := list[0]] else t)
    else
      LinkFrom(if list[i] != NULL_FRAME then t[list[i] := list[i + 1]] else t, list, i + 1)
  }

  /** The table after registering a whole list. */
  function Registration(t: map<u16, u16>, list: seq<u16>): map<u16, u16>
    requires END_LIST in list && list[0] != END_LIST
  {
    LinkFrom(t, list, 0)
  }

  /** Adds the frames of `list` (up to its end marker) to the table as a
      cycle: each non-null frame maps to the next entry and the last one,
      if not null, back to the first. */
  method RegisterAnimation(table: map<u16, u16>, list: seq<u16>) returns (r: map<u16, u16>)
    requires END_LIST in list && list[0] != END_LIST
    ensures r == Registration(table, list)
  {
    ghost var e := EndOf(list);
    r := table;
    var i := 0;
    while list[i] != END_LIST
      invariant 0 <= i <= e
      invariant LinkFrom(r, list, i) == Registration(table, list)
      decreases e - i
    {
      if list[i] != NULL_FRAME {
        r := r[list[i] := list[i + 1]];
      }
      i := i + 1;
    }
    var last := list[i - 1];
    if last != NULL_FRAME {
      r := r[last := list[0]];
    }
  }

  /** Whether the entries before the end marker are pairwise distinct. */
  ghost predicate DistinctFrames(list: seq<u16>)
    requires END_LIST in list
  {
    forall k, l :: 0 <= k < l < EndOf(list) ==> list[k] != list[l]
  }

  /** Registration from `i` on leaves alone every frame it does not
      register. */
  lemma {:induction false} LinkFromKeeps(t: map<u16, u16>, list: seq<u16>, i: nat, f: u16)
    requires END_LIST in list && 0 < i <= EndOf(list)
    requires f !in list[i..EndOf(list)] && f != list[EndOf(list) - 1]
    ensures (f in LinkFrom(t, list, i) <==> f in t) && (f in t ==> LinkFrom(t, list, i)[f] == t[f])
    decreases EndOf(list) - i
  {
    var e := EndOf(list);
    if list[i] != END_LIST {
      assert list[i] != f by {
        assert list[i] == list[i..e][0];
      }
      assert list[i + 1..e] == list[i..e][1..];
      LinkFromKeeps(if list[i] != NULL_FRAME then t[list[i] := list[i + 1]] else t, list, i + 1, f);
    }
  }

  /** Registration from `i` on maps each non-null frame at or after `i` to
      its successor in the cycle, when the frames are distinct. */
  lemma {:induction false} LinkFromAt(t: map<u16, u16>, list: seq<u16>, i: nat, k: nat)
    requires END_LIST in list && DistinctFrames(list) && (i > 0 || list[0] != END_LIST)
    requires i <= k < EndOf(list) && list[k] != NULL_FRAME
    ensures list[k] in LinkFrom(t, list, i)
    ensures LinkFrom(t, list, i)[list[k]] == if k < EndOf(list) - 1 then list[k + 1] else list[0]
    decreases EndOf(list) - i
  {
    var e := EndOf(list);
    var t' := if list[i] != NULL_FRAME then t[list[i] := list[i + 1]] else t;
    assert LinkFrom(t, list, i) == LinkFrom(t', list, i + 1);
    if i < k {
      LinkFromAt(t', list, i + 1, k);
    } else if k < e - 1 {
      assert list[k] !in list[k + 1..e] by {
        forall m | k < m < e ensures list[m] != list[k] { }
      }
      LinkFromKeeps(t', list, i + 1, list[k]);
    }
  }

  /** Registering a list of distinct frames closes them into a cycle: each
      non-null frame maps to the next, the last to the first, and every
      frame not in the list keeps what it had. */
  lemma RegistrationCycle(t: map<u16, u16>, list: seq<u16>)
    requires END_LIST in list && list[0] != END_LIST && DistinctFrames(list)
    ensures forall k :: 0 <= k < EndOf(list) && list[k] != NULL_FRAME ==>
      list[k] in Registration(t, list) &&
      Registration(t, list)[list[k]] == if k < EndOf(list) - 1 then list[k + 1] else list[0]
    ensures forall f :: f !in list[..EndOf(list)] ==>
      (f in Registration(t, list) <==> f in t) && (f in t ==> Registration(t, list)[f] == t[f])
  {
    var e := EndOf(list);
    forall k | 0 <= k < e && list[k] != NULL_FRAME
      ensures list[k] in Registration(t, list)
      ensures Registration(t, list)[list[k]] == if k < e - 1 then list[k + 1] else list[0]
    {
      LinkFromAt(t, list, 0, k);
    }
    forall f | f !in list[..e]
      ensures (f in Registration(t, list) <==> f in t) && (f in t ==> Registration(t, list)[f] == t[f])
    {
      var t' := if list[0] != NULL_FRAME then t[list[0] := list[1]] else t;
      assert list[0] != f by {
        assert list[0] == list[..e][0];
      }
      assert list[1..e] == list[..e][1..];
      assert list[e - 1] == list[..e][e - 1];
      LinkFromKeeps(t', list, 1, f);
    }
  }

  /** An explosion list: seven frames from `first` on, then the null frame. */
  function Explosion(first: u16): seq<u16>
    requires first + 6 < END_LIST && first > NULL_FRAME
  {
    [first, first + 1, first + 2, first + 3, first + 4, first + 5, first + 6, NULL_FRAME, END_LIST]
  }

  /** Registering an explosion runs its frames forward into the null
      frame and adds nothing else. */
  lemma ExplosionRegistered(t: map<u16, u16>, first: u16)
    requires first + 6 < END_LIST && first > NULL_FRAME
    ensures Registration(t, Explosion(first)) ==
      t[first := first + 1][first + 1 := first + 2][first + 2 := first + 3][first + 3 := first + 4]
       [first + 4 := first + 5][first + 5 := first + 6][first + 6 := NULL_FRAME]
  {
    var l := Explosion(first);
    assert EndOf(l) == 8 by {
      assert forall k :: 0 <= k < 8 ==> l[k] != END_LIST;
    }
    var t1 := t[first := first + 1];
    var t2 := t1[first + 1 := first + 2];
    var t3 := t2[first + 2 := first + 3];
    var t4 := t3[first + 3 := first + 4];
    var t5 := t4[first + 4 := first + 5];
    var t6 := t5[first + 5 := first + 6];
    var t7 := t6[first + 6 := NULL_FRAME];
    assert LinkFrom(t7, l, 7) == LinkFrom(t7, l, 8) == t7;
    assert LinkFrom(t5, l, 5) == LinkFrom(t6, l, 6) == LinkFrom(t7, l, 7);
    assert LinkFrom(t3, l, 3) == LinkFrom(t4, l, 4) == LinkFrom(t5, l, 5);
    assert LinkFrom(t1, l, 1) == LinkFrom(t2, l, 2) == LinkFrom(t3, l, 3);
    assert LinkFrom(t, l, 0) == LinkFrom(t1, l, 1);
  }

  /** Registering a two-frame loop makes each frame the other's successor
      and adds nothing else. */
  lemma PairRegistered(t: map<u16, u16>, a: u16, b: u16)
    requires NULL_FRAME < a < END_LIST && NULL_FRAME < b < END_LIST
    ensures Registration(t, [a, b, END_LIST]) == t[a := b][b := a]
  {
    var l := [a, b, END_LIST];
    assert EndOf(l) == 2;
    assert LinkFrom(t, l, 0) == LinkFrom(t[a := b], l, 1) == LinkFrom(t[a := b][b := END_LIST], l, 2);
  }

  /** The successor table of the two explosions and the two ship loops:
      every animated frame except the enemy looks. */
  lemma FixedAnimations(t: map<u16, u16>)
    requires t ==
      map[PLAYER_BOOM_0 := 31, 31 := 32, 32 := 33, 33 := 34, 34 := 35, 35 := 36, PLAYER_BOOM_6 := NULL_FRAME,
          ENEMY_BOOM_0 := 38, 38 := 39, 39 := 40, 40 := 41, 41 := 42, 42 := 43, ENEMY_BOOM_6 := NULL_FRAME,
          PLAYER_SHIP_0 := PLAYER_SHIP_1, PLAYER_SHIP_1 := PLAYER_SHIP_0,
          LOCAL_PLAYER_0 := LOCAL_PLAYER_1, LOCAL_PLAYER_1 := LOCAL_PLAYER_0]
    ensures forall f: u16 {:trigger NextFrame(f)} ::
      (f in t <==> NextFrame(f).Some? && f > 23) && (f in t ==> t[f] == NextFrame(f).value)
  {
  }

  /** The frame successor table of every animation in the game. */
  method SetupAnimationTable() returns (t: map<u16, u16>)
    ensures IsAnimationTable(t)
  {
    t := map[];
    t := RegisterAnimation(t, Explosion(PLAYER_BOOM_0));
    ExplosionRegistered(map[], PLAYER_BOOM_0);
    ghost var t1 := t;
    t := RegisterAnimation(t, Explosion(ENEMY_BOOM_0));
    ExplosionRegistered(t1, ENEMY_BOOM_0);
    ghost var t2 := t;
    t := RegisterAnimation(t, [PLAYER_SHIP_0, PLAYER_SHIP_1, END_LIST]);
    PairRegistered(t2, PLAYER_SHIP_0, PLAYER_SHIP_1);
    ghost var t3 := t;
    t := RegisterAnimation(t, [LOCAL_PLAYER_0, LOCAL_PLAYER_1, END_LIST]);
    PairRegistered(t3, LOCAL_PLAYER_0, LOCAL_PLAYER_1);
    FixedAnimations(t);
    var enemy: seq<u16> := [NULL_FRAME, NULL_FRAME, END_LIST];
    var i: u16 := 0;
    while i < ENEMY_TYPE_COUNT
      invariant i <= ENEMY_TYPE_COUNT
      invariant |enemy| == 3 && enemy[2] == END_LIST
      invariant forall f: u16 {:trigger NextFrame(f)} ::
        (f in t <==> NextFrame(f).Some? && (f < ENEMY_00_A + i || ENEMY_00_B <= f < ENEMY_00_B + i || f > 23)) &&
        (f in t ==> t[f] == NextFrame(f).value)
    {
      enemy := enemy[0 := i + 2][1 := i + 2 + ENEMY_TYPE_COUNT];
      assert enemy == [i + 2, i + 2 + ENEMY_TYPE_COUNT, END_LIST];
      PairRegistered(t, i + 2, i + 2 + ENEMY_TYPE_COUNT);
      t := RegisterAnimation(t, enemy);
      i := i + 1;
    }
  }

  /** The create branch with only what event resolution needs of it: the
      store stays consistent, players stay in their slots, at most one
      allocator entry is added, and only an enemy draws from the
      generator. */
  method CreateStep(cp: Cp, rand: Mersenne.MersenneTwister, e: Event) returns (ok: bool)
    requires cp.Valid() && rand.Valid() && PlayersPlaced(cp.Rows())
    requires e.id == CREATE_ENTITY && EventFits(e, |cp.comp|)
    modifies cp, cp.manager, rand, rand.x
    ensures cp.Valid() && rand.Valid() && PlayersPlaced(cp.Rows())
    ensures ok == (old(cp.manager.head) != END_OF_LIST || old(|cp.manager.list|) < 0x1_0000)
    ensures !ok ==> cp.manager.head == END_OF_LIST && |cp.manager.list| == 0x1_0000
    ensures !ok ==> cp.manager.list == old(cp.manager.list)
    ensures !ok ==> unchanged(cp) && unchanged(cp.manager) && unchanged(rand) && unchanged(rand.x)
    ensures ok ==>
      var at := CreatedIndex(old(cp.manager.head), old(|cp.manager.list|));
      && 0 < at < |cp.comp|
      && (cp.manager.head, cp.manager.list) == AfterAllocate(old(cp.manager.head), old(cp.manager.list))
      && cp.generation == Resized(old(cp.generation), |cp.comp|, 0)
      && cp.emptyA == old(cp.emptyA) && cp.emptyB == old(cp.emptyB)
      && cp.ValidHandle(Entity(at as u16, cp.generation[at]))
      && cp.Rows() == SpawnedRows(old(cp.Rows()), |cp.comp|, at, e,
           SpawnDelay(old(rand.State()), e.otype), SpawnLook(old(rand.State()), e.otype))
    ensures old(|cp.comp|) <= |cp.comp|
    ensures |cp.manager.list| <= old(|cp.manager.list|) + 1
    ensures old(rand.Seeded()) ==> rand.Seeded()
    ensures ok && e.otype == ObjType.ENEMY ==> rand.State() == Mersenne.Stepped(Mersenne.Stepped(old(rand.State())))
    ensures !(ok && e.otype == ObjType.ENEMY) ==> unchanged(rand) && unchanged(rand.x) && rand.State() == old(rand.State())
  {
    ghost var rows := cp.Rows();
    ghost var at, delay, look;
    ok, at, delay, look := Spawn(cp, rand, e);
    if ok {
      SpawnKeepsPlayers(rows, |cp.comp|, at, e, delay, look);
    }
  }
}
