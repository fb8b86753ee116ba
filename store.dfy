/** The struct-of-arrays component store: one row per entity index, each
    row a generation tag, a component mask and the component records, with
    the free-list allocator handing out indices. Two scratch rows stand in
    for the components a row does not have. */
module Store {
  import opened Prelude
  import opened IndexTables
  import opened Components
  import Cf

  /** Where a reference points: a row, or one of the two scratch rows. */
  datatype Target = Row(index: nat) | ScratchA | ScratchB

  /** A borrowed row: the handle it was reached by and where its fields live. */
  datatype CpReference = CpReference(entity: Entity, target: Target)

  /** A mask the store keeps: empty, or carrying the Component flag. */
  predicate Tagged(c: bv8)
  {
    c == Cf.NONE || c & Cf.COMPONENT != 0
  }

  /** `s` cut or padded with `d` to length `n`, as a vector resize does. */
  function Resized<T>(s: seq<T>, n: nat, d: T): (r: seq<T>)
    ensures |r| == n
    ensures forall i :: 0 <= i < n && i < |s| ==> r[i] == s[i]
    ensures forall i :: |s| <= i < n ==> r[i] == d
  {
    if n <= |s| then s[..n] else s + seq(n - |s|, _ => d)
  }

  /** The record `p` written onto `row`: only the parts whose flag is in
      p's own mask are written. */
  function Stamped(p: CpPrefab, row: CpPrefab): CpPrefab
  {
    CpPrefab(
      if p.comp & Cf.COMPONENT != 0 then p.comp else row.comp,
      if p.comp & Cf.OBJECT_ID != 0 then p.objectId else row.objectId,
      if p.comp & Cf.BODY != 0 then p.body else row.body,
      if p.comp & Cf.PLAYER != 0 then p.player else row.player,
      if p.comp & Cf.ENEMY != 0 then p.enemy else row.enemy,
      if p.comp & Cf.ANIMATOR != 0 then p.animator else row.animator)
  }

  /** The record `p` after reading `row` into it: only the parts whose flag
      is in the row's mask are read. */
  function Captured(p: CpPrefab, row: CpPrefab): CpPrefab
  {
    CpPrefab(
      if row.comp & Cf.COMPONENT != 0 then row.comp else p.comp,
      if row.comp & Cf.OBJECT_ID != 0 then row.objectId else p.objectId,
      if row.comp & Cf.BODY != 0 then row.body else p.body,
      if row.comp & Cf.PLAYER != 0 then row.player else p.player,
      if row.comp & Cf.ENEMY != 0 then row.enemy else p.enemy,
      if row.comp & Cf.ANIMATOR != 0 then row.animator else p.animator)
  }

  /** Capturing a live row and stamping the capture back changes nothing. */
  lemma StampCaptured(p: CpPrefab, row: CpPrefab)
    requires row.comp & Cf.COMPONENT != 0
    ensures Stamped(Captured(p, row), row) == row
  {
  }

  /** Stamping twice is stamping once. */
  lemma StampIdempotent(p: CpPrefab, row: CpPrefab)
    ensures Stamped(p, Stamped(p, row)) == Stamped(p, row)
  {
  }

  /** A stamped row keeps its tag when the prefab is tagged. */
  lemma StampKeepsTag(p: CpPrefab, row: CpPrefab)
    requires Tagged(row.comp)
    ensures Tagged(Stamped(p, row).comp)
    ensures p.comp & Cf.COMPONENT != 0 ==> Stamped(p, row).comp == p.comp
  {
  }

  /** Whether a mask holds every flag of a filter. */
  predicate Matches(c: bv8, mask: bv8)
  {
    c & mask == mask
  }

  /** Whether a filtered iteration visits row `k`: one whose mask matches
      the filter, never index 0. */
  predicate VisitsRow(comp: seq<bv8>, mask: bv8, k: int)
  {
    1 <= k < |comp| && Matches(comp[k], mask)
  }

  /** A tagged mask that holds the flags of a non-empty filter carries the
      Component flag. */
  lemma VisitedRowIsLive(c: bv8, mask: bv8)
    requires Tagged(c) && Matches(c, mask) && mask != Cf.NONE
    ensures c & Cf.COMPONENT != Cf.NONE
  {
  }

  /** `rows` padded with empty records to length `n`, with the mask of row
      `i` cleared: the rows after a creation at `i`. */
  function Grown(rows: seq<CpPrefab>, n: nat, i: nat): (r: seq<CpPrefab>)
    requires i < n
    ensures |r| == n
  {
    var g := Resized(rows, n, DEFAULT_PREFAB);
    g[i := g[i].(comp := Cf.NONE)]
  }

  /** Resizing every column resizes the records. */
  lemma ZipResized(comp: seq<bv8>, objectId: seq<u8>, body: seq<Body>, player: seq<Player>,
                   enemy: seq<Enemy>, animator: seq<Animator>, n: nat, i: nat)
    requires |objectId| == |body| == |player| == |enemy| == |animator| == |comp| && i < n
    ensures Zip(Resized(comp, n, Cf.NONE)[i := Cf.NONE], Resized(objectId, n, 0), Resized(body, n, DEFAULT_BODY),
                Resized(player, n, DEFAULT_PLAYER), Resized(enemy, n, DEFAULT_ENEMY), Resized(animator, n, DEFAULT_ANIMATOR))
      == Grown(Zip(comp, objectId, body, player, enemy, animator), n, i)
  {
  }

  /** The records made of the i-th entry of each column. */
  function Zip(comp: seq<bv8>, objectId: seq<u8>, body: seq<Body>, player: seq<Player>,
               enemy: seq<Enemy>, animator: seq<Animator>): (r: seq<CpPrefab>)
    requires |objectId| == |body| == |player| == |enemy| == |animator| == |comp|
    ensures |r| == |comp|
    ensures forall i :: 0 <= i < |comp| ==>
      r[i] == CpPrefab(comp[i], objectId[i], body[i], player[i], enemy[i], animator[i])
  {
    seq(|comp|, i requires 0 <= i < |comp| => CpPrefab(comp[i], objectId[i], body[i], player[i], enemy[i], animator[i]))
  }

  /** The first `n` entries of `done` followed by the rest of `rest`: the
      rows part-way through a pass. */
  function Upto<T>(done: seq<T>, rest: seq<T>, n: int): (r: seq<T>)
    requires |done| == |rest|
    ensures |r| == |rest|
  {
    seq(|rest|, k requires 0 <= k < |rest| => if k < n then done[k] else rest[k])
  }

  /** Before a pass nothing has changed, after it everything has. */
  lemma UptoEnds<T>(done: seq<T>, rest: seq<T>, n: int)
    requires |done| == |rest|
    ensures n <= 0 ==> Upto(done, rest, n) == rest
    ensures n >= |rest| ==> Upto(done, rest, n) == done
  {
  }

  /** Moving the boundary from `i` past `n` over entries where `done` and
      `rest` agree changes only entry `i`. */
  lemma UptoStep<T>(done: seq<T>, rest: seq<T>, i: int, n: int)
    requires |done| == |rest| && 0 <= i < n && i < |rest|
    requires forall k :: i < k < n && k < |rest| ==> done[k] == rest[k]
    ensures Upto(done, rest, n) == Upto(done, rest, i)[i := done[i]]
  {
  }

  /** Moving the boundary over entries where `done` and `rest` agree
      changes nothing. */
  lemma UptoSkip<T>(done: seq<T>, rest: seq<T>, i: int, n: int)
    requires |done| == |rest| && i <= n
    requires forall k :: i <= k < n && 0 <= k < |rest| ==> done[k] == rest[k]
    ensures Upto(done, rest, n) == Upto(done, rest, i)
  {
  }

  class Cp {
    var emptyA: CpPrefab
    var emptyB: CpPrefab
    const manager: IndexTable
    var generation: seq<u16>
    var comp: seq<bv8>
    var objectId: seq<u8>
    var body: seq<Body>
    var player: seq<Player>
    var enemy: seq<Enemy>
    var animator: seq<Animator>

    /** All rows have one length, which follows the allocator's table
        (nothing is stored before the first allocation), and every mask is
        tagged. */
    ghost predicate Valid()
      reads this, manager
    {
      && manager.Valid()
      && |generation| == |comp| && |objectId| == |comp| && |body| == |comp|
      && |player| == |comp| && |enemy| == |comp| && |animator| == |comp|
      && (|comp| == |manager.list| || (|comp| == 0 && |manager.list| == 1))
      && (forall i :: 0 <= i < |comp| ==> Tagged(comp[i]))
    }

    /** The record stored at row `i`. */
    function RowAt(i: nat): CpPrefab
      reads this
      requires i < |comp| && |objectId| == |body| == |player| == |enemy| == |animator| == |comp|
    {
      CpPrefab(comp[i], objectId[i], body[i], player[i], enemy[i], animator[i])
    }

    /** Every row as a record, in index order. */
    function Rows(): (r: seq<CpPrefab>)
      reads this
      requires |objectId| == |body| == |player| == |enemy| == |animator| == |comp|
      ensures |r| == |comp| && forall i :: 0 <= i < |comp| ==> r[i] == RowAt(i)
    {
      Zip(comp, objectId, body, player, enemy, animator)
    }

    /** What a pass through borrowed references leaves as it was: the
        generations, the masks and the scratch rows. */
    ghost function Fixed(): (seq<u16>, seq<bv8>, CpPrefab, CpPrefab)
      reads this
    {
      (generation, comp, emptyA, emptyB)
    }

    /** The record a target points at. */
    function Get(t: Target): CpPrefab
      reads this
      requires t.Row? ==> t.index < |comp| && |objectId| == |body| == |player| == |enemy| == |animator| == |comp|
    {
      match t
      case Row(i) => RowAt(i)
      case ScratchA => emptyA
      case ScratchB => emptyB
    }

    /** Whether `e` still names the row it was made for: it is not null and
        its generation is the row's current one. */
    predicate ValidHandle(e: Entity)
      reads this
      requires e.index == 0 || e.index < |generation|
    {
      !e.IsNull() && e.generation == generation[e.index]
    }

    /** An empty store. */
    constructor ()
      ensures Valid() && fresh(manager)
      ensures comp == [] && generation == [] && manager.list == [END_OF_LIST]
      ensures manager.Sound() && manager.Allocated() == {}
      ensures emptyA == DEFAULT_PREFAB && emptyB == DEFAULT_PREFAB
    {
      emptyA, emptyB := DEFAULT_PREFAB, DEFAULT_PREFAB;
      manager := new IndexTable();
      generation, comp, objectId, body, player, enemy, animator := [], [], [], [], [], [], [];
    }

    /** Drops every row and forgets every allocation. */
    method Clear()
      modifies this, manager
      ensures Valid()
      ensures comp == [] && generation == [] && objectId == [] && body == []
      ensures player == [] && enemy == [] && animator == []
      ensures manager.Sound() && manager.head == END_OF_LIST && manager.list == [END_OF_LIST]
      ensures manager.Allocated() == {}
      ensures emptyA == old(emptyA) && emptyB == old(emptyB)
    {
      generation := [];
      comp := [];
      objectId := [];
      body := [];
      player := [];
      enemy := [];
      animator := [];
      manager.Reset();
    }

    /** Cuts or pads every row vector to `s` entries, padding with the
        default record. The allocator is not touched. */
    method Resize(s: nat)
      modifies this
      ensures generation == Resized(old(generation), s, 0)
      ensures comp == Resized(old(comp), s, Cf.NONE)
      ensures objectId == Resized(old(objectId), s, 0)
      ensures body == Resized(old(body), s, DEFAULT_BODY)
      ensures player == Resized(old(player), s, DEFAULT_PLAYER)
      ensures enemy == Resized(old(enemy), s, DEFAULT_ENEMY)
      ensures animator == Resized(old(animator), s, DEFAULT_ANIMATOR)
      ensures emptyA == old(emptyA) && emptyB == old(emptyB)
    {
      generation := Resized(generation, s, 0);
      comp := Resized(comp, s, Cf.NONE);
      objectId := Resized(objectId, s, 0);
      body := Resized(body, s, DEFAULT_BODY);
      player := Resized(player, s, DEFAULT_PLAYER);
      enemy := Resized(enemy, s, DEFAULT_ENEMY);
      animator := Resized(animator, s, DEFAULT_ANIMATOR);
    }

    /** Allocates an index, grows the rows to cover it if needed, clears
        its mask and returns a handle with the row's current generation. */
    method Create() returns (e: Entity)
      requires Valid()
      requires manager.head != END_OF_LIST || |manager.list| < 0x1_0000
      modifies this, manager
      ensures Valid()
      ensures !e.IsNull() && e.index < |comp| && ValidHandle(e)
      ensures comp[e.index] == Cf.NONE
      ensures old(manager.head) != END_OF_LIST ==> e.index == old(manager.head)
      ensures old(manager.head) == END_OF_LIST ==> e.index == old(|manager.list|)
      ensures |manager.list| == old(|manager.list|) + (if old(manager.head) == END_OF_LIST then 1 else 0)
      ensures (manager.head, manager.list) == AfterAllocate(old(manager.head), old(manager.list))
      ensures old(manager.Sound()) ==>
        && manager.Sound()
        && e.index !in old(manager.Allocated())
        && manager.Allocated() == old(manager.Allocated()) + {e.index as int}
      ensures |comp| == |manager.list|
      ensures Rows() == Grown(old(Rows()), |comp|, e.index as nat)
      ensures generation == Resized(old(generation), |comp|, 0)
      ensures comp == Resized(old(comp), |comp|, Cf.NONE)[e.index := Cf.NONE]
      ensures objectId == Resized(old(objectId), |comp|, 0)
      ensures body == Resized(old(body), |comp|, DEFAULT_BODY)
      ensures player == Resized(old(player), |comp|, DEFAULT_PLAYER)
      ensures enemy == Resized(old(enemy), |comp|, DEFAULT_ENEMY)
      ensures animator == Resized(old(animator), |comp|, DEFAULT_ANIMATOR)
      ensures emptyA == old(emptyA) && emptyB == old(emptyB)
    {
      ghost var rows := Rows();
      ghost var columns := (comp, objectId, body, player, enemy, animator);
      e := NULL_ENTITY;
      var value := manager.Allocate();
      if value != END_OF_LIST {
        if |comp| < value as int + 1 {
          Resize(value as int + 1);
        }
        comp := comp[value := Cf.NONE];
        e := Entity(value, generation[value]);
      }
      ZipResized(columns.0, columns.1, columns.2, columns.3, columns.4, columns.5, |comp|, e.index as nat);
    }

    /** Retires a live handle: bumps its row's generation (wrapping at
        2^16), clears the row's mask and frees the index. A stale or null
        handle changes nothing. */
    method Destroy(e: Entity)
      requires Valid()
      requires e.index == 0 || e.index < |generation|
      modifies this, manager
      ensures Valid()
      ensures e.index == 0 || e.index < |generation|
      ensures !ValidHandle(e)
      ensures old(ValidHandle(e)) ==>
        && generation == old(generation)[e.index := WrapU16(old(generation[e.index]) as int + 1)]
        && comp == old(comp)[e.index := Cf.NONE]
        && (manager.head, manager.list) == AfterFree(old(manager.head), old(manager.list), e.index)
        && (old(manager.Sound()) && e.index as int in old(manager.Allocated()) ==>
              manager.Sound() && manager.Allocated() == old(manager.Allocated()) - {e.index as int})
      ensures !old(ValidHandle(e)) ==>
        generation == old(generation) && comp == old(comp) && unchanged(manager)
      ensures |manager.list| == old(|manager.list|)
      ensures objectId == old(objectId) && body == old(body) && player == old(player)
      ensures enemy == old(enemy) && animator == old(animator)
      ensures emptyA == old(emptyA) && emptyB == old(emptyB)
    {
      if ValidHandle(e) {
        var i := e.index;
        generation := generation[i := WrapU16(generation[i] as int + 1)];
        comp := comp[i := Cf.NONE];
        manager.Free(i);
      }
    }

    /** Writes prefab `p` onto the row of `e` if `e` is live: only the
        parts whose flags are in p's mask. */
    method Stamp(p: CpPrefab, e: Entity)
      requires Valid()
      requires e.index == 0 || e.index < |generation|
      modifies this
      ensures Valid()
      ensures generation == old(generation)
      ensures Rows() == if old(ValidHandle(e)) then old(Rows())[e.index := Stamped(p, old(RowAt(e.index)))] else old(Rows())
      ensures emptyA == old(emptyA) && emptyB == old(emptyB)
    {
      if ValidHandle(e) {
        var i := e.index;
        var row := Stamped(p, RowAt(i));
        comp := comp[i := row.comp];
        objectId := objectId[i := row.objectId];
        body := body[i := row.body];
        player := player[i := row.player];
        enemy := enemy[i := row.enemy];
        animator := animator[i := row.animator];
      }
    }

    /** Stores the fields of `v` other than the mask where `t` points: a
        write through a borrowed reference. */
    method Put(t: Target, v: CpPrefab)
      requires Valid()
      requires t.Row? ==> t.index < |comp|
      modifies this
      ensures Valid()
      ensures generation == old(generation) && comp == old(comp)
      ensures Rows() == if t.Row? then old(Rows())[t.index := v.(comp := comp[t.index])] else old(Rows())
      ensures emptyA == if t.ScratchA? then v.(comp := old(emptyA.comp)) else old(emptyA)
      ensures emptyB == if t.ScratchB? then v.(comp := old(emptyB.comp)) else old(emptyB)
    {
      match t
      case Row(i) =>
        objectId := objectId[i := v.objectId];
        body := body[i := v.body];
        player := player[i := v.player];
        enemy := enemy[i := v.enemy];
        animator := animator[i := v.animator];
      case ScratchA =>
        emptyA := v.(comp := emptyA.comp);
      case ScratchB =>
        emptyB := v.(comp := emptyB.comp);
    }

    /** Makes this store a copy of `other`: the allocator's head and table
        and every row vector, each resized to other's length and then copied
        entry by entry. The scratch rows are not copied. */
    method SmartCopy(other: Cp)
      requires other.Valid() && other != this && other.manager != manager
      modifies this, manager
      ensures Valid()
      ensures manager.head == other.manager.head && manager.list == other.manager.list
      ensures manager.free == other.manager.free
      ensures manager.Sound() == other.manager.Sound()
      ensures generation == other.generation && comp == other.comp && objectId == other.objectId
      ensures body == other.body && player == other.player
      ensures enemy == other.enemy && animator == other.animator
      ensures emptyA == old(emptyA) && emptyB == old(emptyB)
    {
      CopyColumns(other);
      var list := CopyRow(manager.list, other.manager.list, 0);
      manager.list := list;
      manager.head := other.manager.head;
      manager.free := other.manager.free;
    }

    /** The row vectors of `other` copied into this store. */
    method CopyColumns(other: Cp)
      requires other != this
      modifies this
      ensures generation == other.generation && comp == other.comp && objectId == other.objectId
      ensures body == other.body && player == other.player
      ensures enemy == other.enemy && animator == other.animator
      ensures emptyA == old(emptyA) && emptyB == old(emptyB)
    {
      var g := CopyRow(generation, other.generation, 0);
      var c := CopyRow(comp, other.comp, Cf.NONE);
      var o := CopyRow(objectId, other.objectId, 0);
      var b := CopyRow(body, other.body, DEFAULT_BODY);
      var pl := CopyRow(player, other.player, DEFAULT_PLAYER);
      var en := CopyRow(enemy, other.enemy, DEFAULT_ENEMY);
      var an := CopyRow(animator, other.animator, DEFAULT_ANIMATOR);
      generation, comp, objectId, body, player, enemy, animator := g, c, o, b, pl, en, an;
    }
  }

  /** `dst` resized to the length of `src` and overwritten entry by entry:
      the result is `src`. */
  method CopyRow<T>(dst: seq<T>, src: seq<T>, d: T) returns (r: seq<T>)
    ensures r == src
  {
    r := Resized(dst, |src|, d);
    var i := 0;
    while i < |src|
      invariant 0 <= i <= |src| && |r| == |src|
      invariant r[..i] == src[..i]
    {
      r := r[i := src[i]];
      i := i + 1;
    }
    assert r == r[..|src|];
  }

  /** A filtered forward cursor over the rows: it visits, in index order,
      every row after index 0 whose mask holds all the flags of `mask`. */
  class CpIter {
    var index: nat
    const mask: bv8
    const cp: Cp

    constructor (mask: bv8, cp: Cp)
      ensures this.mask == mask && this.cp == cp && index == 0
    {
      this.mask := mask;
      this.cp := cp;
      index := 0;
    }

    /** Where a reference to row `i` points: the row itself when it has the
        Component flag, scratch row A otherwise. */
    function TargetOf(i: nat): Target
      reads cp
      requires i < |cp.comp|
    {
      if cp.comp[i] & Cf.COMPONENT != Cf.NONE then Row(i) else ScratchA
    }

    /** Advances to the next matching row after the current one and borrows
        it, or returns None at the end. */
    method Next() returns (r: Option<CpReference>)
      requires cp.Valid()
      modifies this
      ensures old(index) < index
      ensures forall k :: old(index) < k < index ==> !VisitsRow(cp.comp, mask, k)
      ensures index < |cp.comp| ==>
        VisitsRow(cp.comp, mask, index) && r == Some(CpReference(Entity(index, cp.generation[index]), TargetOf(index)))
      ensures index >= |cp.comp| ==> r == None
      ensures mask != Cf.NONE && index < |cp.comp| ==> TargetOf(index) == Row(index)
    {
      var len := |cp.comp|;
      index := index + 1;
      while index < len && !Matches(cp.comp[index], mask)
        invariant old(index) < index
        invariant forall k :: old(index) < k < index ==> !VisitsRow(cp.comp, mask, k)
        decreases len - index
      {
        index := index + 1;
      }
      if index < len {
        if mask != Cf.NONE {
          VisitedRowIsLive(cp.comp[index], mask);
        }
        r := Some(CpReference(Entity(index, cp.generation[index]), TargetOf(index)));
      } else {
        r := None;
      }
    }

    /** Borrows the row of `entity` if the handle is live and the row under
        the cursor matches the filter; otherwise borrows row 0. Either way
        the cursor moves to the borrowed row. */
    method Nth(entity: Entity) returns (r: CpReference)
      requires cp.Valid() && |cp.comp| > 0
      requires entity.index == 0 || entity.index < |cp.generation|
      requires cp.ValidHandle(entity) ==> index < |cp.comp|
      modifies this
      ensures index == if old(cp.ValidHandle(entity)) && Matches(cp.comp[old(index)], mask) then entity.index as nat else 0
      ensures r == CpReference(entity, TargetOf(index))
    {
      if cp.ValidHandle(entity) && Matches(cp.comp[index], mask) {
        index := entity.index as nat;
      } else {
        index := 0;
      }
      r := CpReference(entity, TargetOf(index));
    }

    /** Borrows the rows of two handles at once. The two references never
        share storage: distinct rows, or a row and a scratch row, or the
        two different scratch rows. */
    method NthDouble(eA: Entity, eB: Entity) returns (a: CpReference, b: CpReference)
      requires cp.Valid()
      requires eA.index < |cp.comp| && eB.index < |cp.comp| && eA.index != eB.index
      ensures a.entity == eA && b.entity == eB
      ensures a.target == if cp.comp[eA.index] & Cf.COMPONENT != Cf.NONE then Row(eA.index as nat) else ScratchA
      ensures b.target == if cp.comp[eB.index] & Cf.COMPONENT != Cf.NONE then Row(eB.index as nat) else ScratchB
      ensures a.target != b.target
    {
      var iA, iB := eA.index as nat, eB.index as nat;
      var cA, cB := cp.comp[iA], cp.comp[iB];
      a := CpReference(eA, if cA & Cf.COMPONENT != Cf.NONE then Row(iA) else ScratchA);
      b := CpReference(eB, if cB & Cf.COMPONENT != Cf.NONE then Row(iB) else ScratchB);
    }
  }
}
