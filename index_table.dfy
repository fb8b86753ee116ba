/** The slot allocator: a free list threaded through a growable table of
    16-bit entries. Entry 0 and the head value 0 both mean "end of list",
    so index 0 is never handed out. */
module IndexTables {
  import opened Prelude

  const END_OF_LIST: u16 := 0

  /** The table's head and entries after an allocation with room: the
      free list's head is popped and its entry cleared, or, with the free
      list empty, one END_OF_LIST entry is appended. */
  function AfterAllocate(head: u16, list: seq<u16>): (u16, seq<u16>)
    requires head < |list|
  {
    if head != END_OF_LIST then (list[head], list[head := END_OF_LIST])
    else (END_OF_LIST, list + [END_OF_LIST])
  }

  /** The table's head and entries after freeing `value`: pushed on the
      free list when its entry is END_OF_LIST, otherwise left alone. */
  function AfterFree(head: u16, list: seq<u16>, value: u16): (u16, seq<u16>)
    requires value < |list|
  {
    if list[value] == END_OF_LIST then (value, list[value := head]) else (head, list)
  }

  class IndexTable {
    var head: u16
    var list: seq<u16>
    /** The free list as read from `head`: each entry links to the next. */
    ghost var free: seq<u16>

    /** What every operation keeps, whatever it is asked to free: the table
        is non-empty, fits 16-bit indices, and every link stays inside it. */
    ghost predicate Valid()
      reads this
    {
      && 1 <= |list| <= 0x1_0000
      && head < |list|
      && (forall i :: 0 <= i < |list| ==> list[i] < |list|)
    }

    /** The ghost free list matches the table (see FreeChain). */
    ghost predicate Sound()
      reads this
    {
      Valid() && FreeChain(head, list, free)
    }

    /** The indices currently handed out. */
    ghost function Allocated(): set<int>
      reads this
    {
      AllocatedOf(list, free)
    }

    constructor ()
      ensures Sound() && head == END_OF_LIST && list == [END_OF_LIST] && free == []
      ensures Allocated() == {}
    {
      head := END_OF_LIST;
      list := [END_OF_LIST];
      free := [];
    }

    /** Forgets every allocation. */
    method Reset()
      modifies this
      ensures Sound() && head == END_OF_LIST && list == [END_OF_LIST] && free == []
      ensures Allocated() == {}
    {
      head := END_OF_LIST;
      list := [];
      list := list + [END_OF_LIST];
      free := [];
    }

    /** Pops the free-list head if there is one, otherwise grows the table by
        one entry and returns its index (the 16-bit conversion of the length
        fails beyond 65535 entries). */
    method Allocate() returns (value: u16)
      requires Valid()
      requires head != END_OF_LIST || |list| < 0x1_0000
      modifies this
      ensures Valid()
      ensures value != END_OF_LIST && value < |list|
      ensures old(head) != END_OF_LIST ==>
        && value == old(head)
        && head == old(list[head])
        && list == old(list)[value := END_OF_LIST]
      ensures old(head) == END_OF_LIST ==>
        && value == old(|list|)
        && head == END_OF_LIST
        && list == old(list) + [END_OF_LIST]
      ensures old(Sound()) ==>
        && Sound()
        && value !in old(Allocated())
        && Allocated() == old(Allocated()) + {value}
    {
      ghost var wasSound := Sound();
      if wasSound {
        if head == END_OF_LIST {
          GrowKeepsChain(list, free);
        } else {
          PopKeepsChain(head, list, free);
        }
      }
      value := head;
      if value == END_OF_LIST {
        value := |list|;
        list := list + [END_OF_LIST];
      } else {
        var index := value;
        head := list[index];
        list := list[index := END_OF_LIST];
        if |free| > 0 {
          free := free[1..];
        }
      }
    }

    /** Pushes `value` back on the free list unless its entry is non-zero.
        The guard cannot tell an allocated index from the tail of the free
        list, since both hold END_OF_LIST. */
    method Free(value: u16)
      requires Valid()
      requires value < |list|
      modifies this
      ensures Valid()
      ensures old(list[value]) == END_OF_LIST ==>
        list == old(list)[value := old(head)] && head == value
      ensures old(list[value]) != END_OF_LIST ==>
        list == old(list) && head == old(head)
      ensures old(Sound()) && value in old(Allocated()) ==>
        Sound() && Allocated() == old(Allocated()) - {value}
    {
      if Sound() && value in Allocated() {
        PushKeepsChain(head, list, free, value);
      }
      var index := value;
      if list[index] == END_OF_LIST {
        list := list[index := head];
        head := value;
        free := [value] + free;
      }
    }
  }

  /** The free list, read from `head`, is an acyclic chain through distinct
      non-zero indices ending in END_OF_LIST, and every index off the chain
      (an allocated one) holds END_OF_LIST. */
  ghost predicate FreeChain(head: u16, list: seq<u16>, free: seq<u16>)
  {
    && |list| >= 1
    && list[0] == END_OF_LIST
    && (forall k :: 0 <= k < |free| ==> 1 <= free[k] < |list|)
    && (forall k, l :: 0 <= k < l < |free| ==> free[k] != free[l])
    && head == (if free == [] then END_OF_LIST else free[0])
    && (forall k :: 0 <= k < |free| - 1 ==> list[free[k]] == free[k + 1])
    && (free != [] ==> list[free[|free| - 1]] == END_OF_LIST)
    && (forall i :: 1 <= i < |list| && i !in free ==> list[i] == END_OF_LIST)
  }

  ghost function AllocatedOf(list: seq<u16>, free: seq<u16>): set<int>
  {
    set i | 1 <= i < |list| && i !in free
  }

  /** Taking the head off a sound free list leaves a sound free list and
      allocates exactly the old head, which was not allocated before. */
  lemma PopKeepsChain(head: u16, list: seq<u16>, free: seq<u16>)
    requires FreeChain(head, list, free) && head != END_OF_LIST
    ensures free != [] && list[head] < |list|
    ensures FreeChain(list[head], list[head := END_OF_LIST], free[1..])
    ensures head !in AllocatedOf(list, free)
    ensures AllocatedOf(list[head := END_OF_LIST], free[1..]) == AllocatedOf(list, free) + {head}
  {
    var list', free' := list[head := END_OF_LIST], free[1..];
    assert head == free[0];
    if |free| > 1 {
      assert list[head] == free[1];
    } else {
      assert list[head] == END_OF_LIST;
    }
    forall k | 0 <= k < |free'| - 1 ensures list'[free'[k]] == free'[k + 1] {
      assert free'[k] == free[k + 1] != free[0];
    }
    if free' != [] {
      assert free'[|free'| - 1] == free[|free| - 1] != free[0];
    }
    assert free == [head] + free';
    forall i | 1 <= i < |list'| && i !in free' ensures list'[i] == END_OF_LIST {
      if i != head {
        assert i !in free;
      }
    }
    assert AllocatedOf(list', free') == AllocatedOf(list, free) + {head};
  }

  /** Growing the table when the free list is empty allocates the new last
      index and keeps the (empty) free list sound. */
  lemma GrowKeepsChain(list: seq<u16>, free: seq<u16>)
    requires FreeChain(END_OF_LIST, list, free) && |list| < 0x1_0000
    ensures free == []
    ensures FreeChain(END_OF_LIST, list + [END_OF_LIST], free)
    ensures |list| !in AllocatedOf(list, free)
    ensures AllocatedOf(list + [END_OF_LIST], free) == AllocatedOf(list, free) + {|list|}
  {
    assert AllocatedOf(list + [END_OF_LIST], free) == AllocatedOf(list, free) + {|list|};
  }

  /** Freeing an allocated index pushes it on a sound free list. */
  lemma PushKeepsChain(head: u16, list: seq<u16>, free: seq<u16>, value: u16)
    requires FreeChain(head, list, free) && value in AllocatedOf(list, free)
    ensures list[value] == END_OF_LIST
    ensures FreeChain(value, list[value := head], [value] + free)
    ensures AllocatedOf(list[value := head], [value] + free) == AllocatedOf(list, free) - {value}
  {
    var list', free' := list[value := head], [value] + free;
    assert value !in free;
    forall k | 0 <= k < |free'| - 1 ensures list'[free'[k]] == free'[k + 1] {
      if k > 0 {
        assert free'[k] == free[k - 1] != value;
      }
    }
    if free != [] {
      assert free'[|free'| - 1] == free[|free| - 1] != value;
    }
    forall k, l | 0 <= k < l < |free'| ensures free'[k] != free'[l] {
      if k > 0 {
        assert free'[k] == free[k - 1] && free'[l] == free[l - 1];
      } else {
        assert free'[l] == free[l - 1];
      }
    }
    assert AllocatedOf(list', free') == AllocatedOf(list, free) - {value};
  }

  /** Freeing the tail of the free list a second time links the tail to
      itself: the next two allocations return the same index. */
  method DoubleFreeOfTail() returns (first: u16, second: u16)
    ensures first == second == 1
  {
    var table := new IndexTable();
    var a := table.Allocate();
    table.Free(a);
    table.Free(a);
    first := table.Allocate();
    second := table.Allocate();
  }
}
