/** Axis-aligned boxes built from body position and half-size, their
    overlap test, the stable sort by lower x, and the contact events the
    broad phase emits for every overlapping pair. */
module Collision {
  import opened Prelude
  import opened Vectors
  import opened Components

  datatype Bounds = Bounds(btype: u8, entity: Entity, lower: Vector2, upper: Vector2)

  /** The box of a body at `p` with half-size `s` (the velocity `d` is not
      used). */
  function From(entity: Entity, btype: u8, p: Vector2, d: Vector2, s: Vector2): (r: Bounds)
    ensures r.btype == btype && r.entity == entity
    ensures Fits(p.x - s.x) && Fits(p.y - s.y) ==> r.lower == Vector2(p.x - s.x, p.y - s.y)
    ensures Fits(p.x + s.x) && Fits(p.y + s.y) ==> r.upper == Vector2(p.x + s.x, p.y + s.y)
  {
    Bounds(btype, entity, Sub(p, s), Add(p, s))
  }

  /** A box whose lower corner is below and left of its upper corner. */
  predicate WellFormed(b: Bounds)
  {
    b.lower.x <= b.upper.x && b.lower.y <= b.upper.y
  }

  /** A box built without overflow from a non-negative half-size is well
      formed and centred on the position. */
  lemma FromWellFormed(entity: Entity, btype: u8, p: Vector2, d: Vector2, s: Vector2)
    requires s.x >= 0 && s.y >= 0
    requires Fits(p.x - s.x) && Fits(p.y - s.y) && Fits(p.x + s.x) && Fits(p.y + s.y)
    ensures WellFormed(From(entity, btype, p, d, s))
    ensures var b := From(entity, btype, p, d, s);
      b.lower.x + b.upper.x == 2 * p.x && b.lower.y + b.upper.y == 2 * p.y
  {
  }

  /** Boxes overlap unless one lies wholly beyond the other on some axis;
      touching edges count as overlap. */
  predicate Overlap(a: Bounds, b: Bounds)
  {
    !(b.lower.x > a.upper.x || b.upper.x < a.lower.x ||
      b.lower.y > a.upper.y || b.upper.y < a.lower.y)
  }

  predicate Inside(b: Bounds, x: int, y: int)
  {
    b.lower.x <= x <= b.upper.x && b.lower.y <= y <= b.upper.y
  }

  /** For well-formed boxes the test is exact: they overlap iff some point
      lies in both. */
  lemma OverlapIffCommonPoint(a: Bounds, b: Bounds)
    requires WellFormed(a) && WellFormed(b)
    ensures Overlap(a, b) <==> exists x: int, y: int :: Inside(a, x, y) && Inside(b, x, y)
  {
    if Overlap(a, b) {
      var x := if a.lower.x < b.lower.x then b.lower.x else a.lower.x;
      var y := if a.lower.y < b.lower.y then b.lower.y else a.lower.y;
      assert Inside(a, x, y) && Inside(b, x, y);
    }
  }

  /** The test does not depend on argument order. */
  lemma OverlapSymmetric(a: Bounds, b: Bounds)
    ensures Overlap(a, b) == Overlap(b, a)
  {
  }

  /** The collision key of a pair of kinds: the first in the high byte. */
  function ComputeKey(a: u8, b: u8): (r: u16)
    ensures r / 0x100 == a && r % 0x100 == b
  {
    a * 0x100 + b
  }

  /** Different pairs of kinds get different keys. */
  lemma KeyInjective(a: u8, b: u8, c: u8, d: u8)
    ensures ComputeKey(a, b) == ComputeKey(c, d) <==> a == c && b == d
  {
    var k, l := ComputeKey(a, b), ComputeKey(c, d);
    assert k / 0x100 == a && k % 0x100 == b;
    assert l / 0x100 == c && l % 0x100 == d;
  }

  /** The contact event for the pair (`x` before `y` in the sorted list):
      the higher kind goes first, in the key and as `a`; on equal kinds the
      later box is `a`. */
  function Contact(x: Bounds, y: Bounds): (r: Event)
    ensures r.id == CONTACT
    ensures x.btype > y.btype ==> r.key == ComputeKey(x.btype, y.btype) && r.a == x.entity && r.b == y.entity
    ensures x.btype <= y.btype ==> r.key == ComputeKey(y.btype, x.btype) && r.a == y.entity && r.b == x.entity
    ensures r.key / 0x100 >= r.key % 0x100
  {
    if x.btype > y.btype then FromContact(ComputeKey(x.btype, y.btype), x.entity, y.entity)
    else FromContact(ComputeKey(y.btype, x.btype), y.entity, x.entity)
  }

  // ---------------------------------------------------------------------
  // Stable sort by lower x

  predicate SortedByLowerX(s: seq<Bounds>)
  {
    forall i, j :: 0 <= i < j < |s| ==> s[i].lower.x <= s[j].lower.x
  }

  /** `x` inserted into sorted `t` after every box whose lower x is not
      greater than its own. */
  function Insert(t: seq<Bounds>, x: Bounds): (r: seq<Bounds>)
    ensures |r| == |t| + 1
    ensures multiset(r) == multiset(t) + multiset{x}
  {
    if t == [] || t[|t| - 1].lower.x <= x.lower.x then t + [x]
    else
      assert t == t[..|t| - 1] + [t[|t| - 1]];
      Insert(t[..|t| - 1], x) + [t[|t| - 1]]
  }

  /** The boxes ordered by lower x, equal keys kept in input order (the
      order a stable sort produces). */
  function SortByLowerX(s: seq<Bounds>): (r: seq<Bounds>)
    ensures |r| == |s|
    ensures multiset(r) == multiset(s)
  {
    if s == [] then []
    else
      assert s == s[..|s| - 1] + [s[|s| - 1]];
      Insert(SortByLowerX(s[..|s| - 1]), s[|s| - 1])
  }

  lemma {:induction false} InsertSorted(t: seq<Bounds>, x: Bounds)
    requires SortedByLowerX(t)
    ensures SortedByLowerX(Insert(t, x))
  {
    if t == [] || t[|t| - 1].lower.x <= x.lower.x {
    } else {
      var last := t[|t| - 1];
      var init := t[..|t| - 1];
      InsertSorted(init, x);
      var r := Insert(init, x);
      forall k | 0 <= k < |r| ensures r[k].lower.x <= last.lower.x {
        assert r[k] in multiset(r);
        assert r[k] in multiset(init) || r[k] == x;
        if r[k] != x {
          var m :| 0 <= m < |init| && init[m] == r[k];
        }
      }
    }
  }

  /** The sort's result is ordered by lower x. */
  lemma {:induction false} SortSorted(s: seq<Bounds>)
    ensures SortedByLowerX(SortByLowerX(s))
  {
    if s != [] {
      SortSorted(s[..|s| - 1]);
      InsertSorted(SortByLowerX(s[..|s| - 1]), s[|s| - 1]);
    }
  }

  /** Whether no two boxes carry handles to the same row. */
  predicate DistinctRows(s: seq<Bounds>)
  {
    forall i, j :: 0 <= i < j < |s| ==> s[i].entity.index != s[j].entity.index
  }

  lemma {:induction false} InsertDistinct(t: seq<Bounds>, x: Bounds)
    requires DistinctRows(t) && forall y <- t :: y.entity.index != x.entity.index
    ensures DistinctRows(Insert(t, x))
  {
    if t == [] || t[|t| - 1].lower.x <= x.lower.x {
    } else {
      var last := t[|t| - 1];
      var init := t[..|t| - 1];
      InsertDistinct(init, x);
      var r := Insert(init, x);
      forall k | 0 <= k < |r| ensures r[k].entity.index != last.entity.index {
        assert r[k] in multiset(r);
        if r[k] != x {
          assert r[k] in multiset(init);
          var m :| 0 <= m < |init| && init[m] == r[k];
          assert t[m] == r[k];
        }
      }
    }
  }

  /** Sorting keeps the boxes on distinct rows. */
  lemma {:induction false} SortDistinct(s: seq<Bounds>)
    requires DistinctRows(s)
    ensures DistinctRows(SortByLowerX(s))
  {
    if s != [] {
      var init := s[..|s| - 1];
      var x := s[|s| - 1];
      SortDistinct(init);
      forall y <- SortByLowerX(init) ensures y.entity.index != x.entity.index {
        assert y in multiset(SortByLowerX(init));
        var m :| 0 <= m < |init| && init[m] == y;
        assert s[m] == y;
      }
      InsertDistinct(SortByLowerX(init), x);
    }
  }

  /** Every contact of boxes on distinct rows names two different rows,
      each one of a box in the list. */
  lemma ContactsDistinct(bs: seq<Bounds>, e: Event)
    requires DistinctRows(bs) && e in ContactsFrom(bs, 0)
    ensures e.id == CONTACT && e.a.index != e.b.index
    ensures exists x <- bs :: x.entity == e.a
    ensures exists y <- bs :: y.entity == e.b
  {
    ContactsExactlyOverlaps(bs, e);
    var i, j :| 0 <= i < j < |bs| && Overlap(bs[i], bs[j]) && e == Contact(bs[i], bs[j]);
    assert bs[i] in bs && bs[j] in bs;
  }

  /** The boxes of `s` with lower x equal to `k`, in order. */
  function WithKey(s: seq<Bounds>, k: int): seq<Bounds>
  {
    if s == [] then []
    else WithKey(s[..|s| - 1], k) + (if s[|s| - 1].lower.x == k then [s[|s| - 1]] else [])
  }

  lemma {:induction false} WithKeyAppend(s: seq<Bounds>, t: seq<Bounds>, k: int)
    ensures WithKey(s + t, k) == WithKey(s, k) + WithKey(t, k)
    decreases |t|
  {
    if t == [] {
      assert s + t == s;
    } else {
      assert (s + t)[..|s + t| - 1] == s + t[..|t| - 1];
      WithKeyAppend(s, t[..|t| - 1], k);
    }
  }

  lemma {:induction false} InsertStable(t: seq<Bounds>, x: Bounds, k: int)
    ensures WithKey(Insert(t, x), k) == WithKey(t, k) + (if x.lower.x == k then [x] else [])
  {
    if t == [] || t[|t| - 1].lower.x <= x.lower.x {
      WithKeyAppend(t, [x], k);
      assert [x][..0] == [];
    } else {
      var last := t[|t| - 1];
      var init := t[..|t| - 1];
      assert t == init + [last];
      InsertStable(init, x, k);
      WithKeyAppend(Insert(init, x), [last], k);
      WithKeyAppend(init, [last], k);
      assert [last][..0] == [] && [x][..0] == [];
    }
  }

  /** Stability: among boxes with the same lower x, the sort keeps the
      input order. */
  lemma {:induction false} SortStable(s: seq<Bounds>, k: int)
    ensures WithKey(SortByLowerX(s), k) == WithKey(s, k)
  {
    if s != [] {
      SortStable(s[..|s| - 1], k);
      InsertStable(SortByLowerX(s[..|s| - 1]), s[|s| - 1], k);
    }
  }

  // ---------------------------------------------------------------------
  // Contact list

  /** Contacts of box `i` with boxes j..|bs|-1, in order of j. */
  function ContactsWith(bs: seq<Bounds>, i: nat, j: nat): seq<Event>
    requires i < |bs|
    decreases |bs| - j
  {
    if j >= |bs| then []
    else (if Overlap(bs[i], bs[j]) then [Contact(bs[i], bs[j])] else []) + ContactsWith(bs, i, j + 1)
  }

  /** Contacts of every pair i < j with i >= `from`, row by row. */
  function ContactsFrom(bs: seq<Bounds>, from: nat): seq<Event>
    decreases |bs| - from
  {
    if from >= |bs| then [] else ContactsWith(bs, from, from + 1) + ContactsFrom(bs, from + 1)
  }

  /** The broad phase's pair loop over the sorted boxes: for each i, each
      later j whose box overlaps box i gives one contact. */
  method PairContacts(bs: seq<Bounds>) returns (found: seq<Event>)
    ensures found == ContactsFrom(bs, 0)
  {
    found := [];
    var len := |bs|;
    for i := 0 to len
      invariant found + ContactsFrom(bs, i) == ContactsFrom(bs, 0)
    {
      ghost var start := found;
      for j := i + 1 to len
        invariant found + ContactsWith(bs, i, j) == start + ContactsWith(bs, i, i + 1)
      {
        var x, y := bs[i], bs[j];
        ghost var before := found;
        if Overlap(x, y) {
          if x.btype > y.btype {
            found := found + [FromContact(ComputeKey(x.btype, y.btype), x.entity, y.entity)];
          } else {
            found := found + [FromContact(ComputeKey(y.btype, x.btype), y.entity, x.entity)];
          }
        }
        assert found + ContactsWith(bs, i, j + 1) == before + ContactsWith(bs, i, j);
      }
      assert found == start + ContactsWith(bs, i, i + 1);
      assert ContactsFrom(bs, i) == ContactsWith(bs, i, i + 1) + ContactsFrom(bs, i + 1);
    }
  }

  lemma {:induction false} ContactsWithMembers(bs: seq<Bounds>, i: nat, j: nat, e: Event)
    requires i < |bs|
    ensures e in ContactsWith(bs, i, j) <==>
      exists m :: j <= m < |bs| && Overlap(bs[i], bs[m]) && e == Contact(bs[i], bs[m])
    decreases |bs| - j
  {
    if j < |bs| {
      ContactsWithMembers(bs, i, j + 1, e);
    }
  }

  lemma {:induction false} ContactsFromMembers(bs: seq<Bounds>, from: nat, e: Event)
    ensures e in ContactsFrom(bs, from) <==>
      exists i, j :: from <= i < j < |bs| && Overlap(bs[i], bs[j]) && e == Contact(bs[i], bs[j])
    decreases |bs| - from
  {
    if from < |bs| {
      ContactsWithMembers(bs, from, from + 1, e);
      ContactsFromMembers(bs, from + 1, e);
      if e in ContactsFrom(bs, from) {
        if e in ContactsWith(bs, from, from + 1) {
          var m :| from + 1 <= m < |bs| && Overlap(bs[from], bs[m]) && e == Contact(bs[from], bs[m]);
          assert from <= from < m < |bs|;
        }
      } else {
        forall i, j | from <= i < j < |bs| && Overlap(bs[i], bs[j])
          ensures e != Contact(bs[i], bs[j])
        {
          if i == from {
            assert !(exists m :: from + 1 <= m < |bs| && Overlap(bs[from], bs[m]) && e == Contact(bs[from], bs[m]));
          }
        }
      }
    }
  }

  /** The broad phase's events are exactly the contacts of the overlapping
      pairs i < j: one per pair, none for boxes apart on x or y. */
  lemma ContactsExactlyOverlaps(bs: seq<Bounds>, e: Event)
    ensures e in ContactsFrom(bs, 0) <==>
      exists i, j :: 0 <= i < j < |bs| && Overlap(bs[i], bs[j]) && e == Contact(bs[i], bs[j])
  {
    ContactsFromMembers(bs, 0, e);
  }
}
