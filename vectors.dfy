/** Integer 2-D vectors with the wrapping i32 arithmetic of a release
    build. */
module Vectors {
  import opened Prelude

  datatype Vector2 = Vector2(x: i32, y: i32)

  const ZERO: Vector2 := Vector2(0, 0)

  /** Componentwise sum, exact when it fits in i32 and otherwise wrapped. */
  function Add(a: Vector2, b: Vector2): (r: Vector2)
    ensures Fits(a.x + b.x) && Fits(a.y + b.y) ==> r == Vector2(a.x + b.x, a.y + b.y)
  {
    Vector2(WrapI32(a.x + b.x), WrapI32(a.y + b.y))
  }

  /** Componentwise difference, exact when it fits in i32. */
  function Sub(a: Vector2, b: Vector2): (r: Vector2)
    ensures Fits(a.x - b.x) && Fits(a.y - b.y) ==> r == Vector2(a.x - b.x, a.y - b.y)
  {
    Vector2(WrapI32(a.x - b.x), WrapI32(a.y - b.y))
  }

  /** Componentwise negation; only i32::MIN wraps (to itself). */
  function Neg(a: Vector2): (r: Vector2)
    ensures r.x == if a.x == -0x8000_0000 then a.x else -a.x
    ensures r.y == if a.y == -0x8000_0000 then a.y else -a.y
  {
    Vector2(WrapI32(-(a.x as int)), WrapI32(-(a.y as int)))
  }

  predicate Fits(v: int)
  {
    -0x8000_0000 <= v < 0x8000_0000
  }

  /** Wrapped subtraction is undone by wrapped addition, overflow or not. */
  lemma SubThenAdd(a: Vector2, b: Vector2)
    ensures Add(Sub(a, b), b) == a
  {
    var d := Sub(a, b);
    assert d.x == WrapI32(a.x - b.x) && d.y == WrapI32(a.y - b.y);
    WrapI32Add(a.x - b.x, b.x);
    WrapI32Add(a.y - b.y, b.y);
    assert WrapI32(d.x + b.x) == WrapI32(a.x as int) == a.x;
    assert WrapI32(d.y + b.y) == WrapI32(a.y as int) == a.y;
  }

  /** Wrapped addition is undone by wrapped subtraction, overflow or not. */
  lemma AddThenSub(a: Vector2, b: Vector2)
    ensures Sub(Add(a, b), b) == a
  {
    var s := Add(a, b);
    assert s.x == WrapI32(a.x + b.x) && s.y == WrapI32(a.y + b.y);
    WrapI32Add(a.x + b.x, -(b.x as int));
    WrapI32Add(a.y + b.y, -(b.y as int));
    assert WrapI32(s.x - b.x) == WrapI32(a.x as int) == a.x;
    assert WrapI32(s.y - b.y) == WrapI32(a.y as int) == a.y;
  }

  /** Subtraction is addition of the negation, overflow or not. */
  lemma SubIsAddNeg(a: Vector2, b: Vector2)
    ensures Sub(a, b) == Add(a, Neg(b))
  {
    var n := Neg(b);
    var sx, sy := WrapI32(a.x - b.x), WrapI32(a.y - b.y);
    assert Add(a, n).x == sx by {
      WrapNegAdd(a.x, b.x);
    }
    assert Add(a, n).y == sy by {
      WrapNegAdd(a.y, b.y);
    }
    assert Sub(a, b) == Vector2(sx, sy);
  }

  lemma WrapNegAdd(a: int, b: int)
    ensures WrapI32(a + WrapI32(-b)) == WrapI32(a - b)
  {
    WrapI32Add(-b, a);
  }
}
