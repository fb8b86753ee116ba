/** The MT19937 pseudo-random generator the simulation draws from: a
    624-word state, the Knuth seeding recurrence computed with a portable
    16-bit-halves multiply, a twist of one word per draw and the standard
    output tempering. */
module Mersenne {
  import opened Prelude

  const N: int := 624
  const M: int := 397
  const UPPER_MASK: bv32 := 0x8000_0000
  const LOWER_MASK: bv32 := 0x7fff_ffff
  const MATRIX_A: bv32 := 0x9908_b0df
  const SEED_MULTIPLIER: u32 := 1812433253

  /** 32-bit multiply through 16-bit halves, so that no partial product
      leaves u32. */
  function Imul(a: u32, b: u32): u32
  {
    var al: u32 := a % 0x1_0000;
    var ah: u32 := a / 0x1_0000;
    var bl: u32 := b % 0x1_0000;
    var bh: u32 := b / 0x1_0000;
    HalvesProduct(al, bl);
    HalvesProduct(al, bh);
    HalvesProduct(ah, bl);
    var ml: u32 := al * bl;
    var cross1: u32 := al * bh;
    var sum1: u32 := ml / 0x1_0000 + cross1;
    var cross2: u32 := ah * bl;
    var sum2: u32 := sum1 % 0x1_0000 + cross2;
    var mh: u32 := sum2 % 0x1_0000;
    var high: u32 := mh * 0x1_0000;
    high + ml % 0x1_0000
  }

  /** A product of two 16-bit halves stays 2^16 below 2^32, so adding one
      more 16-bit value to it cannot leave u32. */
  lemma HalvesProduct(x: int, y: int)
    requires 0 <= x < 0x1_0000 && 0 <= y < 0x1_0000
    ensures 0 <= x * y <= 0xffff * 0xffff
  {
    MulMono(x, y, 0xffff);
    MulMono(0xffff, x, 0xffff);
  }

  lemma MulMono(a: nat, b: nat, c: nat)
    requires b <= c
    ensures a * b <= a * c
  {
  }

  /** The halves multiply is the wrapping 32-bit product. */
  lemma ImulIsWrappingProduct(a: u32, b: u32)
    ensures Imul(a, b) == (a * b) % 0x1_0000_0000
  {
    var al, ah := a % 0x1_0000, a / 0x1_0000;
    var bl, bh := b % 0x1_0000, b / 0x1_0000;
    var ml := al * bl;
    var cross1, cross2, high := al * bh, ah * bl, ah * bh;
    NonNegProduct(al, bh);
    NonNegProduct(ah, bl);
    NonNegProduct(ah, bh);
    var t := ml / 0x1_0000 + cross1 + cross2;
    assert a == ah * 0x1_0000 + al && b == bh * 0x1_0000 + bl;
    assert a * b == high * 0x1_0000_0000 + (cross1 + cross2) * 0x1_0000 + ml by {
      assert a * b == (ah * 0x1_0000 + al) * (bh * 0x1_0000 + bl);
    }
    assert ml == (ml / 0x1_0000) * 0x1_0000 + ml % 0x1_0000;
    assert a * b == high * 0x1_0000_0000 + t * 0x1_0000 + ml % 0x1_0000;
    ModInner(ml / 0x1_0000 + cross1, cross2);
    assert Imul(a, b) == (t % 0x1_0000) * 0x1_0000 + ml % 0x1_0000;
    HighHalf(t, ml % 0x1_0000, high);
  }

  lemma NonNegProduct(x: nat, y: nat)
    ensures x * y >= 0
  {
  }

  lemma ModInner(x: int, y: int)
    requires 0 <= x && 0 <= y
    ensures (x % 0x1_0000 + y) % 0x1_0000 == (x + y) % 0x1_0000
  {
    var k := x / 0x1_0000;
    assert x + y == (x % 0x1_0000 + y) + k * 0x1_0000;
  }

  lemma HighHalf(t: int, low: int, c: int)
    requires 0 <= t && 0 <= low < 0x1_0000 && 0 <= c
    ensures (c * 0x1_0000_0000 + t * 0x1_0000 + low) % 0x1_0000_0000
         == (t % 0x1_0000) * 0x1_0000 + low
  {
    var q := t / 0x1_0000;
    assert t * 0x1_0000 == q * 0x1_0000_0000 + (t % 0x1_0000) * 0x1_0000;
    assert c * 0x1_0000_0000 + t * 0x1_0000 + low
        == (c + q) * 0x1_0000_0000 + ((t % 0x1_0000) * 0x1_0000 + low);
  }

  /** Seed word `i` from seed word `i - 1`; the `+ i` wraps like the
      release build's u32 add. */
  function SeedNext(prev: bv32, i: nat): bv32
  {
    ((Imul(SEED_MULTIPLIER, (prev ^ (prev >> 30)) as int) + i) % 0x1_0000_0000) as bv32
  }

  /** The first `n` words of the state that `seed` produces. */
  function SeedPrefix(seed: bv32, n: nat): (r: seq<bv32>)
    requires 1 <= n
    ensures |r| == n && r[0] == seed
    ensures forall i :: 1 <= i < n ==> r[i] == SeedNext(r[i - 1], i)
  {
    if n == 1 then [seed] else SeedPrefix(seed, n - 1) + [SeedNext(SeedPrefix(seed, n - 1)[n - 2], n - 1)]
  }

  /** Seeding is a function of the seed alone: two states seeded alike are
      equal word for word, and a state is determined by its first word. */
  lemma SeedPrefixDeterminedByFirst(s: seq<bv32>, seed: bv32)
    requires |s| >= 1 && s[0] == seed
    requires forall i :: 1 <= i < |s| ==> s[i] == SeedNext(s[i - 1], i)
    ensures s == SeedPrefix(seed, |s|)
  {
    var t := SeedPrefix(seed, |s|);
    forall i | 0 <= i < |s| ensures s[i] == t[i] {
      SeedAgree(s, t, i);
    }
  }

  lemma {:induction false} SeedAgree(s: seq<bv32>, t: seq<bv32>, i: nat)
    requires |s| == |t| >= 1 && s[0] == t[0] && i < |s|
    requires forall j :: 1 <= j < |s| ==> s[j] == SeedNext(s[j - 1], j)
    requires forall j :: 1 <= j < |t| ==> t[j] == SeedNext(t[j - 1], j)
    ensures s[i] == t[i]
  {
    if i > 0 {
      SeedAgree(s, t, i - 1);
    }
  }

  /** The twist of one state word from words p, q and r. */
  function Twist(xp: bv32, xq: bv32, xr: bv32): bv32
  {
    var y := (xp & UPPER_MASK) | (xq & LOWER_MASK);
    xr ^ (y >> 1) ^ (if y & 1 == 1 then MATRIX_A else 0)
  }

  /** The output tempering of MT19937, four invertible steps. */
  function Temper(w: bv32): bv32
  {
    Step18(Step15(Step7(Step11(w))))
  }

  function Step11(w: bv32): bv32 { w ^ (w >> 11) }
  function Step7(w: bv32): bv32 { w ^ ((w << 7) & 0x9d2c_5680) }
  function Step15(w: bv32): bv32 { w ^ ((w << 15) & 0xefc6_0000) }
  function Step18(w: bv32): bv32 { w ^ (w >> 18) }

  function Unstep11(y: bv32): bv32 { y ^ (y >> 11) ^ (y >> 22) }

  function Unstep7(y: bv32): bv32
  {
    var a := Step7(y);
    var b := y ^ ((a << 7) & 0x9d2c_5680);
    var c := y ^ ((b << 7) & 0x9d2c_5680);
    y ^ ((c << 7) & 0x9d2c_5680)
  }

  /** Inverse of the tempering, step by step in reverse order (the 15- and
      18-bit steps are their own inverses). */
  function Untemper(y: bv32): bv32
  {
    Unstep11(Unstep7(Step15(Step18(y))))
  }

  lemma Step11Inverse(w: bv32, y: bv32)
    ensures Unstep11(Step11(w)) == w && Step11(Unstep11(y)) == y
  {
    ShiftRight11(w, w >> 11);
    ShiftRight11(w >> 11, 0);
    ShiftRight11(y, y >> 11);
    ShiftRight11(y ^ (y >> 11), y >> 22);
    ShiftRight11(y >> 11, 0);
  }

  lemma ShiftRight11(a: bv32, b: bv32)
    ensures (a ^ b) >> 11 == (a >> 11) ^ (b >> 11)
    ensures (a >> 11) >> 11 == a >> 22 && (a >> 22) >> 11 == 0 && (a >> 22) >> 22 == 0
  {
  }

  lemma ShiftRight18(a: bv32, b: bv32)
    ensures (a ^ b) >> 18 == (a >> 18) ^ (b >> 18)
    ensures (a >> 18) >> 18 == 0
  {
  }

  lemma Step7Inverse(w: bv32, y: bv32)
    ensures Unstep7(Step7(w)) == w && Step7(Unstep7(y)) == y
  {
  }

  lemma Step15Involution(w: bv32)
    ensures Step15(Step15(w)) == w
  {
  }

  lemma Step18Involution(w: bv32)
    ensures Step18(Step18(w)) == w
  {
    ShiftRight18(w, w >> 18);
  }

  /** Tempering loses nothing: every output word comes from exactly one
      twisted state word. */
  lemma TemperBijective(w: bv32, y: bv32)
    ensures Untemper(Temper(w)) == w
    ensures Temper(Untemper(y)) == y
  {
    Step11Inverse(w, Unstep7(Step15(Step18(y))));
    Step7Inverse(Step11(w), Step15(Step18(y)));
    Step15Involution(Step7(Step11(w)));
    Step15Involution(Step18(y));
    Step18Involution(Step15(Step7(Step11(w))));
    Step18Involution(y);
  }

  /** 2 to the power `n`. */
  function Pow2(n: nat): (r: nat)
    ensures r >= 1
  {
    if n == 0 then 1 else 2 * Pow2(n - 1)
  }

  lemma {:induction false} Pow2Add(a: nat, b: nat)
    ensures Pow2(a + b) == Pow2(a) * Pow2(b)
  {
    if a > 0 {
      Pow2Add(a - 1, b);
      assert 2 * (Pow2(a - 1) * Pow2(b)) == (2 * Pow2(a - 1)) * Pow2(b);
    }
  }

  lemma Pow2Of32()
    ensures Pow2(32) == 0x1_0000_0000
  {
    assert Pow2(4) == 16;
    Pow2Add(4, 4);
    Pow2Add(8, 8);
    Pow2Add(16, 16);
  }

  /** `w` shifted right by `k` bits. */
  function Shr(w: nat, k: nat): (r: nat)
    ensures r <= w
  {
    if k == 0 then w else Shr(w / 2, k - 1)
  }

  /** Shifting an n-bit number right by k bits leaves an (n - k)-bit one. */
  lemma {:induction false} ShrBound(w: nat, n: nat, k: nat)
    requires k <= n && w < Pow2(n)
    ensures Shr(w, k) < Pow2(n - k)
  {
    if k > 0 {
      ShrBound(w / 2, n - 1, k - 1);
    }
  }

  /** The top `bits` bits of a 32-bit word form a number below 2^bits. */
  lemma TopBitsBound(w: u32, bits: nat)
    requires 1 <= bits <= 32
    ensures Shr(w, 32 - bits) < Pow2(bits)
  {
    Pow2Of32();
    ShrBound(w, 32, 32 - bits);
  }

  /** The position `k` words after `i` in the circular state. */
  function Ahead(i: int, k: int): (r: int)
    requires 0 <= i < N && 0 <= k < N
    ensures 0 <= r < N && (r - i - k) % N == 0
  {
    if i + k < N then i + k else i + k - N
  }

  /** The position after `i`, as a cursor steps. */
  function Advance(i: int): (r: int)
    requires 0 <= i < N
    ensures r == Ahead(i, 1)
  {
    if i + 1 == N then 0 else i + 1
  }

  /** The word a draw returns from state `x` with cursors p, q and r. */
  function Output(x: seq<bv32>, p: int, q: int, r: int): u32
    requires |x| == N && 0 <= p < N && 0 <= q < N && 0 <= r < N
  {
    Temper(Twist(x[p], x[q], x[r])) as int
  }

  /** A draw's output determines the state word it twisted in: the
      tempering is undone by Untemper. */
  lemma OutputRecoversTwistedWord(x: seq<bv32>, p: int, q: int, r: int)
    requires |x| == N && 0 <= p < N && 0 <= q < N && 0 <= r < N
    ensures Untemper(Output(x, p, q, r) as bv32) == Twist(x[p], x[q], x[r])
  {
    TemperBijective(Twist(x[p], x[q], x[r]), 0);
  }

  /** A generator's whole state as a value: the 624 words and the three
      cursors. */
  datatype Snapshot = Snapshot(x: seq<bv32>, p: int, q: int, r: int)

  predicate InRange(s: Snapshot)
  {
    |s.x| == N && 0 <= s.p < N && 0 <= s.q < N && 0 <= s.r < N
  }

  /** The word the next draw from `s` returns. */
  function Drawn(s: Snapshot): u32
    requires InRange(s)
  {
    Output(s.x, s.p, s.q, s.r)
  }

  /** The state one draw after `s`: the word under p is twisted in and
      every cursor moves one word on. */
  function Stepped(s: Snapshot): (t: Snapshot)
    requires InRange(s)
    ensures InRange(t)
  {
    Snapshot(s.x[s.p := Twist(s.x[s.p], s.x[s.q], s.x[s.r])], Advance(s.p), Advance(s.q), Advance(s.r))
  }

  /** The state `n` draws after `s`. */
  function Steps(s: Snapshot, n: nat): (t: Snapshot)
    requires InRange(s)
    ensures InRange(t)
  {
    if n == 0 then s else Stepped(Steps(s, n - 1))
  }

  /** Two draws more are two more steps. */
  lemma StepsTwice(s: Snapshot, n: nat, m: nat)
    requires InRange(s) && m == n + 2
    ensures Steps(s, m) == Stepped(Stepped(Steps(s, n)))
  {
    assert Steps(s, n + 1) == Stepped(Steps(s, n));
  }

  class MersenneTwister {
    var p: i32
    var q: i32
    var r: i32
    const x: array<bv32>

    /** The cursors index the 624-word state. */
    ghost predicate Valid()
      reads this
    {
      x.Length == N && 0 <= p < N && 0 <= q < N && 0 <= r < N
    }

    /** After seeding, q runs one word and r runs M words ahead of p. */
    ghost predicate Seeded()
      reads this
    {
      Valid() && q == Ahead(p, 1) && r == Ahead(p, M)
    }

    /** The generator's state as a value. */
    ghost function State(): (s: Snapshot)
      reads this, x
      requires Valid()
      ensures InRange(s)
    {
      Snapshot(x[..], p, q, r)
    }

    /** An unseeded generator: every word and every cursor is zero. */
    constructor ()
      ensures Valid() && fresh(x)
      ensures p == 0 && q == 0 && r == 0
      ensures forall i :: 0 <= i < N ==> x[i] == 0
    {
      p, q, r := 0, 0, 0;
      x := new bv32[N](_ => 0);
    }

    /** Fills the state from `s` by the seeding recurrence and puts the
        cursors at 0, 1 and M. */
    method SetSeed(s: u32)
      requires Valid()
      modifies this, x
      ensures Seeded() && p == 0 && q == 1 && r == M
      ensures x[..] == SeedPrefix(s as bv32, N)
    {
      x[0] := s as bv32;
      var i := 1;
      while i < N
        invariant 1 <= i <= N
        invariant x[..i] == SeedPrefix(s as bv32, i)
      {
        x[i] := SeedNext(x[i - 1], i);
        assert x[..i + 1] == x[..i] + [x[i]];
        i := i + 1;
      }
      assert x[..] == x[..N];
      p := 0;
      q := 1;
      r := M;
    }

    /** Twists the word under p (from words p, q and r), advances the three
        cursors and returns the tempered new word. */
    method NextU32() returns (y: u32)
      requires Valid()
      modifies this, x
      ensures Valid()
      ensures y == Output(old(x[..]), old(p), old(q), old(r))
      ensures x[..] == old(x[..])[old(p) := Twist(old(x[p]), old(x[q]), old(x[r]))]
      ensures p == Advance(old(p)) && q == Advance(old(q)) && r == Advance(old(r))
      ensures State() == Stepped(old(State()))
      ensures old(Seeded()) ==> Seeded()
    {
      x[p] := Twist(x[p], x[q], x[r]);
      var t := x[p];
      p, q, r := Advance(p), Advance(q), Advance(r);
      t := Step11(t);
      t := Step7(t);
      t := Step15(t);
      t := Step18(t);
      y := t as int;
    }

    /** The top `bits` bits of the next word. The shift `32 - bits` is
        computed in u32 and, as a release build does, taken modulo 32, so
        `bits == 0` returns the whole word. */
    method NextBits(bits: u32) returns (v: u32)
      requires Valid()
      modifies this, x
      ensures Valid()
      ensures v == Shr(Drawn(old(State())), (32 - bits) % 32)
      ensures 1 <= bits <= 32 ==> v < Pow2(bits)
      ensures x[..] == old(x[..])[old(p) := Twist(old(x[p]), old(x[q]), old(x[r]))]
      ensures p == Advance(old(p)) && q == Advance(old(q)) && r == Advance(old(r))
      ensures State() == Stepped(old(State()))
      ensures old(Seeded()) ==> Seeded()
    {
      var w := NextU32();
      v := Shr(w, (32 - bits) % 32);
      if 1 <= bits <= 32 {
        TopBitsBound(w, bits as nat);
      }
    }

    /** A draw reduced into 0..=max. */
    method NextFromZero(max: i32) returns (v: i32)
      requires Valid() && 0 <= max < 0x7fff_ffff
      modifies this, x
      ensures Valid() && 0 <= v <= max
      ensures v == Drawn(old(State())) % (max + 1)
      ensures x[..] == old(x[..])[old(p) := Twist(old(x[p]), old(x[q]), old(x[r]))]
      ensures p == Advance(old(p)) && q == Advance(old(q)) && r == Advance(old(r))
      ensures State() == Stepped(old(State()))
      ensures old(Seeded()) ==> Seeded()
    {
      var w := NextU32();
      v := w % (max + 1);
    }

    /** A draw reduced into min..=max. The span `max + 1 - min` and the
        final `+ min` wrap in i32 as a release build computes them; the
        source panics when the span is zero or negative. */
    method NextRange(min: i32, max: i32) returns (v: i32)
      requires Valid() && WrapI32(max + 1 - min) > 0
      modifies this, x
      ensures Valid()
      ensures v == WrapI32(Drawn(old(State())) % WrapI32(max + 1 - min) + min)
      ensures min <= max && max + 1 - min < 0x8000_0000 ==> min <= v <= max
      ensures x[..] == old(x[..])[old(p) := Twist(old(x[p]), old(x[q]), old(x[r]))]
      ensures p == Advance(old(p)) && q == Advance(old(q)) && r == Advance(old(r))
      ensures State() == Stepped(old(State()))
      ensures old(Seeded()) ==> Seeded()
    {
      var w := NextU32();
      WrapI32Add(max + 1, -(min as int));
      var span := WrapI32(WrapI32(max + 1) - min);
      v := WrapI32(w % span + min);
    }

    /** Overwrites this generator with a copy of `other`. */
    method CopyFrom(other: MersenneTwister)
      requires Valid() && other.Valid() && other.x != x
      modifies this, x
      ensures Valid()
      ensures x[..] == other.x[..] && p == other.p && q == other.q && r == other.r
    {
      forall i | 0 <= i < N {
        x[i] := other.x[i];
      }
      p, q, r := other.p, other.q, other.r;
    }
  }
}
