/** Bit fields of the packed 64-bit input word. A field mask covers bits
    start..end-1, with end clamped to 63 so the sign bit is never part of
    a field; decoding masks and shifts down, encoding shifts up and masks.
    Words are the two's-complement bit patterns of i64 values. */
module BitMasks {

  datatype BitMask = BitMask(mask: bv64, shift: nat)

  const SIGN_BIT: bv64 := 0x8000_0000_0000_0000

  /** The word with only bit `i` set. */
  function Bit(i: nat): bv64
    requires i < 64
  {
    1 << i
  }

  /** Bits start..end-1 set, one bit at a time from the bottom. */
  function FieldMask(start: nat, end: nat): (m: bv64)
    requires end <= 63
    decreases end
  {
    if end <= start then 0 else FieldMask(start, end - 1) | Bit(end - 1)
  }

  lemma FieldMaskStep(start: nat, i: nat)
    requires start <= i < 63
    ensures FieldMask(start, i + 1) == FieldMask(start, i) | Bit(i)
  {
  }

  /** The mask of bits start..end-1 (end clamped to 63) and the shift that
      brings bit `start` down to bit 0. */
  method From(start: nat, end: nat) returns (b: BitMask)
    ensures b.mask == FieldMask(start, if end >= 64 then 63 else end)
    ensures b.shift == start
  {
    var ender := if end >= 64 then 63 else end;
    var mask: bv64 := 0;
    var i := start;
    while i < ender
      invariant start <= i && (start < ender ==> i <= ender)
      invariant mask == FieldMask(start, if i <= ender then i else ender)
    {
      FieldMaskStep(start, i);
      mask := mask | Bit(i);
      i := i + 1;
    }
    b := BitMask(mask, start);
  }

  /** The field value: the i64 shift is arithmetic, so a mask holding the
      sign bit would sign-extend. */
  function Decode(b: BitMask, value: bv64): bv64
    requires b.shift < 64
  {
    var t := value & b.mask;
    if t & SIGN_BIT == 0 then t >> b.shift else !((!t) >> b.shift)
  }

  /** `value` placed in the field. */
  function Encode(b: BitMask, value: bv64): bv64
    requires b.shift < 64
  {
    (value << b.shift) & b.mask
  }

  const SYNCED_MASK: BitMask := BitMask(FieldMask(55, 56), 55)
  const X_MASK: BitMask := BitMask(FieldMask(0, 16), 0)
  const LEFT_MASK: BitMask := BitMask(FieldMask(16, 17), 16)
  const RIGHT_MASK: BitMask := BitMask(FieldMask(17, 18), 17)
  const PRIMARY_MASK: BitMask := BitMask(FieldMask(18, 19), 18)

  /** The input flags are single bits 16, 17 and 18 of the word, the
      horizontal axis its low 16 bits, and the synced flag bit 55. */
  lemma GameMaskValues()
    ensures LEFT_MASK.mask == 0x1_0000
    ensures RIGHT_MASK.mask == 0x2_0000
    ensures PRIMARY_MASK.mask == 0x4_0000
    ensures X_MASK.mask == 0xffff
    ensures SYNCED_MASK.mask == 0x80_0000_0000_0000
  {
    assert FieldMask(0, 8) == 0xff;
    assert FieldMask(0, 16) == 0xffff;
  }

  /** A one-bit field decodes to 1 exactly when its bit is set, else to 0. */
  lemma FlagDecode(raw: bv64, b: BitMask, bit: bv64)
    requires b.shift < 63 && bit == 1 << b.shift && b.mask == bit
    ensures Decode(b, raw) == (if raw & bit != 0 then 1 else 0)
  {
    var t := raw & bit;
    assert t & SIGN_BIT == 0;
    if raw & bit != 0 {
      assert t == bit;
    } else {
      assert t == 0;
    }
  }

  /** The input flags decode from bits 16, 17 and 18. */
  lemma InputFlags(raw: bv64)
    ensures Decode(LEFT_MASK, raw) == (if raw & 0x1_0000 != 0 then 1 else 0)
    ensures Decode(RIGHT_MASK, raw) == (if raw & 0x2_0000 != 0 then 1 else 0)
    ensures Decode(PRIMARY_MASK, raw) == (if raw & 0x4_0000 != 0 then 1 else 0)
  {
    GameMaskValues();
    FlagDecode(raw, LEFT_MASK, 0x1_0000);
    FlagDecode(raw, RIGHT_MASK, 0x2_0000);
    FlagDecode(raw, PRIMARY_MASK, 0x4_0000);
  }

  /** Every value below `bound` comes back from encoding then decoding
      with field `b`. */
  predicate RoundTrips(b: BitMask, bound: bv64, v: bv64)
  {
    b.shift < 64 && (v < bound ==> Decode(b, Encode(b, v)) == v)
  }

  /** Every field the game uses decodes below 2^width and gives back any
      value that fits after encoding. */
  lemma GameFieldsRoundTrip(v: bv64, raw: bv64)
    ensures Decode(X_MASK, raw) < 0x1_0000
    ensures RoundTrips(X_MASK, 0x1_0000, v)
    ensures RoundTrips(LEFT_MASK, 2, v) && RoundTrips(RIGHT_MASK, 2, v)
    ensures RoundTrips(PRIMARY_MASK, 2, v) && RoundTrips(SYNCED_MASK, 2, v)
  {
    GameMaskValues();
  }
}
