/** A bitmap packed eight bits to the byte, as both the frame allocator and the virtual range
    allocator keep it. */
module Bitmaps {
  import opened Words

  predicate IsSet(b: seq<byte>, i: nat)
    requires i < 8 * |b|
  {
    Bit(b[i / 8], i % 8)
  }

  /** The indices whose bit is set. */
  ghost function Bits(b: seq<byte>): set<nat> {
    set i: nat | i < 8 * |b| && IsSet(b, i)
  }

  /** Byte r has the bits of b and bit k. */
  ghost predicate Joins(r: nat, b: nat, k: nat) {
    forall j: nat :: Bit(r, j) == (j == k || Bit(b, j))
  }

  /** Byte r has the bits of b but bit k. */
  ghost predicate Drops(r: nat, b: nat, k: nat) {
    forall j: nat | j < 8 :: Bit(r, j) == (j != k && Bit(b, j))
  }

  /** `b | (1 << k)` on one byte. */
  function ByteSet(b: byte, k: nat): (r: byte)
    requires k < 8
    ensures Joins(r, b, k)
  {
    hide Bit, Or, Shl, Joins;
    SetEffect(b, k);
    Or(b, Shl(1, k))
  }

  /** `b & ~(1 << k)` on one byte. */
  function ByteClear(b: byte, k: nat): (r: byte)
    requires k < 8
    ensures Drops(r, b, k)
  {
    hide Bit, And, Shl, Drops;
    ClearEffect(b, k);
    And(b, 0xFF - Shl(1, k))
  }

  /** `b & (1 << k)`, used as a truth value. */
  predicate ByteTest(b: byte, k: nat)
    requires k < 8
    ensures ByteTest(b, k) == Bit(b, k)
  {
    TestBit(b, k);
    And(b, Shl(1, k)) != 0
  }

  lemma ByteMask(k: nat)
    requires k < 8
    ensures Shl(1, k) <= 0x80 && Ones(8) == 0xFF
  {
    OnesSmall();
    assert Shl(1, 7) == 0x80;
    ShlMonotone(k, 7);
  }

  lemma {:induction false} ShlMonotone(a: nat, b: nat)
    requires a <= b
    ensures Shl(1, a) <= Shl(1, b)
    decreases b
  {
    if a < b { ShlMonotone(a, b - 1); }
  }

  lemma SetEffect(b: byte, k: nat)
    requires k < 8
    ensures Or(b, Shl(1, k)) <= 0xFF
    ensures Joins(Or(b, Shl(1, k)), b, k)
  {
    hide Or, Shl, Ones;
    ByteMask(k);
    OrBelow(b, Shl(1, k), 8);
    forall j: nat ensures Bit(Or(b, Shl(1, k)), j) == (j == k || Bit(b, j)) {
      BitOfOr(b, Shl(1, k), j);
      BitOfShl(k, j);
    }
  }

  lemma ClearEffect(b: byte, k: nat)
    requires k < 8
    ensures Shl(1, k) <= 0xFF && And(b, 0xFF - Shl(1, k)) <= b
    ensures Drops(And(b, 0xFF - Shl(1, k)), b, k)
  {
    hide And, Shl, Ones;
    ByteMask(k);
    var mask := 0xFF - Shl(1, k);
    AndBelow(b, mask);
    forall j: nat | j < 8 ensures Bit(And(b, mask), j) == (j != k && Bit(b, j)) {
      assert mask == Ones(8) - Shl(1, k);
      BitOfAnd(b, mask, j);
      BitOfNot(Shl(1, k), 8, j);
      BitOfShl(k, j);
    }
  }

  /** Setting one bit of one byte adds exactly that index. */
  lemma SetAt(b: seq<byte>, i: nat)
    requires i < 8 * |b|
    ensures Bits(b[i / 8 := ByteSet(b[i / 8], i % 8)]) == Bits(b) + {i}
  {
    hide Bit, ByteSet;
    var b' := b[i / 8 := ByteSet(b[i / 8], i % 8)];
    forall j: nat | j < 8 * |b| ensures IsSet(b', j) == (j == i || IsSet(b, j)) {
      if j / 8 == i / 8 {
        assert (j % 8 == i % 8) == (j == i);
      }
    }
  }

  /** Clearing one bit of one byte removes exactly that index. */
  lemma ClearAt(b: seq<byte>, i: nat)
    requires i < 8 * |b|
    ensures Bits(b[i / 8 := ByteClear(b[i / 8], i % 8)]) == Bits(b) - {i}
  {
    hide Bit, ByteClear;
    var b' := b[i / 8 := ByteClear(b[i / 8], i % 8)];
    forall j: nat | j < 8 * |b| ensures IsSet(b', j) == (j != i && IsSet(b, j)) {
      if j / 8 == i / 8 {
        assert (j % 8 == i % 8) == (j == i);
      }
    }
  }

  /** A bitmap of 0xFF bytes has every bit set. */
  lemma AllOnes(b: seq<byte>)
    requires forall k | 0 <= k < |b| :: b[k] == 0xFF
    ensures forall i: nat :: i in Bits(b) <==> i < 8 * |b|
  {
    forall i: nat | i < 8 * |b| ensures IsSet(b, i) {
      FullByte(i % 8);
    }
  }

  lemma FullByte(k: nat)
    requires k < 8
    ensures Bit(0xFF, k)
  {
    hide *;
    OnesSmall();
    BitOfNot(0, 8, k);
    BitOfZero(k);
  }

  /** A bitmap of zero bytes has no bit set. */
  lemma AllZeros(b: seq<byte>)
    requires forall k | 0 <= k < |b| :: b[k] == 0
    ensures Bits(b) == {}
  {
    forall i: nat | i < 8 * |b| ensures !IsSet(b, i) {
      BitOfZero(i % 8);
    }
  }

  /** The `i >> 3` and `i & 7` of the virtual range allocator are `i / 8` and `i % 8`. */
  lemma ShiftAndMask(i: nat)
    ensures Shr(i, 3) == i / 8 && And(i, 7) == i % 8
  {
    hide *;
    ShrSmall(i);
    OnesSmall();
    AndOnes(i, 3);
    Low3(i);
  }
}
