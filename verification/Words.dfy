/** Machine words: naturals below a power of two, with the C bit operators defined bit by bit.
    The masks and shifts of kernel/include/kernel/mm/paging.h and pmm.h are then ordinary
    applications of these operators, and the lemmas below give their arithmetic meaning. */
module Words {

  const U32: nat := 0x1_0000_0000
  const U64: nat := 0x1_0000_0000_0000_0000

  type byte = x: int | 0 <= x < 0x100
  type word = x: int | 0 <= x < 0x1_0000_0000_0000_0000

  /** The k-th bit of x. */
  predicate Bit(x: nat, k: nat) {
    if k == 0 then x % 2 == 1 else Bit(x / 2, k - 1)
  }

  /** C's `a & b`. */
  function And(a: nat, b: nat): nat
    decreases a
  {
    if a == 0 then 0 else (if a % 2 == 1 && b % 2 == 1 then 1 else 0) + 2 * And(a / 2, b / 2)
  }

  /** C's `a | b`. */
  function Or(a: nat, b: nat): nat
    decreases a
  {
    if a == 0 then b else (if a % 2 == 1 || b % 2 == 1 then 1 else 0) + 2 * Or(a / 2, b / 2)
  }

  /** C's `x << n`, before truncation. */
  function Shl(x: nat, n: nat): nat
    decreases n
  {
    if n == 0 then x else 2 * Shl(x, n - 1)
  }

  /** C's `x >> n` on an unsigned word. */
  function Shr(x: nat, n: nat): nat
    decreases n
  {
    if n == 0 then x else Shr(x / 2, n - 1)
  }

  /** C's `~x` on a 64-bit word. */
  function Not64(x: word): word { 0xFFFF_FFFF_FFFF_FFFF - x }

  // ----- bits -----

  lemma {:induction false} BitOfZero(k: nat)
    ensures !Bit(0, k)
  {
    if k > 0 { BitOfZero(k - 1); }
  }

  lemma {:induction false} BitOfAnd(a: nat, b: nat, k: nat)
    ensures Bit(And(a, b), k) == (Bit(a, k) && Bit(b, k))
    decreases k
  {
    if a == 0 {
      BitOfZero(k);
    } else if k > 0 {
      BitOfAnd(a / 2, b / 2, k - 1);
      assert And(a, b) / 2 == And(a / 2, b / 2);
    }
  }

  lemma {:induction false} BitOfOr(a: nat, b: nat, k: nat)
    ensures Bit(Or(a, b), k) == (Bit(a, k) || Bit(b, k))
    decreases k
  {
    if a == 0 {
      BitOfZero(k);
    } else if k > 0 {
      BitOfOr(a / 2, b / 2, k - 1);
      assert Or(a, b) / 2 == Or(a / 2, b / 2);
    }
  }

  /** `1 << n` has exactly one bit. */
  lemma {:induction false} BitOfShl(n: nat, k: nat)
    ensures Bit(Shl(1, n), k) == (n == k)
    decreases n
  {
    if n == 0 {
      if k > 0 { BitOfZero(k - 1); }
    } else if k > 0 {
      BitOfShl(n - 1, k - 1);
    }
  }

  /** Complementing a word of n bits flips exactly those bits. */
  lemma {:induction false} BitOfNot(x: nat, n: nat, k: nat)
    requires x <= Ones(n)
    ensures Bit(Ones(n) - x, k) == (k < n && !Bit(x, k))
    decreases n
  {
    if n == 0 {
      BitOfZero(k);
    } else if k > 0 {
      BitOfNot(x / 2, n - 1, k - 1);
      assert (Ones(n) - x) / 2 == Ones(n - 1) - x / 2;
    }
  }

  /** Words are equal when all their bits are. */
  lemma {:induction false} BitsDetermine(a: nat, b: nat)
    requires forall k: nat :: Bit(a, k) == Bit(b, k)
    ensures a == b
    decreases a + b
  {
    if a + b > 0 {
      assert Bit(a, 0) == Bit(b, 0);
      forall k: nat ensures Bit(a / 2, k) == Bit(b / 2, k) {
        assert Bit(a, k + 1) == Bit(b, k + 1);
      }
      BitsDetermine(a / 2, b / 2);
    }
  }

  lemma {:induction false} OrBelow(a: nat, b: nat, n: nat)
    requires a <= Ones(n) && b <= Ones(n)
    ensures Or(a, b) <= Ones(n)
    decreases n
  {
    if n > 0 && a > 0 { OrBelow(a / 2, b / 2, n - 1); }
  }

  lemma {:induction false} AndBelow(a: nat, b: nat)
    ensures And(a, b) <= a && And(a, b) <= b
    decreases a
  {
    if a > 0 { AndBelow(a / 2, b / 2); }
  }

  // ----- masks -----

  /** The low n bits of x. */
  function Low(x: nat, n: nat): nat
    decreases n
  {
    if n == 0 then 0 else x % 2 + 2 * Low(x / 2, n - 1)
  }

  /** The word whose low n bits are set. */
  function Ones(n: nat): nat {
    if n == 0 then 0 else 1 + 2 * Ones(n - 1)
  }

  lemma {:induction false} AndZero(x: nat)
    ensures And(x, 0) == 0
  {
    if x > 0 { AndZero(x / 2); }
  }

  lemma AndStep(a: nat, b: nat)
    ensures And(a, b) == (if a % 2 == 1 && b % 2 == 1 then 1 else 0) + 2 * And(a / 2, b / 2)
  {
  }

  /** Masking with n ones keeps the low n bits. */
  lemma {:induction false} AndOnes(x: nat, n: nat)
    ensures And(x, Ones(n)) == Low(x, n)
    decreases n
  {
    if n == 0 {
      AndZero(x);
    } else {
      AndStep(x, Ones(n));
      assert Ones(n) % 2 == 1 && Ones(n) / 2 == Ones(n - 1);
      AndOnes(x / 2, n - 1);
    }
  }

  /** Masking with n ones that start at bit lo keeps that bit field in place. */
  lemma {:induction false} AndField(x: nat, lo: nat, n: nat)
    ensures And(x, Shl(Ones(n), lo)) == Shl(Low(Shr(x, lo), n), lo)
    decreases lo
  {
    if lo == 0 {
      AndOnes(x, n);
    } else {
      var m := Shl(Ones(n), lo);
      AndStep(x, m);
      assert m % 2 == 0 && m / 2 == Shl(Ones(n), lo - 1);
      AndField(x / 2, lo - 1, n);
    }
  }

  /** A mask distributes over `|`. */
  lemma AndOverOr(a: nat, b: nat, m: nat)
    ensures And(Or(a, b), m) == Or(And(a, m), And(b, m))
  {
    forall k: nat ensures Bit(And(Or(a, b), m), k) == Bit(Or(And(a, m), And(b, m)), k) {
      BitOfAnd(Or(a, b), m, k);
      BitOfOr(a, b, k);
      BitOfAnd(a, m, k);
      BitOfAnd(b, m, k);
      BitOfOr(And(a, m), And(b, m), k);
    }
    BitsDetermine(And(Or(a, b), m), Or(And(a, m), And(b, m)));
  }

  /** `b & (1 << k)` tests the k-th bit. */
  lemma {:induction false} TestBit(b: nat, k: nat)
    ensures (And(b, Shl(1, k)) != 0) == Bit(b, k)
    decreases k
  {
    AndStep(b, Shl(1, k));
    if k == 0 {
      AndZero(b / 2);
    } else {
      TestBit(b / 2, k - 1);
    }
  }

  lemma {:induction false} OrZero(x: nat)
    ensures Or(x, 0) == x
  {
    if x > 0 { OrZero(x / 2); }
  }

  /** Words without a common bit are joined by adding them. */
  lemma {:induction false} OrDisjoint(a: nat, b: nat)
    requires And(a, b) == 0
    ensures Or(a, b) == a + b
    decreases a
  {
    if a > 0 { OrDisjoint(a / 2, b / 2); }
  }

  /** What a mask keeps has no common bit with a word outside the mask. */
  lemma AndMasked(x: nat, m: nat, y: nat)
    requires And(y, m) == 0
    ensures And(And(x, m), y) == 0
  {
    forall k: nat ensures Bit(And(And(x, m), y), k) == Bit(0, k) {
      BitOfAnd(And(x, m), y, k);
      BitOfAnd(x, m, k);
      BitOfAnd(y, m, k);
      BitOfZero(k);
    }
    BitsDetermine(And(And(x, m), y), 0);
  }

  /** A bit above a word has nothing in common with it. */
  lemma {:induction false} AndAbove(x: nat, k: nat)
    requires x < Shl(1, k)
    ensures And(x, Shl(1, k)) == 0
    decreases k
  {
    if k > 0 { AndAbove(x / 2, k - 1); }
  }

  // ----- constant shifts and masks -----

  lemma {:induction false} ShrSum(x: nat, a: nat, b: nat)
    ensures Shr(x, a + b) == Shr(Shr(x, a), b)
    decreases a
  {
    if a > 0 { ShrSum(x / 2, a - 1, b); }
  }

  /** `x >> 3`, `x >> 9` and `x >> 12`, from which the other shifts of the code are composed. */
  lemma ShrSmall(x: nat)
    ensures Shr(x, 3) == x / 8 && Shr(x, 9) == x / 512 && Shr(x, 12) == x / 4096
  {
    assert Shr(x, 3) == x / 8;
    assert Shr(x / 8, 3) == x / 64;
    assert Shr(x / 64, 3) == x / 512;
    assert Shr(x / 512, 3) == x / 4096;
    ShrSum(x, 3, 3);
    ShrSum(x, 6, 3);
    ShrSum(x, 9, 3);
  }

  /** A word is its low n bits plus the rest shifted back up. */
  lemma {:induction false} LowSplit(x: nat, n: nat)
    ensures x == Low(x, n) + Shl(Shr(x, n), n) && Low(x, n) <= Ones(n)
    decreases n
  {
    if n > 0 { LowSplit(x / 2, n - 1); }
  }

  lemma Low3(x: nat)
    ensures Low(x, 3) == x % 8
  {
    hide *;
    OnesSmall();
    LowSplit(x, 3);
    ShlSmall(Shr(x, 3));
  }

  lemma Low4(x: nat)
    ensures Low(x, 4) == x % 16
  {
    hide *;
    OnesSmall();
    LowSplit(x, 4);
    ShlSmall(Shr(x, 4));
  }

  lemma Low9(x: nat)
    ensures Low(x, 9) == x % 512
  {
    hide *;
    OnesSmall();
    LowSplit(x, 9);
    ShlSmall(Shr(x, 9));
  }

  lemma Low40(x: nat)
    ensures Low(x, 40) == x % 0x100_0000_0000
  {
    hide *;
    OnesSmall();
    LowSplit(x, 40);
    ShlSmall(Shr(x, 40));
  }

  /** The low bits of a number that has no others. */
  lemma {:induction false} LowAll(x: nat, n: nat)
    requires x <= Ones(n)
    ensures Low(x, n) == x
    decreases n
  {
    if n > 0 { LowAll(x / 2, n - 1); }
  }

  lemma OnesSmall()
    ensures Ones(1) == 1 && Ones(3) == 7 && Ones(4) == 15 && Ones(8) == 0xFF && Ones(9) == 0x1FF
    ensures Ones(29) == 0x1FFF_FFFF && Ones(40) == 0xFF_FFFF_FFFF && Ones(52) == 0xF_FFFF_FFFF_FFFF
    ensures Ones(61) == 0x1FFF_FFFF_FFFF_FFFF && Ones(64) == 0xFFFF_FFFF_FFFF_FFFF
  {
    OnesShort();
    assert Ones(40) == 0xFF_FFFF_FFFF;
    assert Ones(52) == 0xF_FFFF_FFFF_FFFF;
    assert Ones(61) == 0x1FFF_FFFF_FFFF_FFFF;
    assert Ones(64) == 0xFFFF_FFFF_FFFF_FFFF;
  }

  lemma OnesShort()
    ensures Ones(1) == 1 && Ones(3) == 7 && Ones(4) == 15 && Ones(8) == 0xFF && Ones(9) == 0x1FF
    ensures Ones(29) == 0x1FFF_FFFF
  {
    assert Ones(9) == 0x1FF;
    assert Ones(20) == 0xF_FFFF;
  }

  lemma ShlSmall(x: nat)
    ensures Shl(x, 1) == 2 * x && Shl(x, 3) == 8 * x && Shl(x, 4) == 16 * x && Shl(x, 9) == 512 * x && Shl(x, 12) == 4096 * x
    ensures Shl(x, 40) == 0x100_0000_0000 * x
  {
    assert Shl(x, 12) == 4096 * x;
    assert Shl(x, 26) == 0x400_0000 * x;
  }

  // ----- alignment (kernel/include/kernel/mm/pmm.h:21-26) -----

  function AlignDown(x: word, a: word): nat
    requires a >= 1
  {
    And(x, Not64(a - 1))
  }

  /** `x + a - 1` is 64-bit arithmetic and wraps. */
  function AlignUp(x: word, a: word): nat
    requires a >= 1
  {
    And((x + a - 1) % U64, Not64(a - 1))
  }

  /** Clearing the low twelve bits of a word rounds it down to a multiple of 4096. */
  lemma PageMask(y: word)
    ensures And(y, Not64(4095)) == y / 4096 * 4096
  {
    hide And;
    OnesSmall();
    ShlSmall(Ones(52));
    AndField(y, 12, 52);
    ShrSmall(y);
    LowAll(y / 4096, 52);
    ShlSmall(y / 4096);
  }

  /** align_down rounds down to a multiple of the page size. */
  lemma AlignDownPage(x: word)
    ensures AlignDown(x, 4096) == x / 4096 * 4096
    ensures AlignDown(x, 4096) % 4096 == 0 && AlignDown(x, 4096) <= x < AlignDown(x, 4096) + 4096
  {
    hide And;
    PageMask(x);
  }

  /** align_up rounds up to a multiple of the page size exactly when `x + 4095` does not wrap. */
  lemma AlignUpPage(x: word)
    ensures AlignUp(x, 4096) % 4096 == 0
    ensures (x <= AlignUp(x, 4096) < x + 4096) <==> x + 4095 < U64
    ensures x + 4095 < U64 ==> AlignUp(x, 4096) == (x + 4095) / 4096 * 4096
  {
    hide And;
    PageMask((x + 4095) % U64);
  }
}
