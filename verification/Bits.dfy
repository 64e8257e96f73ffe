/** Unsigned machine words as bounded integers, and C's bitwise operators on them.
    An operator is defined bit by bit, so that what it does to each single bit is
    provable by a short induction. */
module Bits {

  type byte = x: int | 0 <= x < 0x100
  type u32 = x: int | 0 <= x < 0x1_0000_0000

  /** What an unsigned 32-bit variable holds after an operation whose exact result is x. */
  function Wrap(x: int): (r: u32)
    decreases if x < 0 then 0x1_0000_0000 - x else x
  {
    if x < 0 then Wrap(x + 0x1_0000_0000)
    else if x >= 0x1_0000_0000 then Wrap(x - 0x1_0000_0000)
    else x
  }

  lemma WrapSmall(x: u32)
    ensures Wrap(x) == x
  {
  }

  lemma {:induction false} WrapIsModulo(x: int)
    ensures Wrap(x) == x % 0x1_0000_0000
    decreases if x < 0 then 0x1_0000_0000 - x else x
  {
    if x < 0 { WrapIsModulo(x + 0x1_0000_0000); }
    else if x >= 0x1_0000_0000 { WrapIsModulo(x - 0x1_0000_0000); }
  }

  lemma WrapCongruent(x: u32, q: nat)
    ensures Wrap(x + 0x1_0000_0000 * q) == x
  {
    WrapIsModulo(x + 0x1_0000_0000 * q);
  }

  lemma {:induction false} WrapStep(x: int, y: int)
    ensures Wrap(Wrap(x) + y) == Wrap(x + y)
  {
    WrapIsModulo(x);
    WrapIsModulo(Wrap(x) + y);
    WrapIsModulo(x + y);
  }

  /** One page on. */
  lemma WrapAdvance(x: u32, i: nat)
    ensures Wrap(Wrap(x + 4096 * i) + 4096) == Wrap(x + 4096 * (i + 1))
  {
    hide Wrap;
    WrapStep(x + 4096 * i, 4096);
    assert x + 4096 * i + 4096 == x + 4096 * (i + 1);
  }

  /** Whole sectors do not change the place within a sector. */
  lemma AddSectors(x: int, q: int)
    ensures (x + 512 * q) % 512 == x % 512
  {
  }

  lemma WrapInSector(x: int)
    ensures Wrap(x) % 512 == x % 512
  {
    hide Wrap;
    WrapIsModulo(x);
    var q := x / 0x1_0000_0000;
    AddSectors(Wrap(x), 0x80_0000 * q);
  }

  function Pow2(k: nat): (p: nat)
    ensures p >= 1
  {
    if k == 0 then 1 else 2 * Pow2(k - 1)
  }

  /** Bit k of w. */
  predicate Bit(w: nat, k: nat) {
    if k == 0 then w % 2 == 1 else Bit(w / 2, k - 1)
  }

  function Or(a: nat, b: nat): nat {
    if a == 0 && b == 0 then 0
    else 2 * Or(a / 2, b / 2) + (if a % 2 == 1 || b % 2 == 1 then 1 else 0)
  }

  function And(a: nat, b: nat): nat {
    if a == 0 || b == 0 then 0
    else 2 * And(a / 2, b / 2) + (if a % 2 == 1 && b % 2 == 1 then 1 else 0)
  }

  /** a & ~b */
  function AndNot(a: nat, b: nat): (r: nat)
    ensures r <= a
  {
    if a == 0 then 0
    else 2 * AndNot(a / 2, b / 2) + (if a % 2 == 1 && b % 2 == 0 then 1 else 0)
  }

  lemma {:induction false} OrBit(a: nat, b: nat, k: nat)
    ensures Bit(Or(a, b), k) <==> Bit(a, k) || Bit(b, k)
  {
    assert Or(a, b) / 2 == Or(a / 2, b / 2);
    if k > 0 { OrBit(a / 2, b / 2, k - 1); }
  }

  lemma {:induction false} AndNotBit(a: nat, b: nat, k: nat)
    ensures Bit(AndNot(a, b), k) <==> Bit(a, k) && !Bit(b, k)
  {
    if a == 0 {
      ZeroBit(k);
    } else if k > 0 {
      AndNotBit(a / 2, b / 2, k - 1);
    }
  }

  lemma {:induction false} ZeroBit(k: nat)
    ensures !Bit(0, k)
  {
    if k > 0 { ZeroBit(k - 1); }
  }

  lemma {:induction false} Pow2Bit(j: nat, k: nat)
    ensures Bit(Pow2(j), k) <==> j == k
  {
    if j == 0 {
      if k > 0 { ZeroBit(k - 1); }
    } else if k > 0 {
      Pow2Bit(j - 1, k - 1);
    }
  }

  /** A word with some bit set is not zero; masking with 1 << k tests bit k. */
  lemma {:induction false} MaskTests(w: nat, k: nat)
    ensures And(w, Pow2(k)) != 0 <==> Bit(w, k)
  {
    if w == 0 {
      ZeroBit(k);
    } else if k == 0 {
      assert And(w / 2, 0) == 0;
    } else {
      MaskTests(w / 2, k - 1);
    }
  }

  /** The bits of g, all below k, go into the low part of a word and leave the rest alone. */
  lemma {:induction false} OrSplit(q: nat, f: nat, g: nat, k: nat)
    requires f < Pow2(k) && g < Pow2(k)
    ensures Or(q * Pow2(k) + f, g) == q * Pow2(k) + Or(f, g)
    ensures Or(f, g) < Pow2(k)
  {
    if k == 0 {
      OrZero(q);
    } else {
      var half := q * Pow2(k - 1);
      assert q * Pow2(k) == 2 * half;
      assert (2 * half + f) / 2 == half + f / 2;
      OrSplit(q, f / 2, g / 2, k - 1);
    }
  }

  lemma {:induction false} OrZero(a: nat)
    ensures Or(a, 0) == a && Or(0, a) == a
  {
    if a > 0 { OrZero(a / 2); }
  }

  lemma OrBelow32(a: u32, b: u32)
    ensures Or(a, b) < 0x1_0000_0000
  {
    Powers();
    OrSplit(0, a, b, 32);
  }

  lemma Powers()
    ensures Pow2(8) == 0x100 && Pow2(12) == 0x1000 && Pow2(32) == 0x1_0000_0000
  {
    assert Pow2(8) == 16 * Pow2(4);
    assert Pow2(12) == 16 * Pow2(8);
    assert Pow2(16) == 16 * Pow2(12);
    assert Pow2(20) == 16 * Pow2(16);
    assert Pow2(24) == 16 * Pow2(20);
    assert Pow2(28) == 16 * Pow2(24);
    assert Pow2(32) == 16 * Pow2(28);
  }

  /** C's a | b on unsigned 32-bit operands. */
  function Or32(a: u32, b: u32): u32 {
    OrBelow32(a, b);
    Or(a, b)
  }

  /** On a page-aligned address, or-ing flags in is adding them. */
  lemma OrAligned(a: u32, f: u32, g: u32)
    requires a % 0x1000 == 0 && f < 0x1000 && g < 0x1000
    ensures Or32(a, f) == a + f
    ensures Or32(a + f, g) == a + Or32(f, g) && Or32(f, g) < 0x1000
  {
    Powers();
    OrSplit(a / 0x1000, 0, f, 12);
    OrSplit(a / 0x1000, f, g, 12);
    OrZero(f);
  }

  lemma Pow2Below32(k: nat)
    requires k < 32
    ensures Pow2(k) < 0x1_0000_0000
  {
    Powers();
    Pow2Monotone(k, 32);
  }

  lemma {:induction false} Pow2Monotone(j: nat, k: nat)
    requires j < k
    ensures Pow2(j) < Pow2(k)
  {
    if j + 1 < k { Pow2Monotone(j, k - 1); }
  }
}
