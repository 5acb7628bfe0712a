/**
  Unsigned 64-bit words and the C bit operators on them.

  `&` and `|` are defined bit by bit. The lemmas below are the only place where masks and
  shifts are related to division and remainder; everything else in the project uses them.
 */
module Bits {

  type u8 = x: int | 0 <= x < 0x100
  type u32 = x: int | 0 <= x < 0x1_0000_0000
  type u64 = x: int | 0 <= x < 0x1_0000_0000_0000_0000

  function Pow2(k: nat): (p: nat)
    ensures p > 0
  {
    if k == 0 then 1 else 2 * Pow2(k - 1)
  }

  function And(x: nat, y: nat): nat
  {
    if x == 0 || y == 0 then 0 else 2 * And(x / 2, y / 2) + AndBit(x, y)
  }

  // The lowest bit of x & y and of x | y
  function AndBit(x: nat, y: nat): nat
  {
    if x % 2 == 1 && y % 2 == 1 then 1 else 0
  }

  function OrBit(x: nat, y: nat): nat
  {
    if x % 2 == 1 || y % 2 == 1 then 1 else 0
  }

  function Or(x: nat, y: nat): nat
    decreases x + y
  {
    if x == 0 && y == 0 then 0 else 2 * Or(x / 2, y / 2) + OrBit(x, y)
  }

  // ~x on an unsigned 64-bit word
  function Not(x: u64): u64
  {
    0xFFFF_FFFF_FFFF_FFFF - x
  }

  // x >> k
  function Shr(x: nat, k: nat): nat
  {
    if k == 0 then x else Shr(x / 2, k - 1)
  }

  lemma {:induction false} PowersOfTwo()
    ensures Pow2(9) == 512 && Pow2(12) == 0x1000 && Pow2(21) == 0x20_0000
    ensures Pow2(30) == 0x4000_0000 && Pow2(39) == 0x80_0000_0000
    ensures Pow2(40) == 0x100_0000_0000 && Pow2(64) == 0x1_0000_0000_0000_0000
  {
    assert Pow2(4) == 16;
    assert Pow2(8) == 256;
    assert Pow2(12) == 0x1000;
    assert Pow2(16) == 0x1_0000;
    assert Pow2(20) == 0x10_0000;
    assert Pow2(24) == 0x100_0000;
    assert Pow2(28) == 0x1000_0000;
    assert Pow2(32) == 0x1_0000_0000;
    assert Pow2(36) == 0x10_0000_0000;
    assert Pow2(40) == 0x100_0000_0000;
    assert Pow2(44) == 0x1000_0000_0000;
    assert Pow2(48) == 0x1_0000_0000_0000;
    assert Pow2(52) == 0x10_0000_0000_0000;
    assert Pow2(56) == 0x100_0000_0000_0000;
    assert Pow2(60) == 0x1000_0000_0000_0000;
  }

  /** Masking with a run of k low ones is the remainder modulo 2^k. */
  lemma {:induction false} AndLowOnes(x: nat, k: nat)
    ensures And(x, Pow2(k) - 1) == x % Pow2(k)
  {
    if k > 0 {
      var p := Pow2(k - 1);
      AndLowOnes(x / 2, k - 1);
      AndStepOnes(x, p);
      RemainderByHalves(x, p);
      assert Pow2(k) == 2 * p;
      hide And, Pow2;
    }
  }

  lemma AndStepOnes(x: nat, p: nat)
    requires p > 0
    ensures And(x, 2 * p - 1) == 2 * And(x / 2, p - 1) + x % 2
  {
    AndStep(x, 2 * p - 1);
    OddHalves(p);
  }

  lemma OddHalves(p: nat)
    requires p > 0
    ensures (2 * p - 1) / 2 == p - 1 && (2 * p - 1) % 2 == 1
  {
  }

  lemma RemainderByHalves(x: nat, p: nat)
    requires p > 0
    ensures x % (2 * p) == 2 * (x / 2 % p) + x % 2
  {
    var h := x / 2;
    var q, r := h / p, h % p;
    assert x == (2 * p) * q + (2 * r + x % 2) by {
      assert h == p * q + r;
      assert (2 * p) * q == 2 * (p * q);
    }
    RemainderUnique(x, 2 * p, q, 2 * r + x % 2);
  }

  lemma RemainderUnique(x: int, d: nat, q: int, r: nat)
    requires d > 0 && r < d && x == d * q + r
    ensures x % d == r && x / d == q
  {
    var e := x / d - q;
    assert d * e == r - x % d by {
      assert d * (x / d) + x % d == x;
      assert d * e == d * (x / d) - d * q;
    }
    assert e == 0 by {
      if e != 0 {
        MultipleIsFar(d, e);
        assert false;
      }
    }
  }

  lemma MultipleIsFar(d: int, e: int)
    requires d > 0 && e != 0
    ensures if e > 0 then d * e >= d else d * e <= -d
    decreases if e > 0 then e else -e
  {
    if e > 1 {
      MultipleIsFar(d, e - 1);
    } else if e < -1 {
      MultipleIsFar(d, e + 1);
    }
  }

  /** A mask whose twelve low bits are clear does not see the twelve low bits. */
  lemma AndPageMask(x: nat, y: nat)
    ensures And(x, 0x1000 * y) == 0x1000 * And(x / 0x1000, y)
  {
    AndMaskClear6(x, 0x40 * y, x / 0x40);
    AndMaskClear6(x / 0x40, y, x / 0x1000);
  }

  lemma AndMaskClear6(x: nat, y: nat, z: nat)
    requires x / 0x40 == z
    ensures And(x, 0x40 * y) == 0x40 * And(z, y)
  {
    AndMaskClear3(x, 8 * y);
    AndMaskClear3(x / 8, y);
    assert x / 8 / 8 == z;
  }

  lemma AndMaskClear3(x: nat, y: nat)
    ensures And(x, 8 * y) == 8 * And(x / 8, y)
  {
    hide And;
    var y2 := 2 * y;
    var y4 := 2 * y2;
    assert 2 * y4 == 8 * y;
    AndEven(x, y4);
    AndEven(x / 2, y2);
    AndEven(x / 2 / 2, y);
    assert x / 2 / 2 / 2 == x / 8;
  }

  lemma AndEven(x: nat, y: nat)
    ensures And(x, 2 * y) == 2 * And(x / 2, y)
  {
    AndStep(x, 2 * y);
    assert 2 * y / 2 == y && 2 * y % 2 == 0;
  }

  /** The highest bit of a 32-bit number. */
  lemma AndTopBit(x: u32)
    ensures And(x, 0x8000_0000) == 0 <==> x < 0x8000_0000
  {
    AndMaskClear6(x, 0x200_0000, x / 0x40);
    AndMaskClear6(x / 0x40, 0x8_0000, x / 0x1000);
    AndMaskClear6(x / 0x1000, 0x2000, x / 0x4_0000);
    AndMaskClear6(x / 0x4_0000, 0x80, x / 0x100_0000);
    AndMaskClear6(x / 0x100_0000, 2, x / 0x4000_0000);
    AndEven(x / 0x4000_0000, 1);
    AndStep(x / 0x4000_0000 / 2, 1);
  }

  lemma AndStep(x: nat, y: nat)
    ensures And(x, y) == 2 * And(x / 2, y / 2) + AndBit(x, y)
  {
  }

  lemma OrStep(x: nat, y: nat)
    ensures Or(x, y) == 2 * Or(x / 2, y / 2) + OrBit(x, y)
  {
  }

  /** A mask and its complement split a number into two parts. */
  lemma {:induction false} AndComplement(x: nat, m: nat, n: nat, k: nat)
    requires m + n == Pow2(k) - 1 && x < Pow2(k)
    ensures And(x, m) + And(x, n) == x
  {
    if k > 0 {
      AndComplement(x / 2, m / 2, n / 2, k - 1);
      AndStep(x, m);
      AndStep(x, n);
    }
  }

  /** Fields cut out by a mask and by its complement never share a bit, so `|` adds them. */
  lemma {:induction false} MergeFields(x: nat, y: nat, m: nat, n: nat, k: nat)
    requires m + n == Pow2(k) - 1
    ensures Or(And(x, m), And(y, n)) == And(x, m) + And(y, n)
  {
    if k > 0 {
      MergeFields(x / 2, y / 2, m / 2, n / 2, k - 1);
      AndStep(x, m);
      AndStep(y, n);
      OrStep(And(x, m), And(y, n));
    }
  }

  /** A right shift is a division by a power of two. */
  lemma ShiftsDivide(x: nat)
    ensures Shr(x, 12) == x / 0x1000 && Shr(x, 21) == x / 0x20_0000
    ensures Shr(x, 30) == x / 0x4000_0000 && Shr(x, 39) == x / 0x80_0000_0000
  {
    Shift3(x, 9);
    Shift9(x / 8, 0);
    Shift12(x, 9);
    Shift9(x / 0x1000, 0);
    Shift12(x, 18);
    Shift9(x / 0x1000, 9);
    Shift9(x / 0x20_0000, 0);
    Shift12(x, 27);
    Shift9(x / 0x1000, 18);
    Shift9(x / 0x20_0000, 9);
    Shift9(x / 0x4000_0000, 0);
  }

  lemma Shift3(x: nat, k: nat)
    ensures Shr(x, k + 3) == Shr(x / 8, k)
  {
    assert Shr(x, k + 3) == Shr(x / 2, k + 2) == Shr(x / 2 / 2, k + 1);
  }

  lemma Shift9(x: nat, k: nat)
    ensures Shr(x, k + 9) == Shr(x / 0x200, k)
  {
    Shift3(x, k + 6);
    Shift3(x / 8, k + 3);
    Shift3(x / 8 / 8, k);
    assert x / 8 / 8 / 8 == x / 0x200;
  }

  lemma Shift12(x: nat, k: nat)
    ensures Shr(x, k + 12) == Shr(x / 0x1000, k)
  {
    Shift3(x, k + 9);
    Shift9(x / 8, k);
    assert x / 8 / 0x200 == x / 0x1000;
  }
}
