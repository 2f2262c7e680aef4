/** C's bitwise `^` and `|` on non-negative integers, bit by bit. */
module Bits {
  import opened Bytes

  function Pow2(k: nat): (p: nat)
    ensures p >= 1
  {
    if k == 0 then 1 else 2 * Pow2(k - 1)
  }

  function Xor(x: nat, y: nat): nat
    decreases x + y
  {
    if x == 0 && y == 0 then 0 else 2 * Xor(x / 2, y / 2) + (x + y) % 2
  }

  function Or(x: nat, y: nat): nat
    decreases x + y
  {
    if x == 0 && y == 0 then 0 else 2 * Or(x / 2, y / 2) + if x % 2 == 1 || y % 2 == 1 then 1 else 0
  }

  lemma {:induction false} XorBound(k: nat, x: nat, y: nat)
    requires x < Pow2(k) && y < Pow2(k)
    ensures Xor(x, y) < Pow2(k)
  {
    if k > 0 {
      XorBound(k - 1, x / 2, y / 2);
    }
  }

  lemma {:induction false} OrBound(k: nat, x: nat, y: nat)
    requires x < Pow2(k) && y < Pow2(k)
    ensures Or(x, y) < Pow2(k)
  {
    if k > 0 {
      OrBound(k - 1, x / 2, y / 2);
    }
  }

  /** Bit `k` of a number. */
  predicate Bit(x: nat, k: nat) {
    if k == 0 then x % 2 == 1 else Bit(x / 2, k - 1)
  }

  /** A bit of the exclusive or is set exactly where the operands' bits differ. */
  lemma {:induction false} XorBits(x: nat, y: nat, k: nat)
    ensures Bit(Xor(x, y), k) <==> Bit(x, k) != Bit(y, k)
    decreases k
  {
    hide Xor;
    XorUnfolds(x, y);
    if k > 0 {
      XorBits(x / 2, y / 2, k - 1);
    }
  }

  /** A bit of the inclusive or is set exactly where an operand's bit is. */
  lemma {:induction false} OrBits(x: nat, y: nat, k: nat)
    ensures Bit(Or(x, y), k) <==> Bit(x, k) || Bit(y, k)
    decreases k
  {
    hide Or;
    OrUnfolds(x, y);
    if k > 0 {
      OrBits(x / 2, y / 2, k - 1);
    }
  }

  lemma OrUnfolds(x: nat, y: nat)
    ensures Or(x, y) == 2 * Or(x / 2, y / 2) + if x % 2 == 1 || y % 2 == 1 then 1 else 0
  {
  }

  lemma XorUnfolds(x: nat, y: nat)
    ensures Xor(x, y) == 2 * Xor(x / 2, y / 2) + (x + y) % 2
  {
  }

  /** Applying the same operand twice undoes it. */
  lemma {:induction false} XorUndone(x: nat, y: nat)
    ensures Xor(Xor(x, y), y) == x
    decreases x + y
  {
    if x != 0 || y != 0 {
      XorUndone(x / 2, y / 2);
      HalvesOfXor(x, y);
      XorUnfolds(Xor(x, y), y);
    }
  }

  lemma HalvesOfXor(x: nat, y: nat)
    ensures Xor(x, y) / 2 == Xor(x / 2, y / 2)
    ensures (Xor(x, y) + y) % 2 == x % 2
  {
    hide Xor;
    XorUnfolds(x, y);
  }

  lemma {:induction false} XorIsZero(x: nat, y: nat)
    ensures Xor(x, y) == 0 <==> x == y
    decreases x + y
  {
    if x != 0 || y != 0 {
      XorIsZero(x / 2, y / 2);
    }
  }

  lemma {:induction false} OrWithZero(x: nat)
    ensures Or(x, 0) == x
  {
    if x != 0 {
      OrWithZero(x / 2);
    }
  }

  lemma {:induction false} OrFromZero(x: nat)
    ensures Or(0, x) == x
  {
    if x != 0 {
      OrFromZero(x / 2);
    }
  }

  lemma OrWithOne(x: nat)
    ensures Or(x, 1) == if x % 2 == 1 then x else x + 1
  {
    OrWithZero(x / 2);
  }

  lemma {:induction false} OrShifted(k: nat, x: nat, y: nat)
    ensures Or(Pow2(k) * x, Pow2(k) * y) == Pow2(k) * Or(x, y)
  {
    hide Or;
    if k > 0 {
      OrShifted(k - 1, x, y);
      assert Pow2(k) * x == 2 * (Pow2(k - 1) * x) && Pow2(k) * y == 2 * (Pow2(k - 1) * y);
      OrAfterDoubling(Pow2(k - 1) * x, 2 * (Pow2(k - 1) * y));
      assert Pow2(k) * Or(x, y) == 2 * (Pow2(k - 1) * Or(x, y));
    }
  }

  lemma OrAfterDoubling(x: nat, y: nat)
    ensures Or(2 * x, y) == 2 * Or(x, y / 2) + y % 2
  {
  }

  /** Below the shifted operand's bits, `|` is addition. */
  lemma {:induction false} OrDisjoint(k: nat, x: nat, y: nat)
    requires y < Pow2(k)
    ensures Or(Pow2(k) * x, y) == Pow2(k) * x + y
  {
    hide Or;
    if k == 0 {
      OrWithZero(x);
    } else {
      OrDisjoint(k - 1, x, y / 2);
      OrAfterDoubling(Pow2(k - 1) * x, y);
      assert Pow2(k) * x == 2 * (Pow2(k - 1) * x);
    }
  }

  lemma {:induction false} Pow2Add(j: nat, k: nat)
    ensures Pow2(j + k) == Pow2(j) * Pow2(k)
  {
    if j > 0 {
      Pow2Add(j - 1, k);
    }
  }

  lemma Pow2Values()
    ensures Pow2(8) == 0x100 && Pow2(32) == 0x1_0000_0000
  {
    assert Pow2(8) == 0x100;
    Pow2Add(8, 8);
    Pow2Add(16, 16);
  }

  function XorByte(x: byte, y: byte): byte {
    Pow2Values();
    XorBound(8, x, y);
    Xor(x, y)
  }

  function Or32(x: uint32, y: uint32): uint32 {
    Pow2Values();
    OrBound(32, x, y);
    Or(x, y)
  }
}
