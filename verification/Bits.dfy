/** Bitwise operations on unsigned integers of a given width, defined bit by bit. */
module Bits {

  function Pow2(k: nat): (p: nat)
    ensures p > 0
  {
    if k == 0 then 1 else 2 * Pow2(k - 1)
  }

  function And(a: nat, b: nat, width: nat): (r: nat)
    ensures r < Pow2(width)
  {
    if width == 0 then 0
    else 2 * And(a / 2, b / 2, width - 1) + (if a % 2 == 1 && b % 2 == 1 then 1 else 0)
  }

  function Or(a: nat, b: nat, width: nat): (r: nat)
    ensures r < Pow2(width)
  {
    if width == 0 then 0
    else 2 * Or(a / 2, b / 2, width - 1) + (if a % 2 == 1 || b % 2 == 1 then 1 else 0)
  }

  function Xor(a: nat, b: nat, width: nat): (r: nat)
    ensures r < Pow2(width)
  {
    if width == 0 then 0
    else 2 * Xor(a / 2, b / 2, width - 1) + (if a % 2 != b % 2 then 1 else 0)
  }

  function Not(a: nat, width: nat): (r: nat)
    ensures r < Pow2(width)
  {
    if width == 0 then 0
    else 2 * Not(a / 2, width - 1) + (if a % 2 == 1 then 0 else 1)
  }

  lemma AndHalves(a: nat, b: nat, width: nat)
    requires width > 0
    ensures And(a, b, width) / 2 == And(a / 2, b / 2, width - 1)
    ensures And(a, b, width) % 2 == if a % 2 == 1 && b % 2 == 1 then 1 else 0
  {
  }

  lemma OrHalves(a: nat, b: nat, width: nat)
    requires width > 0
    ensures Or(a, b, width) / 2 == Or(a / 2, b / 2, width - 1)
    ensures Or(a, b, width) % 2 == if a % 2 == 1 || b % 2 == 1 then 1 else 0
  {
  }

  lemma XorHalves(a: nat, b: nat, width: nat)
    requires width > 0
    ensures Xor(a, b, width) / 2 == Xor(a / 2, b / 2, width - 1)
    ensures Xor(a, b, width) % 2 == if a % 2 != b % 2 then 1 else 0
  {
  }

  lemma {:induction false} XorTwice(a: nat, k: nat, width: nat)
    requires a < Pow2(width)
    ensures Xor(Xor(a, k, width), k, width) == a
  {
    if width > 0 {
      XorTwice(a / 2, k / 2, width - 1);
      XorHalves(a, k, width);
    }
  }

  lemma NotHalves(a: nat, width: nat)
    requires width > 0
    ensures Not(a, width) / 2 == Not(a / 2, width - 1)
    ensures Not(a, width) % 2 == 1 - a % 2
  {
  }

  /** Choosing bits: the two terms never overlap, so `|` and exclusive or agree. */
  lemma {:induction false} ChooseOrXor(x: nat, y: nat, z: nat, width: nat)
    ensures Or(And(x, y, width), And(Not(x, width), z, width), width)
         == Xor(And(x, y, width), And(Not(x, width), z, width), width)
  {
    hide Not, And;
    if width == 0 {
    } else {
      ChooseOrXor(x / 2, y / 2, z / 2, width - 1);
      NotHalves(x, width);
      AndHalves(x, y, width);
      AndHalves(Not(x, width), z, width);
    }
  }

  // ----- one bit at a time

  /** Binary digit `i` of `x`. */
  function Bit(x: nat, i: nat): (b: nat)
    ensures b <= 1
  {
    if i == 0 then x % 2 else Bit(x / 2, i - 1)
  }

  lemma {:induction false} AndBit(a: nat, b: nat, width: nat, i: nat)
    requires i < width
    ensures Bit(And(a, b, width), i) == if Bit(a, i) == 1 && Bit(b, i) == 1 then 1 else 0
  {
    hide And;
    AndHalves(a, b, width);
    if i > 0 { AndBit(a / 2, b / 2, width - 1, i - 1); }
  }

  lemma {:induction false} OrBit(a: nat, b: nat, width: nat, i: nat)
    requires i < width
    ensures Bit(Or(a, b, width), i) == if Bit(a, i) == 1 || Bit(b, i) == 1 then 1 else 0
  {
    hide Or;
    OrHalves(a, b, width);
    if i > 0 { OrBit(a / 2, b / 2, width - 1, i - 1); }
  }

  /** Exclusive or adds bit by bit, without carry. */
  lemma {:induction false} XorBit(a: nat, b: nat, width: nat, i: nat)
    requires i < width
    ensures Bit(Xor(a, b, width), i) == (Bit(a, i) + Bit(b, i)) % 2
  {
    hide Xor;
    XorHalves(a, b, width);
    if i > 0 { XorBit(a / 2, b / 2, width - 1, i - 1); }
  }

  lemma {:induction false} NotBit(a: nat, width: nat, i: nat)
    requires i < width
    ensures Bit(Not(a, width), i) == 1 - Bit(a, i)
  {
    hide Not;
    NotHalves(a, width);
    if i > 0 { NotBit(a / 2, width - 1, i - 1); }
  }

  /** Numbers below a power of two are equal when their bits are. */
  lemma {:induction false} SameBits(a: nat, b: nat, width: nat)
    requires a < Pow2(width) && b < Pow2(width) && forall i: nat :: i < width ==> Bit(a, i) == Bit(b, i)
    ensures a == b
  {
    if width > 0 {
      assert Bit(a, 0) == Bit(b, 0);
      forall i: nat | i < width - 1 ensures Bit(a / 2, i) == Bit(b / 2, i) {
        assert Bit(a, i + 1) == Bit(b, i + 1);
      }
      SameBits(a / 2, b / 2, width - 1);
    }
  }

  /** Taking away a power of two keeps the bits below it. */
  lemma {:induction false} LowBits(x: nat, width: nat, i: nat)
    requires i < width && Pow2(width) <= x
    ensures Bit(x - Pow2(width), i) == Bit(x, i)
  {
    if i > 0 { LowBits(x / 2, width - 1, i - 1); }
  }

  /** A number below a power of two has no bit there or above. */
  lemma {:induction false} HighBits(x: nat, width: nat, i: nat)
    requires x < Pow2(width) && width <= i
    ensures Bit(x, i) == 0
    decreases i
  {
    if width > 0 { HighBits(x / 2, width - 1, i - 1); } else if i > 0 { HighBits(x / 2, 0, i - 1); }
  }

  /** Majority: of three pairwise conjunctions, one or all three hold whenever any does. */
  lemma {:induction false} MajorityOrXor(x: nat, y: nat, z: nat, width: nat)
    ensures Or(Or(And(x, y, width), And(x, z, width), width), And(y, z, width), width)
         == Xor(Xor(And(x, y, width), And(x, z, width), width), And(y, z, width), width)
  {
    if width > 0 {
      MajorityOrXor(x / 2, y / 2, z / 2, width - 1);
      AndHalves(x, y, width);
      AndHalves(x, z, width);
      AndHalves(y, z, width);
      OrHalves(And(x, y, width), And(x, z, width), width);
      XorHalves(And(x, y, width), And(x, z, width), width);
    }
  }
}
