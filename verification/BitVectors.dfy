/**
 The bit operators of module Bits agree with those of Dafny's 32-bit bit-vectors.
 */
module BitVectors {
  import opened Bits

  function LowBit(x: bv32): nat {
    if x & 1 == 1 then 1 else 0
  }

  /** The word with its next bit in the lowest place. */
  function Rotated(x: bv32): bv32 {
    x.RotateRight(1)
  }

  /** The number that the low `w` bits of `x` make in base two. */
  function Number(x: bv32, w: nat): nat
    decreases w
  {
    if w == 0 then 0 else LowBit(x) + 2 * Number(Rotated(x), w - 1)
  }

  lemma {:induction false} NumberBound(x: bv32, w: nat)
    ensures Number(x, w) < Pow2(w)
    decreases w
  {
    if w > 0 {
      NumberBound(Rotated(x), w - 1);
    }
  }

  lemma NumberStep(x: bv32, w: nat)
    requires w > 0
    ensures Number(x, w) == LowBit(x) + 2 * Number(Rotated(x), w - 1)
    ensures LowBit(x) < 2
  {
  }

  lemma AndOneBit(x: bv32, y: bv32)
    ensures LowBit(x & y) == if LowBit(x) == 1 && LowBit(y) == 1 then 1 else 0
    ensures Rotated(x & y) == Rotated(x) & Rotated(y)
  {
  }

  lemma {:induction false} AndIsBitwise(x: bv32, y: bv32, w: nat)
    ensures Number(x & y, w) == And(Number(x, w), Number(y, w))
    decreases w
  {
    hide And, LowBit, Rotated, Number;
    if w == 0 {
      NumberZero(x);
      NumberZero(y);
      NumberZero(x & y);
      AndDouble(0, 0, 0, 0);
    } else {
      var x', y' := Rotated(x), Rotated(y);
      AndOneBit(x, y);
      NumberStep(x, w);
      NumberStep(y, w);
      NumberStep(x & y, w);
      AndIsBitwise(x', y', w - 1);
      AndDouble(Number(x', w - 1), LowBit(x), Number(y', w - 1), LowBit(y));
    }
  }

  lemma OrOneBit(x: bv32, y: bv32)
    ensures LowBit(x | y) == if LowBit(x) == 1 || LowBit(y) == 1 then 1 else 0
    ensures Rotated(x | y) == Rotated(x) | Rotated(y)
  {
  }

  lemma OrStep(x: bv32, y: bv32, w: nat)
    requires w > 0
    requires Number(Rotated(x) | Rotated(y), w - 1) == Or(Number(Rotated(x), w - 1), Number(Rotated(y), w - 1))
    ensures Number(x | y, w) == Or(Number(x, w), Number(y, w))
  {
    hide Or, LowBit, Rotated, Number;
    OrOneBit(x, y);
    NumberStep(x, w);
    NumberStep(y, w);
    NumberStep(x | y, w);
    OrDigits(Number(x | y, w), Number(x, w), Number(y, w),
             Number(Rotated(x), w - 1), LowBit(x), Number(Rotated(y), w - 1), LowBit(y));
  }

  lemma {:induction false} OrIsBitwise(x: bv32, y: bv32, w: nat)
    ensures Number(x | y, w) == Or(Number(x, w), Number(y, w))
    decreases w
  {
    hide *;
    if w == 0 {
      OrBase(x, y);
    } else {
      OrIsBitwise(Rotated(x), Rotated(y), w - 1);
      OrStep(x, y, w);
    }
  }

  lemma OrBase(x: bv32, y: bv32)
    ensures Number(x | y, 0) == Or(Number(x, 0), Number(y, 0))
  {
    hide Or;
    OrDouble(0, 0, 0, 0);
  }

  lemma OrDigits(z: nat, x: nat, y: nat, n: nat, b: nat, m: nat, c: nat)
    requires b < 2 && c < 2 && x == b + 2 * n && y == c + 2 * m
    requires z == (if b == 1 || c == 1 then 1 else 0) + 2 * Or(n, m)
    ensures z == Or(x, y)
  {
    hide Or;
    OrDouble(n, b, m, c);
  }

  lemma NumberZero(x: bv32)
    ensures Number(x, 0) == 0
  {
  }

  lemma NotOneBit(x: bv32)
    ensures LowBit(!x) == 1 - LowBit(x)
    ensures Rotated(!x) == !Rotated(x)
  {
  }

  lemma {:induction false} NotIsBitwise(x: bv32, w: nat)
    ensures Number(!x, w) == Pow2(w) - 1 - Number(x, w)
    decreases w
  {
    hide LowBit, Rotated, Number;
    if w == 0 {
      NumberZero(x);
      NumberZero(!x);
    } else {
      NotOneBit(x);
      NumberStep(x, w);
      NumberStep(!x, w);
      NotIsBitwise(Rotated(x), w - 1);
    }
  }

  /** On whole words the three operators are those of the model. */
  lemma WordOperators(x: bv32, y: bv32)
    ensures Number(x, 32) < TWO_TO_32 && Number(y, 32) < TWO_TO_32
    ensures Number(x & y, 32) == And(Number(x, 32), Number(y, 32))
    ensures Number(x | y, 32) == Or32(Number(x, 32), Number(y, 32))
    ensures Number(!x, 32) == Not(Number(x, 32))
  {
    hide And, Or, Number, LowBit;
    Pow2At32();
    NumberBound(x, 32);
    NumberBound(y, 32);
    AndIsBitwise(x, y, 32);
    OrIsBitwise(x, y, 32);
    NotIsBitwise(x, 32);
  }
}
