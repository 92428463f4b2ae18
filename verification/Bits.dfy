/**
 32-bit words as numbers, and the bit operators of C on them.

 A word is a number below 2^32.  The operators are defined digit by digit in base two, so
 that facts about masks can be proved by halving and stated with powers of two.  The module
 BitVectors connects the definitions with Dafny's built-in bit-vectors.
 */
module Bits {

  const TWO_TO_32: int := 0x1_0000_0000

  type u32 = x: int | 0 <= x < 0x1_0000_0000

  function Pow2(k: nat): (p: nat)
    ensures p > 0
  {
    if k == 0 then 1 else 2 * Pow2(k - 1)
  }

  // ---------- operators ----------

  /** Bitwise conjunction. */
  function And(x: nat, y: nat): (z: nat)
    ensures z <= x && z <= y
  {
    if x == 0 || y == 0 then 0
    else (if x % 2 == 1 && y % 2 == 1 then 1 else 0) + 2 * And(x / 2, y / 2)
  }

  /** Bitwise disjunction. */
  function Or(x: nat, y: nat): (z: nat)
    ensures x <= z && y <= z && z <= x + y
  {
    if x == 0 && y == 0 then 0
    else (if x % 2 == 1 || y % 2 == 1 then 1 else 0) + 2 * Or(x / 2, y / 2)
  }

  /** Bitwise disjunction of two 32-bit words. */
  function Or32(x: u32, y: u32): u32 {
    Pow2At32();
    OrBound(x, y, 32);
    Or(x, y)
  }

  /** `~x` on 32 bits. */
  function Not(x: u32): u32 {
    TWO_TO_32 - 1 - x
  }

  /** Unsigned 32-bit subtraction, which wraps around; `Sub(0, x)` is `-x`. */
  function Sub(x: u32, y: u32): u32 {
    if x >= y then x - y else x - y + TWO_TO_32
  }

  /** The number that the low `k` bits of `x` make. */
  function Low(x: nat, k: nat): (r: nat)
    ensures r < Pow2(k)
  {
    x % Pow2(k)
  }

  /** Is bit `b` of `x` set? */
  predicate Bit(x: nat, b: nat) {
    if b == 0 then x % 2 == 1 else Bit(x / 2, b - 1)
  }

  /** Are the bits from `k` up to bit `w` all one? */
  ghost predicate AllSet(x: nat, k: nat, w: nat) {
    forall b: nat :: k <= b < w ==> Bit(x, b)
  }

  /** The number of one bits. */
  function PopCount(x: nat): nat {
    if x == 0 then 0 else x % 2 + PopCount(x / 2)
  }

  /** The number of zero bits below the lowest one bit. */
  function TrailingZeros(x: nat): nat
    requires x > 0
  {
    if x % 2 == 1 then 0 else 1 + TrailingZeros(x / 2)
  }

  // ---------- powers of two ----------

  lemma Pow2Constants()
    ensures Pow2(3) == 0x8 && Pow2(8) == 0x100 && Pow2(16) == 0x1_0000 && Pow2(24) == 0x100_0000
    ensures Pow2(28) == 0x1000_0000 && Pow2(29) == 0x2000_0000 && Pow2(30) == 0x4000_0000
    ensures Pow2(31) == 0x8000_0000 && Pow2(32) == TWO_TO_32
  {
    assert Pow2(8) == 0x100;
    assert Pow2(16) == 0x1_0000;
    assert Pow2(24) == 0x100_0000;
  }

  lemma Pow2At32()
    ensures Pow2(32) == TWO_TO_32
  {
    Pow2Constants();
  }

  lemma {:induction false} Pow2Add(j: nat, k: nat)
    ensures Pow2(j + k) == Pow2(j) * Pow2(k)
  {
    if j > 0 {
      Pow2Add(j - 1, k);
      DoubleFactor(Pow2(j - 1), Pow2(k));
    }
  }

  lemma DoubleFactor(x: nat, y: nat)
    ensures 2 * (x * y) == (2 * x) * y
  {
  }

  lemma {:induction false} Pow2Monotone(j: nat, k: nat)
    requires j <= k
    ensures Pow2(j) <= Pow2(k)
    ensures j < k ==> 2 * Pow2(j) <= Pow2(k)
  {
    if j < k {
      Pow2Monotone(j, k - 1);
    }
  }

  // ---------- division ----------

  /** Quotient and remainder are determined by the equation they satisfy. */
  lemma DivModUnique(x: int, q: int, r: int, d: int)
    requires 0 <= r < d && x == q * d + r
    ensures x / d == q && x % d == r
  {
    var q', r' := x / d, x % d;
    assert x == q' * d + r';
    MultipleInRange(q - q', d, r' - r);
  }

  lemma MultipleInRange(n: int, d: int, r: int)
    requires d > 0 && n * d == r && -d < r < d
    ensures n == 0
  {
    if n >= 1 {
      MulAtLeast(n, d);
    } else if n <= -1 {
      MulAtLeast(-n, d);
    }
  }

  lemma MulAtLeast(n: int, d: int)
    requires n >= 1 && d > 0
    ensures n * d >= d
  {
    assert n * d == d + (n - 1) * d;
  }

  lemma MulMonotone(x: int, y: int, d: nat)
    requires x <= y
    ensures x * d <= y * d
  {
    assert (y - x) * d >= 0;
  }

  lemma LowMeaning(x: nat, k: nat)
    ensures Low(x, k) == x % Pow2(k)
  {
  }

  lemma LowDouble(x: nat, b: nat, k: nat)
    requires b < 2
    ensures Low(2 * x + b, k + 1) == 2 * Low(x, k) + b
    ensures Low(x, 0) == 0
  {
    var p := Pow2(k);
    var q, r := x / p, x % p;
    assert x == q * p + r;
    assert 2 * x + b == q * (2 * p) + (2 * r + b);
    DivModUnique(2 * x + b, q, 2 * r + b, 2 * p);
  }

  // ---------- one more binary digit ----------

  /** All bits but the lowest, and the lowest. */
  lemma Halve(x: nat) returns (h: nat, b: nat)
    ensures x == 2 * h + b && b < 2
    ensures x > 0 ==> h < x
  {
    h, b := x / 2, x % 2;
  }

  lemma AndDouble(x: nat, b: nat, y: nat, c: nat)
    requires b < 2 && c < 2
    ensures And(2 * x + b, 2 * y + c) == 2 * And(x, y) + (if b == 1 && c == 1 then 1 else 0)
  {
    assert (2 * x + b) / 2 == x && (2 * y + c) / 2 == y;
  }

  lemma OrDouble(x: nat, b: nat, y: nat, c: nat)
    requires b < 2 && c < 2
    ensures Or(2 * x + b, 2 * y + c) == 2 * Or(x, y) + (if b == 1 || c == 1 then 1 else 0)
  {
    assert (2 * x + b) / 2 == x && (2 * y + c) / 2 == y;
  }

  lemma CountDouble(x: nat, b: nat)
    requires b < 2
    ensures PopCount(2 * x + b) == PopCount(x) + b
    ensures 2 * x + b > 0 ==> TrailingZeros(2 * x + b) == if b == 1 then 0 else 1 + TrailingZeros(x)
  {
    assert (2 * x + b) / 2 == x;
  }

  // ---------- masks ----------

  lemma {:induction false} AndAllOnes(x: nat, w: nat)
    requires x < Pow2(w)
    ensures And(x, Pow2(w) - 1) == x
    decreases w
  {
    hide And;
    if w == 0 {
      AndDouble(0, 0, 0, 0);
    } else {
      var h, b := Halve(x);
      AndDouble(h, b, Pow2(w - 1) - 1, 1);
      AndAllOnes(h, w - 1);
    }
  }

  /** Masking with the ones from bit `k` up to bit `w` clears the low `k` bits. */
  lemma {:induction false} AndPrefix(x: nat, w: nat, k: nat)
    requires x < Pow2(w) && k <= w
    ensures Pow2(k) <= Pow2(w)
    ensures And(x, Pow2(w) - Pow2(k)) == x - Low(x, k)
    decreases w
  {
    hide And, Low;
    Pow2Monotone(k, w);
    if k == 0 {
      AndAllOnes(x, w);
      LowDouble(x, 0, 0);
    } else {
      Pow2Monotone(k - 1, w - 1);
      var h, b := Halve(x);
      AndDouble(h, b, Pow2(w - 1) - Pow2(k - 1), 0);
      LowDouble(h, b, k - 1);
      AndPrefix(h, w - 1, k - 1);
    }
  }

  /** Masking with the low `k` ones keeps the low `k` bits. */
  lemma {:induction false} AndSuffix(x: nat, k: nat)
    ensures And(x, Pow2(k) - 1) == Low(x, k)
    decreases k
  {
    hide And, Low;
    if k == 0 {
      LowDouble(x, 0, 0);
    } else {
      var h, b := Halve(x);
      AndDouble(h, b, Pow2(k - 1) - 1, 1);
      LowDouble(h, b, k - 1);
      AndSuffix(h, k - 1);
    }
  }

  lemma {:induction false} AndComplement(x: nat, w: nat)
    requires x < Pow2(w)
    ensures And(x, Pow2(w) - 1 - x) == 0
    decreases w
  {
    hide And;
    if w > 0 {
      var h, b := Halve(x);
      AndDouble(h, b, Pow2(w - 1) - 1 - h, 1 - b);
      AndComplement(h, w - 1);
    }
  }

  /** A word splits into what a mask keeps and what it removes. */
  lemma {:induction false} AndSplit(x: nat, m: nat, w: nat)
    requires x < Pow2(w) && m < Pow2(w)
    ensures And(x, m) + And(x, Pow2(w) - 1 - m) == x
    decreases w
  {
    hide And;
    if w > 0 {
      var h, b := Halve(x);
      var n, c := Halve(m);
      AndDouble(h, b, n, c);
      AndDouble(h, b, Pow2(w - 1) - 1 - n, 1 - c);
      AndSplit(h, n, w - 1);
    }
  }

  lemma {:induction false} TrailingZerosBound(x: nat, w: nat)
    requires 0 < x < Pow2(w)
    ensures TrailingZeros(x) < w
    ensures Pow2(TrailingZeros(x)) <= x
    ensures x + Pow2(TrailingZeros(x)) <= Pow2(w)
    decreases w
  {
    hide TrailingZeros;
    var h, b := Halve(x);
    CountDouble(h, b);
    if b == 0 {
      TrailingZerosBound(h, w - 1);
    }
  }

  /** `x & -x` on `w` bits isolates the lowest one bit of `x`. */
  lemma {:induction false} LowestBit(x: nat, w: nat)
    requires 0 < x < Pow2(w)
    ensures And(x, Pow2(w) - x) == Pow2(TrailingZeros(x))
    decreases w
  {
    hide And, TrailingZeros;
    var h, b := Halve(x);
    CountDouble(h, b);
    if b == 1 {
      AndDouble(h, 1, Pow2(w - 1) - 1 - h, 1);
      AndComplement(h, w - 1);
    } else {
      AndDouble(h, 0, Pow2(w - 1) - h, 0);
      LowestBit(h, w - 1);
    }
  }

  lemma {:induction false} OrZero(x: nat)
    ensures Or(0, x) == x
  {
    hide Or;
    if x == 0 {
      OrDouble(0, 0, 0, 0);
    } else {
      var h, b := Halve(x);
      OrDouble(0, 0, h, b);
      OrZero(h);
    }
  }

  lemma {:induction false} OrBound(x: nat, y: nat, w: nat)
    requires x < Pow2(w) && y < Pow2(w)
    ensures Or(x, y) < Pow2(w)
    decreases w
  {
    hide Or;
    if w == 0 {
      OrDouble(0, 0, 0, 0);
    } else {
      var h, b := Halve(x);
      var n, c := Halve(y);
      OrDouble(h, b, n, c);
      OrBound(h, n, w - 1);
    }
  }

  /** Filling in the zeros below the lowest one bit. */
  lemma {:induction false} FillBelow(x: nat)
    requires x > 0
    ensures Or(Pow2(TrailingZeros(x)) - 1, x) == Pow2(TrailingZeros(x)) - 1 + x
  {
    hide Or, TrailingZeros;
    var h, b := Halve(x);
    CountDouble(h, b);
    if b == 1 {
      OrZero(x);
    } else {
      OrDouble(Pow2(TrailingZeros(h)) - 1, 1, h, 0);
      FillBelow(h);
    }
  }

  lemma {:induction false} PopCountOnes(w: nat)
    ensures PopCount(Pow2(w) - 1) == w
  {
    hide PopCount;
    if w == 0 {
      CountDouble(0, 0);
      PopCountZero();
    } else {
      CountDouble(Pow2(w - 1) - 1, 1);
      PopCountOnes(w - 1);
    }
  }

  lemma PopCountZero()
    ensures PopCount(0) == 0
  {
  }

  /** The block of ones from bit `k` up to bit `w`. */
  lemma {:induction false} BlockOfOnes(w: nat, k: nat)
    requires k < w
    ensures 0 < Pow2(w) - Pow2(k)
    ensures TrailingZeros(Pow2(w) - Pow2(k)) == k
    ensures PopCount(Pow2(w) - Pow2(k)) == w - k
  {
    hide TrailingZeros, PopCount;
    Pow2Monotone(k, w);
    if k == 0 {
      CountDouble(Pow2(w - 1) - 1, 1);
      PopCountOnes(w);
    } else {
      Pow2Monotone(k - 1, w - 1);
      CountDouble(Pow2(w - 1) - Pow2(k - 1), 0);
      BlockOfOnes(w - 1, k - 1);
    }
  }

  // ---------- single bits ----------

  lemma BitDouble(x: nat, c: nat, b: nat)
    requires c < 2
    ensures Bit(2 * x + c, b) <==> if b == 0 then c == 1 else Bit(x, b - 1)
  {
    assert (2 * x + c) / 2 == x;
  }

  lemma {:induction false} AndBit(x: nat, b: nat)
    ensures And(x, Pow2(b)) == if Bit(x, b) then Pow2(b) else 0
    decreases b
  {
    hide And, Bit;
    var h, c := Halve(x);
    BitDouble(h, c, b);
    if b == 0 {
      AndDouble(h, c, 0, 1);
    } else {
      AndDouble(h, c, Pow2(b - 1), 0);
      AndBit(h, b - 1);
    }
  }

  /** Every bit below the lowest one bit is zero, and that bit is one. */
  lemma {:induction false} TrailingZerosBits(x: nat, b: nat)
    requires x > 0 && b <= TrailingZeros(x)
    ensures Bit(x, b) <==> b == TrailingZeros(x)
  {
    if b > 0 {
      TrailingZerosBits(x / 2, b - 1);
    }
  }

  lemma AllSetHalf(x: nat, k: nat, w: nat)
    requires k < w
    ensures AllSet(x, k, w) <==> (k == 0 ==> x % 2 == 1) && AllSet(x / 2, if k == 0 then 0 else k - 1, w - 1)
  {
    var k' := if k == 0 then 0 else k - 1;
    if AllSet(x, k, w) {
      assert k == 0 ==> Bit(x, 0);
      forall b: nat | k' <= b < w - 1
        ensures Bit(x / 2, b)
      {
        assert Bit(x, b + 1);
      }
    }
    if (k == 0 ==> x % 2 == 1) && AllSet(x / 2, k', w - 1) {
      forall b: nat | k <= b < w
        ensures Bit(x, b)
      {
        if b > 0 {
          assert Bit(x / 2, b - 1);
        }
      }
    }
  }

  /** The bits from `k` up to `w` are all one exactly when the word is at least that block. */
  lemma {:induction false} AllOnesFrom(x: nat, w: nat, k: nat)
    requires x < Pow2(w) && k <= w
    ensures AllSet(x, k, w) <==> Pow2(w) - Pow2(k) <= x
  {
    Pow2Monotone(k, w);
    if k < w {
      AllSetHalf(x, k, w);
      hide AllSet;
      AllOnesFrom(x / 2, w - 1, if k == 0 then 0 else k - 1);
    }
  }
}
