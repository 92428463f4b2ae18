/**
 One's-complement arithmetic on 16 bits: sums whose carries are added back in.

 The value 0 has two representations, 0 and 0xffff.  `Canonical` is the representation that
 adding carries back reaches: 0 only for the sum 0, and 1..0xffff otherwise.
 */
module OnesComplement {
  import opened Bits
  import opened Bytes

  const ONES: int := 0xffff

  /** Add the bits above the low 16 to the low 16. */
  function Fold(x: nat): nat {
    x / 0x1_0000 + x % 0x1_0000
  }

  /** The representative of `x` modulo 65535 that keeps the two zeros apart. */
  function Canonical(x: nat): u16 {
    if x == 0 then 0 else (x - 1) % ONES + 1
  }

  /**
   Two sums have the same representative exactly when they agree modulo 65535 and are both
   zero or both nonzero.
   */
  lemma CanonicalEqual(x: nat, y: nat)
    ensures Canonical(x) == Canonical(y) <==> x % ONES == y % ONES && (x == 0 <==> y == 0)
    ensures Canonical(x) % ONES == x % ONES
    ensures Canonical(x) == 0 <==> x == 0
    ensures x <= ONES ==> Canonical(x) == x
  {
    CanonicalMod(x);
    CanonicalMod(y);
  }

  lemma CanonicalMod(x: nat)
    ensures Canonical(x) % ONES == x % ONES
    ensures Canonical(x) == if x == 0 then 0 else if x % ONES == 0 then ONES else x % ONES
  {
    if x > 0 {
      var q, r := (x - 1) / ONES, (x - 1) % ONES;
      if r + 1 == ONES {
        DivModUnique(x, q + 1, 0, ONES);
      } else {
        DivModUnique(x, q, r + 1, ONES);
      }
    }
  }

  /** Adding a multiple of 65535 does not change a residue. */
  lemma ModShift(x: int, n: int)
    ensures (x + n * ONES) % ONES == x % ONES
  {
    DivModUnique(x + n * ONES, x / ONES + n, x % ONES, ONES);
  }

  /** Residues may be taken before an addition. */
  lemma ModSum(x: int, x': int, y: int, y': int)
    requires x % ONES == x' % ONES && y % ONES == y' % ONES
    ensures (x + y) % ONES == (x' + y') % ONES
  {
    ModShift(x' + y', x / ONES - x' / ONES + y / ONES - y' / ONES);
  }

  /** Folding changes the size of a sum but not what it represents. */
  lemma FoldCanonical(x: nat)
    ensures Canonical(Fold(x)) == Canonical(x)
  {
    ModShift(Fold(x), x / 0x1_0000);
    CanonicalEqual(Fold(x), x);
  }

  /** One fold is enough for the sum of two folded sums. */
  lemma FoldOfTwo(x: nat, y: nat)
    ensures Fold(Canonical(x) + Canonical(y)) == Canonical(x + y)
  {
    var s := Canonical(x) + Canonical(y);
    CanonicalEqual(x, 0);
    CanonicalEqual(y, 0);
    ModSum(Canonical(x), x, Canonical(y), y);
    CanonicalEqual(s, x + y);
    FoldCanonical(s);
    CanonicalEqual(Fold(s), 0);
  }

  /** Multiplying by 256 modulo 65535 exchanges the two bytes (section 2(B) of RFC 1071). */
  lemma TimesByte(x: nat)
    ensures Canonical(0x100 * x) == SwapBytes(Canonical(x))
  {
    var c := Canonical(x);
    CanonicalEqual(x, 0);
    var k := x / ONES - c / ONES;
    assert x == c + k * ONES;
    assert 0x100 * c == SwapBytes(c) + c / 0x100 * ONES;
    hide Canonical;
    var n := 0x100 * k + c / 0x100;
    assert 0x100 * x == SwapBytes(c) + n * ONES;
    ModShift(SwapBytes(c), n);
    CanonicalEqual(0x100 * x, SwapBytes(c));
    CanonicalEqual(SwapBytes(c), 0);
  }

  /** A sum and its complement make the zero that is all ones. */
  lemma SumOfOneZero(x: nat)
    ensures Canonical(x + (ONES - Canonical(x))) == ONES
  {
    var k := x / ONES - Canonical(x) / ONES;
    CanonicalEqual(x, 0);
    assert x + (ONES - Canonical(x)) == ONES + k * ONES;
    ModShift(ONES, k);
    CanonicalEqual(x + (ONES - Canonical(x)), ONES);
  }

  lemma SwapComplement(m: u16)
    ensures SwapBytes(ONES - m) == ONES - SwapBytes(m)
  {
    DivModUnique(ONES - m, 0xff - m / 0x100, 0xff - m % 0x100, 0x100);
  }

  /** Taking one word `w` out of the sum `x` and putting `m` in, with additions only. */
  lemma UpdateOfSum(x: nat, w: u16, m: u16)
    requires w <= x
    ensures Canonical(Canonical(x) + (ONES - w) + m) == if x - w + m == 0 then ONES else Canonical(x - w + m)
  {
    var total, y := Canonical(x) + (ONES - w) + m, x - w + m;
    CanonicalEqual(x, 0);
    ModSum(Canonical(x), x, ONES - w + m, ONES - w + m);
    ModShift(y, 1);
    assert y + 1 * ONES == x + (ONES - w + m);
    assert total % ONES == y % ONES;
    CanonicalMod(total);
    CanonicalMod(y);
  }

  /** Two different words make the same contribution to a sum only as its two zeros. */
  lemma ChangeOfWord(rest: nat, w: u16, m: u16)
    requires w != m
    ensures Canonical(rest + w) == Canonical(rest + m) <==> {m, w} == {0, ONES} && rest != 0
  {
    CanonicalEqual(rest + w, rest + m);
    var n := (rest + w) / ONES - (rest + m) / ONES;
    if (rest + w) % ONES == (rest + m) % ONES {
      assert w - m == n * ONES;
      assert n == 1 || n == -1;
    }
    ModShift(rest, 1);
    if {m, w} == {0, ONES} {
      assert m == 0 || m == ONES;
      assert w == 0 || w == ONES;
    }
  }
}
