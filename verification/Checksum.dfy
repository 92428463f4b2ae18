/**
 The Internet checksum, `inet_cksum`.

 `Checksum` is what the code computes from the sum of the words; `InetCksum` is the code
 itself, over memory and with a signed 32-bit accumulator.  The laws of sections 1 and 2 of
 RFC 1071 and of section 3 of RFC 1624 are proved of `Checksum`.
 */
module Checksum {
  import opened Bits
  import opened Bytes
  import opened OnesComplement

  // ---------- specification ----------

  /** The sum of the 16-bit words of `s`; an odd last byte is the first byte of a zeroed word. */
  function WordSum(order: Endian, s: seq<byte>): nat {
    if |s| == 0 then 0
    else if |s| == 1 then Word(order, s[0], 0)
    else Word(order, s[0], s[1]) + WordSum(order, s[2..])
  }

  /** The end of the code: two rounds of adding the carries back, then `~`, cut to 16 bits. */
  function FoldAndComplement(sum: nat): u16 {
    var once := Fold(sum);
    var twice := once + once / 0x1_0000;
    (-1 - twice) % 0x1_0000
  }

  function Checksum(order: Endian, s: seq<byte>): u16 {
    FoldAndComplement(WordSum(order, s))
  }

  /** The folded sum, before the final complement. */
  function Folded(order: Endian, s: seq<byte>): u16 {
    ONES - Checksum(order, s)
  }

  /** The words of `s` can be added up in a signed 32-bit accumulator. */
  predicate Fits(order: Endian, s: seq<byte>) {
    WordSum(order, s) < 0x8000_0000
  }

  predicate AllZero(s: seq<byte>) {
    forall i :: 0 <= i < |s| ==> s[i] == 0
  }

  /** `s` with the word `m` stored at offset `off`. */
  function Store(order: Endian, s: seq<byte>, off: nat, m: u16): (s': seq<byte>)
    requires off + 2 <= |s|
    ensures |s'| == |s|
  {
    var (b0, b1) := WordBytes(order, m);
    s[..off] + [b0, b1] + s[off + 2..]
  }

  /** The byte order in which two bytes at an offset enter the sum: at odd offsets the other one. */
  function WordOrder(order: Endian, off: nat): Endian {
    if off % 2 == 0 then order else Other(order)
  }

  /** `s` with the word at `off` replaced by the checksum of the message without it. */
  function WithChecksum(order: Endian, s: seq<byte>, off: nat): (s': seq<byte>)
    requires off + 2 <= |s|
    ensures |s'| == |s|
  {
    var zeroed := Store(WordOrder(order, off), s, off, 0);
    Store(WordOrder(order, off), zeroed, off, Checksum(order, zeroed))
  }

  function Load(order: Endian, s: seq<byte>, off: nat): u16
    requires off + 2 <= |s|
  {
    Word(order, s[off], s[off + 1])
  }

  // ---------- the code ----------

  newtype int32 = x: int | -0x8000_0000 <= x < 0x8000_0000

  /** The checksum of the `len` bytes of `buf` that start at `addr`. */
  method InetCksum(order: Endian, buf: array<byte>, addr: nat, len: nat) returns (answer: u16)
    requires addr + len <= buf.Length && len < 0x8000_0000
    requires Fits(order, buf[addr..addr + len])
    ensures answer == ONES - Canonical(WordSum(order, buf[addr..addr + len]))
    ensures answer == Checksum(order, buf[addr..addr + len])
  {
    hide WordSum, Checksum, Canonical, Word, Fold, FoldAndComplement;
    ghost var data := buf[addr..addr + len];
    var nleft := len as int32;
    var w := addr;
    answer := 0;
    var sum: int32 := 0;

    while nleft > 1
      invariant 0 <= nleft && w + nleft as int == addr + len
      invariant addr <= w
      invariant 0 <= sum
      invariant sum as int + WordSum(order, data[w - addr..]) == WordSum(order, data)
    {
      WordSumStep(order, data[w - addr..]);
      assert data[w - addr..][2..] == data[w + 2 - addr..];
      sum := sum + Word(order, buf[w], buf[w + 1]) as int32;
      w := w + 2;
      nleft := nleft - 2;
    }

    WordSumStep(order, data[w - addr..]);
    if nleft == 1 {
      answer := Word(order, buf[w], 0);
      sum := sum + answer as int32;
    }

    ChecksumClosedForm(sum as int);
    ChecksumOf(order, data);
    FoldSteps(sum);
    sum := sum / 0x1_0000 + sum % 0x1_0000;
    sum := sum + sum / 0x1_0000;
    answer := (-1 - sum as int) % 0x1_0000;
  }

  /** A sender's last step: zero the checksum field, sum the message, store the answer. */
  method StoreChecksum(order: Endian, buf: array<byte>, addr: nat, len: nat, off: nat)
    requires addr + len <= buf.Length && len <= 0x1_0000
    requires off % 2 == 0 && off + 2 <= len
    modifies buf
    ensures buf[..][..addr + off] == old(buf[..])[..addr + off]
    ensures buf[..][addr + off + 2..] == old(buf[..])[addr + off + 2..]
    ensures Load(order, buf[addr..addr + len], off)
         == Checksum(order, Store(order, old(buf[addr..addr + len]), off, 0))
    ensures Checksum(order, buf[addr..addr + len]) == 0 && Checksum(Other(order), buf[addr..addr + len]) == 0
  {
    hide Checksum, Fits, Load, Store;
    ghost var s0 := buf[..];
    ghost var before := buf[addr..addr + len];
    assert before == s0[addr..addr + len];
    PutWord(order, buf, addr + off, 0);
    StoreInSlice(order, s0, addr, len, off, 0);
    ghost var s1 := buf[..];
    assert buf[addr..addr + len] == s1[addr..addr + len];
    AccumulatorNeverOverflows(order, buf[addr..addr + len]);
    var sum := InetCksum(order, buf, addr, len);
    PutWord(order, buf, addr + off, sum);
    StoreInSlice(order, s1, addr, len, off, sum);
    assert buf[addr..addr + len] == buf[..][addr..addr + len];
    LoadOfStore(order, s1[addr..addr + len], off, sum);
    AccumulatorNeverOverflows(order, WithChecksum(order, before, off));
    AccumulatorNeverOverflows(Other(order), WithChecksum(order, before, off));
    VerifyAfterStore(order, before, off);
  }

  /** Storing a word into a message that is part of a larger buffer. */
  lemma StoreInSlice(order: Endian, s: seq<byte>, addr: nat, len: nat, off: nat, m: u16)
    requires addr + len <= |s| && off + 2 <= len
    ensures var s' := Store(order, s, addr + off, m);
            s'[addr..addr + len] == Store(order, s[addr..addr + len], off, m)
            && s'[..addr + off] == s[..addr + off] && s'[addr + off + 2..] == s[addr + off + 2..]
  {
    hide WordBytes;
  }

  /** A 16-bit assignment through a pointer. */
  method PutWord(order: Endian, buf: array<byte>, at: nat, m: u16)
    requires at + 2 <= buf.Length
    modifies buf
    ensures buf[..] == Store(order, old(buf[..]), at, m)
  {
    var (b0, b1) := WordBytes(order, m);
    buf[at] := b0;
    buf[at + 1] := b1;
  }

  lemma LoadOfStore(order: Endian, s: seq<byte>, off: nat, m: u16)
    requires off + 2 <= |s|
    ensures Load(order, Store(order, s, off, m), off) == m
  {
    WordRoundTrip(order, m);
  }

  lemma WordSumStep(order: Endian, s: seq<byte>)
    ensures |s| == 0 ==> WordSum(order, s) == 0
    ensures |s| == 1 ==> WordSum(order, s) == Word(order, s[0], 0)
    ensures |s| >= 2 ==> WordSum(order, s) == Word(order, s[0], s[1]) + WordSum(order, s[2..])
  {
  }

  lemma ChecksumOf(order: Endian, s: seq<byte>)
    ensures Checksum(order, s) == FoldAndComplement(WordSum(order, s))
  {
  }

  // ---------- closed form ----------

  /** Two rounds of carries suffice for every sum below 2^32. */
  lemma ChecksumClosedForm(sum: nat)
    requires sum < TWO_TO_32
    ensures FoldAndComplement(sum) == ONES - Canonical(sum)
  {
    hide Canonical;
    var once := Fold(sum);
    FoldCanonical(sum);
    FoldCanonical(once);
    CanonicalEqual(Fold(once), 0);
    FoldInPlace(once);
  }

  /** The last statements of `InetCksum`, on the accumulator. */
  lemma FoldSteps(sum: int32)
    requires 0 <= sum
    ensures var once := sum / 0x1_0000 + sum % 0x1_0000;
            0 <= once < 0x2_0000
            && FoldAndComplement(sum as int) == (-1 - (once + once / 0x1_0000) as int) % 0x1_0000
  {
  }

  /** Adding the high bits in place changes only bits that the truncation removes. */
  lemma FoldInPlace(once: nat)
    requires Fold(once) <= ONES
    ensures (-1 - (once + once / 0x1_0000)) % 0x1_0000 == ONES - Fold(once)
  {
    var twice := once + once / 0x1_0000;
    assert twice == once / 0x1_0000 * 0x1_0000 + Fold(once);
    DivModUnique(-1 - twice, -1 - once / 0x1_0000, ONES - Fold(once), 0x1_0000);
  }

  lemma FoldedClosedForm(order: Endian, s: seq<byte>)
    requires Fits(order, s)
    ensures Folded(order, s) == Canonical(WordSum(order, s))
    ensures Folded(order, s) % ONES == WordSum(order, s) % ONES
    ensures Folded(order, s) == 0 <==> AllZero(s)
  {
    ChecksumClosedForm(WordSum(order, s));
    CanonicalEqual(WordSum(order, s), 0);
    SumZero(order, s);
  }

  lemma {:induction false} SumZero(order: Endian, s: seq<byte>)
    ensures WordSum(order, s) == 0 <==> AllZero(s)
  {
    if |s| >= 2 {
      SumZero(order, s[2..]);
      assert forall i :: 2 <= i < |s| ==> s[i] == s[2..][i - 2];
    }
  }

  // ---------- sums of bytes in even and odd places ----------

  function EvenSum(s: seq<byte>): nat {
    if s == [] then 0 else s[0] + OddSum(s[1..])
  }

  function OddSum(s: seq<byte>): nat {
    if s == [] then 0 else EvenSum(s[1..])
  }

  lemma {:induction false} WordSumByPlaces(order: Endian, s: seq<byte>)
    ensures WordSum(order, s) == match order
      case BigEndian => 0x100 * EvenSum(s) + OddSum(s)
      case LittleEndian => EvenSum(s) + 0x100 * OddSum(s)
  {
    if |s| >= 2 {
      WordSumByPlaces(order, s[2..]);
      assert s[1..][1..] == s[2..];
    }
  }

  lemma {:induction false} PlacesOfConcat(a: seq<byte>, b: seq<byte>)
    ensures EvenSum(a + b) == EvenSum(a) + (if |a| % 2 == 0 then EvenSum(b) else OddSum(b))
    ensures OddSum(a + b) == OddSum(a) + (if |a| % 2 == 0 then OddSum(b) else EvenSum(b))
  {
    if a == [] {
      assert a + b == b;
    } else {
      PlacesOfConcat(a[1..], b);
      assert (a + b)[1..] == a[1..] + b;
    }
  }

  lemma SumOfConcat(order: Endian, a: seq<byte>, b: seq<byte>)
    ensures WordSum(order, a + b)
         == WordSum(order, a) + WordSum(if |a| % 2 == 0 then order else Other(order), b)
  {
    PlacesOfConcat(a, b);
    WordSumByPlaces(order, a + b);
    WordSumByPlaces(order, a);
    WordSumByPlaces(order, b);
    WordSumByPlaces(Other(order), b);
  }

  /** Reading the bytes in the other order multiplies the sum by 256, modulo 65535. */
  lemma SumInOtherOrder(order: Endian, s: seq<byte>)
    ensures Canonical(WordSum(Other(order), s)) == SwapBytes(Canonical(WordSum(order, s)))
  {
    var x, y := WordSum(order, s), WordSum(Other(order), s);
    var e, o := EvenSum(s), OddSum(s);
    WordSumByPlaces(order, s);
    WordSumByPlaces(Other(order), s);
    ModShift(y, if order == BigEndian then e else o);
    assert 0x100 * x == y + (if order == BigEndian then e else o) * ONES;
    TimesByte(x);
    CanonicalEqual(y, 0x100 * x);
  }

  lemma {:induction false} SumBound(order: Endian, s: seq<byte>)
    ensures WordSum(order, s) <= |s| / 2 * ONES + (if |s| % 2 == 0 then 0 else Word(order, 0xff, 0))
  {
    hide WordSum;
    WordSumStep(order, s);
    if |s| >= 2 {
      SumBound(order, s[2..]);
    }
  }

  lemma {:induction false} SumOfOnes(order: Endian, s: seq<byte>)
    requires forall i :: 0 <= i < |s| ==> s[i] == 0xff
    ensures WordSum(order, s) == |s| / 2 * ONES + (if |s| % 2 == 0 then 0 else Word(order, 0xff, 0))
  {
    hide WordSum;
    WordSumStep(order, s);
    if |s| >= 2 {
      SumOfOnes(order, s[2..]);
    }
  }

  // ---------- accumulator safety ----------

  lemma AccumulatorNeverOverflows(order: Endian, s: seq<byte>)
    requires |s| <= 0x1_0000
    ensures Fits(order, s)
  {
    SumBound(order, s);
  }

  /**
   The longest buffers whose words always fit: 65536 bytes, and one more on a little-endian
   processor, where an odd last byte counts only as itself.
   */
  lemma AccumulatorBoundIsTight(order: Endian, len: nat)
    ensures (forall s: seq<byte> :: |s| == len ==> Fits(order, s))
       <==> len <= if order == BigEndian then 0x1_0000 else 0x1_0001
  {
    if len <= if order == BigEndian then 0x1_0000 else 0x1_0001 {
      forall s: seq<byte> | |s| == len
        ensures Fits(order, s)
      {
        SumBound(order, s);
      }
    } else {
      var s: seq<byte> := seq(len, i => 0xff);
      SumOfOnes(order, s);
      assert !Fits(order, s);
    }
  }

  /** The example of section 3 of RFC 1071, on processors of both byte orders. */
  lemma ChecksumExample()
    ensures var s: seq<byte> := [0x00, 0x01, 0xf2, 0x03, 0xf4, 0xf5, 0xf6, 0xf7];
            Checksum(BigEndian, s) == 0x220d && Checksum(LittleEndian, s) == 0x0d22
  {
    hide FoldAndComplement;
    SumOfFour(BigEndian, 0x00, 0x01, 0xf2, 0x03, 0xf4, 0xf5, 0xf6, 0xf7);
    SumOfFour(LittleEndian, 0x00, 0x01, 0xf2, 0x03, 0xf4, 0xf5, 0xf6, 0xf7);
    ExampleFolds();
  }

  lemma ExampleFolds()
    ensures FoldAndComplement(0x2_ddf0) == 0x220d && FoldAndComplement(0x1_f2dc) == 0x0d22
  {
  }

  lemma SumOfFour(order: Endian, a: byte, b: byte, c: byte, d: byte, e: byte, f: byte, g: byte, h: byte)
    ensures WordSum(order, [a, b, c, d, e, f, g, h])
         == Word(order, a, b) + Word(order, c, d) + Word(order, e, f) + Word(order, g, h)
  {
    hide WordSum, Word;
    WordSumStep(order, [a, b, c, d, e, f, g, h]);
    assert [a, b, c, d, e, f, g, h][2..] == [c, d, e, f, g, h];
    WordSumStep(order, [c, d, e, f, g, h]);
    assert [c, d, e, f, g, h][2..] == [e, f, g, h];
    WordSumStep(order, [e, f, g, h]);
    assert [e, f, g, h][2..] == [g, h];
    WordSumStep(order, [g, h]);
    assert [g, h][2..] == [];
    WordSumStep(order, []);
  }

  // ---------- laws ----------

  /**
   The folded sum of a message can be put together from the folded sums of two parts, with
   one more fold; a part that starts at an odd offset contributes with its bytes swapped.
   */
  lemma Concatenation(order: Endian, a: seq<byte>, b: seq<byte>)
    requires Fits(order, a) && Fits(order, b) && Fits(order, a + b)
    ensures Folded(order, a + b)
         == Fold(Folded(order, a) + if |a| % 2 == 0 then Folded(order, b) else SwapBytes(Folded(order, b)))
  {
    hide Checksum, Folded, WordSum, Canonical, Fold, SwapBytes;
    SumOfConcat(order, a, b);
    FoldedClosedForm(order, a);
    FoldedClosedForm(order, b);
    FoldedClosedForm(order, a + b);
    SumInOtherOrder(order, b);
    FoldOfTwo(WordSum(order, a), WordSum(if |a| % 2 == 0 then order else Other(order), b));
  }

  /**
   Processors of different byte order compute byte-swapped checksums, so that each stores the
   same two bytes into the message.
   */
  lemma ByteOrderIndependence(s: seq<byte>)
    requires Fits(BigEndian, s) && Fits(LittleEndian, s)
    ensures Checksum(LittleEndian, s) == SwapBytes(Checksum(BigEndian, s))
    ensures WordBytes(LittleEndian, Checksum(LittleEndian, s)) == WordBytes(BigEndian, Checksum(BigEndian, s))
  {
    FoldedClosedForm(BigEndian, s);
    FoldedClosedForm(LittleEndian, s);
    SumInOtherOrder(BigEndian, s);
    SwapComplement(Folded(BigEndian, s));
    WordRoundTrip(BigEndian, Checksum(BigEndian, s));
  }

  lemma SumAround(order: Endian, front: seq<byte>, b0: byte, b1: byte, back: seq<byte>)
    ensures var o := WordOrder(order, |front|);
            WordSum(order, front + ([b0, b1] + back)) == WordSum(order, front) + Word(o, b0, b1) + WordSum(o, back)
  {
    hide Word;
    var o := WordOrder(order, |front|);
    SumOfConcat(order, front, [b0, b1] + back);
    WordSumStep(o, [b0, b1] + back);
    assert ([b0, b1] + back)[2..] == back;
  }

  /** Storing a word, at any offset, changes the sum by the difference of the words. */
  lemma SumOfStore(order: Endian, s: seq<byte>, off: nat, m: u16)
    requires off + 2 <= |s|
    ensures var o := WordOrder(order, off);
            WordSum(order, Store(o, s, off, m)) == WordSum(order, s) - Load(o, s, off) + m
            && Load(o, s, off) <= WordSum(order, s)
  {
    hide Word, WordBytes, WordSum, WordOrder;
    var o := WordOrder(order, off);
    var (b0, b1) := WordBytes(o, m);
    var front, back := s[..off], s[off + 2..];
    assert s == front + ([s[off], s[off + 1]] + back);
    assert Store(o, s, off, m) == front + ([b0, b1] + back);
    WordRoundTrip(o, m);
    SumAround(order, front, s[off], s[off + 1], back);
    SumAround(order, front, b0, b1, back);
  }

  /**
   A message that carries its own checksum, at an odd offset with the two bytes exchanged,
   sums to zero, also on a processor of the other byte order.
   */
  lemma VerifyAfterStore(order: Endian, s: seq<byte>, off: nat)
    requires off + 2 <= |s|
    requires Fits(order, WithChecksum(order, s, off))
    ensures Checksum(order, WithChecksum(order, s, off)) == 0
    ensures Fits(Other(order), WithChecksum(order, s, off)) ==> Checksum(Other(order), WithChecksum(order, s, off)) == 0
  {
    hide Store, Load, WordSum, AllZero, Canonical, FoldAndComplement, WordOrder;
    var o := WordOrder(order, off);
    var zeroed := Store(o, s, off, 0);
    var c := Checksum(order, zeroed);
    LoadOfStore(o, s, off, 0);
    var stored := Store(o, zeroed, off, c);
    SumOfStore(order, zeroed, off, c);
    FoldedClosedForm(order, zeroed);
    FoldedClosedForm(order, stored);
    SumOfOneZero(WordSum(order, zeroed));
    if Fits(Other(order), stored) {
      ByteOrderIndependence(stored);
    }
  }

  /**
   Replacing two adjacent bytes of a message, at any offset: the formula of section 3 of RFC 1624 gives the new
   checksum exactly when the new message is not all zero.
   */
  lemma IncrementalUpdate(order: Endian, s: seq<byte>, off: nat, m: u16)
    requires off + 2 <= |s|
    requires Fits(order, s) && Fits(order, Store(WordOrder(order, off), s, off, m))
    ensures var o := WordOrder(order, off);
            var updated := Store(o, s, off, m);
            var formula := FoldAndComplement(ONES - Checksum(order, s) + (ONES - Load(o, s, off)) + m);
            if AllZero(updated) then Checksum(order, updated) == 0xffff && formula == 0
            else Checksum(order, updated) == formula
  {
    hide Store, Load, WordSum, AllZero, Canonical, FoldAndComplement, WordOrder;
    var w, updated := Load(WordOrder(order, off), s, off), Store(WordOrder(order, off), s, off, m);
    SumOfStore(order, s, off, m);
    FoldedClosedForm(order, s);
    FoldedClosedForm(order, updated);
    CanonicalEqual(WordSum(order, updated), 0);
    UpdateOfSum(WordSum(order, s), w, m);
    ChecksumClosedForm(Folded(order, s) + (ONES - w) + m);
  }

  /** The message of one word 1, updated to 0: the code answers 0xffff, the formula 0. */
  lemma IncrementalUpdateToZero()
    ensures var s: seq<byte> := [0, 1];
            var updated := Store(BigEndian, s, 0, 0);
            Checksum(BigEndian, updated) == 0xffff
            && FoldAndComplement(ONES - Checksum(BigEndian, s) + (ONES - Load(BigEndian, s, 0)) + 0) == 0
  {
    var s: seq<byte> := [0, 1];
    AccumulatorNeverOverflows(BigEndian, s);
    AccumulatorNeverOverflows(BigEndian, Store(BigEndian, s, 0, 0));
    IncrementalUpdate(BigEndian, s, 0, 0);
    hide Checksum, FoldAndComplement;
    assert Store(BigEndian, s, 0, 0) == [0, 0];
    assert AllZero(Store(BigEndian, s, 0, 0));
  }

  /**
   Changing two adjacent bytes, at any offset, changes the checksum, unless the change is
   between the two zeros; and that change goes unnoticed exactly when some other byte is nonzero.
   */
  lemma SingleWordDetection(order: Endian, s: seq<byte>, off: nat, m: u16)
    requires off + 2 <= |s|
    requires Fits(order, s) && Fits(order, Store(WordOrder(order, off), s, off, m))
    requires m != Load(WordOrder(order, off), s, off)
    ensures var o := WordOrder(order, off);
            Checksum(order, Store(o, s, off, m)) == Checksum(order, s)
            <==> {m, Load(o, s, off)} == {0, 0xffff} && !AllZero(Store(o, s, off, 0))
  {
    hide Store, Load, WordSum, AllZero, Canonical, FoldAndComplement, WordOrder;
    var o := WordOrder(order, off);
    SumOfStore(order, s, off, m);
    SumOfStore(order, s, off, 0);
    FoldedClosedForm(order, s);
    FoldedClosedForm(order, Store(o, s, off, m));
    SumZero(order, Store(o, s, off, 0));
    ChangeOfWord(WordSum(order, Store(o, s, off, 0)), Load(o, s, off), m);
  }
}
