/**
 Memory as bytes, and how a processor of either byte order reads words from it.
 */
module Bytes {
  import opened Bits

  type byte = x: int | 0 <= x < 0x100
  type u16 = x: int | 0 <= x < 0x1_0000

  datatype Endian = BigEndian | LittleEndian

  /** The 16-bit word stored as `b0` at the lower address and `b1` at the higher one. */
  function Word(order: Endian, b0: byte, b1: byte): u16 {
    match order
    case BigEndian => 0x100 * b0 + b1
    case LittleEndian => b0 + 0x100 * b1
  }

  /** The two bytes, in address order, that hold the word `m`. */
  function WordBytes(order: Endian, m: u16): (byte, byte) {
    match order
    case BigEndian => (m / 0x100, m % 0x100)
    case LittleEndian => (m % 0x100, m / 0x100)
  }

  function SwapBytes(m: u16): u16 {
    0x100 * (m % 0x100) + m / 0x100
  }

  function Other(order: Endian): Endian {
    if order == BigEndian then LittleEndian else BigEndian
  }

  lemma WordRoundTrip(order: Endian, m: u16)
    ensures var (b0, b1) := WordBytes(order, m); Word(order, b0, b1) == m
    ensures WordBytes(Other(order), m) == (WordBytes(order, m).1, WordBytes(order, m).0)
    ensures WordBytes(order, m) == WordBytes(Other(order), SwapBytes(m))
  {
    DivModUnique(SwapBytes(m), m % 0x100, m / 0x100, 0x100);
  }

  // ---------- 32-bit words ----------

  /** Four bytes read as a number, most significant first: network byte order. */
  function FromOctets(a: byte, b: byte, c: byte, d: byte): u32 {
    0x100_0000 * a + 0x1_0000 * b + 0x100 * c + d
  }

  /** The byte of `x` that `C(x >> 8 * k)` selects. */
  function Octet(x: u32, k: nat): byte
    requires k < 4
  {
    match k
    case 0 => x % 0x100
    case 1 => x / 0x100 % 0x100
    case 2 => x / 0x1_0000 % 0x100
    case 3 => x / 0x100_0000
  }

  /** The byte at offset `k` of the memory that holds `x`. */
  function MemByte(order: Endian, x: u32, k: nat): byte
    requires k < 4
  {
    Octet(x, if order == BigEndian then 3 - k else k)
  }

  /** The 32-bit word whose memory holds `b0`, `b1`, `b2`, `b3` in address order. */
  function FromMemory(order: Endian, b0: byte, b1: byte, b2: byte, b3: byte): u32 {
    match order
    case BigEndian => FromOctets(b0, b1, b2, b3)
    case LittleEndian => FromOctets(b3, b2, b1, b0)
  }

  /** `ntohl`: the identity on a big-endian processor, a byte reversal on a little-endian one. */
  function Ntohl(order: Endian, x: u32): u32 {
    match order
    case BigEndian => x
    case LittleEndian => FromOctets(Octet(x, 0), Octet(x, 1), Octet(x, 2), Octet(x, 3))
  }

  /** What is where: the bytes of a word by their places, in either byte order. */
  lemma ByteOrders(a: byte, b: byte, c: byte, d: byte)
    ensures var x := 0x100_0000 * a + 0x1_0000 * b + 0x100 * c + d;
            && Octet(x, 3) == a && Octet(x, 2) == b && Octet(x, 1) == c && Octet(x, 0) == d
            && Ntohl(BigEndian, x) == x && Ntohl(LittleEndian, x) == 0x100_0000 * d + 0x1_0000 * c + 0x100 * b + a
            && MemByte(BigEndian, x, 0) == a && MemByte(BigEndian, x, 1) == b
            && MemByte(BigEndian, x, 2) == c && MemByte(BigEndian, x, 3) == d
            && MemByte(LittleEndian, x, 0) == d && MemByte(LittleEndian, x, 1) == c
            && MemByte(LittleEndian, x, 2) == b && MemByte(LittleEndian, x, 3) == a
            && FromMemory(BigEndian, a, b, c, d) == x && FromMemory(LittleEndian, d, c, b, a) == x
    ensures Word(BigEndian, a, b) == 0x100 * a + b && Word(LittleEndian, b, a) == 0x100 * a + b
    ensures WordBytes(BigEndian, 0x100 * a + b) == (a, b) && WordBytes(LittleEndian, 0x100 * a + b) == (b, a)
  {
    OctetsOf(a, b, c, d);
    DivModUnique(0x100 * a + b, a, b, 0x100);
  }

  lemma OctetsOf(a: byte, b: byte, c: byte, d: byte)
    ensures var x := FromOctets(a, b, c, d);
            Octet(x, 3) == a && Octet(x, 2) == b && Octet(x, 1) == c && Octet(x, 0) == d
  {
    var x := FromOctets(a, b, c, d);
    DivModUnique(x, a, 0x1_0000 * b + 0x100 * c + d, 0x100_0000);
    DivModUnique(x, 0x100 * a + b, 0x100 * c + d, 0x1_0000);
    DivModUnique(x, 0x1_0000 * a + 0x100 * b + c, d, 0x100);
  }

  lemma FromOctetsOf(x: u32)
    ensures FromOctets(Octet(x, 3), Octet(x, 2), Octet(x, 1), Octet(x, 0)) == x
  {
    assert x / 0x100 / 0x100 == x / 0x1_0000;
    assert x / 0x1_0000 / 0x100 == x / 0x100_0000;
  }

  /**
   Reading memory in network order is what `ntohl` undoes: the bytes in address order are
   the octets of `Ntohl(order, x)`, and `Ntohl` is its own inverse.
   */
  lemma NetworkOrder(order: Endian, x: u32)
    ensures forall k: nat :: k < 4 ==> MemByte(order, x, k) == Octet(Ntohl(order, x), 3 - k)
    ensures Ntohl(order, Ntohl(order, x)) == x
    ensures var h := Ntohl(order, x);
            FromMemory(order, Octet(h, 3), Octet(h, 2), Octet(h, 1), Octet(h, 0)) == x
  {
    OctetsOf(Octet(x, 0), Octet(x, 1), Octet(x, 2), Octet(x, 3));
    FromOctetsOf(x);
    FromOctetsOf(Ntohl(order, x));
  }
}
