/**
 Names of networks: `netname`, `domask` and `forgemask`.

 `netname` prints an address without its trailing zero octets and then as little of the mask
 as it thinks necessary.  `ReadNetName` is a reader for these texts, and shows what they still
 determine.
 */
module NetNames {
  import opened Bits
  import opened Bytes
  import opened Numerals
  import opened CStrings
  import opened Quads
  import opened Address

  // ---------- specification, on host-order values ----------

  /** The mask that the class of an address implies; class C for anything above class B. */
  function ForgeMask(a: u32): u32 {
    if InClassA(a) then 0xff00_0000
    else if InClassB(a) then 0xffff_0000
    else 0xffff_ff00
  }

  /** The mask part of a name: nothing, a prefix length, or the mask in hexadecimal. */
  function MaskSuffix(addr: u32, mask: u32): string {
    if mask == 0 || mask == ForgeMask(addr) then ""
    else if ValidMask(mask) then "/" + Decimal(PopCount(mask))
    else "&0x" + Hex(mask)
  }

  /** How many octets are printed: all but the trailing zeros, and at least one. */
  function Kept(addr: u32): (k: nat)
    ensures 1 <= k <= 4
  {
    if addr % 0x100 != 0 then 4
    else if addr % 0x1_0000 != 0 then 3
    else if addr % 0x100_0000 != 0 then 2
    else 1
  }

  function KeptText(addr: u32): string {
    Dotted(Quad(addr)[..Kept(addr)])
  }

  function NetName(addr: u32, mask: u32): string {
    KeptText(addr) + MaskSuffix(addr, mask)
  }

  // ---------- the code ----------

  /** MAXHOSTNAMELEN of <sys/param.h>. */
  const MAX_HOST_NAME_LEN: int := 256

  /** Appends the mask part of a name to the buffer, at offset `at`. */
  method DoMask(dst: array<char>, at: nat, addr: u32, mask: u32)
    requires at + |MaskSuffix(addr, mask)| < dst.Length
    modifies dst
    ensures dst[..at] == old(dst[..at])
    ensures dst[at..at + |MaskSuffix(addr, mask)|] == MaskSuffix(addr, mask)
    ensures dst[at + |MaskSuffix(addr, mask)|] == '\0'
    ensures dst[at + |MaskSuffix(addr, mask)| + 1..] == old(dst[at + |MaskSuffix(addr, mask)| + 1..])
  {
    hide And, Pow2, ValidMask, TrailingZeros, PopCount, Print, ForgeMask;
    if mask == 0 || ForgeMask(addr) == mask {
      dst[at] := NUL;
      return;
    }
    var i: int := 0;
    ghost var lowest := LowestOne(mask);
    for b := 0 to 32
      invariant i == 0 && b <= lowest
      invariant dst[..] == old(dst[..])
    {
      TestBit(mask, b);
      if And(mask, Pow2(b)) != 0 {
        i := b;
        for bb := b + 1 to 32
          invariant i == b && AllSet(mask, b, bb)
          invariant dst[..] == old(dst[..])
        {
          AndBit(mask, bb);
          if And(mask, Pow2(bb)) == 0 {
            i := -1; // noncontiguous
            break;
          }
        }
        break;
      }
    }
    if i == -1 {
      assert MaskSuffix(addr, mask) == "&0x" + Hex(mask);
      Put(dst, at, "&0x" + Hex(mask));
    } else {
      assert MaskSuffix(addr, mask) == "/" + Decimal(32 - i);
      Put(dst, at, "/" + Decimal(32 - i));
    }
  }

  /** The position of the lowest one bit, and what the two scans of `DoMask` find from there. */
  lemma LowestOne(mask: u32) returns (lowest: nat)
    requires mask > 0
    ensures lowest == TrailingZeros(mask) < 32
    ensures Bit(mask, lowest)
    ensures AllSet(mask, lowest, 32) <==> ValidMask(mask)
    ensures ValidMask(mask) ==> PopCount(mask) == 32 - lowest
  {
    hide And, Bit, AllSet, ValidMask, TrailingZeros, PopCount, PrefixMask;
    lowest := TrailingZeros(mask);
    Pow2At32();
    TrailingZerosBound(mask, 32);
    TrailingZerosBits(mask, lowest);
    AllOnesFrom(mask, 32, lowest);
    MaskTest(mask);
    ValidMaskMeaning(mask);
  }

  /** What the outer scan of `DoMask` sees at each position up to the lowest one bit. */
  lemma TestBit(mask: u32, b: nat)
    requires mask > 0 && b <= TrailingZeros(mask)
    ensures And(mask, Pow2(b)) != 0 <==> b == TrailingZeros(mask)
  {
    hide And, Bit, TrailingZeros;
    AndBit(mask, b);
    TrailingZerosBits(mask, b);
  }

  /** The owner of the static buffer in which `netname` leaves its result. */
  class NetNamer {
    const line: array<char>

    constructor ()
      ensures fresh(line) && line.Length == MAX_HOST_NAME_LEN + 4 == 260
    {
      line := new char[MAX_HOST_NAME_LEN + 4](_ => NUL);
    }

    /** Leaves the name of the given network, in network order, in the buffer. */
    method Name(order: Endian, addr: u32, mask: u32)
      requires line.Length == MAX_HOST_NAME_LEN + 4
      modifies line
      ensures Terminated(line[..])
      ensures Str(line[..]) == NetName(Ntohl(order, addr), Ntohl(order, mask))
      ensures var name := NetName(Ntohl(order, addr), Ntohl(order, mask));
              |name| < line.Length && line[..|name|] == name && '\0' !in name && line[|name|] == '\0'
    {
      hide And, Decimal, Octet, Ntohl, MaskSuffix, Str, KeptText, NoNul, Kept, Quad, Dotted, Terminated;
      var i, omask := Ntohl(order, addr), Ntohl(order, mask);
      TrailingZeroTests(i);
      NameLength(i, omask);
      if And(i, 0xff_ffff) == 0 {
        Put(line, 0, Decimal(Octet(i, 3)));
      } else if And(i, 0xffff) == 0 {
        Put(line, 0, Decimal(Octet(i, 3)) + "." + Decimal(Octet(i, 2)));
      } else if And(i, 0xff) == 0 {
        Put(line, 0, Decimal(Octet(i, 3)) + "." + Decimal(Octet(i, 2)) + "." + Decimal(Octet(i, 1)));
      } else {
        Put(line, 0, Decimal(Octet(i, 3)) + "." + Decimal(Octet(i, 2)) + "."
                     + Decimal(Octet(i, 1)) + "." + Decimal(Octet(i, 0)));
      }
      ghost var text, suffix := KeptText(i), MaskSuffix(i, omask);
      assert line[..][..|text|] == text;
      StrEnds(line[..], |text|);
      DoMask(line, |Str(line[..])|, i, omask);
      assert line[..][..|text|] == text && line[..][|text|..|text| + |suffix|] == suffix;
      AppendedString(line[..], text, suffix);
    }
  }

  lemma AppendedString(buf: seq<char>, text: string, suffix: string)
    requires |text| + |suffix| < |buf|
    requires buf[..|text|] == text && buf[|text|..|text| + |suffix|] == suffix && buf[|text| + |suffix|] == NUL
    requires NoNul(text + suffix)
    ensures Terminated(buf) && Str(buf) == text + suffix
    ensures var name := text + suffix;
            |name| < |buf| && buf[..|name|] == name && '\0' !in name && buf[|name|] == '\0'
  {
    hide Str;
    NoZero(text + suffix);
    assert buf[..|text| + |suffix|] == text + suffix;
    StrEnds(buf, |text| + |suffix|);
  }

  /** The tests of `Name` count the trailing zero octets, and its formats print the others. */
  lemma TrailingZeroTests(i: u32)
    ensures KeptText(i) ==
      var (a, b, c, d) := (Decimal(Octet(i, 3)), Decimal(Octet(i, 2)), Decimal(Octet(i, 1)), Decimal(Octet(i, 0)));
      if And(i, 0xff_ffff) == 0 then a
      else if And(i, 0xffff) == 0 then a + "." + b
      else if And(i, 0xff) == 0 then a + "." + b + "." + c
      else a + "." + b + "." + c + "." + d
  {
    hide And, Print, Octet;
    LowOctets(i);
    SmallerLowOctets(i);
    var q := Quad(i);
    if And(i, 0xff_ffff) == 0 {
      assert q[..1] == [Octet(i, 3)];
    } else if And(i, 0xffff) == 0 {
      assert q[..2] == [Octet(i, 3), Octet(i, 2)] && q[..2][1..] == [Octet(i, 2)];
      assert Dotted([Octet(i, 2)]) == Decimal(Octet(i, 2));
    } else if And(i, 0xff) == 0 {
      assert q[..3] == [Octet(i, 3), Octet(i, 2), Octet(i, 1)];
      DottedOfThree(Octet(i, 3), Octet(i, 2), Octet(i, 1));
    } else {
      assert q[..4] == q;
      DottedOfFour(Octet(i, 3), Octet(i, 2), Octet(i, 1), Octet(i, 0));
    }
  }

  lemma LowOctets(i: u32)
    ensures And(i, 0xff_ffff) == i % 0x100_0000
    ensures And(i, 0xffff) == i % 0x1_0000
    ensures And(i, 0xff) == i % 0x100
  {
    hide And, Low;
    Pow2Constants();
    AndSuffix(i, 24);
    AndSuffix(i, 16);
    AndSuffix(i, 8);
    hide Pow2;
    LowMeaning(i, 24);
    LowMeaning(i, 16);
    LowMeaning(i, 8);
  }

  lemma SmallerLowOctets(i: u32)
    ensures i % 0x100_0000 == 0 ==> i % 0x1_0000 == 0
    ensures i % 0x1_0000 == 0 ==> i % 0x100 == 0
  {
    if i % 0x100_0000 == 0 {
      DivModUnique(i, 0x100 * (i / 0x100_0000), 0, 0x1_0000);
    }
    if i % 0x1_0000 == 0 {
      DivModUnique(i, 0x100 * (i / 0x1_0000), 0, 0x100);
    }
  }

  /** A name has at most 26 characters and no NUL, so it fits the buffer. */
  lemma NameLength(addr: u32, mask: u32)
    ensures |NetName(addr, mask)| <= 26 && NoNul(NetName(addr, mask)) && NoNul(KeptText(addr))
  {
    hide ValidMask, PopCount, ForgeMask, Octet, Print;
    DottedLength(Quad(addr)[..Kept(addr)]);
    DottedHasNoNul(Quad(addr)[..Kept(addr)]);
    PrintRoundTrip(mask, 16);
    assert Power(16, 8) == TWO_TO_32;
    PrintLength(mask, 16, 8, TWO_TO_32);
    if mask != 0 && ValidMask(mask) {
      var lowest := LowestOne(mask);
      DecimalHasNoNul(32 - lowest);
      assert Power(10, 2) == 100;
      PrintLength(32 - lowest, 10, 2, 100);
    }
    assert forall k :: 0 <= k < |Hex(mask)| ==> InBase(Hex(mask)[k], 16);
  }

  /** The forged mask is the 8, 16 or 24-bit prefix that the first octet calls for. */
  lemma ForgeMaskMeaning(addr: u32)
    ensures var o := Octet(addr, 3);
            ForgeMask(addr) == PrefixMask(if o < 128 then 8 else if o < 192 then 16 else 24)
  {
    hide InClassA, InClassB, Octet, Pow2;
    Pow2Constants();
    ClassByFirstOctet(addr);
  }

  // ---------- what a name looks like ----------

  /** The octets in decimal, up to the last one that is not zero, and at least one. */
  predicate IsOctetText(t: string, a: byte, b: byte, c: byte, d: byte) {
    t == if d != 0 then Print(a, 10) + "." + Print(b, 10) + "." + Print(c, 10) + "." + Print(d, 10)
         else if c != 0 then Print(a, 10) + "." + Print(b, 10) + "." + Print(c, 10)
         else if b != 0 then Print(a, 10) + "." + Print(b, 10)
         else Print(a, 10)
  }

  lemma KeptTextMeaning(a: byte, b: byte, c: byte, d: byte)
    ensures IsOctetText(KeptText(FromOctets(a, b, c, d)), a, b, c, d)
  {
    var i := FromOctets(a, b, c, d);
    OctetsOf(a, b, c, d);
    TrailingZeroTests(i);
    LowOctets(i);
    DivModUnique(i, a, 0x1_0000 * b + 0x100 * c + d, 0x100_0000);
    DivModUnique(i, 0x100 * a + b, 0x100 * c + d, 0x1_0000);
    DivModUnique(i, 0x1_0000 * a + 0x100 * b + c, d, 0x100);
    hide KeptText, Print, Octet, And, FromOctets;
  }

  /**
   The mask part is missing for mask 0 and the mask of the class; otherwise it is a slash and
   the length of the prefix, or the mask in hexadecimal when it is no prefix.
   */
  lemma MaskSuffixMeaning(addr: u32, mask: u32)
    ensures var o := addr / 0x100_0000;
            MaskSuffix(addr, mask) == ""
            <==> mask == 0 || mask == (if o < 128 then 0xff00_0000 else if o < 192 then 0xffff_0000 else 0xffff_ff00)
    ensures var s := MaskSuffix(addr, mask);
            forall n: nat :: n <= 32 && mask == PrefixMask(n) && s != "" ==> s[0] == '/' && IsNumeral(s[1..], 10, n)
    ensures var s := MaskSuffix(addr, mask);
            (forall n: nat :: n <= 32 ==> mask != PrefixMask(n)) && s != ""
            ==> |s| > 3 && s[..3] == "&0x" && IsNumeral(s[3..], 16, mask)
  {
    hide ForgeMask, InClassA, InClassB, PopCount, ValidMask, PrefixMask, Print, Value, AllInBase, TrailingZeros;
    var s := MaskSuffix(addr, mask);
    ClassMask(addr);
    NoSuffix(addr, mask);
    ValidMaskMeaning(mask);
    if s != "" {
      if ValidMask(mask) {
        PrintRoundTrip(PopCount(mask), 10);
        assert s[1..] == Decimal(PopCount(mask));
        forall n: nat | n <= 32 && mask == PrefixMask(n)
          ensures n == PopCount(mask)
        {
          PrefixMaskInjective(n, PopCount(mask));
        }
      } else {
        PrintRoundTrip(mask, 16);
        assert s[3..] == Hex(mask) && s[..3] == "&0x";
      }
    }
  }

  lemma ClassMask(addr: u32)
    ensures var o := addr / 0x100_0000;
            ForgeMask(addr) == if o < 128 then 0xff00_0000 else if o < 192 then 0xffff_0000 else 0xffff_ff00
  {
    hide InClassA, InClassB;
    ClassByFirstOctet(addr);
  }

  /** What follows the first `k` characters of a name, for an address with first octet `o`. */
  ghost predicate IsMaskPart(name: string, k: nat, o: nat, mask: u32)
    requires k <= |name|
  {
    && (|name| == k <==>
         mask == 0 || mask == (if o < 128 then 0xff00_0000 else if o < 192 then 0xffff_0000 else 0xffff_ff00))
    && (forall n: nat :: n <= 32 && mask == PrefixMask(n) && |name| > k ==>
         name[k] == '/' && IsNumeral(name[k + 1..], 10, n))
    && ((forall n: nat :: n <= 32 ==> mask != PrefixMask(n)) && |name| > k ==>
         |name| > k + 3 && name[k..k + 3] == "&0x" && IsNumeral(name[k + 3..], 16, mask))
  }

  /** A name, from its characters: first the octets, then the mask part. */
  lemma NameMeaning(a: byte, b: byte, c: byte, d: byte, mask: u32)
    ensures var name := NetName(0x100_0000 * a + 0x1_0000 * b + 0x100 * c + d, mask);
            exists k: nat :: k <= |name| && IsOctetText(name[..k], a, b, c, d) && IsMaskPart(name, k, a, mask)
  {
    hide Octet, Print, IsMaskPart, NetName, KeptText, IsOctetText;
    var addr := FromOctets(a, b, c, d);
    KeptTextMeaning(a, b, c, d);
    NameParts(addr, mask);
    DivModUnique(addr, a, 0x1_0000 * b + 0x100 * c + d, 0x100_0000);
    var k := |KeptText(addr)|;
    assert IsOctetText(NetName(addr, mask)[..k], a, b, c, d);
  }

  lemma NameParts(addr: u32, mask: u32)
    ensures var (name, k) := (NetName(addr, mask), |KeptText(addr)|);
            k <= |name| && name[..k] == KeptText(addr) && IsMaskPart(name, k, addr / 0x100_0000, mask)
  {
    hide PrefixMask, IsNumeral, MaskSuffix, KeptText;
    MaskSuffixMeaning(addr, mask);
    var name, k, s := NetName(addr, mask), |KeptText(addr)|, MaskSuffix(addr, mask);
    assert name[k..] == s;
    assert |name| > k ==> name[k + 1..] == s[1..];
    assert |name| > k + 3 ==> name[k + 3..] == s[3..] && name[k..k + 3] == s[..3];
  }

  /** An example in characters: 10.128.0.0 with a mask of nine bits. */
  lemma NameExample(addr: u32, mask: u32)
    requires addr == 0x0a80_0000 && mask == 0xff80_0000
    ensures NetName(addr, mask) == "10.128/9"
  {
    hide NetName, Print, IsNumeral, Octet, MaskSuffix, KeptText, Dotted, PrefixMask;
    NameParts(addr, mask);
    KeptTextMeaning(10, 128, 0, 0);
    SmallNumbers();
    var name := NetName(addr, mask);
    assert PrefixMask(9) == mask by { NineBits(); }
    NumeralIsPrint(name[7..], 10, 9);
    PrintMeaning(0, 9, 10);
    assert name == name[..6] + [name[6]] + name[7..];
  }

  lemma SmallNumbers()
    ensures Print(10, 10) == "10" && Print(128, 10) == "128"
  {
    hide Print;
    PrintMeaning(0, 1, 10);
    PrintMeaning(1, 0, 10);
    PrintMeaning(1, 2, 10);
    PrintMeaning(12, 8, 10);
  }

  lemma NineBits()
    ensures PrefixMask(9) == 0xff80_0000
  {
    Pow2Constants();
  }

  // ---------- reading a name ----------

  datatype Network = NoNetwork | Network(addr: u32, mask: u32)

  /** The mask that the mask part of a name stands for. */
  function ReadSuffix(addr: u32, suffix: string): Network {
    if suffix == "" then Network(addr, ForgeMask(addr))
    else if suffix[0] == '/' && AllInBase(suffix[1..], 10) && Value(suffix[1..], 10) <= 32
    then Network(addr, PrefixMask(Value(suffix[1..], 10)))
    else if |suffix| > 3 && suffix[..3] == "&0x" && AllInBase(suffix[3..], 16) && Value(suffix[3..], 16) < TWO_TO_32
    then Network(addr, Value(suffix[3..], 16))
    else NoNetwork
  }

  function ReadNetName(s: string): Network {
    var (v, suffix) := ScanFields(s, 4);
    if v == [] || !AreOctets(Padded(v)) then NoNetwork else ReadSuffix(FromQuad(Padded(v)), suffix)
  }

  /** A mask of zero is printed like the mask of the address's class. */
  function EffectiveMask(addr: u32, mask: u32): u32 {
    if mask == 0 then ForgeMask(addr) else mask
  }

  lemma SuffixRoundTrip(addr: u32, mask: u32)
    ensures ReadSuffix(addr, MaskSuffix(addr, mask)) == Network(addr, EffectiveMask(addr, mask))
    ensures EndsList(MaskSuffix(addr, mask))
  {
    hide ValidMask, PopCount, ForgeMask, Print, TrailingZeros, PrefixMask, Value;
    var s := MaskSuffix(addr, mask);
    if mask != 0 && mask != ForgeMask(addr) {
      if ValidMask(mask) {
        var n := PopCount(mask);
        ValidMaskMeaning(mask);
        PrintRoundTrip(n, 10);
        assert s[1..] == Decimal(n);
      } else {
        PrintRoundTrip(mask, 16);
        assert s[3..] == Hex(mask) && s[..3] == "&0x";
        assert s[0] == '&';
      }
    }
  }

  /** The octets that are not printed are zero. */
  lemma KeptOctets(addr: u32)
    ensures Padded(Quad(addr)[..Kept(addr)]) == Quad(addr)
  {
    DroppedOctets(addr);
    hide Octet;
    assert Quad(addr)[..4] == Quad(addr);
  }

  lemma DroppedOctets(addr: u32)
    ensures addr % 0x100 == 0 ==> Octet(addr, 0) == 0
    ensures addr % 0x1_0000 == 0 ==> Octet(addr, 1) == 0 && Octet(addr, 0) == 0
    ensures addr % 0x100_0000 == 0 ==> Octet(addr, 2) == 0 && Octet(addr, 1) == 0 && Octet(addr, 0) == 0
  {
    SmallerLowOctets(addr);
    if addr % 0x1_0000 == 0 {
      var q := addr / 0x1_0000;
      DivModUnique(addr, 0x100 * q, 0, 0x100);
      DivModUnique(0x100 * q, q, 0, 0x100);
    }
    if addr % 0x100_0000 == 0 {
      var q := addr / 0x100_0000;
      DivModUnique(addr, 0x100 * q, 0, 0x1_0000);
      DivModUnique(0x100 * q, q, 0, 0x100);
    }
  }

  /** Reading a name gives back the address and, except for a zero mask, the mask. */
  lemma NameRoundTrip(addr: u32, mask: u32)
    ensures ReadNetName(NetName(addr, mask)) == Network(addr, EffectiveMask(addr, mask))
  {
    hide MaskSuffix, ReadSuffix, EffectiveMask, Octet, FromOctets, ScanFields, Dotted;
    var v := Quad(addr)[..Kept(addr)];
    SuffixRoundTrip(addr, mask);
    ScanDotted(v, MaskSuffix(addr, mask), 4);
    KeptOctets(addr);
    FromOctetsOf(addr);
  }

  /**
   Two names are equal exactly when the addresses are equal and the masks are equal or are
   the two that mean "the mask of the class".
   */
  lemma NamesEqual(addr: u32, mask: u32, addr': u32, mask': u32)
    ensures NetName(addr, mask) == NetName(addr', mask')
       <==> addr == addr' && (mask == mask' || {mask, mask'} == {0, ForgeMask(addr)})
  {
    hide NetName, ReadNetName, ForgeMask;
    NameRoundTrip(addr, mask);
    NameRoundTrip(addr', mask');
    ForgedIsNotZero(addr);
    if addr == addr' && {mask, mask'} == {0, ForgeMask(addr)} {
      assert 0 in {mask, mask'} && ForgeMask(addr) in {mask, mask'};
      ZeroMaskName(addr);
    }
    if addr == addr' && mask == 0 && mask' == ForgeMask(addr) {
      assert {mask, mask'} == {0, ForgeMask(addr)};
    }
    if addr == addr' && mask' == 0 && mask == ForgeMask(addr) {
      assert {mask, mask'} == {0, ForgeMask(addr)};
    }
  }

  lemma ForgedIsNotZero(addr: u32)
    ensures ForgeMask(addr) != 0
  {
  }

  lemma ZeroMaskName(addr: u32)
    ensures NetName(addr, 0) == NetName(addr, ForgeMask(addr))
  {
    hide KeptText, ForgeMask;
  }

  /** A reader for the names of accepted subnets: the address 0 stands for the default. */
  function ReadSubnet(s: string): Network {
    match ReadNetName(s)
    case Network(addr, mask) => if addr == 0 then Network(0, 0) else Network(addr, mask)
    case NoNetwork => NoNetwork
  }

  /** Every accepted subnet is determined by its name. */
  lemma SubnetRoundTrip(order: Endian, nsubnet: u32, nmask: u32)
    ensures var (subnet, mask) := (Ntohl(order, nsubnet), Ntohl(order, nmask));
            ValidSubnet(order, nsubnet, nmask) ==> ReadSubnet(NetName(subnet, mask)) == Network(subnet, mask)
  {
    hide NetName, ReadNetName, ForgeMask, ValidSubnet, Ntohl, Octet;
    var subnet, mask := Ntohl(order, nsubnet), Ntohl(order, nmask);
    NameRoundTrip(subnet, mask);
    ZeroMaskIsDefault(order, nsubnet, nmask);
  }

  /** Two accepted subnets with the same name are the same. */
  lemma SubnetNamesInjective(order: Endian, ns: u32, nm: u32, ns': u32, nm': u32)
    ensures ValidSubnet(order, ns, nm) && ValidSubnet(order, ns', nm')
      && NetName(Ntohl(order, ns), Ntohl(order, nm)) == NetName(Ntohl(order, ns'), Ntohl(order, nm'))
      ==> ns == ns' && nm == nm'
  {
    hide NetName, ReadSubnet, ValidSubnet, Ntohl;
    SubnetRoundTrip(order, ns, nm);
    SubnetRoundTrip(order, ns', nm');
    NetworkOrder(order, ns);
    NetworkOrder(order, ns');
    NetworkOrder(order, nm);
    NetworkOrder(order, nm');
  }

  lemma NoSuffix(addr: u32, mask: u32)
    ensures MaskSuffix(addr, mask) == "" <==> mask == 0 || mask == ForgeMask(addr)
  {
    hide ForgeMask, ValidMask, PopCount, Print;
  }

  /**
   Giving a whole name to `inet_parse` yields the address, unless fewer than `n` octets are
   printed, or all four are and a mask part follows.
   */
  lemma ParseOfName(addr: u32, mask: u32, n: int)
    ensures Parsed(NetName(addr, mask), n)
         == if n <= Kept(addr) && (addr % 0x100 == 0 || mask == 0 || mask == ForgeMask(addr))
            then addr else 0xffff_ffff
  {
    hide MaskSuffix, Parsed, Octet, FromOctets, Dotted, ForgeMask;
    var v := Quad(addr)[..Kept(addr)];
    SuffixRoundTrip(addr, mask);
    NoSuffix(addr, mask);
    ParseDotted(v, MaskSuffix(addr, mask), n);
    KeptOctets(addr);
    FromOctetsOf(addr);
  }

  /** A name that cannot be read: 10.1.2.3 with the mask of a single host. */
  lemma UnreadableName()
    ensures Parsed(NetName(0x0a01_0203, 0xffff_ffff), 1) == 0xffff_ffff
  {
    hide *;
    HostRouteUnreadable(0x0a01_0203);
    assert 0x0a01_0203 % 0x100 != 0;
  }

  lemma HostRouteUnreadable(addr: u32)
    ensures addr % 0x100 != 0 ==> Parsed(NetName(addr, 0xffff_ffff), 1) == 0xffff_ffff
  {
    hide NetName, Parsed, ForgeMask;
    ParseOfName(addr, 0xffff_ffff, 1);
    ForgedIsNotFull(addr);
  }

  lemma ForgedIsNotFull(addr: u32)
    ensures ForgeMask(addr) != 0xffff_ffff
  {
  }
}
