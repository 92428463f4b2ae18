/**
 Credible hosts, masks and subnets: `inet_valid_host`, `inet_valid_mask`, `inet_valid_subnet`.

 Arguments named `n...` are in network byte order, as in the code.  The class tests are the
 macros of <netinet/in.h> (classes A to C: section 3.2 of RFC 791; class D: section 4 of
 RFC 1112).
 */
module Address {
  import opened Bits
  import opened Bytes

  // ---------- classes ----------

  predicate InClassA(a: u32) { And(a, 0x8000_0000) == 0 }
  predicate InClassB(a: u32) { And(a, 0xc000_0000) == 0x8000_0000 }
  predicate InClassC(a: u32) { And(a, 0xe000_0000) == 0xc000_0000 }
  predicate InClassD(a: u32) { And(a, 0xf000_0000) == 0xe000_0000 }
  predicate InBadClass(a: u32) { And(a, 0xf000_0000) == 0xf000_0000 }

  // ---------- the code ----------

  predicate ValidHost(order: Endian, naddr: u32) {
    var addr := Ntohl(order, naddr);
    !(InClassD(addr) || InBadClass(addr) || And(addr, 0xff00_0000) == 0)
  }

  predicate ValidMask(mask: u32) {
    !(Not(Or32(Sub(And(mask, Sub(0, mask)), 1), mask)) != 0)
  }

  predicate ValidSubnet(order: Endian, nsubnet: u32, nmask: u32) {
    var subnet, mask := Ntohl(order, nsubnet), Ntohl(order, nmask);
    if And(subnet, mask) != subnet then false
    else if subnet == 0 then mask == 0
    else if InClassA(subnet) &&
            (mask < 0xff00_0000 || And(subnet, 0xff00_0000) == 0x7f00_0000 || And(subnet, 0xff00_0000) == 0)
    then false
    else if !InClassA(subnet) && (InClassD(subnet) || InBadClass(subnet)) then false
    else if And(subnet, Not(mask)) != 0 then false
    else ValidMask(mask)
  }

  // ---------- meaning of the tests ----------

  /** The mask whose first `n` bits are one. */
  function PrefixMask(n: nat): u32
    requires n <= 32
  {
    Pow2Constants();
    Pow2Monotone(32 - n, 32);
    TWO_TO_32 - Pow2(32 - n)
  }

  /** The number of addresses in a block with prefix length `n`. */
  function BlockSize(n: nat): (size: nat)
    requires n <= 32
    ensures 0 < size <= TWO_TO_32
  {
    Pow2Constants();
    Pow2Monotone(32 - n, 32);
    Pow2(32 - n)
  }

  lemma AndPrefixMask(x: u32, n: nat)
    requires n <= 32
    ensures And(x, PrefixMask(n)) == x - x % BlockSize(n)
  {
    hide And, Low, Pow2;
    Pow2At32();
    AndPrefix(x, 32, 32 - n);
    LowMeaning(x, 32 - n);
  }

  /** The class tests clear all but the first few bits. */
  lemma TopBits(a: u32)
    ensures And(a, 0x8000_0000) == a - a % 0x8000_0000
    ensures And(a, 0xc000_0000) == a - a % 0x4000_0000
    ensures And(a, 0xe000_0000) == a - a % 0x2000_0000
    ensures And(a, 0xf000_0000) == a - a % 0x1000_0000
    ensures And(a, 0xff00_0000) == a - a % 0x100_0000
  {
    Pow2Constants();
    AndPrefix(a, 32, 31);
    AndPrefix(a, 32, 30);
    AndPrefix(a, 32, 29);
    AndPrefix(a, 32, 28);
    AndPrefix(a, 32, 24);
  }

  lemma FirstOctet(a: u32)
    ensures a - a % 0x100_0000 == 0x100_0000 * Octet(a, 3)
    ensures a - a % 0x8000_0000 == 0 <==> Octet(a, 3) < 128
    ensures a - a % 0x4000_0000 == 0x8000_0000 <==> 128 <= Octet(a, 3) < 192
    ensures a - a % 0x2000_0000 == 0xc000_0000 <==> 192 <= Octet(a, 3) < 224
    ensures a - a % 0x1000_0000 == 0xe000_0000 <==> 224 <= Octet(a, 3) < 240
    ensures a - a % 0x1000_0000 == 0xf000_0000 <==> 240 <= Octet(a, 3)
  {
  }

  /** The class tests read the first octet. */
  lemma ClassByFirstOctet(a: u32)
    ensures InClassA(a) <==> Octet(a, 3) < 128
    ensures InClassB(a) <==> 128 <= Octet(a, 3) < 192
    ensures InClassC(a) <==> 192 <= Octet(a, 3) < 224
    ensures InClassD(a) <==> 224 <= Octet(a, 3) < 240
    ensures InBadClass(a) <==> 240 <= Octet(a, 3)
    ensures And(a, 0xff00_0000) == 0x100_0000 * Octet(a, 3)
  {
    TopBits(a);
    FirstOctet(a);
  }

  lemma ValidHostMeaning(order: Endian, naddr: u32)
    ensures ValidHost(order, naddr) <==> 1 <= Octet(Ntohl(order, naddr), 3) <= 223
  {
    ClassByFirstOctet(Ntohl(order, naddr));
  }

  /** The arithmetic test accepts the 33 prefix masks and nothing else. */
  lemma ValidMaskMeaning(mask: u32)
    ensures ValidMask(mask) <==> exists n: nat :: n <= 32 && mask == PrefixMask(n)
    ensures ValidMask(mask) && mask > 0 ==>
      TrailingZeros(mask) < 32 && mask == PrefixMask(32 - TrailingZeros(mask))
      && PopCount(mask) == 32 - TrailingZeros(mask)
  {
    hide ValidMask, PrefixMask, TrailingZeros, PopCount;
    if ValidMask(mask) && mask > 0 {
      NonzeroMask(mask);
    }
    ZeroMask();
    if n: nat :| n <= 32 && mask == PrefixMask(n) {
      PrefixMaskIsValid(n);
    }
  }

  lemma NonzeroMask(mask: u32)
    requires ValidMask(mask) && mask > 0
    ensures TrailingZeros(mask) < 32 && mask == PrefixMask(32 - TrailingZeros(mask))
    ensures PopCount(mask) == 32 - TrailingZeros(mask)
  {
    hide ValidMask, TrailingZeros, PopCount, Pow2;
    MaskTest(mask);
    BlockOfOnes(32, TrailingZeros(mask));
  }

  lemma PrefixMaskIsValid(n: nat)
    requires n <= 32
    ensures ValidMask(PrefixMask(n))
  {
    if n == 0 {
      ZeroMask();
    } else {
      Pow2Constants();
      BlockOfOnes(32, 32 - n);
      MaskTest(PrefixMask(n));
    }
  }

  lemma ZeroMask()
    ensures ValidMask(0) && PrefixMask(0) == 0
  {
    Pow2Constants();
    OrZero(0);
    assert Sub(0, 0) == 0 && Sub(And(0, 0), 1) == TWO_TO_32 - 1;
    assert Or32(TWO_TO_32 - 1, 0) == TWO_TO_32 - 1;
  }

  /** Filling in the zeros below the lowest one bit gives all ones only for a block of ones. */
  lemma MaskTest(mask: u32)
    requires mask > 0
    ensures Pow2(32) == TWO_TO_32 && TrailingZeros(mask) < 32
    ensures ValidMask(mask) <==> mask == TWO_TO_32 - Pow2(TrailingZeros(mask))
  {
    Pow2Constants();
    var p := Pow2(TrailingZeros(mask));
    TrailingZerosBound(mask, 32);
    assert Sub(0, mask) == TWO_TO_32 - mask;
    LowestBit(mask, 32);
    assert And(mask, Sub(0, mask)) == p;
    assert Sub(p, 1) == p - 1;
    FillBelow(mask);
    assert Or32(p - 1, mask) == p - 1 + mask;
  }

  lemma PrefixMaskInjective(n: nat, n': nat)
    requires n <= 32 && n' <= 32 && PrefixMask(n) == PrefixMask(n')
    ensures n == n'
  {
    if n < n' {
      Pow2Monotone(32 - n', 32 - n);
    } else if n' < n {
      Pow2Monotone(32 - n, 32 - n');
    }
  }

  /** Line 94 never fires: the test at line 79 has already excluded host bits. */
  lemma HostBitsTestIsRedundant(subnet: u32, mask: u32)
    ensures And(subnet, mask) == subnet <==> And(subnet, Not(mask)) == 0
  {
    Pow2Constants();
    AndSplit(subnet, mask, 32);
  }

  // ---------- which pairs are accepted ----------

  /** A CIDR prefix (section 3.1 of RFC 4632) in the range the daemon can handle. */
  ghost predicate CredibleBlock(subnet: u32, n: nat) {
    && n <= 32
    && subnet != 0
    && subnet % BlockSize(n) == 0
    && ((1 <= Octet(subnet, 3) <= 126 && n >= 8) || 128 <= Octet(subnet, 3) <= 223)
  }

  lemma MaskAtLeast(n: nat)
    requires n <= 32
    ensures PrefixMask(n) >= 0xff00_0000 <==> n >= 8
  {
    Pow2Constants();
    if n >= 8 {
      Pow2Monotone(32 - n, 24);
    } else {
      Pow2Monotone(24, 32 - n);
    }
  }

  lemma AcceptedBlocks(order: Endian, nsubnet: u32, nmask: u32)
    ensures var (subnet, mask) := (Ntohl(order, nsubnet), Ntohl(order, nmask));
            ValidSubnet(order, nsubnet, nmask) <==>
              (subnet == 0 && mask == 0)
              || exists n: nat :: CredibleBlock(subnet, n) && mask == PrefixMask(n)
  {
    var subnet, mask := Ntohl(order, nsubnet), Ntohl(order, nmask);
    hide And, Octet, Ntohl, ValidMask, InClassA, InClassD, InBadClass, PrefixMask, BlockSize;
    ClassByFirstOctet(subnet);
    HostBitsTestIsRedundant(subnet, mask);
    ValidMaskMeaning(mask);
    forall n: nat | n <= 32 && mask == PrefixMask(n)
      ensures And(subnet, mask) == subnet <==> subnet % BlockSize(n) == 0
      ensures mask >= 0xff00_0000 <==> n >= 8
    {
      AndPrefixMask(subnet, n);
      MaskAtLeast(n);
    }
    if ValidSubnet(order, nsubnet, nmask) && subnet != 0 {
      var n: nat :| n <= 32 && mask == PrefixMask(n);
      assert CredibleBlock(subnet, n);
    }
  }

  /**
   Accepted are the pair of zeros, and a nonzero subnet with a prefix of `n` bits whose other bits
   are zero: first octet 1 to 126 and `n` at least 8, or first octet 128 to 223 and any `n`.
   */
  lemma ValidSubnetMeaning(order: Endian, nsubnet: u32, nmask: u32)
    ensures var (subnet, mask) := (Ntohl(order, nsubnet), Ntohl(order, nmask));
            var o := subnet / 0x100_0000;
            ValidSubnet(order, nsubnet, nmask) <==>
              (subnet == 0 && mask == 0)
              || (subnet != 0
                  && exists n: nat :: n <= 32 && mask == PrefixMask(n) && subnet % BlockSize(n) == 0
                                   && ((1 <= o <= 126 && n >= 8) || 128 <= o <= 223))
  {
    hide ValidSubnet, Ntohl, PrefixMask, BlockSize;
    AcceptedBlocks(order, nsubnet, nmask);
  }

  /** An accepted mask is zero only for the default, whose address is zero, and conversely. */
  lemma ZeroMaskIsDefault(order: Endian, nsubnet: u32, nmask: u32)
    ensures ValidSubnet(order, nsubnet, nmask) ==> (Ntohl(order, nmask) == 0 <==> Ntohl(order, nsubnet) == 0)
  {
    hide And, Ntohl, ValidMask;
  }

  // ---------- blocks ----------

  /** The addresses that a subnet's mask test selects. */
  ghost predicate InBlock(x: u32, subnet: u32, mask: u32) {
    And(x, mask) == subnet
  }

  /** Every address of the first block is in the second. */
  ghost predicate Within(s: u32, m: u32, s': u32, m': u32) {
    forall x: u32 :: InBlock(x, s, m) ==> InBlock(x, s', m')
  }

  /** No address is in both blocks. */
  ghost predicate DisjointBlocks(s: u32, m: u32, s': u32, m': u32) {
    forall x: u32 :: !(InBlock(x, s, m) && InBlock(x, s', m'))
  }

  /** An accepted pair selects an interval of addresses that starts at the subnet. */
  lemma BlockIsInterval(x: u32, subnet: u32, n: nat)
    requires n <= 32 && subnet % BlockSize(n) == 0
    ensures InBlock(x, subnet, PrefixMask(n)) <==> subnet <= x < subnet + BlockSize(n)
  {
    AndPrefixMask(x, n);
    AlignedInterval(x, subnet, BlockSize(n));
  }

  lemma AlignedInterval(x: nat, s: nat, size: nat)
    requires size > 0 && s % size == 0
    ensures x - x % size == s <==> s <= x < s + size
  {
    if s <= x < s + size {
      var q := s / size;
      assert s == q * size;
      DivModUnique(x, q, x - s, size);
    }
  }

  /** Two aligned intervals whose sizes are powers of two never overlap in part. */
  lemma NestedOrDisjoint(s: u32, n: nat, s': u32, n': nat)
    requires n <= n' <= 32 && s % BlockSize(n) == 0 && s' % BlockSize(n') == 0
    ensures (s <= s' && s' + BlockSize(n') <= s + BlockSize(n))
         || s' + BlockSize(n') <= s || s + BlockSize(n) <= s'
  {
    Pow2Add(n' - n, 32 - n');
    AlignedNest(s, BlockSize(n), s', BlockSize(n'), Pow2(n' - n));
  }

  lemma AlignedNest(s: nat, a: nat, s': nat, b: nat, r: nat)
    requires a > 0 && b > 0 && a == r * b
    requires s % a == 0 && s' % b == 0
    ensures (s <= s' && s' + b <= s + a) || s' + b <= s || s + a <= s'
  {
    var i, j := s / a, s' / b;
    assert s == i * a && s' == j * b;
    Associate(i, r, b);
    Distribute(i * r, r, b);
    Distribute(j, 1, b);
    if j + 1 <= i * r { MulMonotone(j + 1, i * r, b); }
    if i * r + r <= j { MulMonotone(i * r + r, j, b); }
    if i * r <= j { MulMonotone(i * r, j, b); }
    if j + 1 <= i * r + r { MulMonotone(j + 1, i * r + r, b); }
  }

  lemma Associate(x: int, y: int, z: int)
    ensures x * (y * z) == (x * y) * z
  {
  }

  lemma Distribute(x: int, y: int, z: int)
    ensures x * z + y * z == (x + y) * z
  {
  }

  /** The blocks of any two accepted subnets are nested or disjoint. */
  lemma AcceptedBlocksNest(order: Endian, ns: u32, nm: u32, ns': u32, nm': u32)
    ensures ValidSubnet(order, ns, nm) && ValidSubnet(order, ns', nm') ==>
      var (s, m, s', m') := (Ntohl(order, ns), Ntohl(order, nm), Ntohl(order, ns'), Ntohl(order, nm'));
      Within(s, m, s', m') || Within(s', m', s, m) || DisjointBlocks(s, m, s', m')
  {
    hide ValidSubnet, Within, DisjointBlocks, Ntohl, PrefixMask, BlockSize, Octet;
    if ValidSubnet(order, ns, nm) && ValidSubnet(order, ns', nm') {
      var n := PrefixLength(order, ns, nm);
      var n' := PrefixLength(order, ns', nm');
      BlocksNest(Ntohl(order, ns), n, Ntohl(order, ns'), n');
    }
  }

  lemma BlocksNest(s: u32, n: nat, s': u32, n': nat)
    requires n <= 32 && s % BlockSize(n) == 0 && n' <= 32 && s' % BlockSize(n') == 0
    ensures var (m, m') := (PrefixMask(n), PrefixMask(n'));
      Within(s, m, s', m') || Within(s', m', s, m) || DisjointBlocks(s, m, s', m')
  {
    hide InBlock, PrefixMask, BlockSize;
    forall x: u32
      ensures InBlock(x, s, PrefixMask(n)) <==> s <= x < s + BlockSize(n)
      ensures InBlock(x, s', PrefixMask(n')) <==> s' <= x < s' + BlockSize(n')
    {
      BlockIsInterval(x, s, n);
      BlockIsInterval(x, s', n');
    }
    if n <= n' {
      NestedOrDisjoint(s, n, s', n');
    } else {
      NestedOrDisjoint(s', n', s, n);
    }
  }

  /** The prefix length of an accepted pair. */
  lemma PrefixLength(order: Endian, ns: u32, nm: u32) returns (n: nat)
    ensures n <= 32
    ensures ValidSubnet(order, ns, nm) ==>
      && Ntohl(order, nm) == PrefixMask(n) && Ntohl(order, ns) % BlockSize(n) == 0
      && (Ntohl(order, ns) == 0 ==> n == 0)
      && (Ntohl(order, ns) != 0 ==> CredibleBlock(Ntohl(order, ns), n))
  {
    hide ValidSubnet, Ntohl, Octet;
    AcceptedBlocks(order, ns, nm);
    n := 0;
    if ValidSubnet(order, ns, nm) {
      if Ntohl(order, ns) == 0 {
        ZeroMask();
      } else {
        n :| CredibleBlock(Ntohl(order, ns), n) && Ntohl(order, nm) == PrefixMask(n);
      }
    }
  }

  /**
   Every address of an accepted block other than the default passes the host test, except in
   128.0.0.0/1 and 192.0.0.0/2, which reach into the class D space and above.
   */
  lemma HostsOfAcceptedBlocks(order: Endian, ns: u32, nm: u32)
    ensures ValidSubnet(order, ns, nm) && Ntohl(order, ns) != 0 ==>
      ((forall x: u32 :: InBlock(Ntohl(order, x), Ntohl(order, ns), Ntohl(order, nm)) ==> ValidHost(order, x))
       <==> !((Ntohl(order, ns) == 0x8000_0000 && Ntohl(order, nm) == 0x8000_0000)
              || (Ntohl(order, ns) == 0xc000_0000 && Ntohl(order, nm) == 0xc000_0000)))
  {
    hide ValidHost, ValidSubnet, InBlock, Octet, Ntohl, PrefixMask, BlockSize;
    if ValidSubnet(order, ns, nm) && Ntohl(order, ns) != 0 {
      var n := PrefixLength(order, ns, nm);
      HostsOfBlock(order, Ntohl(order, ns), n);
    }
  }

  /** The two exceptional subnets are accepted. */
  lemma ExceptionalSubnetsAccepted(order: Endian)
    ensures var s := Ntohl(order, 0x8000_0000);
            ValidSubnet(order, s, s) && Ntohl(order, s) == 0x8000_0000
    ensures var s := Ntohl(order, 0xc000_0000);
            ValidSubnet(order, s, s) && Ntohl(order, s) == 0xc000_0000
  {
    hide ValidSubnet, Ntohl, BlockSize, PrefixMask;
    NetworkOrder(order, 0x8000_0000);
    NetworkOrder(order, 0xc000_0000);
    ExceptionalMasks(1);
    ExceptionalMasks(2);
    assert BlockSize(1) == 0x8000_0000 && BlockSize(2) == 0x4000_0000 by { ExceptionalSizes(); }
    assert CredibleBlock(0x8000_0000, 1) && CredibleBlock(0xc000_0000, 2);
    AcceptedBlocks(order, Ntohl(order, 0x8000_0000), Ntohl(order, 0x8000_0000));
    AcceptedBlocks(order, Ntohl(order, 0xc000_0000), Ntohl(order, 0xc000_0000));
  }

  lemma ExceptionalSizes()
    ensures BlockSize(1) == 0x8000_0000 && BlockSize(2) == 0x4000_0000
  {
    Pow2Constants();
  }

  lemma HostsOfBlock(order: Endian, s: u32, n: nat)
    requires CredibleBlock(s, n)
    ensures (forall x: u32 :: InBlock(Ntohl(order, x), s, PrefixMask(n)) ==> ValidHost(order, x))
       <==> !((s == 0x8000_0000 && PrefixMask(n) == 0x8000_0000)
              || (s == 0xc000_0000 && PrefixMask(n) == 0xc000_0000))
  {
    hide ValidHost, InBlock, Octet, Ntohl, PrefixMask, BlockSize;
    LastHost(s, n);
    ExceptionalMasks(n);
    if s + BlockSize(n) <= 0xe000_0000 {
      forall x: u32 | InBlock(Ntohl(order, x), s, PrefixMask(n))
        ensures ValidHost(order, x)
      {
        BlockIsInterval(Ntohl(order, x), s, n);
        HostRange(order, x);
      }
    } else {
      var x := Ntohl(order, 0xe000_0000);
      NetworkOrder(order, 0xe000_0000);
      BlockIsInterval(0xe000_0000, s, n);
      HostRange(order, x);
      assert InBlock(Ntohl(order, x), s, PrefixMask(n)) && !ValidHost(order, x);
    }
  }

  lemma HostRange(order: Endian, naddr: u32)
    ensures ValidHost(order, naddr) <==> 0x100_0000 <= Ntohl(order, naddr) < 0xe000_0000
  {
    ValidHostMeaning(order, naddr);
  }

  lemma ExceptionalMasks(n: nat)
    requires n <= 32
    ensures PrefixMask(n) == 0x8000_0000 <==> n == 1
    ensures PrefixMask(n) == 0xc000_0000 <==> n == 2
  {
    assert PrefixMask(1) == 0x8000_0000 && PrefixMask(2) == 0xc000_0000 by { Pow2Constants(); }
    hide PrefixMask;
    if PrefixMask(n) == PrefixMask(1) { PrefixMaskInjective(n, 1); }
    if PrefixMask(n) == PrefixMask(2) { PrefixMaskInjective(n, 2); }
  }

  /** Where a credible block ends. */
  lemma LastHost(s: u32, n: nat)
    requires CredibleBlock(s, n)
    ensures 0x100_0000 <= s < 0xe000_0000
    ensures s + BlockSize(n) > 0xe000_0000 <==> (s == 0x8000_0000 && n == 1) || (s == 0xc000_0000 && n == 2)
  {
    Pow2Constants();
    if n >= 3 {
      // 224.0.0.0 is a multiple of the block size, so no block contains it in its middle.
      NestedOrDisjoint(0xe000_0000, 3, s, n);
    } else {
      assert n == 0 || n == 1 || n == 2;
    }
  }
}
