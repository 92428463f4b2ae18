/**
 Dotted-quad addresses: `inet_fmt` and `inet_parse`.

 The text functions work on host-order addresses; the methods convert from and to the network
 order in which the code keeps addresses.
 */
module Quads {
  import opened Bits
  import opened Bytes
  import opened Numerals
  import opened CStrings

  // ---------- text of an address ----------

  /** The octets of an address, most significant first. */
  function Quad(h: u32): seq<u32> {
    [Octet(h, 3), Octet(h, 2), Octet(h, 1), Octet(h, 0)]
  }

  /** Decimal numbers separated by dots. */
  function Dotted(v: seq<nat>): string
    requires v != []
  {
    if |v| == 1 then Decimal(v[0]) else Decimal(v[0]) + "." + Dotted(v[1..])
  }

  function DottedQuad(h: u32): string {
    Dotted(Quad(h))
  }

  // ---------- reading numbers separated by dots ----------

  /** Up to `k` numbers that the format "%u.%u. ..." reads, and the text it stops at. */
  function ScanFields(s: string, k: nat): (r: (seq<u32>, string))
    ensures |r.0| <= k
    decreases k
  {
    if k == 0 then ([], s) else
      match ScanNumber(s)
      case Number(v, rest) =>
        if k == 1 || rest == [] || rest[0] != '.' then ([v], rest)
        else var more := ScanFields(rest[1..], k - 1); ([v] + more.0, more.1)
      case _ => ([], s)
  }

  /** The value of `sscanf(s, "%u.%u.%u.%u%c", ...)`. */
  function Conversions(s: string): int {
    var (v, rest) := ScanFields(s, 4);
    if ScanNumber(s).OutOfInput? then -1
    else if |v| == 4 && rest != [] then 5
    else |v|
  }

  /** The numbers stored; a variable that is not converted keeps its initial 0. */
  function Converted(s: string): (v: seq<u32>)
    ensures |v| == 4
  {
    Padded(ScanFields(s, 4).0)
  }

  function Padded(v: seq<u32>): (p: seq<u32>)
    requires |v| <= 4
    ensures |p| == 4
  {
    v + seq(4 - |v|, i => 0)
  }

  predicate AreOctets(v: seq<u32>) {
    forall i :: 0 <= i < |v| ==> v[i] <= 255
  }

  predicate Accepted(s: string, n: int) {
    n <= Conversions(s) <= 4 && AreOctets(Converted(s))
  }

  function FromQuad(v: seq<u32>): u32
    requires |v| == 4 && AreOctets(v)
  {
    FromOctets(v[0], v[1], v[2], v[3])
  }

  /** The host-order address that a text denotes, or all ones. */
  function Parsed(s: string, n: int): u32 {
    if Accepted(s, n) then FromQuad(Converted(s)) else 0xffff_ffff
  }

  // ---------- the code ----------

  /** Writes the text of a network-order address into the caller's buffer. */
  method InetFmt(order: Endian, addr: u32, s: array<char>)
    requires |DottedQuad(Ntohl(order, addr))| < s.Length
    modifies s
    ensures Terminated(s[..]) && Str(s[..]) == DottedQuad(Ntohl(order, addr))
    ensures var text := DottedQuad(Ntohl(order, addr));
            && s[..|text|] == text && '\0' !in text && s[|text|] == '\0'
            && s[|text| + 1..] == old(s[|text| + 1..])
  {
    NetworkOrder(order, addr);
    ghost var h := Ntohl(order, addr);
    var text := Decimal(MemByte(order, addr, 0)) + "." + Decimal(MemByte(order, addr, 1)) + "."
              + Decimal(MemByte(order, addr, 2)) + "." + Decimal(MemByte(order, addr, 3));
    DottedOfFour(Octet(h, 3), Octet(h, 2), Octet(h, 1), Octet(h, 0));
    assert text == DottedQuad(h);
    Put(s, 0, text);
    DottedHasNoNul(Quad(h));
    NoZero(text);
    assert s[..][..|text|] == text;
    StrEnds(s[..], |text|);
  }

  /** Reads a text of at least `n` numbers into a network-order address. */
  method InetParse(order: Endian, s: string, n: int) returns (r: u32)
    ensures r == Ntohl(order, Parsed(s, n))
  {
    hide *;
    ParsedCases(s, n);
    var i, v := Conversions(s), Converted(s);
    var a0, a1, a2, a3 := v[0], v[1], v[2], v[3];
    if i < n || i > 4 || a0 > 255 || a1 > 255 || a2 > 255 || a3 > 255 {
      BroadcastSwapsToItself(order);
      return 0xffff_ffff;
    }
    var a := new byte[4](_ => 0);
    a[0] := a0;
    a[1] := a1;
    a[2] := a2;
    a[3] := a3;
    r := FromMemory(order, a[0], a[1], a[2], a[3]);
    MemoryInNetworkOrder(order, a0, a1, a2, a3);
  }

  lemma ParsedCases(s: string, n: int)
    ensures var (i, v) := (Conversions(s), Converted(s));
            Accepted(s, n) <==> n <= i <= 4 && v[0] <= 255 && v[1] <= 255 && v[2] <= 255 && v[3] <= 255
    ensures var (i, v) := (Conversions(s), Converted(s));
            Parsed(s, n) ==
              if i < n || i > 4 || v[0] > 255 || v[1] > 255 || v[2] > 255 || v[3] > 255 then 0xffff_ffff
              else FromOctets(v[0], v[1], v[2], v[3])
  {
    hide Conversions, Converted, FromOctets;
    var v := Converted(s);
    assert AreOctets(v) <==> v[0] <= 255 && v[1] <= 255 && v[2] <= 255 && v[3] <= 255;
  }

  lemma MemoryInNetworkOrder(order: Endian, a: byte, b: byte, c: byte, d: byte)
    ensures FromMemory(order, a, b, c, d) == Ntohl(order, FromOctets(a, b, c, d))
  {
    OctetsOf(a, b, c, d);
  }

  lemma BroadcastSwapsToItself(order: Endian)
    ensures Ntohl(order, 0xffff_ffff) == 0xffff_ffff
  {
  }

  // ---------- lemmas about the text ----------

  /** The text of an address: its four bytes in decimal, the most significant first, with dots. */
  lemma DottedQuadMeaning(a: byte, b: byte, c: byte, d: byte)
    ensures DottedQuad(0x100_0000 * a + 0x1_0000 * b + 0x100 * c + d)
         == Print(a, 10) + "." + Print(b, 10) + "." + Print(c, 10) + "." + Print(d, 10)
  {
    hide DottedQuad, Print;
    TextOfOctets(a, b, c, d);
  }

  lemma TextOfOctets(a: byte, b: byte, c: byte, d: byte)
    ensures DottedQuad(FromOctets(a, b, c, d))
         == Print(a, 10) + "." + Print(b, 10) + "." + Print(c, 10) + "." + Print(d, 10)
  {
    hide Octet, Dotted, Print, FromOctets;
    OctetsOf(a, b, c, d);
    DottedOfFour(a, b, c, d);
  }

  lemma DottedOfFour(a: u32, b: u32, c: u32, d: u32)
    ensures Dotted([a, b, c, d])
         == Decimal(a) + "." + Decimal(b) + "." + Decimal(c) + "." + Decimal(d)
  {
    assert [a, b, c, d][1..] == [b, c, d];
    DottedOfThree(b, c, d);
    var bcd := Decimal(b) + "." + Decimal(c) + "." + Decimal(d);
    assert Decimal(a) + "." + bcd == Decimal(a) + "." + Decimal(b) + "." + Decimal(c) + "." + Decimal(d);
  }

  lemma {:induction false} DottedHasNoNul(v: seq<nat>)
    requires v != []
    ensures NoNul(Dotted(v))
  {
    DecimalHasNoNul(v[0]);
    if |v| > 1 {
      DottedHasNoNul(v[1..]);
    }
  }

  lemma DecimalHasNoNul(n: nat)
    ensures NoNul(Decimal(n))
  {
    PrintRoundTrip(n, 10);
    assert forall i :: 0 <= i < |Decimal(n)| ==> InBase(Decimal(n)[i], 10);
  }

  /** An octet needs at most three digits, so every address fits the 19-character buffers. */
  lemma {:induction false} DottedLength(v: seq<u32>)
    requires v != [] && AreOctets(v)
    ensures |Dotted(v)| <= 4 * |v| - 1
  {
    assert Power(10, 3) == 1000;
    PrintLength(v[0], 10, 3, 1000);
    if |v| > 1 {
      DottedLength(v[1..]);
    }
  }

  lemma FormatFitsBuffer(h: u32)
    ensures |DottedQuad(h)| <= 15 < 19
  {
    DottedLength(Quad(h));
  }

  lemma DottedOfThree(a: nat, b: nat, c: nat)
    ensures Dotted([a, b, c]) == Decimal(a) + "." + Decimal(b) + "." + Decimal(c)
  {
    hide Decimal;
    assert [a, b, c][1..] == [b, c] && [b, c][1..] == [c];
    assert Dotted([b, c]) == Decimal(b) + "." + Decimal(c);
    assert Decimal(a) + "." + (Decimal(b) + "." + Decimal(c)) == Decimal(a) + "." + Decimal(b) + "." + Decimal(c);
  }

  // ---------- reading back what was printed ----------

  /** The text at which a list of numbers ends. */
  predicate EndsList(rest: string) {
    rest == [] || (!IsDigit(rest[0]) && rest[0] != '.')
  }

  lemma ScanFieldsStep(s: string, k: nat, v: u32, rest: string)
    requires k > 0 && ScanNumber(s) == Number(v, rest)
    ensures ScanFields(s, k) == if k == 1 || rest == [] || rest[0] != '.' then ([v], rest)
      else ([v] + ScanFields(rest[1..], k - 1).0, ScanFields(rest[1..], k - 1).1)
  {
  }

  lemma {:induction false} ScanDotted(v: seq<u32>, rest: string, k: nat)
    requires 0 < |v| <= k && EndsList(rest)
    ensures ScanFields(Dotted(v) + rest, k) == (v, rest)
    ensures ScanNumber(Dotted(v) + rest).Number?
  {
    hide ScanNumber, ScanFields, Decimal;
    if |v| == 1 {
      ScanPrinted(v[0], rest);
      ScanFieldsStep(Decimal(v[0]) + rest, k, v[0], rest);
      assert [v[0]] == v;
    } else {
      var tail, more := "." + Dotted(v[1..]) + rest, Dotted(v[1..]) + rest;
      assert Dotted(v) + rest == Decimal(v[0]) + tail;
      ScanPrinted(v[0], tail);
      ScanFieldsStep(Decimal(v[0]) + tail, k, v[0], tail);
      assert tail[1..] == more;
      ScanDotted(v[1..], rest, k - 1);
      assert [v[0]] + v[1..] == v;
    }
  }

  /** A list of one to four octets, followed by a text that ends it. */
  lemma ParseDotted(v: seq<u32>, rest: string, n: int)
    requires 0 < |v| <= 4 && AreOctets(v) && EndsList(rest)
    ensures Conversions(Dotted(v) + rest) == if |v| == 4 && rest != [] then 5 else |v|
    ensures Parsed(Dotted(v) + rest, n)
         == if n <= |v| && (|v| == 4 ==> rest == []) then FromQuad(Padded(v)) else 0xffff_ffff
  {
    ScanDotted(v, rest, 4);
  }

  /** `inet_parse` undoes `inet_fmt`, for every address and every `n` up to four. */
  lemma FormatParseRoundTrip(h: u32, n: int)
    requires n <= 4
    ensures Parsed(DottedQuad(h), n) == h
  {
    assert DottedQuad(h) + [] == DottedQuad(h);
    ParseDotted(Quad(h), [], n);
    assert Padded(Quad(h)) == Quad(h);
    FromOctetsOf(h);
  }

  lemma FormatInjective(h: u32, h': u32)
    ensures DottedQuad(h) == DottedQuad(h') <==> h == h'
  {
    FormatParseRoundTrip(h, 4);
    FormatParseRoundTrip(h', 4);
  }

  // ---------- what is made of every text ----------

  /** A text that one `%u` reads as `v`: blanks, a sign or none, and digits. */
  ghost predicate IsNumberText(t: string, v: u32) {
    exists blanks, sign, digits ::
      AreParts(blanks, sign, digits, "") && digits != "" && t == blanks + sign + digits
      && v == Stored(sign == "-", Value(digits, 10))
  }

  function Joined(ts: seq<string>): string
    requires ts != []
  {
    if |ts| == 1 then ts[0] else ts[0] + "." + Joined(ts[1..])
  }

  /** `ts` are the first numbers of a text, at most `k`, and `rest` is what follows them. */
  ghost predicate AreNumbers(ts: seq<string>, v: seq<u32>, rest: string, k: nat) {
    && |ts| == |v| <= k
    && (forall i :: 0 <= i < |ts| ==> IsNumberText(ts[i], v[i]))
    && !StartsWithDigit(rest)
    && (|ts| < k && rest != "" && rest[0] == '.' ==> !ScanNumber(rest[1..]).Number?)
  }

  lemma ScanText(t: string, v: u32, rest: string)
    requires IsNumberText(t, v) && !StartsWithDigit(rest)
    ensures ScanNumber(t + rest) == Number(v, rest)
  {
    hide ScanNumber, Stored, Value;
    var blanks, sign, digits :|
      AreParts(blanks, sign, digits, "") && digits != "" && t == blanks + sign + digits
      && v == Stored(sign == "-", Value(digits, 10));
    ScanMeaning(blanks, sign, digits, rest);
  }

  lemma {:induction false} FieldsMeaning(ts: seq<string>, v: seq<u32>, rest: string, k: nat)
    requires ts != [] && AreNumbers(ts, v, rest, k)
    ensures ScanFields(Joined(ts) + rest, k).0 == v
    ensures |v| == k ==> ScanFields(Joined(ts) + rest, k).1 == rest
    ensures ScanNumber(Joined(ts) + rest).Number?
  {
    hide ScanNumber, ScanFields, IsNumberText;
    if |ts| == 1 {
      ScanText(ts[0], v[0], rest);
      ScanFieldsStep(Joined(ts) + rest, k, v[0], rest);
      assert [v[0]] == v;
      if k > 1 && rest != "" && rest[0] == '.' {
        NoMoreFields(rest[1..], k - 1);
      }
    } else {
      var more := Joined(ts[1..]) + rest;
      assert Joined(ts) + rest == ts[0] + ("." + more);
      ScanText(ts[0], v[0], "." + more);
      ScanFieldsStep(Joined(ts) + rest, k, v[0], "." + more);
      assert ("." + more)[1..] == more;
      assert forall i :: 0 <= i < |ts[1..]| ==> ts[1..][i] == ts[i + 1] && v[1..][i] == v[i + 1];
      FieldsMeaning(ts[1..], v[1..], rest, k - 1);
      assert [v[0]] + v[1..] == v;
    }
  }

  lemma NoMoreFields(s: string, k: nat)
    requires !ScanNumber(s).Number?
    ensures ScanFields(s, k) == ([], s)
  {
  }

  /**
   A text that starts with one to four numbers, separated by dots: it is an address when there
   are at least `n` numbers, all of them octets, and nothing follows a fourth one.
   */
  lemma ParseMeaning(ts: seq<string>, v: seq<u32>, rest: string, n: int)
    requires ts != [] && AreNumbers(ts, v, rest, 4)
    ensures Conversions(Joined(ts) + rest) == if |v| == 4 && rest != "" then 5 else |v|
    ensures Parsed(Joined(ts) + rest, n) ==
      var p := v + [0, 0, 0];
      if n <= |v| && (|v| == 4 ==> rest == "") && (forall i :: 0 <= i < |v| ==> v[i] <= 255)
      then 0x100_0000 * p[0] + 0x1_0000 * p[1] + 0x100 * p[2] + p[3] else 0xffff_ffff
  {
    hide ScanNumber, ScanFields, IsNumberText;
    FieldsMeaning(ts, v, rest, 4);
  }

  /** A text that does not start with a number: an error when any number is asked for. */
  lemma ParseNothing(blanks: string, sign: string, rest: string, n: int)
    requires AreParts(blanks, sign, "", rest)
    ensures Conversions(blanks + sign + rest) == if sign == "" && rest == "" then -1 else 0
    ensures Parsed(blanks + sign + rest, n) == if n <= Conversions(blanks + sign + rest) then 0 else 0xffff_ffff
  {
    hide ScanNumber;
    assert blanks + sign + "" + rest == blanks + sign + rest;
    ScanMeaning(blanks, sign, "", rest);
  }

  /** Every text is one of these. */
  lemma {:induction false} NumbersOf(s: string, k: nat) returns (ts: seq<string>, v: seq<u32>, rest: string)
    requires k > 0
    ensures AreNumbers(ts, v, rest, k) || (ts == [] && !ScanNumber(s).Number?)
    ensures ts == [] <==> !ScanNumber(s).Number?
    ensures ts != [] ==> s == Joined(ts) + rest
    decreases k
  {
    hide ScanNumber, Stored, Value, AreNumbers, IsNumberText;
    var blanks, sign, digits, tail := PartsOf(s);
    ScanMeaning(blanks, sign, digits, tail);
    if digits == "" {
      ts, v, rest := [], [], s;
    } else {
      var t, x := blanks + sign + digits, Stored(sign == "-", Value(digits, 10));
      ThatNumber(blanks, sign, digits);
      ts, v, rest := [t], [x], tail;
      if k > 1 && tail != "" && tail[0] == '.' {
        var us, w, end := NumbersOf(tail[1..], k - 1);
        if us == [] {
          OneNumber(t, x, tail, k);
        } else {
          ts, v, rest := [t] + us, [x] + w, end;
          NumberInFront(t, x, us, w, end, k);
          assert tail == "." + tail[1..];
        }
      } else {
        OneNumber(t, x, tail, k);
      }
    }
  }

  lemma ThatNumber(blanks: string, sign: string, digits: string)
    requires AreParts(blanks, sign, digits, "") && digits != ""
    ensures IsNumberText(blanks + sign + digits, Stored(sign == "-", Value(digits, 10)))
  {
    hide Stored, Value, AllInBase;
  }

  lemma OneNumber(t: string, x: u32, rest: string, k: nat)
    requires IsNumberText(t, x) && !StartsWithDigit(rest) && k > 0
    requires k > 1 && rest != "" && rest[0] == '.' ==> !ScanNumber(rest[1..]).Number?
    ensures AreNumbers([t], [x], rest, k)
  {
    hide IsNumberText, ScanNumber;
  }

  lemma NumberInFront(t: string, x: u32, us: seq<string>, w: seq<u32>, rest: string, k: nat)
    requires IsNumberText(t, x) && us != [] && k > 1 && AreNumbers(us, w, rest, k - 1)
    ensures AreNumbers([t] + us, [x] + w, rest, k)
    ensures t + ("." + (Joined(us) + rest)) == Joined([t] + us) + rest
  {
    hide IsNumberText, ScanNumber;
    assert ([t] + us)[1..] == us;
  }

  /** Blanks in front of a text make no difference. */
  lemma LeadingBlanks(blanks: string, s: string, n: int)
    requires Blank(blanks)
    ensures Parsed(blanks + s, n) == Parsed(s, n) && Conversions(blanks + s) == Conversions(s)
  {
    hide ScanNumber, FromOctets;
    ScanAfterBlanks(blanks, s);
    SameFields(blanks + s, s);
  }

  /** What is read depends on the first conversion only, when there is one. */
  lemma SameFields(s: string, s': string)
    requires ScanNumber(s) == ScanNumber(s')
    ensures ScanFields(s, 4).0 == ScanFields(s', 4).0
    ensures ScanNumber(s).Number? ==> ScanFields(s, 4) == ScanFields(s', 4)
  {
    hide ScanNumber;
  }

  /** A text whose first character after blanks starts no number is an error, and so is a blank text. */
  lemma NoNumberIsAnError(blanks: string, rest: string, n: int)
    requires Blank(blanks) && n >= 1
    requires rest == "" || !(IsSpace(rest[0]) || IsDigit(rest[0]) || rest[0] == '+' || rest[0] == '-')
    ensures Parsed(blanks + rest, n) == 0xffff_ffff
  {
    hide Parsed, Conversions;
    assert blanks + "" + rest == blanks + rest;
    ParseNothing(blanks, "", rest, n);
  }

  /** A plus in front of a printed number makes no difference; a minus in front of 1 to 255 is an error. */
  lemma SignedNumber(a: u32, rest: string, n: int)
    requires !StartsWithDigit(rest)
    ensures Parsed("+" + Decimal(a) + rest, n) == Parsed(Decimal(a) + rest, n)
    ensures 1 <= a <= 255 ==> Parsed("-" + Decimal(a) + rest, n) == 0xffff_ffff
  {
    hide ScanNumber, FromOctets, Stored, Value, Print;
    var digits := Decimal(a);
    PrintRoundTrip(a, 10);
    ScanPrinted(a, rest);
    ScanMeaning("", "+", digits, rest);
    ScanMeaning("", "-", digits, rest);
    assert "" + "+" + digits + rest == "+" + digits + rest;
    assert "" + "-" + digits + rest == "-" + digits + rest;
    SameFields("+" + digits + rest, digits + rest);
    if 1 <= a <= 255 {
      StoredMeaning(a);
      FirstOctetTooLarge("-" + digits + rest, n);
    }
  }

  lemma FirstOctetTooLarge(s: string, n: int)
    requires ScanNumber(s).Number? && ScanNumber(s).value > 255
    ensures Parsed(s, n) == 0xffff_ffff
  {
    hide ScanNumber;
    assert Converted(s)[0] > 255;
  }

  // ---------- printing back what was read ----------

  /** Only digits and dots, and no zero at the start of a longer number. */
  predicate Plain(s: string) {
    && (forall i :: 0 <= i < |s| ==> IsDigit(s[i]) || s[i] == '.')
    && (forall i :: 0 <= i < |s| - 1 && s[i] == '0' && IsDigit(s[i + 1]) ==> i > 0 && IsDigit(s[i - 1]))
  }

  /** The first number of a plain text, and the text after it. */
  lemma PlainNumber(s: string)
    requires Plain(s) && ScanNumber(s).Number?
    ensures var k := DigitRun(s);
            0 < k <= |s|
            && ScanNumber(s) == Number(Stored(false, Value(s[..k], 10)), s[k..])
            && Print(Value(s[..k], 10), 10) == s[..k]
  {
    hide ScanNumber, Stored, Print, Value, DigitRun;
    var k := DigitRun(s);
    EmptyHasNoNumber();
    var c := s[0];
    assert IsDigit(c) || c == '.';
    ScanUnsigned(s);
    if k > 1 {
      assert InBase(s[..k][1], 10) && IsDigit(s[1]);
    }
    ReadRoundTrip(s[..k], 10);
  }

  lemma EmptyHasNoNumber()
    ensures !ScanNumber([]).Number?
  {
  }

  lemma PlainSuffix(s: string, k: nat)
    requires Plain(s) && k < |s| && s[k] == '.'
    ensures Plain(s[k + 1..])
  {
    var t := s[k + 1..];
    forall i | 0 <= i < |t| - 1 && t[i] == '0' && IsDigit(t[i + 1])
      ensures i > 0 && IsDigit(t[i - 1])
    {
      assert s[k + 1 + i] == '0' && IsDigit(s[k + 1 + i + 1]);
      assert IsDigit(s[k + i]);
    }
  }

  lemma {:induction false} FieldsNeedRoom(s: string, k: nat)
    requires k > 0 && |ScanFields(s, k).0| == k
    ensures |s| >= 2 * k - 1
    decreases k
  {
    if k > 1 {
      FieldsNeedRoom(ScanNumber(s).rest[1..], k - 1);
    }
  }

  /** Nine digits cannot reach 2^32. */
  lemma {:induction false} ShortNumber(s: string)
    requires AllInBase(s, 10)
    ensures Value(s, 10) < Power(10, |s|)
  {
    if s != [] {
      ShortNumber(s[..|s| - 1]);
    }
  }

  lemma {:induction false} PowerMonotone(j: nat, k: nat)
    requires j <= k
    ensures Power(10, j) <= Power(10, k)
  {
    if j < k {
      PowerMonotone(j, k - 1);
    }
  }

  /** The first of `k` numbers in a text that is short enough to leave room for the others. */
  lemma PlainFirst(s: string, k: nat)
    requires Plain(s) && k > 0 && |s| <= 2 * k + 7
    requires |ScanFields(s, k).0| == k
    ensures var d := DigitRun(s);
            ScanNumber(s).Number? && ScanNumber(s).rest == s[d..] && Decimal(ScanNumber(s).value) == s[..d]
            && (k > 1 ==> d < |s| && s[d] == '.' && Plain(s[d + 1..]))
  {
    hide ScanNumber, DigitRun, Plain;
    var d := DigitRun(s);
    PlainNumber(s);
    if k > 1 {
      assert s[d..] != [] && s[d..][0] == '.';
      FieldsNeedRoom(s[d..][1..], k - 1);
      PlainSuffix(s, d);
    }
    NineDigits(s[..d]);
  }

  lemma NineDigits(s: string)
    requires AllInBase(s, 10) && |s| <= 9
    ensures Stored(false, Value(s, 10)) == Value(s, 10)
  {
    ShortNumber(s);
    PowerMonotone(|s|, 9);
    assert Power(10, 9) == 1_000_000_000;
  }

  lemma {:induction false} PlainFields(s: string, k: nat)
    requires Plain(s) && k > 0 && |s| <= 2 * k + 7
    requires |ScanFields(s, k).0| == k && ScanFields(s, k).1 == []
    ensures Dotted(ScanFields(s, k).0) == s
    decreases k
  {
    PlainFirst(s, k);
    hide Plain, ScanNumber, Decimal, DigitRun, ScanFields, Dotted;
    var d, v := DigitRun(s), ScanNumber(s).value;
    ScanFieldsStep(s, k, v, s[d..]);
    if k == 1 {
      assert s[..d] == s;
      DottedCons(v, []);
    } else {
      var t := s[d + 1..];
      AroundDot(s, d);
      PlainFields(t, k - 1);
      DottedCons(v, ScanFields(t, k - 1).0);
    }
  }

  lemma AroundDot(s: string, d: nat)
    requires d < |s| && s[d] == '.'
    ensures s == s[..d] + "." + s[d + 1..] && s[d..][1..] == s[d + 1..]
  {
  }

  lemma DottedCons(n: nat, v: seq<nat>)
    ensures Dotted([n] + v) == if v == [] then Decimal(n) else Decimal(n) + "." + Dotted(v)
  {
    assert ([n] + v)[1..] == v;
  }

  /**
   A plain text of four numbers that is accepted is what its address prints as, exactly when
   it has at most 15 characters: in longer texts some number has wrapped around 2^32.
   */
  lemma ParseFormatRoundTrip(s: string)
    ensures Plain(s) && Accepted(s, 4) ==> (DottedQuad(Parsed(s, 4)) == s <==> |s| <= 15)
  {
    hide Plain, ScanNumber, ScanFields, Dotted, Octet, FromOctets;
    if Plain(s) && Accepted(s, 4) {
      if |s| <= 15 {
        PlainFields(s, 4);
        var v := Converted(s);
        assert v == ScanFields(s, 4).0;
        OctetsOf(v[0], v[1], v[2], v[3]);
        assert Quad(FromQuad(v)) == v;
      } else {
        FormatFitsBuffer(Parsed(s, 4));
      }
    }
  }

  lemma PlainJoin(a: string, b: string)
    requires a != [] && AllInBase(a, 10) && (|a| > 1 ==> a[0] != '0') && Plain(b)
    ensures Plain(a + "." + b) && Plain(a)
  {
    var s := a + "." + b;
    assert forall i :: 0 <= i < |a| ==> s[i] == a[i] && InBase(a[i], 10);
    assert forall i :: |a| < i < |s| ==> s[i] == b[i - |a| - 1];
    forall i | 0 <= i < |s| - 1 && s[i] == '0' && IsDigit(s[i + 1])
      ensures i > 0 && IsDigit(s[i - 1])
    {
      if i > |a| {
        assert b[i - |a| - 1] == '0' && IsDigit(b[i - |a|]);
      }
    }
  }

  /** Everything printed is plain. */
  lemma {:induction false} PlainDotted(v: seq<nat>)
    requires v != []
    ensures Plain(Dotted(v))
  {
    hide Plain, Print;
    PrintRoundTrip(v[0], 10);
    if |v| == 1 {
      PlainEmpty();
      PlainJoin(Decimal(v[0]), []);
    } else {
      PlainDotted(v[1..]);
      PlainJoin(Decimal(v[0]), Dotted(v[1..]));
    }
  }

  lemma PlainEmpty()
    ensures Plain([])
  {
  }

  /** The text of an address with 2^32 added to its first octet. */
  function WrappedText(h: u32): string {
    Dotted([TWO_TO_32 + Octet(h, 3), Octet(h, 2), Octet(h, 1), Octet(h, 0)])
  }

  /**
   The longer texts exist: every address has a second plain text that is read as the same
   address, because its first number wraps around.
   */
  lemma WrappedTextIsAccepted(h: u32)
    ensures Plain(WrappedText(h)) && WrappedText(h) != DottedQuad(h)
    ensures Accepted(WrappedText(h), 4) && Parsed(WrappedText(h), 4) == h
  {
    hide *;
    WrappedTextIsPlain(h);
    WrappedFields(h);
    FourFields(WrappedText(h), Octet(h, 3), Octet(h, 2), Octet(h, 1), Octet(h, 0));
    ParsedCases(WrappedText(h), 4);
    FromOctetsOf(h);
  }

  lemma WrappedTextIsPlain(h: u32)
    ensures Plain(WrappedText(h)) && WrappedText(h) != DottedQuad(h)
  {
    hide Plain, Dotted, Octet, Value;
    PlainDotted([TWO_TO_32 + Octet(h, 3), Octet(h, 2), Octet(h, 1), Octet(h, 0)]);
    FirstNumber([TWO_TO_32 + Octet(h, 3), Octet(h, 2), Octet(h, 1), Octet(h, 0)]);
    FirstNumber(Quad(h));
  }

  lemma FourFields(s: string, a: u32, b: u32, c: u32, d: u32)
    requires ScanFields(s, 4) == ([a, b, c, d], []) && ScanNumber(s).Number?
    ensures Conversions(s) == 4 && Converted(s) == [a, b, c, d]
  {
    hide ScanFields, ScanNumber;
  }

  lemma WrappedFields(h: u32)
    ensures ScanFields(WrappedText(h), 4) == ([Octet(h, 3), Octet(h, 2), Octet(h, 1), Octet(h, 0)], [])
    ensures ScanNumber(WrappedText(h)).Number?
  {
    hide ScanNumber, ScanFields, Decimal, Octet, Stored;
    var n, tail := TWO_TO_32 + Octet(h, 3), [Octet(h, 2), Octet(h, 1), Octet(h, 0)];
    var v := [n] + tail;
    assert v == [n, Octet(h, 2), Octet(h, 1), Octet(h, 0)] && v[1..] == tail;
    var rest := "." + Dotted(tail);
    assert Dotted(v) == Decimal(n) + rest && rest[1..] == Dotted(tail) + [];
    ScanPrinted(n, rest);
    StoredWrapped(Octet(h, 3));
    ScanFieldsStep(Dotted(v), 4, Octet(h, 3), rest);
    ScanDotted(tail, [], 3);
    assert [Octet(h, 3)] + tail == Quad(h);
  }

  /** The first number of a list can be read off its text. */
  lemma FirstNumber(v: seq<nat>)
    requires v != []
    ensures var s := Dotted(v); AllInBase(s[..DigitRun(s)], 10) && Value(s[..DigitRun(s)], 10) == v[0]
  {
    hide Print, DigitRun;
    var d := Decimal(v[0]);
    var rest := if |v| == 1 then [] else "." + Dotted(v[1..]);
    PrintRoundTrip(v[0], 10);
    assert Dotted(v) == d + rest;
    DigitRunOf(d, rest);
    assert (d + rest)[..|d|] == d;
  }

  lemma StoredWrapped(a: byte)
    ensures Stored(false, TWO_TO_32 + a) == a
  {
  }
}
