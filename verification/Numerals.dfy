/**
 Unsigned numbers as text: what `%u`, `%d` and `%lx` print, and what `%u` reads.
 */
module Numerals {
  import opened Bits

  predicate IsDigit(c: char) { '0' <= c <= '9' }

  predicate IsHexDigit(c: char) { IsDigit(c) || 'a' <= c <= 'f' }

  function DigitChar(d: nat): char
    requires d < 16
  {
    if d < 10 then '0' + d as char else 'a' + (d - 10) as char
  }

  function DigitValue(c: char): nat
    requires IsHexDigit(c)
  {
    if IsDigit(c) then (c - '0') as int else (c - 'a') as int + 10
  }

  /** The digits of a number, most significant first and without leading zeros. */
  function Print(n: nat, base: nat): (s: string)
    requires 2 <= base <= 16
    ensures s != []
  {
    if n < base then [DigitChar(n)] else Print(n / base, base) + [DigitChar(n % base)]
  }

  /** A digit of the given base. */
  predicate InBase(c: char, base: nat) {
    IsHexDigit(c) && DigitValue(c) < base
  }

  predicate AllInBase(s: string, base: nat) {
    forall i :: 0 <= i < |s| ==> InBase(s[i], base)
  }

  /** The number that a string of digits denotes. */
  function Value(s: string, base: nat): nat
    requires AllInBase(s, base)
  {
    if s == [] then 0 else Value(s[..|s| - 1], base) * base + DigitValue(s[|s| - 1])
  }

  function Decimal(n: nat): string { Print(n, 10) }

  function Hex(n: nat): string { Print(n, 16) }

  // ---------- printing and reading back ----------

  lemma DigitRoundTrip(d: nat)
    requires d < 16
    ensures IsHexDigit(DigitChar(d)) && DigitValue(DigitChar(d)) == d
    ensures DigitChar(d) == '0' <==> d == 0
  {
  }

  lemma AppendDigit(s: string, d: nat, base: nat)
    requires d < base <= 16 && AllInBase(s, base)
    ensures AllInBase(s + [DigitChar(d)], base)
    ensures Value(s + [DigitChar(d)], base) == Value(s, base) * base + d
  {
    DigitRoundTrip(d);
    assert (s + [DigitChar(d)])[..|s|] == s;
  }

  lemma {:induction false} PrintRoundTrip(n: nat, base: nat)
    requires 2 <= base <= 16
    ensures AllInBase(Print(n, base), base)
    ensures Value(Print(n, base), base) == n
    ensures |Print(n, base)| > 1 ==> Print(n, base)[0] != '0'
    ensures n > 0 ==> Print(n, base)[0] != '0'
  {
    if n < base {
      DigitRoundTrip(n);
      AppendDigit([], n, base);
      assert [] + [DigitChar(n)] == Print(n, base);
    } else {
      QuotientShrinks(n, base);
      PrintRoundTrip(n / base, base);
      AppendDigit(Print(n / base, base), n % base, base);
    }
  }

  lemma QuotientShrinks(n: nat, base: nat)
    requires 2 <= base <= n
    ensures 0 < n / base < n
    ensures n / base * base + n % base == n
  {
  }

  /** A nonempty string of digits without a leading zero is what its value prints as. */
  lemma {:induction false} ReadRoundTrip(s: string, base: nat)
    requires 2 <= base <= 16 && s != [] && AllInBase(s, base)
    requires |s| > 1 ==> s[0] != '0'
    ensures Print(Value(s, base), base) == s
    ensures s[0] != '0' ==> Value(s, base) > 0
  {
    hide Print, DigitChar, DigitValue, Value;
    var front, c := s[..|s| - 1], s[|s| - 1];
    var d := DigitValue(c);
    DigitOfChar(c, base);
    ValueStep(s, base);
    assert front + [c] == s;
    if front == [] {
      PrintDigit(d, base);
    } else {
      ReadRoundTrip(front, base);
      PrintAppend(Value(front, base), d, base);
    }
  }

  lemma ValueStep(s: string, base: nat)
    requires base <= 16 && s != [] && AllInBase(s, base)
    ensures Value(s, base) == Value(s[..|s| - 1], base) * base + DigitValue(s[|s| - 1])
    ensures |s| == 1 ==> Value(s, base) == DigitValue(s[0])
  {
  }

  lemma PrintDigit(d: nat, base: nat)
    requires 2 <= base <= 16 && d < base
    ensures Print(d, base) == [DigitChar(d)]
  {
  }

  lemma DigitOfChar(c: char, base: nat)
    requires base <= 16 && InBase(c, base)
    ensures DigitChar(DigitValue(c)) == c
    ensures DigitValue(c) == 0 <==> c == '0'
  {
  }

  lemma PrintAppend(v: nat, d: nat, base: nat)
    requires 2 <= base <= 16 && 0 < v && d < base
    ensures Print(v * base + d, base) == Print(v, base) + [DigitChar(d)]
    ensures v * base + d > 0
  {
    MulAtLeast(v, base);
    DivModUnique(v * base + d, v, d, base);
  }

  lemma {:induction false} PrintLength(n: nat, base: nat, k: nat, bound: nat)
    requires 2 <= base <= 16 && k > 0 && bound == Power(base, k) && n < bound
    ensures |Print(n, base)| <= k
    decreases k
  {
    if n >= base {
      assert k > 1;
      var smaller := Power(base, k - 1);
      assert n / base < smaller by {
        if n / base >= smaller {
          MulMonotone(smaller, n / base, base);
        }
      }
      PrintLength(n / base, base, k - 1, smaller);
    }
  }

  function Power(base: nat, k: nat): nat {
    if k == 0 then 1 else base * Power(base, k - 1)
  }

  /** The digits by their codes: 48 to 57 for 0 to 9, and 97 to 102 for ten to fifteen. */
  lemma DigitCodes(c: char, d: nat, base: nat)
    requires d < 16 && base <= 16
    ensures DigitChar(d) as int == if d < 10 then 48 + d else 87 + d
    ensures IsDigit(c) <==> 48 <= c as int <= 57
    ensures InBase(c, base)
      <==> ((48 <= c as int <= 57 && c as int - 48 < base) || (97 <= c as int <= 102 && c as int - 87 < base))
    ensures InBase(c, base) ==> DigitValue(c) == if c as int <= 57 then c as int - 48 else c as int - 87
  {
  }

  /** What is printed: one digit for a number below the base; otherwise one digit more. */
  lemma PrintMeaning(n: nat, d: nat, base: nat)
    requires d < base && 2 <= base <= 16
    ensures |Print(d, base)| == 1 && Print(d, base)[0] as int == (if d < 10 then 48 + d else 87 + d)
    ensures n > 0 ==> Print(n * base + d, base) == Print(n, base) + Print(d, base)
  {
    hide Print;
    PrintDigit(d, base);
    if n > 0 {
      PrintAppend(n, d, base);
    }
  }

  /** What digits denote: one more digit multiplies by the base and adds the digit. */
  lemma ValueMeaning(s: string, c: char, base: nat)
    requires base <= 16 && AllInBase(s, base) && InBase(c, base)
    ensures Value([], base) == 0 && AllInBase(s + [c], base)
    ensures Value(s + [c], base)
         == Value(s, base) * base + (if c as int <= 57 then c as int - 48 else c as int - 87)
  {
    hide Value;
    ValueOfNothing(base);
    assert (s + [c])[..|s|] == s;
    ValueStep(s + [c], base);
  }

  lemma ValueOfNothing(base: nat)
    ensures Value([], base) == 0
  {
  }

  /** A number written in a base, without leading zeros. */
  ghost predicate IsNumeral(t: string, base: nat, n: nat)
    requires base <= 16
  {
    t != "" && AllInBase(t, base) && Value(t, base) == n && (|t| > 1 ==> t[0] != '0')
  }

  lemma NumeralIsPrint(t: string, base: nat, n: nat)
    requires 2 <= base <= 16
    ensures IsNumeral(t, base, n) <==> t == Print(n, base)
  {
    hide Print, Value;
    PrintRoundTrip(n, base);
    if IsNumeral(t, base, n) {
      ReadRoundTrip(t, base);
    }
  }

  // ---------- reading with %u ----------

  /** The number of decimal digits that a string starts with. */
  function DigitRun(s: string): (k: nat)
    ensures k <= |s| && AllInBase(s[..k], 10)
    ensures k < |s| ==> !IsDigit(s[k])
  {
    if s == [] || !IsDigit(s[0]) then 0 else
      var k := 1 + DigitRun(s[1..]);
      assert forall i :: 0 < i < k ==> s[..k][i] == s[1..][..k - 1][i - 1];
      k
  }

  lemma {:induction false} DigitRunOf(digits: string, rest: string)
    requires AllInBase(digits, 10)
    requires rest == [] || !IsDigit(rest[0])
    ensures DigitRun(digits + rest) == |digits|
  {
    if digits == [] {
      assert digits + rest == rest;
    } else {
      assert InBase(digits[0], 10);
      assert (digits + rest)[1..] == digits[1..] + rest;
      assert forall i :: 0 <= i < |digits[1..]| ==> digits[1..][i] == digits[i + 1];
      DigitRunOf(digits[1..], rest);
    }
  }

  predicate IsSpace(c: char) {
    c == ' ' || c == '\t' || c == '\n' || c == '\r' || c as int == 11 || c as int == 12
  }

  function SkipSpaces(s: string): string {
    if s != [] && IsSpace(s[0]) then SkipSpaces(s[1..]) else s
  }

  /** The blanks: space, and horizontal tab to carriage return. */
  lemma SpaceCodes(c: char)
    ensures IsSpace(c) <==> c as int == 32 || 9 <= c as int <= 13
  {
  }

  /** What one `%u` makes of the input: out of input, no number, or a number and what follows it. */
  datatype Conversion = OutOfInput | NoNumber | Number(value: u32, rest: string)

  /** The value stored for the digits `v`: the library computes in 64 bits and stores 32. */
  function Stored(negative: bool, v: nat): u32 {
    if v >= TWO_TO_32 * TWO_TO_32 then TWO_TO_32 - 1
    else (if negative then TWO_TO_32 * TWO_TO_32 - v else v) % TWO_TO_32
  }

  function ScanNumber(s: string): (c: Conversion)
    ensures c.Number? ==> |c.rest| < |s|
  {
    SkipSpacesLength(s);
    var t := SkipSpaces(s);
    if t == [] then OutOfInput else
      var u := if t[0] == '+' || t[0] == '-' then t[1..] else t;
      var k := DigitRun(u);
      if k == 0 then NoNumber else Number(Stored(t[0] == '-', Value(u[..k], 10)), u[k..])
  }

  lemma {:induction false} SkipSpacesLength(s: string)
    ensures |SkipSpaces(s)| <= |s|
  {
    if s != [] {
      SkipSpacesLength(s[1..]);
    }
  }

  /** Reading without leading spaces and without a sign. */
  lemma ScanUnsigned(s: string)
    requires s != [] && !IsSpace(s[0]) && s[0] != '+' && s[0] != '-'
    ensures var k := DigitRun(s);
            ScanNumber(s) == if k == 0 then NoNumber else Number(Stored(false, Value(s[..k], 10)), s[k..])
  {
    assert SkipSpaces(s) == s;
  }

  /** `%u` reads back what `%u` printed, as far as 32 bits can hold it. */
  lemma ScanPrinted(n: nat, rest: string)
    requires rest == [] || !IsDigit(rest[0])
    ensures ScanNumber(Decimal(n) + rest) == Number(Stored(false, n), rest)
    ensures n < TWO_TO_32 ==> Stored(false, n) == n
  {
    hide ScanNumber, Stored, Print;
    var s := Decimal(n);
    PrintRoundTrip(n, 10);
    assert InBase(s[0], 10);
    assert (s + rest)[0] == s[0];
    ScanUnsigned(s + rest);
    DigitRunOf(s, rest);
    assert (s + rest)[..|s|] == s && (s + rest)[|s|..] == rest;
    StoredSmall(n);
  }

  lemma StoredSmall(n: nat)
    ensures n < TWO_TO_32 ==> Stored(false, n) == n
  {
  }

  // ---------- what %u makes of every text ----------

  predicate Blank(s: string) {
    forall i :: 0 <= i < |s| ==> IsSpace(s[i])
  }

  predicate StartsWithDigit(s: string) {
    s != [] && IsDigit(s[0])
  }

  /** The parts of a text that `%u` looks at: blanks, a sign, digits, and what follows them. */
  predicate AreParts(blanks: string, sign: string, digits: string, rest: string) {
    && Blank(blanks) && (sign == "" || sign == "+" || sign == "-")
    && AllInBase(digits, 10) && !StartsWithDigit(rest)
    && (sign == "" && digits == "" && rest != "" ==> !IsSpace(rest[0]) && rest[0] != '+' && rest[0] != '-')
  }

  /**
   A number is read exactly when there are digits; a text of blanks is the end of the input,
   and anything else is no number.
   */
  lemma ScanMeaning(blanks: string, sign: string, digits: string, rest: string)
    requires AreParts(blanks, sign, digits, rest)
    ensures ScanNumber(blanks + sign + digits + rest) ==
      if digits != "" then Number(Stored(sign == "-", Value(digits, 10)), rest)
      else if sign == "" && rest == "" then OutOfInput
      else NoNumber
  {
    hide ScanNumber, Stored, Value;
    assert blanks + sign + digits + rest == blanks + (sign + digits + rest);
    ScanAfterBlanks(blanks, sign + digits + rest);
    ScanUnblanked(sign, digits, rest);
  }

  /** Blanks in front of a text make no difference. */
  lemma ScanAfterBlanks(blanks: string, t: string)
    requires Blank(blanks)
    ensures ScanNumber(blanks + t) == ScanNumber(t)
  {
    hide DigitRun, Value, Stored, SkipSpaces;
    SkipBlanks(blanks, t);
  }

  lemma {:induction false} SkipBlanks(blanks: string, t: string)
    requires Blank(blanks)
    ensures SkipSpaces(blanks + t) == SkipSpaces(t)
  {
    if blanks == "" {
      assert blanks + t == t;
    } else {
      assert (blanks + t)[1..] == blanks[1..] + t;
      SkipBlanks(blanks[1..], t);
    }
  }

  lemma ScanUnblanked(sign: string, digits: string, rest: string)
    requires AreParts("", sign, digits, rest)
    ensures ScanNumber(sign + digits + rest) ==
      if digits != "" then Number(Stored(sign == "-", Value(digits, 10)), rest)
      else if sign == "" && rest == "" then OutOfInput
      else NoNumber
  {
    hide ScanNumber, Stored, Value, DigitRun, AllInBase;
    var u := digits + rest;
    DigitsInFront(digits, rest);
    if sign != "" {
      assert sign + digits + rest == [sign[0]] + u;
      ScanSigned(sign[0], u);
    } else if u == "" {
      assert sign + digits + rest == "";
      ScanNothing();
    } else {
      assert sign + digits + rest == u;
      ScanUnsigned(u);
    }
  }

  lemma DigitsInFront(digits: string, rest: string)
    requires AllInBase(digits, 10) && !StartsWithDigit(rest)
    ensures var u := digits + rest;
            DigitRun(u) == |digits| && u[..|digits|] == digits && u[|digits|..] == rest
    ensures digits != "" ==> IsDigit((digits + rest)[0]) && !IsSpace((digits + rest)[0])
    ensures digits == "" ==> digits + rest == rest
  {
    DigitRunOf(digits, rest);
    assert digits != "" ==> InBase(digits[0], 10);
  }

  lemma ScanNothing()
    ensures ScanNumber("") == OutOfInput
  {
  }

  /** Reading with a sign in front. */
  lemma ScanSigned(sign: char, u: string)
    requires sign == '+' || sign == '-'
    ensures var k := DigitRun(u);
            ScanNumber([sign] + u)
            == if k == 0 then NoNumber else Number(Stored(sign == '-', Value(u[..k], 10)), u[k..])
  {
    hide Stored, Value, DigitRun;
    assert ([sign] + u)[1..] == u;
    assert SkipSpaces([sign] + u) == [sign] + u;
  }

  /** Every text has such parts. */
  lemma {:induction false} PartsOf(s: string) returns (blanks: string, sign: string, digits: string, rest: string)
    ensures s == blanks + sign + digits + rest && AreParts(blanks, sign, digits, rest)
  {
    if s != "" && IsSpace(s[0]) {
      var more: string;
      more, sign, digits, rest := PartsOf(s[1..]);
      blanks := [s[0]] + more;
      hide *;
      OneMoreBlank(s, more, sign, digits, rest);
    } else {
      blanks := "";
      sign, digits, rest := PartsWithoutBlanks(s);
      hide *;
      assert blanks + sign + digits + rest == sign + digits + rest;
    }
  }

  lemma PartsWithoutBlanks(s: string) returns (sign: string, digits: string, rest: string)
    requires s == "" || !IsSpace(s[0])
    ensures s == sign + digits + rest && AreParts("", sign, digits, rest)
  {
    sign := if s != "" && (s[0] == '+' || s[0] == '-') then [s[0]] else "";
    digits, rest := DigitsOf(s[|sign|..]);
    hide AllInBase, IsSpace, IsDigit;
    assert s == sign + s[|sign|..];
  }

  lemma OneMoreBlank(s: string, more: string, sign: string, digits: string, rest: string)
    requires s != "" && IsSpace(s[0])
    requires s[1..] == more + sign + digits + rest && AreParts(more, sign, digits, rest)
    ensures s == [s[0]] + more + sign + digits + rest && AreParts([s[0]] + more, sign, digits, rest)
  {
    hide AllInBase, IsSpace;
    assert s == [s[0]] + s[1..];
    var blanks := [s[0]] + more;
    assert forall i :: 0 < i < |blanks| ==> blanks[i] == more[i - 1];
  }

  lemma DigitsOf(u: string) returns (digits: string, rest: string)
    ensures u == digits + rest && AllInBase(digits, 10) && !StartsWithDigit(rest)
    ensures digits == "" ==> rest == u
  {
    hide DigitRun;
    digits, rest := u[..DigitRun(u)], u[DigitRun(u)..];
  }

  /** The value stored, with 64 bits computed and 32 of them kept. */
  lemma StoredMeaning(v: nat)
    ensures v < 0x1_0000_0000_0000_0000 ==>
      Stored(false, v) == v % 0x1_0000_0000 && (Stored(true, v) + v) % 0x1_0000_0000 == 0
    ensures v >= 0x1_0000_0000_0000_0000 ==> Stored(false, v) == 0xffff_ffff && Stored(true, v) == 0xffff_ffff
  {
    if v < 0x1_0000_0000_0000_0000 {
      var n := 0x1_0000_0000_0000_0000 - v;
      assert Stored(true, v) == n - n / 0x1_0000_0000 * 0x1_0000_0000;
      assert Stored(true, v) + v == (0x1_0000_0000 - n / 0x1_0000_0000) * 0x1_0000_0000;
    }
  }
}
