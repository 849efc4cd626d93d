/** Decimal numbers as the C library and the database layer read and print them. */
module Numbers {

  const INT_MAX := 0x7fff_ffff
  const INT_MIN := -0x8000_0000

  predicate IsDigit(c: char) {
    '0' <= c <= '9'
  }

  predicate IsSpace(c: char) {
    c == ' ' || '\U{09}' <= c <= '\U{0d}'
  }

  /** The value of the leading digits after `n`. */
  function Leading(s: string, n: nat): nat
    decreases |s|
  {
    if s == [] || !IsDigit(s[0]) then n else Leading(s[1..], 10 * n + (s[0] - '0') as nat)
  }

  function SkipSpaces(s: string): string {
    if s != [] && IsSpace(s[0]) then SkipSpaces(s[1..]) else s
  }

  function Clamp(n: int): int {
    if n > INT_MAX then INT_MAX else if n < INT_MIN then INT_MIN else n
  }

  /** `atoi` where a long has 32 bits: blanks, a sign, digits; out-of-range numbers saturate. */
  function Atoi(s: string): int {
    var t := SkipSpaces(s);
    if t != [] && t[0] == '-' then Clamp(0 - Leading(t[1..], 0) as int)
    else if t != [] && t[0] == '+' then Clamp(Leading(t[1..], 0))
    else Clamp(Leading(t, 0))
  }

  // ----- digit strings

  predicate AllDigits(s: string) {
    forall i :: 0 <= i < |s| ==> IsDigit(s[i])
  }

  function Digit(c: char): (d: nat)
    requires IsDigit(c)
    ensures d < 10
  {
    (c - '0') as nat
  }

  function DigitChar(d: nat): (c: char)
    requires d < 10
    ensures IsDigit(c) && Digit(c) == d
  {
    '0' + d as char
  }

  /** The number a digit string denotes. */
  function Horner(s: string): nat
    requires AllDigits(s)
  {
    if s == [] then 0 else 10 * Horner(s[..|s| - 1]) + Digit(s[|s| - 1])
  }

  function Pow10(n: nat): (p: nat)
    ensures p > 0
  {
    if n == 0 then 1 else 10 * Pow10(n - 1)
  }

  function PrintNat(n: nat): (s: string)
    ensures s != []
  {
    if n < 10 then [DigitChar(n)] else PrintNat(n / 10) + [DigitChar(n % 10)]
  }

  function PrintInt(n: int): string {
    if n < 0 then "-" + PrintNat(-n) else PrintNat(n)
  }

  /** Printing and reading by Horner's rule are inverse. */
  lemma {:induction false} HornerOfPrint(n: nat)
    ensures AllDigits(PrintNat(n)) && Horner(PrintNat(n)) == n
  {
    if n < 10 {
      assert Horner([]) == 0;
      assert [DigitChar(n)][..0] == [];
    } else {
      HornerOfPrint(n / 10);
      var front := PrintNat(n / 10);
      assert (front + [DigitChar(n % 10)])[..|front|] == front;
    }
  }

  /** The decimal digits without a leading zero, behind a minus sign for a negative number. */
  lemma PrintIsDecimal(n: int)
    ensures var s, m: nat := PrintInt(n), if n < 0 then -n else n;
            var digits := if n < 0 && s != [] then s[1..] else s;
            && (n < 0 ==> s != [] && s[0] == '-')
            && AllDigits(digits) && Horner(digits) == m && digits != [] && (m > 0 ==> digits[0] != '0')
  {
    var m: nat := if n < 0 then -n else n;
    HornerOfPrint(m);
    if m > 0 {
      NoLeadingZero(m);
    }
    assert n < 0 ==> PrintInt(n)[1..] == PrintNat(m);
  }

  lemma {:induction false} NoLeadingZero(n: nat)
    requires n > 0
    ensures PrintNat(n)[0] != '0'
  {
    if n >= 10 {
      NoLeadingZero(n / 10);
    }
  }

  lemma {:induction false} PrintLength(n: nat, k: nat)
    requires k > 0
    ensures |PrintNat(n)| <= k <==> n < Pow10(k)
  {
    if k == 1 {
      assert Pow10(1) == 10 * Pow10(0) == 10;
    } else {
      assert Pow10(k) == 10 * Pow10(k - 1);
      assert Pow10(k - 1) == 10 * Pow10(k - 2);
      if n >= 10 {
        PrintLength(n / 10, k - 1);
      }
    }
  }

  // ----- the right-to-left parser

  /** The number of digits at the end of `s`, and what the loop has accumulated when it stops. */
  function TrailingDigits(s: string): (n: nat)
    ensures n <= |s| && AllDigits(s[|s| - n..])
    ensures n < |s| ==> !IsDigit(s[|s| - n - 1])
  {
    if s == [] || !IsDigit(s[|s| - 1]) then 0 else TrailingDigits(s[..|s| - 1]) + 1
  }

  lemma {:induction false} HornerFromLeft(c: char, s: string)
    requires IsDigit(c) && AllDigits(s)
    ensures AllDigits([c] + s) && Horner([c] + s) == Digit(c) * Pow10(|s|) + Horner(s)
  {
    if s == [] {
      assert [c][..0] == [];
      assert Horner([]) == 0;
    } else {
      var front, last := s[..|s| - 1], s[|s| - 1];
      HornerFromLeft(c, front);
      assert ([c] + s)[..|s|] == [c] + front;
      assert ([c] + s)[|s|] == last;
      TimesTen(Digit(c), Pow10(|front|));
      assert Horner([c] + s) == 10 * Horner([c] + front) + Digit(last);
    }
  }

  lemma TimesTen(d: nat, p: nat)
    ensures d * (10 * p) == 10 * (d * p)
  {}

  function Max(a: int, b: int): int {
    if a < b then b else a
  }

  /** `value` and `j` after the last `i` characters. */
  ghost predicate Parsed(str: string, i: nat, value: int, j: int) {
    && i <= |str| && AllDigits(str[|str| - i..])
    && 0 <= value == Horner(str[|str| - i..]) < j == Pow10(i)
  }

  /** One more digit in front. */
  lemma ParseStep(str: string, i: nat, value: int, j: int)
    requires Parsed(str, i, value, j) && i < |str| && IsDigit(str[|str| - i - 1])
    ensures Parsed(str, i + 1, value + Digit(str[|str| - i - 1]) * j, j * 10)
  {
    var c, s, t := str[|str| - i - 1], str[|str| - i..], str[|str| - i - 1..];
    assert |s| == i && |t| == i + 1;
    assert [c] + s == t;
    HornerFromLeft(c, s);
    HornerBelow(t);
  }

  lemma {:induction false} HornerBelow(s: string)
    requires AllDigits(s)
    ensures Horner(s) < Pow10(|s|)
  {
    if s != [] {
      HornerBelow(s[..|s| - 1]);
    }
  }

  lemma PowersFit(n: nat)
    requires n <= 9
    ensures Pow10(n) <= 1_000_000_000 <= INT_MAX
  {
    assert Pow10(9) == 10 * Pow10(8) == 100 * Pow10(7) == 1000 * Pow10(6) == 10_000 * Pow10(5);
    assert Pow10(5) == 10 * Pow10(4) == 100 * Pow10(3) == 1000 * Pow10(2) == 10_000 * Pow10(1) == 100_000;
    PowersGrow(n, 9);
  }

  lemma {:induction false} PowersGrow(m: nat, n: nat)
    requires m <= n
    ensures Pow10(m) <= Pow10(n)
    decreases n - m
  {
    if m < n {
      PowersGrow(m + 1, n);
    }
  }

  method AddDigit(str: string, i: nat, value: int, j: int) returns (value': int, j': int)
    requires Parsed(str, i, value, j) && i < |str| && IsDigit(str[|str| - i - 1])
    ensures Parsed(str, i + 1, value', j') && j' == 10 * j
  {
    ParseStep(str, i, value, j);
    value' := value + Digit(str[|str| - i - 1]) * j;
    j' := j * 10;
  }

  /** Accumulate digits from the right with a growing weight. `value` is what the target held before.
      On a bad character the digits behind it have been stored all the same. `peak` is the largest number
      met on the way, the last weight: it stays in the range of an int exactly up to nine digits. */
  method StringToUnsignedNum(str: string, value: int) returns (ret: int, value': int, ghost peak: int)
    ensures ret == if str != [] && AllDigits(str) then 1 else 0
    ensures value' == if str == [] then value else Horner(str[|str| - TrailingDigits(str)..])
    ensures ret == 1 ==> value' == Horner(str)
    ensures peak == Pow10(TrailingDigits(str)) && (str != [] ==> 0 <= value' < peak)
    ensures peak <= INT_MAX <==> TrailingDigits(str) <= 9
  {
    IntHoldsNineDigits(TrailingDigits(str));
    peak := 1;
    if |str| == 0 {
      return 0, value, peak;
    }
    ret, value' := 1, 0;
    var j := 1;
    var len := |str|;
    for i := 0 to len
      invariant ret == 1 && Parsed(str, i, value', j) && peak == j
    {
      var c := str[len - i - 1];
      if !IsDigit(c) {
        ret := 0;
        TrailingIs(str, i);
        return;
      }
      value', j := AddDigit(str, i, value', j);
      peak := Max(peak, Max(value', j));
    }
    assert str[0..] == str;
    TrailingIs(str, len);
  }

  lemma IntHoldsNineDigits(n: nat)
    ensures Pow10(n) <= INT_MAX <==> n <= 9
  {
    if n <= 9 {
      PowersFit(n);
    } else {
      PowersAtNine();
      assert Pow10(10) == 10 * Pow10(9);
      PowersGrow(10, n);
    }
  }

  lemma TrailingIs(s: string, n: nat)
    requires n <= |s| && AllDigits(s[|s| - n..]) && (n < |s| ==> !IsDigit(s[|s| - n - 1]))
    ensures TrailingDigits(s) == n
  {
    forall i | |s| - n <= i < |s| ensures IsDigit(s[i]) {
      assert s[i] == s[|s| - n..][i - (|s| - n)];
    }
    TrailingAt(s, n);
  }

  lemma {:induction false} TrailingAt(s: string, n: nat)
    requires n <= |s| && (n < |s| ==> !IsDigit(s[|s| - n - 1]))
    requires forall i :: |s| - n <= i < |s| ==> IsDigit(s[i])
    ensures TrailingDigits(s) == n
  {
    if n > 0 {
      TrailingAt(s[..|s| - 1], n - 1);
    }
  }

  /** It inverts printing below a thousand million. */
  lemma ParseInvertsPrint(n: nat)
    requires n < 1_000_000_000
    ensures AllDigits(PrintNat(n)) && Horner(PrintNat(n)) == n && |PrintNat(n)| <= 9
  {
    HornerOfPrint(n);
    PowersAtNine();
    PrintLength(n, 9);
  }

  lemma PowersAtNine()
    ensures Pow10(9) == 1_000_000_000
  {
    assert Pow10(9) == 10 * Pow10(8) == 100 * Pow10(7) == 1000 * Pow10(6) == 10_000 * Pow10(5);
    assert Pow10(5) == 10 * Pow10(4) == 100 * Pow10(3) == 1000 * Pow10(2) == 10_000 * Pow10(1) == 100_000;
  }

  // ----- atoi

  lemma {:induction false} LeadingIsHorner(s: string, t: string)
    requires AllDigits(s) && AllDigits(t)
    ensures AllDigits(s + t) && Leading(t, Horner(s)) == Horner(s + t)
    decreases |t|
  {
    if t == [] {
      assert s + t == s;
    } else {
      var s' := s + [t[0]];
      assert s'[..|s|] == s;
      LeadingIsHorner(s', t[1..]);
      assert s' + t[1..] == s + t;
    }
  }

  lemma LeadingOfPrint(m: nat)
    ensures IsDigit(PrintNat(m)[0]) && Leading(PrintNat(m), 0) == m
  {
    HornerOfPrint(m);
    LeadingIsHorner("", PrintNat(m));
    assert "" + PrintNat(m) == PrintNat(m);
  }

  // ----- any text

  predicate Blank(s: string) {
    forall i :: 0 <= i < |s| ==> IsSpace(s[i])
  }

  /** Where the digits at the start of a text end. */
  lemma {:induction false} LeadingStops(digits: string, rest: string)
    requires AllDigits(digits) && (rest != [] ==> !IsDigit(rest[0]))
    ensures Leading(digits + rest, 0) == Horner(digits)
  {
    LeadingFrom([], digits, rest);
    assert [] + digits == digits;
  }

  lemma {:induction false} LeadingFrom(seen: string, digits: string, rest: string)
    requires AllDigits(seen) && AllDigits(digits) && (rest != [] ==> !IsDigit(rest[0]))
    ensures AllDigits(seen + digits) && Leading(digits + rest, Horner(seen)) == Horner(seen + digits)
    decreases |digits|
  {
    if digits == [] {
      assert digits + rest == rest && seen + digits == seen;
    } else {
      var seen' := seen + [digits[0]];
      assert seen'[..|seen|] == seen;
      LeadingFrom(seen', digits[1..], rest);
      assert seen' + digits[1..] == seen + digits;
      assert (digits + rest)[1..] == digits[1..] + rest;
    }
  }

  lemma {:induction false} BlanksSkipped(blanks: string, t: string)
    requires Blank(blanks) && (t != [] ==> !IsSpace(t[0]))
    ensures SkipSpaces(blanks + t) == t
  {
    if blanks == [] {
      assert blanks + t == t;
    } else {
      assert (blanks + t)[1..] == blanks[1..] + t;
      BlanksSkipped(blanks[1..], t);
    }
  }

  /** The parts of a text for `atoi`: blanks, perhaps a sign, digits, and what does not matter. */
  predicate AtoiParts(blanks: string, sign: string, digits: string, rest: string) {
    && Blank(blanks) && (sign == "" || sign == "-" || sign == "+") && AllDigits(digits)
    && (rest != [] ==> !IsDigit(rest[0]))
    && (sign == "" && digits == "" && rest != [] ==> !IsSpace(rest[0]) && rest[0] != '-' && rest[0] != '+')
  }

  /** A text that starts with its sign, or else with its number, is cut there. */
  lemma SignThenNumber(sign: string, number: string, digits: string, rest: string)
    requires AtoiParts("", sign, digits, rest) && number == digits + rest
    ensures var t := sign + number;
            && (t != [] ==> !IsSpace(t[0]))
            && (t != [] && t[0] == '-' <==> sign == "-") && (t != [] && t[0] == '+' <==> sign == "+")
            && if sign == "" then t == number else t[1..] == number
  {
    assert "" + number == number;
    if digits != "" {
      assert number[0] == digits[0];
    } else {
      assert number == rest;
    }
    if sign != "" {
      assert (sign + number)[1..] == number;
    }
  }

  /** Any text reads as the number of its leading digits under its sign, saturated to an int; without leading
      digits it reads as zero. */
  lemma AtoiMeans(blanks: string, sign: string, digits: string, rest: string)
    requires AtoiParts(blanks, sign, digits, rest)
    ensures var n: int := if sign == "-" then -(Horner(digits) as int) else Horner(digits);
            Atoi(blanks + (sign + (digits + rest)))
            == if n > 0x7fff_ffff then 0x7fff_ffff else if n < -0x8000_0000 then -0x8000_0000 else n
    ensures digits == "" ==> Atoi(blanks + (sign + (digits + rest))) == 0
  {
    var number := digits + rest;
    LeadingStops(digits, rest);
    SignThenNumber(sign, number, digits, rest);
    BlanksSkipped(blanks, sign + number);
  }

  /** How many characters at the start of a text have a property. */
  function Prefix(s: string, p: char -> bool): (n: nat)
    ensures n <= |s| && (forall i :: 0 <= i < n ==> p(s[i])) && (n < |s| ==> !p(s[n]))
  {
    if s == [] || !p(s[0]) then 0 else Prefix(s[1..], p) + 1
  }

  lemma SplitBlanks(s: string) returns (blanks: string, t: string)
    ensures Blank(blanks) && s == blanks + t && (t != [] ==> !IsSpace(t[0]))
  {
    var n := Prefix(s, IsSpace);
    blanks, t := s[..n], s[n..];
  }

  lemma SplitSign(t: string) returns (sign: string, u: string)
    ensures (sign == "" || sign == "-" || sign == "+") && t == sign + u
    ensures sign == "" ==> u == t && (t != [] ==> t[0] != '-' && t[0] != '+')
  {
    if t != [] && (t[0] == '-' || t[0] == '+') {
      sign, u := t[..1], t[1..];
      assert sign == [t[0]];
    } else {
      sign, u := "", t;
      assert "" + u == u;
    }
  }

  lemma SplitDigits(u: string) returns (digits: string, rest: string)
    ensures AllDigits(digits) && u == digits + rest && (rest != [] ==> !IsDigit(rest[0]))
    ensures digits == "" ==> rest == u
  {
    var m := Prefix(u, IsDigit);
    digits, rest := u[..m], u[m..];
  }

  /** Every text has such parts. */
  lemma AtoiSplits(s: string) returns (blanks: string, sign: string, digits: string, rest: string)
    ensures AtoiParts(blanks, sign, digits, rest) && s == blanks + (sign + (digits + rest))
  {
    var t, u;
    blanks, t := SplitBlanks(s);
    sign, u := SplitSign(t);
    digits, rest := SplitDigits(u);
  }

  /** Reading a printed int gives it back. */
  lemma AtoiOfPrint(n: int)
    requires INT_MIN <= n <= INT_MAX
    ensures Atoi(PrintInt(n)) == n
  {
    if n < 0 {
      LeadingOfPrint(-n);
      assert PrintInt(n)[1..] == PrintNat(-n);
    } else {
      LeadingOfPrint(n);
      assert SkipSpaces(PrintNat(n)) == PrintNat(n);
    }
  }
}
