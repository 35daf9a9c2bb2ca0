/** Decimal printing and parsing, zero padding, and the order in which a database sorts strings. */
module Decimals {
  import opened Prelude

  function Digit(d: nat): char
    requires d < 10
  {
    ('0' as int + d) as char
  }

  predicate IsDigit(c: char) {
    '0' <= c <= '9'
  }

  function DigitValue(c: char): (d: nat)
    requires IsDigit(c)
    ensures d < 10 && Digit(d) == c
  {
    c as int - '0' as int
  }

  predicate AllDigits(s: string) {
    forall i | 0 <= i < |s| :: IsDigit(s[i])
  }

  /** The decimal printout of a natural number. */
  function Print(n: nat): (s: string)
    ensures |s| > 0 && AllDigits(s)
  {
    if n < 10 then [Digit(n)] else Print(n / 10) + [Digit(n % 10)]
  }

  function PrintInt(n: int): string {
    if n < 0 then "-" + Print(-n) else Print(n)
  }

  function Zeros(n: nat): (s: string)
    ensures |s| == n && forall i | 0 <= i < n :: s[i] == '0'
  {
    seq(n, i => '0')
  }

  /** Left padding with zeros up to a width; longer strings are left alone. */
  function PadStart(s: string, width: nat): string {
    if |s| >= width then s else Zeros(width - |s|) + s
  }

  /** The number a string of digits stands for, leading zeros allowed. */
  function Value(s: string): nat
    requires AllDigits(s)
  {
    if s == [] then 0 else Value(s[..|s| - 1]) * 10 + DigitValue(s[|s| - 1])
  }

  function Pow10(k: nat): (p: nat)
    ensures p >= 1
  {
    if k == 0 then 1 else 10 * Pow10(k - 1)
  }

  // ---------- printing and reading ----------

  lemma {:induction false} ValueOfPrint(n: nat)
    ensures Value(Print(n)) == n
  {
    if n >= 10 {
      ValueOfPrint(n / 10);
      assert Print(n)[..|Print(n)| - 1] == Print(n / 10);
    } else {
      assert Print(n)[..0] == [];
    }
  }

  lemma {:induction false} ValueAppend(s: string, c: char)
    requires AllDigits(s) && IsDigit(c)
    ensures Value(s + [c]) == Value(s) * 10 + DigitValue(c)
  {
  }

  lemma {:induction false} ValueOfPadded(z: nat, s: string)
    requires AllDigits(s)
    ensures AllDigits(Zeros(z) + s) && Value(Zeros(z) + s) == Value(s)
  {
    if s == [] {
      ZerosAreWorthNothing(z);
      assert Zeros(z) + s == Zeros(z);
    } else {
      var init, last := s[..|s| - 1], s[|s| - 1];
      ValueOfPadded(z, init);
      assert Zeros(z) + s == (Zeros(z) + init) + [last];
      ValueAppend(Zeros(z) + init, last);
    }
  }

  lemma {:induction false} ZerosAreWorthNothing(z: nat)
    ensures Value(Zeros(z)) == 0
  {
    if z > 0 {
      ZerosAreWorthNothing(z - 1);
      assert Zeros(z)[..z - 1] == Zeros(z - 1);
    }
  }

  /** Padding changes neither the digits-only form nor the number. */
  lemma PadKeepsValue(n: nat, width: nat)
    ensures AllDigits(PadStart(Print(n), width)) && Value(PadStart(Print(n), width)) == n
    ensures |PadStart(Print(n), width)| >= width
  {
    ValueOfPrint(n);
    if |Print(n)| < width {
      ValueOfPadded(width - |Print(n)|, Print(n));
    }
  }

  // ---------- sizes ----------

  lemma {:induction false} ValueBound(s: string)
    requires AllDigits(s)
    ensures Value(s) < Pow10(|s|)
  {
    if s != [] {
      ValueBound(s[..|s| - 1]);
    }
  }

  lemma {:induction false} PrintLength(n: nat)
    ensures n >= 10 ==> Pow10(|Print(n)| - 1) <= n
    ensures n < Pow10(|Print(n)|)
  {
    if n >= 10 {
      PrintLength(n / 10);
      if n < 100 {
        assert |Print(n / 10)| == 1;
      }
    }
  }

  lemma {:induction false} Pow10Grows(a: nat, b: nat)
    requires a < b
    ensures 10 * Pow10(a) <= Pow10(b)
  {
    if a + 1 < b {
      Pow10Grows(a, b - 1);
    }
  }

  /** A padded number is as long as its width until it needs more digits. */
  lemma PaddedLength(n: nat, width: nat)
    requires width >= 2
    ensures var k := |PadStart(Print(n), width)|;
            k >= width && n < Pow10(k) && (k > width ==> Pow10(k - 1) <= n)
  {
    PrintLength(n);
    if |Print(n)| < width {
      Pow10Grows(|Print(n)|, width);
    }
  }

  // ---------- string order ----------

  /** Character by character, a proper prefix first: the order of ORDER BY on these strings. */
  predicate Below(a: string, b: string) {
    if b == [] then false
    else if a == [] then true
    else if a[0] != b[0] then a[0] < b[0]
    else Below(a[1..], b[1..])
  }

  lemma {:induction false} BelowIsStrict(a: string, b: string)
    ensures Below(a, b) ==> a != b && !Below(b, a)
    ensures Below(a, b) || Below(b, a) || a == b
  {
    if a != [] && b != [] && a[0] == b[0] {
      BelowIsStrict(a[1..], b[1..]);
      if a[1..] == b[1..] {
        assert a == [a[0]] + a[1..] && b == [b[0]] + b[1..];
      }
    }
  }

  lemma {:induction false} BelowAfterPrefix(p: string, a: string, b: string)
    ensures Below(p + a, p + b) == Below(a, b)
  {
    if p == [] {
      assert p + a == a && p + b == b;
    } else {
      BelowAfterPrefix(p[1..], a, b);
      assert (p + a)[1..] == p[1..] + a && (p + b)[1..] == p[1..] + b;
    }
  }

  lemma {:induction false} ValueFromFront(s: string)
    requires AllDigits(s) && s != []
    ensures Value(s) == DigitValue(s[0]) * Pow10(|s| - 1) + Value(s[1..])
  {
    var n := |s| - 1;
    if n == 0 {
      assert s[..0] == [] && s[1..] == [];
    } else {
      ValueFromFront(s[..n]);
      assert s[1..][..n - 1] == s[..n][1..];
      ShiftDigits(DigitValue(s[0]), Pow10(n - 1), Value(s[..n][1..]));
    }
  }

  lemma ShiftDigits(d: nat, p: nat, v: nat)
    ensures (d * p + v) * 10 == d * (10 * p) + v * 10
  {
  }

  lemma LeadingDigitDecides(x: nat, y: nat, p: nat, a: nat, b: nat)
    requires x < y && a < p
    ensures x * p + a < y * p + b
  {
    TimesGrows(x + 1, y, p);
    assert (x + 1) * p == x * p + p;
  }

  lemma {:induction false} TimesGrows(x: nat, y: nat, p: nat)
    requires x <= y
    ensures x * p <= y * p
  {
  }

  /** Among digit strings of one length, string order is numeric order. */
  lemma {:induction false} FixedWidthOrder(a: string, b: string)
    requires AllDigits(a) && AllDigits(b) && |a| == |b|
    ensures Below(a, b) <==> Value(a) < Value(b)
    ensures Value(a) == Value(b) ==> a == b
  {
    if a != [] {
      FixedWidthOrder(a[1..], b[1..]);
      ValueFromFront(a);
      ValueFromFront(b);
      ValueBound(a[1..]);
      ValueBound(b[1..]);
      var x, y := DigitValue(a[0]), DigitValue(b[0]);
      if x < y {
        LeadingDigitDecides(x, y, Pow10(|a| - 1), Value(a[1..]), Value(b[1..]));
      } else if y < x {
        LeadingDigitDecides(y, x, Pow10(|a| - 1), Value(b[1..]), Value(a[1..]));
      } else {
        assert a[0] == b[0];
        assert a == [a[0]] + a[1..] && b == [b[0]] + b[1..];
      }
    }
  }

  // ---------- parseInt ----------

  predicate IsSpace(c: char) {
    c in {' ', '\t', '\n', '\r'}
  }

  function SkipSpaces(s: string): string {
    if s != [] && IsSpace(s[0]) then SkipSpaces(s[1..]) else s
  }

  /** The longest prefix of digits. */
  function LeadingDigits(s: string): (d: string)
    ensures AllDigits(d)
  {
    if s != [] && IsDigit(s[0]) then [s[0]] + LeadingDigits(s[1..]) else []
  }

  /** JavaScript's parseInt with radix 10; None stands for NaN. */
  function ParseInt(s: string): Option<int> {
    var t := SkipSpaces(s);
    var negative := t != [] && t[0] == '-';
    var digits := LeadingDigits(if t != [] && t[0] in {'-', '+'} then t[1..] else t);
    if digits == [] then None
    else
      var value: int := Value(digits);
      Some(if negative then -value else value)
  }

  lemma {:induction false} LeadingDigitsOfDigits(s: string)
    requires AllDigits(s)
    ensures LeadingDigits(s) == s
  {
    if s != [] {
      LeadingDigitsOfDigits(s[1..]);
      assert s == [s[0]] + s[1..];
    }
  }

  /** Reading back a padded number gives the number. */
  lemma ParsePadded(n: nat, width: nat)
    ensures ParseInt(PadStart(Print(n), width)) == Some(n)
  {
    PadKeepsValue(n, width);
    LeadingDigitsOfDigits(PadStart(Print(n), width));
  }

  lemma PrintIsInjective(a: nat, b: nat)
    requires Print(a) == Print(b)
    ensures a == b
  {
    ValueOfPrint(a);
    ValueOfPrint(b);
  }

  lemma ParseBare(n: int)
    ensures ParseInt(PrintInt(n)) == Some(n)
  {
    if n < 0 {
      ValueOfPrint(-n);
      ParseNegative(Print(-n));
    } else {
      ParsePadded(n, 0);
    }
  }

  lemma ParseNegative(digits: string)
    requires digits != "" && AllDigits(digits)
    ensures var value: int := Value(digits); ParseInt("-" + digits) == Some(-value)
  {
    var s := "-" + digits;
    LeadingDigitsOfDigits(digits);
    assert s[0] == '-' && s[1..] == digits;
    assert SkipSpaces(s) == s;
  }

  lemma ParseAfterSpaces(spaces: string, rest: string)
    requires SkipSpaces(spaces + rest) == rest && SkipSpaces(rest) == rest
    ensures ParseInt(spaces + rest) == ParseInt(rest)
  {
  }

  /** Reading back a printed number gives the number, whatever space is before it; space and no digit are no number. */
  lemma ParsePrinted(spaces: string, n: int)
    requires forall i | 0 <= i < |spaces| :: spaces[i] in " \t\n\r"
    ensures ParseInt(spaces + PrintInt(n)) == Some(n)
    ensures ParseInt(spaces) == None
  {
    SpacesAreSkipped(spaces, PrintInt(n));
    SpacesAreSkipped("", PrintInt(n));
    assert "" + PrintInt(n) == PrintInt(n);
    ParseAfterSpaces(spaces, PrintInt(n));
    ParseBare(n);
    SpacesAreSkipped(spaces, "");
    assert spaces + "" == spaces;
  }

  lemma {:induction false} SpacesAreSkipped(spaces: string, rest: string)
    requires forall i | 0 <= i < |spaces| :: spaces[i] in " \t\n\r"
    requires rest != "" ==> !IsSpace(rest[0])
    ensures SkipSpaces(spaces + rest) == rest
  {
    if spaces == "" {
      assert spaces + rest == rest;
    } else {
      assert spaces[0] in " \t\n\r";
      assert (spaces + rest)[1..] == spaces[1..] + rest;
      SpacesAreSkipped(spaces[1..], rest);
    }
  }
}
