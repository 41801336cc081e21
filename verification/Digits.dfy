/** Positional notation: printing and reading natural numbers in a base. */
module Digits {

  type Base = b: nat | 2 <= b <= 16 witness 2

  predicate IsDigit(c: char, base: Base) {
    DigitValue(c) < base
  }

  /** The value of a digit in either case; 16 for a character that is not a digit. */
  function DigitValue(c: char): nat {
    if '0' <= c <= '9' then c as nat - '0' as nat
    else if 'a' <= c <= 'f' then c as nat - 'a' as nat + 10
    else if 'A' <= c <= 'F' then c as nat - 'A' as nat + 10
    else 16
  }

  function DigitChar(d: nat): (c: char)
    requires d < 16
    ensures DigitValue(c) == d
  {
    "0123456789abcdef"[d]
  }

  /** The sixteen digits, in either case. */
  lemma DigitMeans(c: char, d: nat)
    requires d < 16
    ensures DigitValue(c) == d <==> c == "0123456789abcdef"[d] || c == "0123456789ABCDEF"[d]
  {
  }

  predicate AllDigits(s: string, base: Base) {
    forall i :: 0 <= i < |s| ==> IsDigit(s[i], base)
  }

  lemma AllDigitsCons(c: char, s: string, base: Base)
    ensures AllDigits([c] + s, base) <==> IsDigit(c, base) && AllDigits(s, base)
  {
    if AllDigits([c] + s, base) {
      assert IsDigit(([c] + s)[0], base);
      assert forall i :: 0 <= i < |s| ==> s[i] == ([c] + s)[i + 1];
    }
  }

  /** The number that digits stand for. */
  function Value(s: string, base: Base): nat {
    if s == [] then 0 else Value(s[..|s| - 1], base) * base + DigitValue(s[|s| - 1])
  }

  function Print(n: nat, base: Base): (s: string)
    ensures s != [] && AllDigits(s, base)
    ensures s[0] == '0' ==> n == 0 && s == "0"
    decreases n
  {
    if n < base then [DigitChar(n)]
    else
      Shrinks(n, base);
      Print(n / base, base) + [DigitChar(n % base)]
  }

  lemma Shrinks(n: nat, base: Base)
    requires base <= n
    ensures 0 < n / base < n && n == n / base * base + n % base
  {
  }

  lemma PrintAppends(n: nat, d: nat, base: Base)
    requires n > 0 && d < base
    ensures Print(n * base + d, base) == Print(n, base) + [DigitChar(d)]
  {
    Append(n, d, base);
  }

  lemma Append(n: nat, d: nat, base: Base)
    requires n > 0 && d < base
    ensures n * base + d >= base && (n * base + d) / base == n && (n * base + d) % base == d
  {
  }

  lemma {:induction false} ValueOfPrint(n: nat, base: Base)
    ensures Value(Print(n, base), base) == n
    decreases n
  {
    if base <= n {
      Shrinks(n, base);
      ValueOfPrint(n / base, base);
      var front := Print(n / base, base);
      assert (front + [DigitChar(n % base)])[..|front|] == front;
    }
  }

  /** A signed number in decimal. */
  function Decimal(n: int): string {
    if n < 0 then "-" + Print(-n, 10) else Print(n, 10)
  }

  function ReadDecimal(s: string): int {
    if s != [] && s[0] == '-' then
      var magnitude: int := Value(s[1..], 10);
      -magnitude
    else Value(s, 10)
  }

  lemma DecimalRoundTrip(n: int)
    ensures ReadDecimal(Decimal(n)) == n
  {
    var digits := Print(if n < 0 then -n else n, 10);
    ValueOfPrint(if n < 0 then -n else n, 10);
    assert IsDigit(digits[0], 10);
    assert ("-" + digits)[1..] == digits;
  }

  lemma DecimalInjective(m: int, n: int)
    requires Decimal(m) == Decimal(n)
    ensures m == n
  {
    DecimalRoundTrip(m);
    DecimalRoundTrip(n);
  }
}
