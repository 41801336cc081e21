/** The integers of the command line, read as Go's base-0 literals. */
module GoNumbers {
  import opened Digits
  import opened Wrappers

  const I64_MIN := -0x8000_0000_0000_0000
  const I64_MAX := 0x7FFF_FFFF_FFFF_FFFF
  const U64_MAX := 0xFFFF_FFFF_FFFF_FFFF

  predicate InI64(v: int) { I64_MIN <= v <= I64_MAX }

  /** An unsigned 64-bit number in a base, as the standard library reads it. */
  function FromStrRadix(s: string, base: Base): Option<nat> {
    var digits := if |s| > 1 && s[0] == '+' then s[1..] else s;
    if digits == [] || !AllDigits(digits, base) || Value(digits, base) > U64_MAX then None
    else Some(Value(digits, base))
  }

  predicate Negative(text: string) { text != [] && text[0] == '-' }

  function Unsigned(text: string): string {
    if text != [] && (text[0] == '-' || text[0] == '+') then text[1..] else text
  }

  function Signed(negative: bool, magnitude: int): int { if negative then -magnitude else magnitude }

  predicate HasPrefix(u: string, lower: char, upper: char) {
    |u| >= 2 && u[0] == '0' && (u[1] == lower || u[1] == upper)
  }

  /** The base a literal selects, its digits, and whether a base prefix came before them. */
  datatype Selected = Selected(base: Base, digits: string, prefixed: bool)

  function Select(u: string): Selected {
    if HasPrefix(u, 'x', 'X') then Selected(16, u[2..], true)
    else if HasPrefix(u, 'o', 'O') then Selected(8, u[2..], true)
    else if HasPrefix(u, 'b', 'B') then Selected(2, u[2..], true)
    else if |u| > 1 && u[0] == '0' then Selected(8, u[1..], true)
    else Selected(10, u, false)
  }

  /** An underscore at `i` is between two characters that are not underscores, or right after a
      prefix. */
  predicate UnderscoreOk(digits: string, prefixed: bool, i: nat)
    requires i < |digits|
  {
    digits[i] == '_' ==>
      && (if i == 0 then prefixed else digits[i - 1] != '_')
      && i + 1 < |digits| && digits[i + 1] != '_'
  }

  predicate UnderscoresOk(digits: string, prefixed: bool) {
    forall i :: 0 <= i < |digits| ==> UnderscoreOk(digits, prefixed, i)
  }

  /** The text without its underscores. */
  function Stripped(s: string): string {
    if s == [] then [] else (if s[0] == '_' then [] else [s[0]]) + Stripped(s[1..])
  }

  function ParseGoInt(text: string): Option<int> {
    var selected := Select(Unsigned(text));
    if !UnderscoresOk(selected.digits, selected.prefixed) then None
    else
      var digits := Stripped(selected.digits);
      if digits == [] || digits[0] == '+' || digits[0] == '-' then None
      else
        match FromStrRadix(digits, selected.base)
        case None => None
        case Some(magnitude) =>
          var v := Signed(Negative(text), magnitude);
          if InI64(v) then Some(v) else None
  }

  // ---- The grammar of the literals ----

  /** Digits with single underscores between them. */
  predicate DigitRun(s: string, base: Base) {
    && s != [] && IsDigit(s[0], base)
    && (|s| == 1 || DigitRun(s[1..], base) || (s[1] == '_' && DigitRun(s[2..], base)))
  }

  /** A digit run, after a base prefix possibly with one underscore before it. */
  predicate Body(s: string, base: Base, prefixed: bool) {
    DigitRun(s, base) || (prefixed && s != [] && s[0] == '_' && DigitRun(s[1..], base))
  }

  /** The unsigned text `u` is a literal in `base` whose digits, underscores included, are `body`:
      hexadecimal, octal and binary with a prefix, octal with a leading zero, or decimal without. */
  predicate IsLiteral(u: string, base: Base, body: string) {
    || (base == 16 && (u == "0x" + body || u == "0X" + body) && Body(body, 16, true))
    || (base == 8 && (u == "0o" + body || u == "0O" + body || u == "0" + body) && Body(body, 8, true))
    || (base == 2 && (u == "0b" + body || u == "0B" + body) && Body(body, 2, true))
    || (base == 10 && u == body && Body(body, 10, false) && (u == "0" || u[0] != '0'))
  }

  // ---- The underscore rule is the grammar ----

  lemma UnderscoresOkTail(s: string, prefixed: bool)
    requires s != []
    ensures UnderscoresOk(s, prefixed) <==> UnderscoreOk(s, prefixed, 0) && UnderscoresOk(s[1..], s[0] != '_')
  {
    forall i | 1 <= i < |s|
      ensures UnderscoreOk(s, prefixed, i) <==> UnderscoreOk(s[1..], s[0] != '_', i - 1)
    {
    }
    var tail, free := s[1..], s[0] != '_';
    if UnderscoresOk(s, prefixed) {
      forall i | 0 <= i < |tail|
        ensures UnderscoreOk(tail, free, i)
      {
        assert UnderscoreOk(s, prefixed, i + 1);
      }
    }
    if UnderscoreOk(s, prefixed, 0) && UnderscoresOk(s[1..], s[0] != '_') {
      forall i | 0 <= i < |s|
        ensures UnderscoreOk(s, prefixed, i)
      {
        if i > 0 {
          assert UnderscoreOk(s[1..], s[0] != '_', i - 1);
        }
      }
    }
  }

  /** The rule about the neighbours of each underscore, with digits once the underscores are gone,
      accepts exactly the grammar's bodies. */
  lemma {:induction false} UnderscoreRuleIsGrammar(s: string, base: Base, prefixed: bool)
    ensures Body(s, base, prefixed) <==>
            UnderscoresOk(s, prefixed) && Stripped(s) != [] && AllDigits(Stripped(s), base)
    ensures UnderscoresOk(s, prefixed) && s != [] ==> Stripped(s) != []
  {
    if s != [] {
      UnderscoresOkTail(s, prefixed);
      UnderscoreRuleIsGrammar(s[1..], base, s[0] != '_');
      assert !IsDigit('_', base);
      AllDigitsCons(s[0], Stripped(s[1..]), base);
    }
  }

  // ---- The parser accepts exactly the grammar ----

  /** A text is a literal in at most one way, the one the parser selects. */
  lemma LiteralIsSelected(u: string, base: Base, body: string)
    ensures IsLiteral(u, base, body) <==>
            Select(u) == Selected(base, body, base != 10) && Body(body, base, base != 10)
  {
    if IsLiteral(u, base, body) {
      LiteralSelects(u, base, body);
    } else {
      var s := Select(u);
      if |u| >= 2 {
        assert u == [u[0], u[1]] + u[2..];
        assert u == [u[0]] + u[1..];
      }
    }
  }

  lemma LiteralSelects(u: string, base: Base, body: string)
    requires IsLiteral(u, base, body)
    ensures Select(u) == Selected(base, body, base != 10) && Body(body, base, base != 10)
  {
    assert u != body ==> u[1..] == body || u[2..] == body;
    assert base != 10 ==> |u| >= 2 && u[0] == '0';
    assert body[0] == '_' || IsDigit(body[0], base);
  }

  /** The value that a literal stands for. */
  function ValueOf(text: string, base: Base, body: string): int {
    Signed(Negative(text), Value(Stripped(body), base))
  }

  lemma ReadsDigits(digits: string, base: Base)
    requires digits != [] && AllDigits(digits, base)
    ensures digits[0] != '+' && digits[0] != '-'
    ensures FromStrRadix(digits, base) == if Value(digits, base) > U64_MAX then None else Some(Value(digits, base))
  {
    assert IsDigit(digits[0], base);
  }

  lemma RefusesOthers(digits: string, base: Base)
    requires digits != [] && !AllDigits(digits, base) && digits[0] != '+'
    ensures FromStrRadix(digits, base) == None
  {
  }

  /** The parser returns `v` exactly when the text is a base-0 literal, with an optional sign, that
      stands for `v`, and `v` fits in 64 bits. */
  lemma ParsesExactlyTheLiterals(text: string, v: int)
    ensures ParseGoInt(text) == Some(v) <==>
            && -9223372036854775808 <= v <= 9223372036854775807
            && exists base, body :: IsLiteral(Unsigned(text), base, body) && v == ValueOf(text, base, body)
  {
    var u := Unsigned(text);
    var s := Select(u);
    LiteralIsSelected(u, s.base, s.digits);
    UnderscoreRuleIsGrammar(s.digits, s.base, s.prefixed);
    forall base, body | IsLiteral(u, base, body)
      ensures base == s.base && body == s.digits
    {
      LiteralIsSelected(u, base, body);
    }
    var digits := Stripped(s.digits);
    if digits != [] {
      if AllDigits(digits, s.base) {
        ReadsDigits(digits, s.base);
      } else if digits[0] != '+' {
        RefusesOthers(digits, s.base);
      }
    }
  }

  // ---- Printing and parsing are inverse ----

  function Prefix(base: Base): string {
    if base == 16 then "0x" else if base == 8 then "0o" else if base == 2 then "0b" else ""
  }

  /** A number printed in base 2, 8, 10 or 16 with the prefix of its base. */
  function Format(v: int, base: Base): string {
    (if v < 0 then "-" else "") + (Prefix(base) + Print(if v < 0 then -v else v, base))
  }

  lemma {:induction false} DigitsAreRun(s: string, base: Base)
    requires s != [] && AllDigits(s, base)
    ensures DigitRun(s, base) && Stripped(s) == s
  {
    assert IsDigit(s[0], base);
    assert s == [s[0]] + s[1..];
    AllDigitsCons(s[0], s[1..], base);
    if |s| > 1 {
      DigitsAreRun(s[1..], base);
    }
  }

  lemma FormatIsLiteral(m: nat, base: Base)
    requires base in {2, 8, 10, 16}
    ensures IsLiteral(Prefix(base) + Print(m, base), base, Print(m, base))
    ensures Value(Stripped(Print(m, base)), base) == m
  {
    DigitsAreRun(Print(m, base), base);
    ValueOfPrint(m, base);
  }

  lemma StartsWithDigit(m: nat, base: Base)
    ensures var u := Prefix(base) + Print(m, base); u != [] && IsDigit(u[0], 16)
  {
    assert IsDigit(Print(m, base)[0], base);
  }

  lemma SignParts(u: string, negative: bool)
    requires u != [] && IsDigit(u[0], 16)
    ensures var text := (if negative then "-" else "") + u;
            Unsigned(text) == u && Negative(text) == negative
  {
    assert !IsDigit('-', 16) && !IsDigit('+', 16);
    if !negative {
      assert "" + u == u;
    }
  }

  /** Every 64-bit number survives printing in base 2, 8, 10 or 16 and parsing. */
  lemma FormatRoundTrip(v: int, base: Base)
    requires -9223372036854775808 <= v <= 9223372036854775807 && base in {2, 8, 10, 16}
    ensures ParseGoInt(Format(v, base)) == Some(v)
  {
    var m := if v < 0 then -v else v;
    StartsWithDigit(m, base);
    SignParts(Prefix(base) + Print(m, base), v < 0);
    FormatIsLiteral(m, base);
    ParsesExactlyTheLiterals(Format(v, base), v);
  }

  // ---- Signs ----

  lemma SignParted(sign: char, u: string)
    requires sign == '+' || sign == '-'
    requires u != [] && u[0] != '+' && u[0] != '-'
    ensures Unsigned([sign] + u) == u == Unsigned(u)
    ensures (Negative([sign] + u) <==> sign == '-') && !Negative(u)
  {
  }

  /** A plus sign changes nothing, whatever the base. */
  lemma PlusMeans(u: string)
    requires u != [] && u[0] != '+' && u[0] != '-'
    ensures ParseGoInt("+" + u) == ParseGoInt(u)
  {
    SignParted('+', u);
  }

  /** A minus sign negates; only the least number has no literal without its sign. */
  lemma MinusMeans(u: string, v: int)
    requires u != [] && u[0] != '+' && u[0] != '-'
    requires v != -9223372036854775808
    ensures ParseGoInt("-" + u) == Some(v) <==> ParseGoInt(u) == Some(-v)
  {
    SignParted('-', u);
    ParsesExactlyTheLiterals("-" + u, v);
    ParsesExactlyTheLiterals(u, -v);
  }
}
