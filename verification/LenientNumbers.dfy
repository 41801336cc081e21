/** The numbers of the configuration file, read as yaml.v3 resolves plain scalars. */
module LenientNumbers {
  import opened Digits
  import opened GoNumbers
  import opened Wrappers

  /** An integer, or the text of a decimal float; what the float is worth is not modelled. */
  datatype Number = Int(value: int) | Float(text: string)

  function LowerChar(c: char): char {
    if 'A' <= c <= 'Z' then (c as int - 'A' as int + 'a' as int) as char else c
  }

  function Lower(s: string): string { seq(|s|, i requires 0 <= i < |s| => LowerChar(s[i])) }

  predicate StartsWith(s: string, prefix: string) { prefix <= s }

  /** The base of an unsigned lower-case text and the digits after its prefix. */
  function SelectBase(lower: string): (Base, string) {
    if StartsWith(lower, "0x") then (16, lower[2..])
    else if StartsWith(lower, "0o") then (8, lower[2..])
    else if StartsWith(lower, "0b") then (2, lower[2..])
    else if |lower| > 1 && lower[0] == '0' then (8, lower[1..])
    else (10, lower)
  }

  function ParseIntBase0(text: string): Option<int> {
    var (base, digits) := SelectBase(Lower(Unsigned(text)));
    if digits == [] || !AllDigits(digits, base) then None
    else
      match FromStrRadix(digits, base)
      case None => None
      case Some(magnitude) =>
        var v := Signed(Negative(text), magnitude);
        if InI64(v) then Some(v) else None
  }

  predicate IsDecimal(c: char) { '0' <= c <= '9' }

  predicate AllDecimal(s: string) { forall i :: 0 <= i < |s| ==> IsDecimal(s[i]) }

  function WithoutSign(s: string): string { if s != [] && s[0] in "+-" then s[1..] else s }

  /** The first position from `i` on that holds one of `chars`, or the length. */
  function Find(s: string, chars: string, i: nat): (k: nat)
    requires i <= |s|
    ensures i <= k <= |s|
    ensures forall j :: i <= j < k ==> s[j] !in chars
    ensures k < |s| ==> s[k] in chars
    decreases |s| - i
  {
    if i == |s| || s[i] in chars then i else Find(s, chars, i + 1)
  }

  predicate MantissaOk(m: string) {
    var dot := Find(m, ".", 0);
    if dot == |m| then m != [] && AllDecimal(m)
    else if dot == 0 then m[1..] != [] && AllDecimal(m[1..])
    else AllDecimal(m[..dot]) && AllDecimal(m[dot + 1..])
  }

  predicate ExponentOk(e: string) { WithoutSign(e) != [] && AllDecimal(WithoutSign(e)) }

  predicate IsYamlFloat(text: string) {
    var unsigned := WithoutSign(text);
    var split := Find(unsigned, "eE", 0);
    MantissaOk(unsigned[..split]) && (split == |unsigned| || ExponentOk(unsigned[split + 1..]))
  }

  function ResolveNumber(text: string): Option<Number> {
    if text == [] || !(IsDecimal(text[0]) || text[0] in "+-.") then None
    else
      var plain := Stripped(text);
      match ParseIntBase0(plain)
      case Some(v) => Some(Int(v))
      case None => if IsYamlFloat(plain) then Some(Float(plain)) else None
  }

  // ---- Two parsers, one language ----

  lemma LowerDigits(s: string, base: Base)
    ensures AllDigits(Lower(s), base) <==> AllDigits(s, base)
  {
    assert forall i :: 0 <= i < |s| ==> DigitValue(Lower(s)[i]) == DigitValue(s[i]);
    assert AllDigits(Lower(s), base) ==> forall i :: 0 <= i < |s| ==> IsDigit(Lower(s)[i], base);
  }

  lemma {:induction false} LowerValue(s: string, base: Base)
    ensures Value(Lower(s), base) == Value(s, base)
  {
    if s != [] {
      LowerValue(s[..|s| - 1], base);
      assert Lower(s)[..|s| - 1] == Lower(s[..|s| - 1]);
    }
  }

  /** Both parsers select the same base and, up to case, the same digits. */
  lemma SameSelection(u: string)
    ensures var s := Select(u);
            SelectBase(Lower(u)) == (s.base, Lower(s.digits))
  {
    var l := Lower(u);
    if |u| >= 2 {
      assert l == [l[0], l[1]] + l[2..];
      assert l[2..] == Lower(u[2..]) && l[1..] == Lower(u[1..]);
    }
  }

  lemma {:induction false} NothingToStrip(s: string, prefixed: bool)
    requires '_' !in s
    ensures Stripped(s) == s && UnderscoresOk(s, prefixed)
  {
    if s != [] {
      NothingToStrip(s[1..], true);
      assert s == [s[0]] + s[1..];
    }
  }

  /** On a text without underscores the two parsers agree, value or refusal. */
  lemma ParsersAgree(text: string)
    requires '_' !in text
    ensures ParseIntBase0(text) == ParseGoInt(text)
  {
    var s := Select(Unsigned(text));
    SameSelection(Unsigned(text));
    NothingToStrip(s.digits, s.prefixed);
    LowerDigits(s.digits, s.base);
    LowerValue(s.digits, s.base);
    SameReading(s.digits, s.base);
  }

  lemma SameReading(digits: string, base: Base)
    ensures AllDigits(digits, base) && digits != [] ==>
              digits[0] != '+' && digits[0] != '-' && FromStrRadix(Lower(digits), base) == FromStrRadix(digits, base)
    ensures !AllDigits(digits, base) && digits != [] && digits[0] != '+' ==> FromStrRadix(digits, base) == None
  {
    LowerDigits(digits, base);
    LowerValue(digits, base);
    if AllDigits(digits, base) && digits != [] {
      ReadsDigits(digits, base);
      ReadsDigits(Lower(digits), base);
    }
  }

  // ---- Dropping underscores keeps the value ----

  lemma StrippedCons(c: char, s: string)
    requires c != '_'
    ensures Stripped([c] + s) == [c] + Stripped(s)
  {
    assert ([c] + s)[1..] == s;
  }

  lemma StrippedTwo(c: char, d: char, s: string)
    requires c != '_' && d != '_'
    ensures Stripped([c, d] + s) == [c, d] + Stripped(s)
  {
    StrippedCons(d, s);
    StrippedCons(c, [d] + s);
    assert [c, d] + s == [c] + ([d] + s);
    assert [c, d] + Stripped(s) == [c] + ([d] + Stripped(s));
  }

  lemma {:induction false} NoneLeft(s: string)
    ensures '_' !in Stripped(s)
  {
    if s != [] {
      NoneLeft(s[1..]);
    }
  }

  /** Without its underscores a literal is still a literal, in the same base and with the same
      digits. */
  lemma StrippedLiteral(u: string, base: Base, body: string)
    requires IsLiteral(u, base, body)
    ensures IsLiteral(Stripped(u), base, Stripped(body))
    ensures Stripped(Stripped(body)) == Stripped(body)
  {
    UnderscoreRuleIsGrammar(body, base, base != 10);
    DigitsAreRun(Stripped(body), base);
    if base == 10 {
      DecimalStart(u);
    } else {
      StrippedPrefixes(body);
    }
  }

  lemma DecimalStart(u: string)
    requires u != [] && u[0] != '_'
    ensures Stripped(u) != [] && Stripped(u)[0] == u[0] && (u == "0" ==> Stripped(u) == "0")
  {
    assert u == [u[0]] + u[1..];
    StrippedCons(u[0], u[1..]);
  }

  lemma StrippedPrefixes(body: string)
    ensures forall c :: c in "xXoObB" ==> Stripped(['0', c] + body) == ['0', c] + Stripped(body)
    ensures Stripped("0" + body) == "0" + Stripped(body)
  {
    forall c | c in "xXoObB"
      ensures Stripped(['0', c] + body) == ['0', c] + Stripped(body)
    {
      StrippedTwo('0', c, body);
    }
    StrippedCons('0', body);
  }

  /** The sign of a literal stays in front when its underscores go. */
  lemma StrippedSign(text: string)
    requires Unsigned(text) != [] && Unsigned(text)[0] != '_' && Unsigned(text)[0] != '-' && Unsigned(text)[0] != '+'
    ensures Unsigned(Stripped(text)) == Stripped(Unsigned(text)) && Negative(Stripped(text)) == Negative(text)
  {
    DecimalStart(Unsigned(text));
    if text != Unsigned(text) {
      assert text == [text[0]] + text[1..];
      StrippedCons(text[0], text[1..]);
    }
  }

  lemma LiteralStart(u: string, base: Base, body: string)
    requires IsLiteral(u, base, body)
    ensures u != [] && IsDecimal(u[0])
  {
  }

  /** Whenever the command line accepts an integer, the configuration file reads the same text as the
      same integer. */
  lemma ConfigurationAgrees(text: string, v: int)
    requires ParseGoInt(text) == Some(v)
    ensures ResolveNumber(text) == Some(Int(v))
  {
    ParsesExactlyTheLiterals(text, v);
    var base, body :| IsLiteral(Unsigned(text), base, body) && v == ValueOf(text, base, body);
    LiteralStart(Unsigned(text), base, body);
    StrippedLiteral(Unsigned(text), base, body);
    StrippedSign(text);
    var plain := Stripped(text);
    assert v == ValueOf(plain, base, Stripped(body));
    ParsesExactlyTheLiterals(plain, v);
    NoneLeft(text);
    ParsersAgree(plain);
  }

  // ---- The float recogniser against its regular expression ----

  datatype Regex =
    | Class(chars: string)
    | Cat(first: Regex, second: Regex)
    | Alt(left: Regex, right: Regex)
    | Opt(inner: Regex)
    | Star(inner: Regex)

  function Plus(r: Regex): Regex { Cat(r, Star(r)) }

  /** The texts a regular expression denotes. */
  ghost predicate Matches(r: Regex, s: string)
    decreases r, |s|
  {
    match r
    case Class(chars) => |s| == 1 && s[0] in chars
    case Cat(a, b) => exists k :: 0 <= k <= |s| && Matches(a, s[..k]) && Matches(b, s[k..])
    case Alt(a, b) => Matches(a, s) || Matches(b, s)
    case Opt(a) => s == [] || Matches(a, s)
    case Star(a) => s == [] || exists k :: 0 < k <= |s| && Matches(a, s[..k]) && Matches(r, s[k..])
  }

  const DIGIT := Class("0123456789")
  const SIGN := Class("-+")
  const DOT := Class(".")
  const EXPONENT := Cat(Class("eE"), Cat(Opt(SIGN), Plus(DIGIT)))
  const MANTISSA := Alt(Cat(DOT, Plus(DIGIT)), Cat(Plus(DIGIT), Opt(Cat(DOT, Star(DIGIT)))))

  /** `[-+]?(\.[0-9]+|[0-9]+(\.[0-9]*)?)([eE][-+]?[0-9]+)?` */
  const FLOAT := Cat(Opt(SIGN), Cat(MANTISSA, Opt(EXPONENT)))

  lemma ClassFirst(chars: string, b: Regex, s: string)
    ensures Matches(Cat(Class(chars), b), s) <==> s != [] && s[0] in chars && Matches(b, s[1..])
  {
    if s != [] && s[0] in chars && Matches(b, s[1..]) {
      assert Matches(Class(chars), s[..1]);
    }
  }

  lemma {:induction false} StarOfDigits(s: string)
    ensures Matches(Star(DIGIT), s) <==> AllDecimal(s)
  {
    if s != [] {
      StarOfDigits(s[1..]);
      assert s == [s[0]] + s[1..];
      assert Matches(DIGIT, s[..1]) <==> IsDecimal(s[0]);
      if Matches(Star(DIGIT), s) {
        var k :| 0 < k <= |s| && Matches(DIGIT, s[..k]) && Matches(Star(DIGIT), s[k..]);
        assert k == 1;
      }
    }
  }

  lemma PlusOfDigits(s: string)
    ensures Matches(Plus(DIGIT), s) <==> s != [] && AllDecimal(s)
  {
    ClassFirst("0123456789", Star(DIGIT), s);
    if s != [] {
      StarOfDigits(s[1..]);
      assert s == [s[0]] + s[1..];
    }
  }

  /** A concatenation that can only split at `n`. */
  lemma SplitsAt(a: Regex, b: Regex, s: string, n: nat)
    requires n <= |s|
    requires forall k :: 0 <= k <= |s| && Matches(a, s[..k]) && Matches(b, s[k..]) ==> k == n
    ensures Matches(Cat(a, b), s) <==> Matches(a, s[..n]) && Matches(b, s[n..])
  {
  }

  lemma SignLanguage(t: string)
    ensures Matches(Opt(SIGN), t) <==> t == [] || (|t| == 1 && t[0] in "+-")
  {
    assert Matches(SIGN, t) <==> |t| == 1 && t[0] in "+-";
  }

  /** An optional sign before something that cannot start with one, nor be empty. */
  lemma OptionalSign(b: Regex, s: string)
    requires forall t :: Matches(b, t) ==> t != [] && t[0] !in "+-"
    ensures Matches(Cat(Opt(SIGN), b), s) <==> Matches(b, WithoutSign(s))
  {
    var n := if s != [] && s[0] in "+-" then 1 else 0;
    forall k | 0 <= k <= |s| && Matches(Opt(SIGN), s[..k]) && Matches(b, s[k..])
      ensures k == n
    {
      SignLanguage(s[..k]);
      assert k == 0 ==> s[k..] == s;
    }
    SplitsAt(Opt(SIGN), b, s, n);
    SignLanguage(s[..n]);
    assert s[n..] == WithoutSign(s);
  }

  lemma ExponentLanguage(s: string)
    ensures Matches(EXPONENT, s) <==> s != [] && s[0] in "eE" && ExponentOk(s[1..])
  {
    ClassFirst("eE", Cat(Opt(SIGN), Plus(DIGIT)), s);
    if s != [] {
      forall t | Matches(Plus(DIGIT), t)
        ensures t != [] && t[0] !in "+-"
      {
        PlusOfDigits(t);
      }
      OptionalSign(Plus(DIGIT), s[1..]);
      PlusOfDigits(WithoutSign(s[1..]));
    }
  }

  /** The dot of a mantissa with digits before it. */
  lemma FractionLanguage(s: string)
    ensures Matches(Opt(Cat(DOT, Star(DIGIT))), s) <==> s == [] || (s[0] == '.' && AllDecimal(s[1..]))
  {
    ClassFirst(".", Star(DIGIT), s);
    if s != [] {
      StarOfDigits(s[1..]);
    }
  }

  /** Digits before a fraction end at the first dot. */
  lemma WholeEndsAtDot(s: string, k: nat)
    requires k <= |s| && AllDecimal(s[..k])
    requires k == |s| || s[k] == '.'
    ensures k == Find(s, ".", 0)
  {
    assert forall i :: 0 <= i < k ==> IsDecimal(s[..k][i]);
  }

  lemma WholeLanguage(s: string)
    ensures var dot := Find(s, ".", 0);
            Matches(Cat(Plus(DIGIT), Opt(Cat(DOT, Star(DIGIT)))), s) <==>
              dot > 0 && AllDecimal(s[..dot]) && (dot < |s| ==> AllDecimal(s[dot + 1..]))
  {
    var dot := Find(s, ".", 0);
    forall k | 0 <= k <= |s| && Matches(Plus(DIGIT), s[..k]) && Matches(Opt(Cat(DOT, Star(DIGIT))), s[k..])
      ensures k == dot
    {
      PlusOfDigits(s[..k]);
      FractionLanguage(s[k..]);
      WholeEndsAtDot(s, k);
    }
    SplitsAt(Plus(DIGIT), Opt(Cat(DOT, Star(DIGIT))), s, dot);
    PlusOfDigits(s[..dot]);
    FractionLanguage(s[dot..]);
    assert dot < |s| ==> s[dot..][1..] == s[dot + 1..];
  }

  lemma MantissaLanguage(m: string)
    ensures Matches(MANTISSA, m) <==> MantissaOk(m)
  {
    WholeLanguage(m);
    ClassFirst(".", Plus(DIGIT), m);
    if m != [] {
      PlusOfDigits(m[1..]);
      var dot := Find(m, ".", 0);
      assert m[0] == '.' <==> dot == 0;
      assert dot == |m| ==> m[..dot] == m;
    }
  }

  /** Mantissas hold only digits and dots, so they end before the first exponent letter, and start
      with no sign. */
  lemma MantissaChars(m: string)
    requires MantissaOk(m)
    ensures m != [] && m[0] !in "+-" && forall i :: 0 <= i < |m| ==> IsDecimal(m[i]) || m[i] == '.'
  {
    var dot := Find(m, ".", 0);
    forall i | 0 <= i < |m|
      ensures IsDecimal(m[i]) || m[i] == '.'
    {
      if dot < i {
        assert m[i] == m[dot + 1..][i - dot - 1];
      } else if i < dot {
        assert m[i] == m[..dot][i];
      }
    }
  }

  lemma MantissaEndsAtExponent(u: string, k: nat)
    requires k <= |u| && MantissaOk(u[..k])
    requires k == |u| || u[k] in "eE"
    ensures k == Find(u, "eE", 0)
  {
    var m := u[..k];
    MantissaChars(m);
    forall i | 0 <= i < k
      ensures u[i] !in "eE"
    {
      assert u[i] == m[i];
    }
  }

  lemma OptionalExponentLanguage(s: string)
    ensures Matches(Opt(EXPONENT), s) <==> s == [] || (s[0] in "eE" && ExponentOk(s[1..]))
  {
    ExponentLanguage(s);
    assert Matches(Opt(EXPONENT), s) <==> s == [] || Matches(EXPONENT, s);
  }

  /** The unsigned part: a mantissa up to the first exponent letter, then an exponent if there is
      one. */
  lemma UnsignedLanguage(u: string)
    ensures var split := Find(u, "eE", 0);
            Matches(Cat(MANTISSA, Opt(EXPONENT)), u) <==>
              MantissaOk(u[..split]) && (split == |u| || ExponentOk(u[split + 1..]))
  {
    var split := Find(u, "eE", 0);
    forall k | 0 <= k <= |u| && Matches(MANTISSA, u[..k]) && Matches(Opt(EXPONENT), u[k..])
      ensures k == split
    {
      MantissaLanguage(u[..k]);
      OptionalExponentLanguage(u[k..]);
      MantissaEndsAtExponent(u, k);
    }
    SplitsAt(MANTISSA, Opt(EXPONENT), u, split);
    MantissaLanguage(u[..split]);
    OptionalExponentLanguage(u[split..]);
    assert split < |u| ==> u[split..][1..] == u[split + 1..];
  }

  /** The recogniser accepts exactly the language of its regular expression. */
  lemma FloatLanguage(text: string)
    ensures IsYamlFloat(text) <==> Matches(FLOAT, text)
  {
    forall t | Matches(Cat(MANTISSA, Opt(EXPONENT)), t)
      ensures t != [] && t[0] !in "+-"
    {
      UnsignedLanguage(t);
      MantissaChars(t[..Find(t, "eE", 0)]);
    }
    OptionalSign(Cat(MANTISSA, Opt(EXPONENT)), text);
    UnsignedLanguage(WithoutSign(text));
  }

  // ---- What a scalar resolves to ----

  /** The text is a base-0 literal, with an optional sign, that stands for `v` and fits in 64 bits. */
  ghost predicate StandsFor(text: string, v: int) {
    && -9223372036854775808 <= v <= 9223372036854775807
    && exists base, body :: IsLiteral(Unsigned(text), base, body) && v == ValueOf(text, base, body)
  }

  lemma ReadsWhatItStandsFor(plain: string)
    requires '_' !in plain
    ensures forall v :: ParseIntBase0(plain) == Some(v) <==> StandsFor(plain, v)
  {
    ParsersAgree(plain);
    forall v
      ensures ParseIntBase0(plain) == Some(v) <==> StandsFor(plain, v)
    {
      ParsesExactlyTheLiterals(plain, v);
    }
  }

  predicate MayBeNumber(text: string) { text != [] && text[0] in "0123456789+-." }

  lemma NumberStart(text: string)
    ensures MayBeNumber(text) <==> text != [] && (IsDecimal(text[0]) || text[0] in "+-.")
  {
    assert text != [] ==> (text[0] in "0123456789+-." <==> text[0] in "0123456789" || text[0] in "+-.");
  }

  lemma ResolvesByParts(text: string, n: Number)
    ensures ResolveNumber(text) == Some(n) <==>
            && MayBeNumber(text)
            && if n.Int? then ParseIntBase0(Stripped(text)) == Some(n.value)
               else n.text == Stripped(text) && IsYamlFloat(n.text) && ParseIntBase0(n.text).None?
  {
    NumberStart(text);
  }

  /** A scalar that starts with a digit, a sign or a dot is, once its underscores are gone, the integer it
      stands for, and only if it stands for none a float, when it has the form of one. */
  lemma ResolvesExactly(text: string, n: Number)
    ensures ResolveNumber(text) == Some(n) <==>
            && MayBeNumber(text)
            && match n
               case Int(v) => StandsFor(Stripped(text), v)
               case Float(f) => f == Stripped(text) && Matches(FLOAT, f) && forall v :: !StandsFor(f, v)
  {
    ResolvesByParts(text, n);
    NoneLeft(text);
    ReadsWhatItStandsFor(Stripped(text));
    FloatLanguage(Stripped(text));
  }
}
