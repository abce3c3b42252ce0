/**
 * The few pieces of JavaScript value semantics that the cell editors rely on:
 * truthiness and `||`, ToString, Number(s) on strings, loose `==`, `parseInt`
 * and `isNaN`, and the way jQuery's `.val(v)` turns a value into control text.
 *
 * Numbers are exact integers, a number being modelled as an `int`; what
 * that leaves out (fractions, NaN and the infinities as stored values,
 * IEEE-754 rounding, the exponent form of very large numbers) is listed in the
 * README under "Numbers in general are exact integers".
 */
module JsValues {

  datatype Option<T> = None | Some(value: T)

  /** A JavaScript value as it can appear in a row item. */
  datatype JsValue = Undefined | Null | Bool(b: bool) | Num(n: int) | Str(s: string)

  /** `v == null` in JavaScript. */
  predicate IsNullish(v: JsValue) {
    v.Undefined? || v.Null?
  }

  /** ToBoolean: the values `if (v)` takes as true. */
  predicate Truthy(v: JsValue)
    ensures Truthy(v) <==> !(IsNullish(v) || v == Bool(false) || v == Num(0) || v == Str(""))
  {
    match v
    case Undefined => false
    case Null => false
    case Bool(b) => b
    case Num(n) => n != 0
    case Str(s) => s != ""
  }

  /** `a || b`: a when it is truthy, else b; truthy exactly when one of them is. */
  function Or(a: JsValue, b: JsValue): (r: JsValue)
    ensures r == a || r == b
    ensures Truthy(a) ==> r == a
    ensures !Truthy(a) ==> r == b
    ensures Truthy(r) <==> Truthy(a) || Truthy(b)
  {
    if Truthy(a) then a else b
  }

  // ---------------------------------------------------------------------------
  // Digits

  /** The value of `c` as a digit in any base up to 36; 36 when `c` is no digit. */
  function DigitValue(c: char): nat {
    if '0' <= c <= '9' then c as int - '0' as int
    else if 'a' <= c <= 'z' then c as int - 'a' as int + 10
    else if 'A' <= c <= 'Z' then c as int - 'A' as int + 10
    else 36
  }

  function DigitChar(d: nat): (c: char)
    requires d < 10
    ensures DigitValue(c) == d
  {
    ('0' as int + d) as char
  }

  /** Length of the longest prefix of `s` made of digits of base `radix`. */
  function DigitPrefix(s: string, radix: nat): (k: nat)
    ensures k <= |s|
    ensures forall i :: 0 <= i < k ==> DigitValue(s[i]) < radix
    ensures k < |s| ==> DigitValue(s[k]) >= radix
  {
    if s == [] || DigitValue(s[0]) >= radix then 0 else 1 + DigitPrefix(s[1..], radix)
  }

  /** The number a string of digits denotes in base `radix`, most significant first. */
  function DigitsValue(s: string, radix: nat): nat {
    if s == [] then 0 else DigitsValue(s[..|s| - 1], radix) * radix + DigitValue(s[|s| - 1])
  }

  // ---------------------------------------------------------------------------
  // ToString

  /** Number.prototype.toString() of a natural number: decimal digits, no leading zero. */
  function NatString(n: nat): (s: string)
    ensures |s| > 0
    ensures forall i :: 0 <= i < |s| ==> '0' <= s[i] <= '9'
    ensures s[0] == '0' ==> s == "0"
  {
    if n < 10 then [DigitChar(n)] else NatString(n / 10) + [DigitChar(n % 10)]
  }

  /** Number.prototype.toString() of an integer. */
  function DecimalString(n: int): string {
    if n < 0 then "-" + NatString(-n) else NatString(n)
  }

  /** ToString: a string is itself, and a number's text converts back to that number. */
  function ToString(v: JsValue): (r: string)
    ensures v.Str? ==> r == v.s
    ensures v.Num? ==> r == DecimalString(v.n) && ToNumber(r) == Integral(v.n)
    ensures v.Bool? ==> r == (if v.b then "true" else "false")
  {
    match v
    case Undefined => "undefined"
    case Null => "null"
    case Bool(b) => if b then "true" else "false"
    case Num(n) => ToNumberDecimal(n); DecimalString(n)
    case Str(s) => s
  }

  /** The text jQuery's `.val(v)` puts into an input: `null` and `undefined` become "". */
  function ControlText(v: JsValue): (r: string)
    ensures IsNullish(v) ==> r == ""
    ensures v.Str? ==> r == v.s
    ensures v.Num? ==> r == DecimalString(v.n)
  {
    if IsNullish(v) then "" else ToString(v)
  }

  // ---------------------------------------------------------------------------
  // Number(s)

  /** WhiteSpace and LineTerminator characters, which ToNumber and parseInt trim. */
  predicate IsWhite(c: char) {
    c == '\t' || c == '\n' || c == '\U{000B}' || c == '\U{000C}' || c == '\r' || c == ' '
    || c == '\U{00A0}' || c == '\U{1680}' || ('\U{2000}' <= c <= '\U{200A}')
    || c == '\U{2028}' || c == '\U{2029}' || c == '\U{202F}' || c == '\U{205F}'
    || c == '\U{3000}' || c == '\U{FEFF}'
  }

  function TrimStart(s: string): string {
    if s != [] && IsWhite(s[0]) then TrimStart(s[1..]) else s
  }

  function TrimEnd(s: string): string {
    if s != [] && IsWhite(s[|s| - 1]) then TrimEnd(s[..|s| - 1]) else s
  }

  function Trim(s: string): string {
    TrimEnd(TrimStart(s))
  }

  /**
   * The outcome of ToNumber, as far as comparison with integers is concerned:
   * NaN, an integer, a finite number that is not an integer, or an infinity.
   */
  datatype NumberValue = NaN | Integral(i: int) | Fractional | Infinite

  function Pow10(e: nat): (p: nat)
    ensures p >= 1
  {
    if e == 0 then 1 else 10 * Pow10(e - 1)
  }

  /** The value `m * 10^p`, negated when `negative`. */
  function Scaled(m: nat, p: int, negative: bool): NumberValue {
    var sign := if negative then -1 else 1;
    if p >= 0 then Integral(sign * (m * Pow10(p)))
    else if m % Pow10(-p) == 0 then Integral(sign * (m / Pow10(-p)))
    else Fractional
  }

  /** The exponent part `(e|E) [+|-] digits` that ends a decimal literal; "" means 0. */
  function ExponentOf(tail: string): Option<int> {
    if tail == [] then Some(0)
    else if tail[0] != 'e' && tail[0] != 'E' then None
    else
      var v := tail[1..];
      var negative := |v| > 0 && v[0] == '-';
      var w := if |v| > 0 && (v[0] == '-' || v[0] == '+') then v[1..] else v;
      if |w| > 0 && DigitPrefix(w, 10) == |w| then
        var e: int := DigitsValue(w, 10);
        Some(if negative then -e else e)
      else None
  }

  /** StrUnsignedDecimalLiteral: `Infinity`, or digits with an optional fraction and exponent. */
  function UnsignedDecimal(u: string, negative: bool): NumberValue {
    if u == "Infinity" then Infinite
    else
      var a := DigitPrefix(u, 10);
      var rest := u[a..];
      var hasDot := |rest| > 0 && rest[0] == '.';
      var afterDot := if hasDot then rest[1..] else rest;
      var f := if hasDot then DigitPrefix(afterDot, 10) else 0;
      if a + f == 0 then NaN
      else match ExponentOf(afterDot[f..])
        case None => NaN
        case Some(e) => Scaled(DigitsValue(u[..a] + afterDot[..f], 10), e - f, negative)
  }

  /** Number(s): the StringNumericLiteral grammar; blank strings are 0. */
  function ToNumber(s: string): (r: NumberValue)
    ensures Trim(s) == [] ==> r == Integral(0)
  {
    var t := Trim(s);
    if t == [] then Integral(0)
    else if |t| > 2 && t[0] == '0' && t[1] in "xXoObB" then
      var radix := if t[1] in "xX" then 16 else if t[1] in "oO" then 8 else 2;
      if DigitPrefix(t[2..], radix) == |t| - 2 then Integral(DigitsValue(t[2..], radix)) else NaN
    else if t[0] == '-' || t[0] == '+' then UnsignedDecimal(t[1..], t[0] == '-')
    else UnsignedDecimal(t, false)
  }

  /** ToNumber on any value. */
  function ToNumberOf(v: JsValue): NumberValue {
    match v
    case Undefined => NaN
    case Null => Integral(0)
    case Bool(b) => Integral(if b then 1 else 0)
    case Num(n) => Integral(n)
    case Str(s) => ToNumber(s)
  }

  /** `isNaN(s)`: Number(s) is NaN. */
  predicate IsNaN(s: string)
    ensures Trim(s) == [] ==> !IsNaN(s)
  {
    ToNumber(s).NaN?
  }

  // ---------------------------------------------------------------------------
  // Loose equality

  predicate SameType(a: JsValue, b: JsValue) {
    (a.Bool? && b.Bool?) || (a.Num? && b.Num?) || (a.Str? && b.Str?)
  }

  /**
   * The Abstract Equality Comparison `a == b` (so `a != b` is its negation):
   * null and undefined equal each other and nothing else, values of one type
   * are equal when identical, and every value equals itself.
   */
  predicate LooseEq(a: JsValue, b: JsValue)
    ensures IsNullish(a) ==> (LooseEq(a, b) <==> IsNullish(b))
    ensures SameType(a, b) ==> (LooseEq(a, b) <==> a == b)
    ensures a == b ==> LooseEq(a, b)
  {
    if IsNullish(a) || IsNullish(b) then IsNullish(a) && IsNullish(b)
    else if SameType(a, b) then a == b
    else
      var x, y := ToNumberOf(a), ToNumberOf(b);
      x.Integral? && y.Integral? && x.i == y.i
  }

  // ---------------------------------------------------------------------------
  // parseInt

  /**
   * `parseInt(s, 10)` when `detectHex` is false, and `parseInt(s)` without a
   * radix when it is true (then a leading `0x` or `0X` selects base 16).
   * None stands for NaN.
   */
  function ParseInt(s: string, detectHex: bool): (r: Option<int>)
    ensures TrimStart(s) == [] ==> r.None?
    ensures r.Some? && r.value < 0 ==> TrimStart(s) != [] && TrimStart(s)[0] == '-'
  {
    var t := TrimStart(s);
    if |t| > 0 && t[0] == '-' then
      match ParseUnsigned(t[1..], detectHex)
      case None => None
      case Some(m) => Some(-(m as int))
    else if |t| > 0 && t[0] == '+' then ParseUnsigned(t[1..], detectHex)
    else ParseUnsigned(t, detectHex)
  }

  /** The digits parseInt reads after the sign; a `0x` prefix selects base 16 when detecting. */
  function ParseUnsigned(u: string, detectHex: bool): Option<nat> {
    var hex := detectHex && |u| >= 2 && u[0] == '0' && (u[1] == 'x' || u[1] == 'X');
    var radix := if hex then 16 else 10;
    var w := if hex then u[2..] else u;
    var k := DigitPrefix(w, radix);
    if k == 0 then None else Some(DigitsValue(w[..k], radix))
  }

  /** `parseInt(s, 10) || 0`: NaN (and -0) collapse to 0. */
  function ParseIntOrZero(s: string): (r: int)
    ensures ParseInt(s, false).None? ==> r == 0
    ensures ParseInt(s, false).Some? ==> r == ParseInt(s, false).value
    ensures r != 0 ==> ParseInt(s, false) == Some(r)
  {
    match ParseInt(s, false)
    case None => 0
    case Some(k) => k
  }

  // ---------------------------------------------------------------------------
  // Lemmas

  /** Reading back the decimal digits of n gives n. */
  lemma {:induction false} NatStringValue(n: nat)
    ensures DigitsValue(NatString(n), 10) == n
  {
    var s := NatString(n);
    if n < 10 {
      assert s[..0] == [];
    } else {
      NatStringValue(n / 10);
      assert s[..|s| - 1] == NatString(n / 10);
    }
  }

  /** Every digit of a digit-only string is part of its digit prefix. */
  lemma AllDigitsPrefix(s: string)
    requires forall i :: 0 <= i < |s| ==> '0' <= s[i] <= '9'
    ensures DigitPrefix(s, 10) == |s|
  {
  }

  lemma DecimalStringShape(n: int)
    ensures |DecimalString(n)| > 0
    ensures !IsWhite(DecimalString(n)[0]) && !IsWhite(DecimalString(n)[|DecimalString(n)| - 1])
    ensures Trim(DecimalString(n)) == DecimalString(n)
  {
    var d := DecimalString(n);
    var m := if n < 0 then -n else n;
    assert d[|d| - 1] == NatString(m)[|NatString(m)| - 1];
  }

  /** Number(String(n)) is n: the decimal form of an integer reads back exactly. */
  lemma ToNumberDecimal(n: int)
    ensures ToNumber(DecimalString(n)) == Integral(n)
  {
    var t := DecimalString(n);
    DecimalStringShape(n);
    var m: nat := if n < 0 then -n else n;
    var u := NatString(m);
    NatStringValue(m);
    AllDigitsPrefix(u);
    UnsignedDigitsScaled(u, n < 0);
    ScaledByOne(m, n < 0);
    if n < 0 {
      assert t[1..] == u;
    } else {
      assert t == u;
    }
  }

  /** A plain run of decimal digits denotes its digit value, scaled by 10^0. */
  lemma UnsignedDigitsScaled(u: string, negative: bool)
    requires |u| > 0 && forall i :: 0 <= i < |u| ==> '0' <= u[i] <= '9'
    ensures UnsignedDecimal(u, negative) == Scaled(DigitsValue(u, 10), 0, negative)
  {
    AllDigitsPrefix(u);
    assert u != "Infinity" by { assert '0' <= u[0] <= '9'; }
    var rest := u[|u|..];
    assert rest == [];
    assert u[..|u|] + rest[..0] == u;
    assert ExponentOf(rest[0..]) == Some(0);
  }

  lemma ScaledByOne(m: nat, negative: bool)
    ensures Scaled(m, 0, negative) == Integral(if negative then -(m as int) else m)
  {
    assert Pow10(0) == 1;
  }

  /** parseInt(String(n)) is n, with base 10 or with base detection. */
  lemma ParseIntDecimal(n: int, detectHex: bool)
    ensures ParseInt(DecimalString(n), detectHex) == Some(n)
  {
    var m: nat := if n < 0 then -n else n;
    var u := NatString(m);
    NatStringValue(m);
    UnsignedDigits(u, detectHex);
    var t := DecimalString(n);
    if n < 0 {
      SignedTrimmed(u);
      assert t[0] == '-' && t[1..] == u;
      assert '0' <= u[0] <= '9';
      ParseIntNegative(t, detectHex);
    }
    assert '0' <= u[0] <= '9';
    assert TrimStart(u) == u;
  }

  /**
   * A minus sign directly in front of text that starts with neither white
   * space nor a sign negates what parseInt reads from that text.
   */
  lemma ParseIntNegative(t: string, detectHex: bool)
    requires |t| > 0 && t[0] == '-'
    requires |t| > 1 ==> !IsWhite(t[1]) && t[1] != '-' && t[1] != '+'
    ensures ParseInt(t, detectHex) ==
              match ParseInt(t[1..], detectHex) case None => None case Some(m) => Some(-m)
  {
    assert TrimStart(t) == t;
    var u := t[1..];
    assert TrimStart(u) == u;
  }

  lemma SignedTrimmed(u: string)
    ensures TrimStart("-" + u) == "-" + u
    ensures ("-" + u)[0] == '-' && ("-" + u)[1..] == u
  {
    var t := "-" + u;
    assert t[0] == '-';
    assert t[1..] == u;
  }

  lemma UnsignedDigits(u: string, detectHex: bool)
    requires |u| > 0 && forall i :: 0 <= i < |u| ==> '0' <= u[i] <= '9'
    ensures ParseUnsigned(u, detectHex) == Some(DigitsValue(u, 10))
  {
    assert !(|u| >= 2 && u[1] == 'x') && !(|u| >= 2 && u[1] == 'X');
    AllDigitsPrefix(u);
    assert u[..|u|] == u;
  }

  /** `String(n) == n` holds loosely, in both orders. */
  lemma LooseEqDecimal(n: int)
    ensures LooseEq(Str(DecimalString(n)), Num(n))
    ensures LooseEq(Num(n), Str(DecimalString(n)))
  {
    ToNumberDecimal(n);
  }

  /**
   * A non-empty word of lower-case letters ("true", "false", "yes", "no", ...)
   * is not a number, and parseInt finds no digits in it.
   */
  lemma LowerCaseWordIsNaN(s: string, detectHex: bool)
    requires |s| > 0
    requires forall i :: 0 <= i < |s| ==> 'a' <= s[i] <= 'z'
    ensures ToNumber(s) == NaN
    ensures ParseInt(s, detectHex) == None
  {
    assert TrimStart(s) == s;
    assert TrimEnd(s) == s;
    assert Trim(s) == s;
    assert s != "Infinity" by { assert s[0] != 'I'; }
    assert DigitPrefix(s, 10) == 0;
  }

  /** Number("0x10") is 16: the StringNumericLiteral grammar reads hexadecimal. */
  lemma HexTextNumber()
    ensures ToNumber("0x10") == Integral(16)
  {
    var s := "0x10";
    assert TrimStart(s) == s;
    assert TrimEnd(s) == s;
    assert Trim(s) == s;
    assert s[1] in "xXoObB";
    assert s[2..] == "10";
    assert DigitPrefix("10", 16) == 2;
    assert DigitsValue("1", 16) == 1;
    assert DigitsValue("10", 16) == 16;
  }

  /** Number("1.5") is a number, but not an integer. */
  lemma FractionTextNumber()
    ensures ToNumber("1.5") == Fractional
  {
    var s := "1.5";
    assert TrimStart(s) == s;
    assert TrimEnd(s) == s;
    assert Trim(s) == s;
    PlainDecimalNumber(s);
    FractionDecimal();
  }

  /** A trimmed string that starts with a non-zero digit is read as an unsigned decimal literal. */
  lemma PlainDecimalNumber(s: string)
    requires Trim(s) == s && |s| > 0 && '1' <= s[0] <= '9'
    ensures ToNumber(s) == UnsignedDecimal(s, false)
  {
  }

  lemma FractionDecimal()
    ensures UnsignedDecimal("1.5", false) == Fractional
  {
    var s := "1.5";
    assert DigitPrefix(s, 10) == 1;
    assert s[1..] == ".5";
    assert DigitPrefix("5", 10) == 1;
    assert ExponentOf([]) == Some(0);
    assert s[..1] + "5" == "15";
    assert DigitsValue("1", 10) == 1;
    assert DigitsValue("15", 10) == 15;
    assert Scaled(15, -1, false) == Fractional;
  }

  /** parseInt with radix 10 stops at the first character that is no decimal digit. */
  lemma ParseIntStopsAtDot()
    ensures ParseInt("1.5", false) == Some(1)
  {
    assert TrimStart("1.5") == "1.5";
    assert DigitPrefix("1.5", 10) == 1;
    assert "1.5"[..1] == "1";
    assert DigitsValue("1", 10) == 1;
  }

  lemma ParseIntStopsAtX()
    ensures ParseInt("0x10", false) == Some(0)
  {
    assert TrimStart("0x10") == "0x10";
    assert DigitPrefix("0x10", 10) == 1;
    assert "0x10"[..1] == "0";
    assert DigitsValue("0", 10) == 0;
  }
}
