/**
 * The slice of JavaScript value semantics the request handlers rely on:
 * truthiness, `parseInt(_, 10)` and `parseInt(_)`, `Number(_)` on non-strings, `String(_)`
 * of scalars and the UTF-16 `.length` of strings.
 *
 * Numbers are modelled as unbounded integers plus NaN; fractional numbers,
 * infinities and -0 are not represented.
 */
module Js {
  import opened Opt

  /** A JavaScript number as far as the handlers see it: an integer or NaN. */
  datatype Num = Int(value: int) | NaN

  /** A value read from a parsed JSON request body (`Undefined` for a missing key). */
  datatype Value =
    | Undefined
    | Null
    | Boolean(b: bool)
    | Number(n: Num)
    | String(s: string)
    | Object

  /** JavaScript truthiness: `undefined`, `null`, `false`, `0`, `NaN` and `""` are falsy. */
  predicate Truthy(v: Value) {
    match v
    case Undefined => false
    case Null => false
    case Boolean(b) => b
    case Number(n) => n.Int? && n.value != 0
    case String(s) => s != ""
    case Object => true
  }

  /** The characters `parseInt` skips before the number: WhiteSpace and LineTerminator of ECMA-262. */
  predicate IsWhitespace(c: char) {
    || c == '\t' || c == '\n' || c == '\U{000B}' || c == '\U{000C}' || c == '\r' || c == ' '
    || c == '\U{00A0}' || c == '\U{1680}' || ('\U{2000}' <= c <= '\U{200A}')
    || c == '\U{2028}' || c == '\U{2029}' || c == '\U{202F}' || c == '\U{205F}'
    || c == '\U{3000}' || c == '\U{FEFF}'
  }

  predicate IsDigit(c: char) {
    '0' <= c <= '9'
  }

  predicate AllDigits(s: string) {
    forall i :: 0 <= i < |s| ==> IsDigit(s[i])
  }

  predicate AllWhitespace(s: string) {
    forall i :: 0 <= i < |s| ==> IsWhitespace(s[i])
  }

  function DigitValue(c: char): (d: nat)
    requires IsDigit(c)
    ensures d < 10
  {
    c as int - '0' as int
  }

  function DigitChar(d: nat): (c: char)
    requires d < 10
    ensures IsDigit(c) && DigitValue(c) == d
  {
    ('0' as int + d) as char
  }

  /** The value of a string of decimal digits, most significant first. */
  function DigitsValue(s: string): nat
    requires AllDigits(s)
  {
    if s == [] then 0 else DigitsValue(s[..|s| - 1]) * 10 + DigitValue(s[|s| - 1])
  }

  /** The string left after dropping leading whitespace. */
  function TrimStart(s: string): (r: string)
    ensures |r| <= |s| && r == s[|s| - |r|..]
    ensures AllWhitespace(s[..|s| - |r|])
    ensures r == [] || !IsWhitespace(r[0])
  {
    if s != [] && IsWhitespace(s[0]) then TrimStart(s[1..]) else s
  }

  /** The longest prefix of decimal digits. */
  function LeadingDigits(s: string): (d: string)
    ensures |d| <= |s| && d == s[..|d|] && AllDigits(d)
    ensures |d| == |s| || !IsDigit(s[|d|])
  {
    if s != [] && IsDigit(s[0]) then [s[0]] + LeadingDigits(s[1..]) else []
  }

  /**
   * `parseInt(s, 10)`: skip leading whitespace, read an optional sign, then
   * the longest run of decimal digits; NaN when that run is empty.
   */
  function ParseInt(s: string): Num {
    var t := TrimStart(s);
    var digits := LeadingDigits(Unsigned(t));
    if digits == [] then NaN else Int(Signed(t != [] && t[0] == '-', DigitsValue(digits)))
  }

  predicate IsHexDigit(c: char) {
    IsDigit(c) || 'a' <= c <= 'f' || 'A' <= c <= 'F'
  }

  predicate AllHexDigits(s: string) {
    forall i :: 0 <= i < |s| ==> IsHexDigit(s[i])
  }

  function HexDigitValue(c: char): (d: nat)
    requires IsHexDigit(c)
    ensures d < 16
  {
    if IsDigit(c) then DigitValue(c)
    else if 'a' <= c <= 'f' then c as int - 'a' as int + 10
    else c as int - 'A' as int + 10
  }

  /** The value of a string of hexadecimal digits, most significant first. */
  function HexValue(s: string): nat
    requires AllHexDigits(s)
  {
    if s == [] then 0 else HexValue(s[..|s| - 1]) * 16 + HexDigitValue(s[|s| - 1])
  }

  /** The longest prefix of hexadecimal digits. */
  function LeadingHexDigits(s: string): (d: string)
    ensures |d| <= |s| && d == s[..|d|] && AllHexDigits(d)
    ensures |d| == |s| || !IsHexDigit(s[|d|])
  {
    if s != [] && IsHexDigit(s[0]) then [s[0]] + LeadingHexDigits(s[1..]) else []
  }

  /** After whitespace and an optional sign, the text starts with `0x` or `0X`. */
  predicate HexPrefixed(unsigned: string) {
    |unsigned| >= 2 && unsigned[0] == '0' && (unsigned[1] == 'x' || unsigned[1] == 'X')
  }

  /**
   * `parseInt(s)` without a radix: as `parseInt(s, 10)`, except that a
   * `0x` or `0X` after the optional sign switches to hexadecimal digits,
   * and NaN when no hexadecimal digit follows it.
   */
  function ParseIntAuto(s: string): (n: Num)
    ensures !HexPrefixed(Unsigned(TrimStart(s))) ==> n == ParseInt(s)
  {
    var t := TrimStart(s);
    var unsigned := Unsigned(t);
    if HexPrefixed(unsigned) then
      var hex := LeadingHexDigits(unsigned[2..]);
      if hex == [] then NaN else Int(Signed(t[0] == '-', HexValue(hex)))
    else ParseInt(s)
  }

  /** The text after an optional leading sign. */
  function Unsigned(t: string): string {
    if t != [] && (t[0] == '-' || t[0] == '+') then t[1..] else t
  }

  function Signed(negative: bool, magnitude: nat): int {
    if negative then -(magnitude as int) else magnitude
  }

  /** The shortest decimal spelling of a natural number, as `String(n)` prints it. */
  function NatToDecimal(n: nat): (s: string)
    ensures s != [] && AllDigits(s)
  {
    if n < 10 then [DigitChar(n)] else NatToDecimal(n / 10) + [DigitChar(n % 10)]
  }

  /** `String(n)` for an integer-valued number. */
  function IntToDecimal(n: int): (s: string)
    ensures s != []
  {
    if n < 0 then "-" + NatToDecimal(-n) else NatToDecimal(n)
  }

  /** `String(v)` for the scalar values, which is also how Mongoose casts them into a String path. */
  function CastToString(v: Value): (r: Option<string>)
    ensures r.Some? <==> (v.Boolean? || v.Number? || v.String?)
    ensures v.String? ==> r == Some(v.s)
  {
    match v
    case String(s) => Some(s)
    case Number(n) => Some(if n.NaN? then "NaN" else IntToDecimal(n.value))
    case Boolean(b) => Some(if b then "true" else "false")
    case _ => None
  }

  /** The number of UTF-16 code units of `s`: what JavaScript's `.length` counts. */
  function Utf16Length(s: string): nat {
    if s == [] then 0
    else Utf16Length(s[..|s| - 1]) + (if s[|s| - 1] as int >= 0x1_0000 then 2 else 1)
  }

  /** `.length` of a value: defined for strings, `undefined` for the other truthy scalars. */
  function JsLength(v: Value): Option<nat> {
    if v.String? then Some(Utf16Length(v.s)) else None
  }

  /** `v.length < n`, where a comparison against `undefined` is false. */
  predicate ShorterThan(v: Value, n: nat) {
    var len := JsLength(v);
    len.Some? && len.value < n
  }

  // ---------------------------------------------------------------------
  // Properties

  /** A string's UTF-16 length lies between its length in code points and twice that. */
  lemma {:induction false} Utf16LengthBounds(s: string)
    ensures |s| <= Utf16Length(s) <= 2 * |s|
  {
    if s != [] {
      Utf16LengthBounds(s[..|s| - 1]);
    }
  }

  /**
   * A string of at least `n` characters is never shorter than `n` in
   * `.length`, and one of fewer than `n / 2` characters always is.
   */
  lemma ShorterThanBounds(s: string, n: nat)
    ensures n <= |s| ==> !ShorterThan(String(s), n)
    ensures 2 * |s| < n ==> ShorterThan(String(s), n)
  {
    Utf16LengthBounds(s);
  }

  /** `NatToDecimal` is read back by `DigitsValue`. */
  lemma {:induction false} DigitsValueOfDecimal(n: nat)
    ensures DigitsValue(NatToDecimal(n)) == n
  {
    if n >= 10 {
      DigitsValueOfDecimal(n / 10);
      var s := NatToDecimal(n);
      assert s[..|s| - 1] == NatToDecimal(n / 10);
    }
  }

  lemma {:induction false} TrimStartNoop(s: string)
    requires s == [] || !IsWhitespace(s[0])
    ensures TrimStart(s) == s
  {
  }

  lemma {:induction false} TrimStartSkips(ws: string, s: string)
    requires AllWhitespace(ws)
    requires s == [] || !IsWhitespace(s[0])
    ensures TrimStart(ws + s) == s
  {
    if ws != [] {
      assert (ws + s)[1..] == ws[1..] + s;
      TrimStartSkips(ws[1..], s);
    }
  }

  lemma {:induction false} LeadingDigitsOf(d: string, rest: string)
    requires AllDigits(d)
    requires rest == [] || !IsDigit(rest[0])
    ensures LeadingDigits(d + rest) == d
  {
    if d != [] {
      assert (d + rest)[1..] == d[1..] + rest;
      LeadingDigitsOf(d[1..], rest);
    }
  }

  /**
   * `parseInt` reads whitespace, an optional sign and a run of digits, and
   * ignores whatever follows the digits: `parseInt("3abc", 10) == 3`.
   */
  lemma ParseIntReads(ws: string, sign: string, digits: string, rest: string)
    requires AllWhitespace(ws)
    requires sign == "" || sign == "+" || sign == "-"
    requires digits != [] && AllDigits(digits)
    requires rest == [] || !IsDigit(rest[0])
    ensures ParseInt(ws + sign + digits + rest) == Int(Signed(sign == "-", DigitsValue(digits)))
  {
    var u := digits + rest;
    var t := sign + u;
    assert ws + sign + digits + rest == ws + t;
    assert IsDigit(u[0]);
    TrimStartSkips(ws, t);
    UnsignedAfterSign(sign, u);
    LeadingDigitsOf(digits, rest);
  }

  /** Removing the optional sign in front of a text that starts with a digit leaves that text. */
  lemma UnsignedAfterSign(sign: string, u: string)
    requires sign == "" || sign == "+" || sign == "-"
    requires u != [] && IsDigit(u[0])
    ensures Unsigned(sign + u) == u
    ensures (sign + u)[0] == '-' <==> sign == "-"
  {
    if sign != "" {
      assert (sign + u)[1..] == u;
    }
  }

  /** Without a digit after the optional sign, `parseInt` is NaN: `parseInt("abc", 10)` is NaN. */
  lemma ParseIntNaN(ws: string, sign: string, rest: string)
    requires AllWhitespace(ws)
    requires sign == "" || sign == "+" || sign == "-"
    requires rest == [] || (!IsDigit(rest[0]) && (sign != "" || (!IsWhitespace(rest[0]) && rest[0] != '+' && rest[0] != '-')))
    ensures ParseInt(ws + sign + rest) == NaN
  {
    var t := sign + rest;
    assert ws + sign + rest == ws + t;
    assert TrimStart(ws + t) == t by {
      TrimStartSkips(ws, t);
    }
    assert Unsigned(t) == rest by {
      if sign != "" {
        assert t[1..] == rest;
      }
    }
    assert LeadingDigits(rest) == [];
  }

  /** A run of digits reads back as its value. */
  lemma ParseIntOfDigits(digits: string)
    requires digits != [] && AllDigits(digits)
    ensures ParseInt(digits) == Int(DigitsValue(digits))
  {
    assert IsDigit(digits[0]);
    TrimStartNoop(digits);
    assert Unsigned(digits) == digits;
    LeadingDigitsOf(digits, []);
    assert digits + [] == digits;
  }

  /** A minus sign and a run of digits read back as the negated value. */
  lemma ParseIntOfNegative(digits: string)
    requires digits != [] && AllDigits(digits)
    ensures ParseInt("-" + digits) == Int(-(DigitsValue(digits) as int))
  {
    var s := "-" + digits;
    assert s[0] == '-' && s[1..] == digits;
    TrimStartNoop(s);
    assert Unsigned(s) == digits;
    LeadingDigitsOf(digits, []);
    assert digits + [] == digits;
    assert LeadingDigits(digits) == digits;
  }

  /** `parseInt("0x10")` is 16: without a radix the handlers accept hexadecimal. */
  lemma ParseIntAutoHex()
    ensures ParseIntAuto("0x10") == Int(16)
  {
    var s := "0x10";
    TrimStartNoop(s);
    assert Unsigned(s) == s;
    assert s[2..] == "10";
    assert LeadingHexDigits("10") == "10" by {
      assert LeadingHexDigits("") == "";
      assert "10"[1..] == "0";
      assert LeadingHexDigits("0") == "0";
    }
    assert HexValue("10") == HexValue("1") * 16 + HexDigitValue('0');
    assert "10"[..1] == "1";
  }

  /** `parseInt(String(n), 10) == n` for every integer `n`. */
  lemma ParseIntOfDecimal(n: int)
    ensures ParseInt(IntToDecimal(n)) == Int(n)
  {
    if n < 0 {
      DigitsValueOfDecimal(-n);
      ParseIntOfNegative(NatToDecimal(-n));
    } else {
      DigitsValueOfDecimal(n);
      ParseIntOfDigits(NatToDecimal(n));
    }
  }

  /** Decimal spellings never look hexadecimal, so `parseInt(String(n)) == n` as well. */
  lemma ParseIntAutoOfDecimal(n: int)
    ensures ParseIntAuto(IntToDecimal(n)) == Int(n)
  {
    DecimalNotHex(n);
    ParseIntOfDecimal(n);
  }

  /** After its optional minus sign, a decimal spelling is all digits, so it has no `0x` prefix. */
  lemma DecimalNotHex(n: int)
    ensures !HexPrefixed(Unsigned(TrimStart(IntToDecimal(n))))
  {
    var s := IntToDecimal(n);
    var digits := NatToDecimal(if n < 0 then -n else n);
    if n < 0 {
      assert s[0] == '-' && s[1..] == digits;
    } else {
      assert s == digits && IsDigit(s[0]);
    }
    TrimStartNoop(s);
    assert Unsigned(s) == digits;
    if |digits| >= 2 {
      assert IsDigit(digits[1]);
    }
  }
}
