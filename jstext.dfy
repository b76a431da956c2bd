/** The pieces of JavaScript string semantics the portal relies on: the
    whitespace class `\s`, `Array.prototype.join`, `String.prototype.length`
    and global `parseInt` (without a radix argument). `parseInt` yields the
    exact integer its digits denote; the rounding of a JavaScript Number
    above 2^53 is not modelled. */
module JsText {
  import opened Types

  /** ECMAScript WhiteSpace and LineTerminator code points: the characters
      `\s` matches in a regular expression and `parseInt` skips. */
  predicate IsWhitespace(c: char) {
    var n := c as int;
    n == 0x09 || n == 0x0A || n == 0x0B || n == 0x0C || n == 0x0D || n == 0x20
    || n == 0xA0 || n == 0x1680 || (0x2000 <= n <= 0x200A)
    || n == 0x2028 || n == 0x2029 || n == 0x202F || n == 0x205F
    || n == 0x3000 || n == 0xFEFF
  }

  /** `parts.join(sep)`. */
  function Join(parts: seq<string>, sep: string): string {
    if |parts| == 0 then ""
    else if |parts| == 1 then parts[0]
    else parts[0] + sep + Join(parts[1..], sep)
  }

  /** A character outside the Basic Multilingual Plane, which UTF-16 stores
      as a surrogate pair. */
  predicate IsAstral(c: char) { c as int >= 0x10000 }

  /** `s.length`: the number of UTF-16 code units, one per character of the
      Basic Multilingual Plane and two per character beyond it. */
  function Utf16Length(s: string): (n: nat)
    ensures |s| <= n <= 2 * |s|
  {
    if |s| == 0 then 0 else (if IsAstral(s[0]) then 2 else 1) + Utf16Length(s[1..])
  }

  /** `s.length` equals the number of characters exactly when none of them
      needs a surrogate pair, and doubles it exactly when all of them do. */
  lemma {:induction false} Utf16LengthCounts(s: string)
    ensures Utf16Length(s) == |s| <==> forall i | 0 <= i < |s| :: !IsAstral(s[i])
    ensures Utf16Length(s) == 2 * |s| <==> forall i | 0 <= i < |s| :: IsAstral(s[i])
  {
    if |s| > 0 {
      Utf16LengthCounts(s[1..]);
      assert forall i | 1 <= i < |s| :: s[i] == s[1..][i - 1];
    }
  }

  /** The input of `parseInt` with its leading whitespace removed. */
  function TrimStart(s: string): (r: string)
    ensures |r| <= |s| && r == s[|s| - |r|..]
    ensures r == [] || !IsWhitespace(r[0])
    ensures forall i | 0 <= i < |s| - |r| :: IsWhitespace(s[i])
  {
    if |s| > 0 && IsWhitespace(s[0]) then TrimStart(s[1..]) else s
  }

  /** The value of `c` as a base-36 digit: '0'-'9', then 'a'-'z' or 'A'-'Z'. */
  function DigitValue(c: char): (d: Option<nat>)
    ensures d.Some? ==> d.value < 36
    ensures '0' <= c <= '9' ==> d == Some(c as int - '0' as int)
  {
    if '0' <= c <= '9' then Some(c as int - '0' as int)
    else if 'a' <= c <= 'z' then Some(c as int - 'a' as int + 10)
    else if 'A' <= c <= 'Z' then Some(c as int - 'A' as int + 10)
    else None
  }

  predicate IsRadixDigit(c: char, radix: nat) {
    DigitValue(c).Some? && DigitValue(c).value < radix
  }

  predicate AllRadixDigits(s: string, radix: nat) {
    forall i | 0 <= i < |s| :: IsRadixDigit(s[i], radix)
  }

  /** The length of the longest prefix of `s` made of digits of `radix`. */
  function DigitRun(s: string, radix: nat): (n: nat)
    ensures n <= |s|
    ensures AllRadixDigits(s[..n], radix)
    ensures n == |s| || !IsRadixDigit(s[n], radix)
  {
    if |s| > 0 && IsRadixDigit(s[0], radix) then
      var n := 1 + DigitRun(s[1..], radix);
      assert s[..n] == [s[0]] + s[1..][..n - 1];
      n
    else 0
  }

  /** The number the digits of `s` denote, most significant digit first. */
  function DigitsValue(s: string, radix: nat): nat
    requires AllRadixDigits(s, radix)
  {
    if |s| == 0 then 0
    else DigitsValue(s[..|s| - 1], radix) * radix + DigitValue(s[|s| - 1]).value
  }

  /** The magnitude `parseInt` reads after the sign: base 16 after a
      "0x"/"0X" prefix and base 10 otherwise, up to the first non-digit;
      `None` when no digit is there. */
  function ParseMagnitude(u: string): Option<nat> {
    var hex := |u| >= 2 && u[0] == '0' && (u[1] == 'x' || u[1] == 'X');
    var radix := if hex then 16 else 10;
    var v := if hex then u[2..] else u;
    var n := DigitRun(v, radix);
    if n == 0 then None else Some(DigitsValue(v[..n], radix))
  }

  /** Global `parseInt(s)` with no radix: skip leading whitespace, take an
      optional sign, then read the magnitude. `None` stands for `NaN`, which
      is what `parseInt` gives when no digit follows. The result is the exact
      integer, which a JavaScript Number equals for magnitudes below 2^53. */
  function ParseInt(s: string): Option<int> {
    var t := TrimStart(s);
    var signed := |t| > 0 && (t[0] == '-' || t[0] == '+');
    match ParseMagnitude(if signed then t[1..] else t)
    case None => None
    case Some(m) =>
      var k: int := m;
      Some(if signed && t[0] == '-' then -k else k)
  }

  function DigitChar(d: nat): (c: char)
    requires d < 10
    ensures '0' <= c <= '9' && DigitValue(c) == Some(d)
  {
    ('0' as int + d) as char
  }

  /** The decimal numeral of `n` with no leading zero. */
  function NatDigits(n: nat): (s: string)
    ensures 1 <= |s|
    ensures AllRadixDigits(s, 10)
    ensures n < 10 ==> |s| == 1
    ensures n >= 10 ==> s[0] != '0'
  {
    if n < 10 then [DigitChar(n)] else NatDigits(n / 10) + [DigitChar(n % 10)]
  }

  /** `String(n)` for an integer `n`: how the proxy writes a numeric user id
      into the `x-user-id` header. */
  function DecimalString(n: int): string {
    if n < 0 then "-" + NatDigits(-n) else NatDigits(n)
  }

  lemma {:induction false} NatDigitsValue(n: nat)
    ensures DigitsValue(NatDigits(n), 10) == n
  {
    if n >= 10 {
      var s := NatDigits(n);
      assert s[..|s| - 1] == NatDigits(n / 10);
      NatDigitsValue(n / 10);
    }
  }

  /** `parseInt` reads back every integer that `String` writes. */
  lemma ParseIntDecimalString(n: int)
    ensures ParseInt(DecimalString(n)) == Some(n)
  {
    var s := DecimalString(n);
    var m: nat := if n < 0 then -n else n;
    var d := NatDigits(m);
    assert !IsWhitespace(s[0]);
    assert TrimStart(s) == s;
    assert (if n < 0 then s[1..] else s) == d;
    assert DigitRun(d, 10) == |d|;
    assert d[..|d|] == d;
    NatDigitsValue(m);
    assert ParseMagnitude(d) == Some(m);
  }

  /** Text that starts with a non-blank character is not trimmed. */
  lemma TrimStartNonBlank(s: string)
    requires s != [] && !IsWhitespace(s[0])
    ensures TrimStart(s) == s
  {
  }

  lemma HexMagnitude()
    ensures ParseMagnitude("0x1A") == Some(26)
  {
    var v := "1A";
    assert DigitRun("", 16) == 0;
    assert DigitRun(v[1..], 16) == 1;
    assert DigitRun(v, 16) == 2;
    assert v[..2] == v && v[..1] == "1" && "1"[..0] == "";
    assert DigitsValue(v, 16) == 26;
    assert "0x1A"[2..] == v;
  }

  lemma ParseIntHexPrefix()
    ensures ParseInt("0x1A") == Some(26)
  {
    TrimStartNonBlank("0x1A");
    HexMagnitude();
  }

  lemma DecimalMagnitudeStops()
    ensures ParseMagnitude("12abc") == Some(12)
  {
    var v := "12abc";
    assert !IsRadixDigit('a', 10);
    assert DigitRun(v[2..], 10) == 0;
    assert DigitRun(v[1..], 10) == 1;
    assert DigitRun(v, 10) == 2;
    assert v[..2] == "12" && "12"[..1] == "1" && "1"[..0] == "";
    assert DigitsValue("12", 10) == 12;
  }

  /** `parseInt` stops at the first character that is not a digit. */
  lemma ParseIntStopsAtNonDigit()
    ensures ParseInt("12abc") == Some(12)
  {
    TrimStartNonBlank("12abc");
    DecimalMagnitudeStops();
  }

  lemma ParseIntNaN()
    ensures ParseInt("abc") == None
  {
    assert !IsRadixDigit('a', 10);
    assert DigitRun("abc", 10) == 0;
    TrimStartNonBlank("abc");
  }

  lemma ParseIntEmptyNaN()
    ensures ParseInt("") == None
  {
    assert TrimStart("") == "";
    assert DigitRun("", 10) == 0;
  }

  lemma BarePrefixMagnitude()
    ensures ParseMagnitude("0x") == None
  {
    assert "0x"[2..] == "";
    assert DigitRun("", 16) == 0;
  }

  lemma ParseIntBarePrefixNaN()
    ensures ParseInt("0x") == None
  {
    TrimStartNonBlank("0x");
    BarePrefixMagnitude();
  }
}
