/**
 * The PHP string built-ins the core relies on, over `string` = `seq<char>`:
 * `trim`, ASCII `strtolower`, the `(int)` cast, `is_numeric` with the `(float)`
 * cast, and the decimal rendering of an integer inside string interpolation.
 */
module PhpText {

  import opened PhpMath

  // ---------------------------------------------------------------- digits

  predicate IsDigit(c: char) {
    '0' <= c <= '9'
  }

  predicate AllDigits(s: string) {
    forall i :: 0 <= i < |s| ==> IsDigit(s[i])
  }

  function DigitValue(c: char): (d: nat)
    requires IsDigit(c)
    ensures d < 10
  {
    (c as int) - ('0' as int)
  }

  function DigitChar(d: nat): (c: char)
    requires d < 10
    ensures IsDigit(c) && DigitValue(c) == d
  {
    (('0' as int) + d) as char
  }

  /** The value of a string of decimal digits, most significant first ("" is 0). */
  function DigitsValue(s: string): nat
    requires AllDigits(s)
    decreases |s|
  {
    if |s| == 0 then 0 else DigitsValue(s[..|s| - 1]) * 10 + DigitValue(s[|s| - 1])
  }

  /** Decimal rendering of a natural number, without leading zeros. */
  function NatToString(n: nat): (s: string)
    ensures |s| > 0 && AllDigits(s)
  {
    if n < 10 then [DigitChar(n)] else NatToString(n / 10) + [DigitChar(n % 10)]
  }

  /** How PHP renders an int inside a string ("sheet{$n}"): a minus sign, then the digits. */
  function IntToString(n: int): (s: string)
    ensures |s| > 0
  {
    if n < 0 then "-" + NatToString(-n) else NatToString(n)
  }

  lemma {:induction false} NatToStringValue(n: nat)
    ensures DigitsValue(NatToString(n)) == n
  {
    if n >= 10 {
      NatToStringValue(n / 10);
      var s := NatToString(n);
      assert s[..|s| - 1] == NatToString(n / 10);
    }
  }

  /** The longest prefix of `s` made of digits. */
  function LeadingDigits(s: string): (p: string)
    ensures |p| <= |s| && p == s[..|p|] && AllDigits(p)
    ensures |p| < |s| ==> !IsDigit(s[|p|])
  {
    if |s| > 0 && IsDigit(s[0]) then [s[0]] + LeadingDigits(s[1..]) else ""
  }

  lemma {:induction false} LeadingDigitsOfDigits(s: string)
    requires AllDigits(s)
    ensures LeadingDigits(s) == s
  {
    if |s| > 0 {
      LeadingDigitsOfDigits(s[1..]);
    }
  }

  // ---------------------------------------------------------------- signs

  predicate IsSign(c: char) {
    c == '+' || c == '-'
  }

  /** `s` without one leading '+' or '-'. */
  function Unsigned(s: string): (u: string)
    ensures u == s || (|s| > 0 && IsSign(s[0]) && u == s[1..])
  {
    if |s| > 0 && IsSign(s[0]) then s[1..] else s
  }

  predicate Negative(s: string) {
    |s| > 0 && s[0] == '-'
  }

  // ---------------------------------------------------------------- (int) cast

  /**
   * PHP's `(int)` cast of a string: an optional sign and the longest run of
   * digits after it; a string that does not start that way casts to 0.
   */
  function IntCast(s: string): int {
    var magnitude: int := DigitsValue(LeadingDigits(Unsigned(s)));
    if Negative(s) then -magnitude else magnitude
  }

  /** Casting the rendering of an integer back gives that integer. */
  lemma IntCastOfIntToString(n: int)
    ensures IntCast(IntToString(n)) == n
  {
    var m: nat := if n < 0 then -n else n;
    var digits := NatToString(m);
    LeadingDigitsOfDigits(digits);
    NatToStringValue(m);
    if n < 0 {
      assert Unsigned(IntToString(n)) == digits;
    } else {
      assert IsDigit(digits[0]);
      assert Unsigned(IntToString(n)) == digits;
    }
  }

  lemma IntToStringInjective(a: int, b: int)
    requires IntToString(a) == IntToString(b)
    ensures a == b
  {
    IntCastOfIntToString(a);
    IntCastOfIntToString(b);
  }

  // ---------------------------------------------------------------- is_numeric, (float)

  /**
   * PHP's `is_numeric` on a string, restricted to plain decimal literals:
   * an optional sign, then digits with at most one '.', and at least one digit.
   */
  predicate IsNumeric(s: string) {
    var body := Unsigned(s);
    var intPart := LeadingDigits(body);
    var rest := body[|intPart|..];
    (|rest| == 0 && |intPart| > 0)
    || (|rest| > 0 && rest[0] == '.' && AllDigits(rest[1..]) && (|intPart| > 0 || |rest| > 1))
  }

  /** PHP's `(float)` cast of a numeric string. */
  function ToNumber(s: string): real
    requires IsNumeric(s)
  {
    var body := Unsigned(s);
    var intPart := LeadingDigits(body);
    var rest := body[|intPart|..];
    var fraction := if |rest| == 0 then "" else rest[1..];
    var magnitude := DigitsValue(intPart) as real + DigitsValue(fraction) as real / Scale(|fraction|);
    if Negative(s) then -magnitude else magnitude
  }

  /** A run of digits, optionally after a sign, is numeric and converts to its value. */
  lemma ToNumberOfDigits(s: string, digits: string)
    requires |digits| > 0 && AllDigits(digits)
    requires Unsigned(s) == digits
    ensures IsNumeric(s)
    ensures ToNumber(s) == if Negative(s) then -(DigitsValue(digits) as real) else DigitsValue(digits) as real
  {
    LeadingDigitsOfDigits(digits);
    assert digits[|digits|..] == "";
    assert DigitsValue("") == 0 && Scale(0) == 1.0;
  }

  /** A rendered integer is numeric and converts back to the same value. */
  lemma ToNumberOfIntToString(n: int)
    ensures IsNumeric(IntToString(n))
    ensures ToNumber(IntToString(n)) == n as real
  {
    var m: nat := if n < 0 then -n else n;
    var digits := NatToString(m);
    NatToStringValue(m);
    assert Unsigned(IntToString(n)) == digits by {
      assert IsDigit(digits[0]);
    }
    assert Negative(IntToString(n)) <==> n < 0;
    ToNumberOfDigits(IntToString(n), digits);
  }

  // ---------------------------------------------------------------- trim

  /** The characters PHP's `trim` strips by default: " \t\n\r\0\x0B". */
  predicate IsTrimmed(c: char) {
    c == ' ' || c == '\t' || c == '\n' || c == '\r' || c == '\0' || c == '\U{000B}'
  }

  predicate AllTrimmed(s: string) {
    forall i :: 0 <= i < |s| ==> IsTrimmed(s[i])
  }

  function TrimStart(s: string): (r: string)
    ensures |r| <= |s| && r == s[|s| - |r|..]
    ensures AllTrimmed(s[..|s| - |r|])
    ensures |r| == 0 || !IsTrimmed(r[0])
  {
    if |s| > 0 && IsTrimmed(s[0]) then
      var r := TrimStart(s[1..]);
      assert s[..|s| - |r|] == [s[0]] + s[1..][..|s| - 1 - |r|];
      r
    else s
  }

  function TrimEnd(s: string): (r: string)
    ensures |r| <= |s| && r == s[..|r|]
    ensures AllTrimmed(s[|r|..])
    ensures |r| == 0 || !IsTrimmed(r[|r| - 1])
  {
    if |s| > 0 && IsTrimmed(s[|s| - 1]) then
      var r := TrimEnd(s[..|s| - 1]);
      assert s[|r|..] == s[..|s| - 1][|r|..] + [s[|s| - 1]];
      r
    else s
  }

  /** PHP's `trim`: strips the default whitespace set from both ends. */
  function Trim(s: string): (r: string)
    ensures |r| == 0 || (!IsTrimmed(r[0]) && !IsTrimmed(r[|r| - 1]))
  {
    TrimEnd(TrimStart(s))
  }

  lemma {:induction false} TrimStartPadded(pad: string, t: string)
    requires AllTrimmed(pad)
    requires |t| == 0 || !IsTrimmed(t[0])
    ensures TrimStart(pad + t) == t
  {
    if |pad| > 0 {
      assert (pad + t)[1..] == pad[1..] + t;
      TrimStartPadded(pad[1..], t);
    }
  }

  lemma {:induction false} TrimEndPadded(t: string, pad: string)
    requires AllTrimmed(pad)
    requires |t| == 0 || !IsTrimmed(t[|t| - 1])
    ensures TrimEnd(t + pad) == t
  {
    if |pad| > 0 {
      assert (t + pad)[..|t + pad| - 1] == t + pad[..|pad| - 1];
      TrimEndPadded(t, pad[..|pad| - 1]);
    }
  }

  /** Trim removes exactly the surrounding whitespace and nothing of the text inside it. */
  lemma TrimPadded(left: string, t: string, right: string)
    requires AllTrimmed(left) && AllTrimmed(right)
    requires |t| == 0 || (!IsTrimmed(t[0]) && !IsTrimmed(t[|t| - 1]))
    ensures Trim(left + t + right) == t
  {
    assert left + t + right == left + (t + right);
    if |t| == 0 {
      assert t + right == right;
      assert TrimStart(left + right) == [] by {
        assert AllTrimmed(left + right);
        AllTrimmedTrimStart(left + right);
      }
    } else {
      TrimStartPadded(left, t + right);
      TrimEndPadded(t, right);
    }
  }

  lemma AllTrimmedTrimStart(s: string)
    requires AllTrimmed(s)
    ensures TrimStart(s) == []
  {
  }

  lemma TrimIdempotent(s: string)
    ensures Trim(Trim(s)) == Trim(s)
  {
    var t := Trim(s);
    TrimPadded("", t, "");
    assert "" + t + "" == t;
  }

  // ---------------------------------------------------------------- strtolower

  function LowerChar(c: char): (l: char)
    ensures !('A' <= l <= 'Z')
  {
    if 'A' <= c <= 'Z' then (c as int + 32) as char else c
  }

  /** `strtolower` as PHP 8.2 defines it: ASCII letters only, every other character kept. */
  function Lower(s: string): (r: string)
    ensures |r| == |s|
    ensures forall i :: 0 <= i < |s| ==> r[i] == LowerChar(s[i])
  {
    if |s| == 0 then "" else [LowerChar(s[0])] + Lower(s[1..])
  }

  lemma LowerIdempotent(s: string)
    ensures Lower(Lower(s)) == Lower(s)
  {
  }
}
