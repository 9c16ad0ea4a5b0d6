/** The two JavaScript number conversions the codec relies on: the implicit
    Number-to-String conversion in a template literal (`${value}`) and
    `parseInt(value, 10)`. Numbers are limited to the values the codec can
    meet: integers and NaN. */
module JsNumber {

  /** A JavaScript Number that is either an integer or NaN. */
  datatype Num = Int(i: int) | NaN

  /** Number.MAX_SAFE_INTEGER: above it a Number no longer holds every integer. */
  const MaxSafeInteger: int := 9007199254740991

  predicate IsDigit(c: char) {
    '0' <= c <= '9'
  }

  predicate AllDigits(s: string) {
    forall k :: 0 <= k < |s| ==> IsDigit(s[k])
  }

  function DigitChar(d: nat): (c: char)
    requires d < 10
    ensures IsDigit(c)
  {
    ('0' as int + d) as char
  }

  function DigitValue(c: char): (d: nat)
    requires IsDigit(c)
    ensures d < 10 && DigitChar(d) == c
  {
    c as int - '0' as int
  }

  /** The shortest decimal representation of `n`. */
  function Decimal(n: nat): (s: string)
    ensures |s| >= 1 && AllDigits(s)
  {
    if n < 10 then [DigitChar(n)] else Decimal(n / 10) + [DigitChar(n % 10)]
  }

  /** The value of a string of decimal digits, read most significant first. */
  function DigitsValue(s: string): (n: nat)
    requires AllDigits(s)
  {
    if |s| == 0 then 0 else DigitsValue(s[..|s| - 1]) * 10 + DigitValue(s[|s| - 1])
  }

  /** Number::toString for an integral Number below 10^21 in magnitude, or NaN. */
  function ToString(v: Num): (s: string)
    ensures |s| >= 1
    ensures ',' !in s && '=' !in s && '$' !in s
  {
    match v
    case NaN => "NaN"
    case Int(i) => if i < 0 then "-" + Decimal(-i) else Decimal(i)
  }

  /** StrWhiteSpaceChar of ECMAScript: WhiteSpace (including the Unicode Zs
      space separators) and LineTerminator. */
  predicate IsStrWhiteSpace(c: char) {
    || c == '\t' || c == '\U{000B}' || c == '\U{000C}' || c == ' '
    || c == '\U{00A0}' || c == '\U{FEFF}' || c == '\U{1680}'
    || ('\U{2000}' <= c <= '\U{200A}') || c == '\U{202F}' || c == '\U{205F}' || c == '\U{3000}'
    || c == '\n' || c == '\r' || c == '\U{2028}' || c == '\U{2029}'
  }

  /** `s` with its leading white space removed. */
  function TrimStart(s: string): (t: string)
    ensures |t| <= |s| && t == s[|s| - |t|..]
    ensures |t| > 0 ==> !IsStrWhiteSpace(t[0])
    ensures forall k :: 0 <= k < |s| - |t| ==> IsStrWhiteSpace(s[k])
  {
    if |s| > 0 && IsStrWhiteSpace(s[0]) then TrimStart(s[1..]) else s
  }

  /** The longest prefix of `s` made of decimal digits. */
  function DigitPrefix(s: string): (z: string)
    ensures z <= s && AllDigits(z)
    ensures |z| < |s| ==> !IsDigit(s[|z|])
    ensures AllDigits(s) ==> z == s
  {
    if |s| > 0 && IsDigit(s[0]) then [s[0]] + DigitPrefix(s[1..]) else ""
  }

  /** `parseInt(s, 10)`: skip leading white space, read an optional sign,
      then the longest run of decimal digits; NaN when there is none.
      A string without any digit is NaN, a plain run of digits is its
      decimal value, and a string that starts with a digit is the value of
      its leading digits, whatever follows them. */
  function ParseInt(s: string): (r: Num)
    ensures (forall k :: 0 <= k < |s| ==> !IsDigit(s[k])) ==> r == NaN
    ensures |s| >= 1 && AllDigits(s) ==> r == Int(DigitsValue(s))
    ensures |s| >= 1 && IsDigit(s[0]) ==> r == Int(DigitsValue(DigitPrefix(s)))
    ensures |s| >= 2 && s[0] == '+' && IsDigit(s[1]) ==> r == Int(DigitsValue(DigitPrefix(s[1..])))
  {
    var t := TrimStart(s);
    if |s| >= 1 && IsDigit(s[0]) then
      assert !IsStrWhiteSpace(s[0]);
      ParseSignedDigits(s);
      ParseSigned(t)
    else if |s| >= 2 && s[0] == '+' && IsDigit(s[1]) then
      assert !IsStrWhiteSpace(s[0]) && t == s;
      ParseSignedDigits(s[1..]);
      ParseSigned(t)
    else
      ParseSigned(t)
  }

  /** Without a sign, the digits are read from the first character on. */
  lemma {:induction false} ParseSignedDigits(t: string)
    requires |t| >= 1 && IsDigit(t[0])
    ensures ParseSigned(t) == Int(DigitsValue(DigitPrefix(t)))
  {
    assert |DigitPrefix(t)| >= 1;
  }

  /** The sign-and-digits part of `parseInt`, after white space is skipped. */
  function ParseSigned(t: string): (r: Num)
  {
    var negative := |t| > 0 && t[0] == '-';
    var u := if |t| > 0 && (t[0] == '-' || t[0] == '+') then t[1..] else t;
    var z := DigitPrefix(u);
    var magnitude: int := if |z| == 0 then 0 else DigitsValue(z);
    if |z| == 0 then NaN
    else if negative then Int(-magnitude)
    else Int(magnitude)
  }

  /** Reading back the decimal representation of `n` gives `n`. */
  lemma {:induction false} DecimalValue(n: nat)
    ensures DigitsValue(Decimal(n)) == n
  {
    if n >= 10 {
      var s := Decimal(n);
      DecimalValue(n / 10);
      assert s[..|s| - 1] == Decimal(n / 10);
    }
  }

  /** Leading white space is skipped before the sign and the digits. */
  lemma {:induction false} ParseIntSkipsWhiteSpace(w: string, s: string)
    requires forall k :: 0 <= k < |w| ==> IsStrWhiteSpace(w[k])
    ensures ParseInt(w + s) == ParseInt(s)
  {
    TrimStartWhiteSpace(w, s);
  }

  lemma {:induction false} TrimStartWhiteSpace(w: string, s: string)
    requires forall k :: 0 <= k < |w| ==> IsStrWhiteSpace(w[k])
    ensures TrimStart(w + s) == TrimStart(s)
  {
    if |w| > 0 {
      assert (w + s)[0] == w[0];
      assert (w + s)[1..] == w[1..] + s;
      TrimStartWhiteSpace(w[1..], s);
    } else {
      assert w + s == s;
    }
  }

  /** `parseInt` of a string whose first character is not white space
      reads a sign and digits from the string as it stands. */
  lemma {:induction false} ParseIntNoSpace(s: string)
    requires |s| > 0 && !IsStrWhiteSpace(s[0])
    ensures ParseInt(s) == ParseSigned(s)
  {
  }

  /** `parseInt` of a minus sign followed by a non-empty run of digits. */
  lemma {:induction false} ParseIntOfNegative(d: string)
    requires |d| >= 1 && AllDigits(d)
    ensures ParseInt("-" + d) == Int(0 - DigitsValue(d))
  {
    var s := "-" + d;
    assert s[0] == '-';
    ParseIntNoSpace(s);
    assert s[1..] == d;
  }

  /** `parseInt` reads back what Number-to-String wrote, for NaN and for
      every integer a Number holds exactly. */
  lemma {:induction false} ParseIntToString(v: Num)
    requires v.Int? ==> -MaxSafeInteger <= v.i <= MaxSafeInteger
    ensures ParseInt(ToString(v)) == v
  {
    match v
    case NaN =>
      assert ToString(v) == "NaN";
      ParseIntNoSpace("NaN");
      assert DigitPrefix("NaN") == "";
    case Int(i) =>
      var m: nat := if i < 0 then -i else i;
      DecimalValue(m);
      if i < 0 {
        assert ToString(v) == "-" + Decimal(m);
        ParseIntOfNegative(Decimal(m));
      } else {
        assert ToString(v) == Decimal(m);
      }
  }

  /** A value that does not start with a sign or a digit (after white space)
      is NaN, not an error: `N=abc` yields NaN. */
  lemma {:induction false} ParseIntNotANumber(s: string)
    requires |s| > 0 && !IsStrWhiteSpace(s[0]) && !IsDigit(s[0]) && s[0] != '-' && s[0] != '+'
    ensures ParseInt(s) == NaN
  {
  }
}
