/** JavaScript's global `parseInt` with no radix argument, on integers.
    A result is `None` where JavaScript gives NaN. */
module JsNumber {
  import opened Wrappers
  import opened Text

  /** The characters `parseInt` skips before the number: white space and
      line terminators in ECMAScript (tab, vertical tab, form feed, space,
      no-break space, the byte order mark, the other space separators, line
      feed, carriage return, line and paragraph separator). */
  predicate IsJsSpace(c: char) {
    c == '\t' || c == '\U{b}' || c == '\U{c}' || c == ' ' || c == '\U{a0}' || c == '\U{feff}'
    || c == '\U{1680}' || ('\U{2000}' <= c <= '\U{200a}') || c == '\U{202f}' || c == '\U{205f}' || c == '\U{3000}'
    || c == '\n' || c == '\r' || c == '\U{2028}' || c == '\U{2029}'
  }

  function TrimStart(s: string): (r: string)
    ensures |r| <= |s| && r == s[|s| - |r|..]
    ensures r == [] || !IsJsSpace(r[0])
  {
    if |s| > 0 && IsJsSpace(s[0]) then TrimStart(s[1..]) else s
  }

  /** The longest prefix of `s` made of digits of the given radix. */
  function DigitPrefix(s: string, radix: nat): (z: string)
    ensures |z| <= |s| && z == s[..|z|]
    ensures forall i :: 0 <= i < |z| ==> DigitValue(z[i]) < radix
    ensures |z| < |s| ==> DigitValue(s[|z|]) >= radix
  {
    if s == [] || DigitValue(s[0]) >= radix then [] else [s[0]] + DigitPrefix(s[1..], radix)
  }

  /** A "0x" or "0X" prefix: the digits that follow are hexadecimal. */
  predicate HexPrefixed(u: string) {
    |u| >= 2 && u[0] == '0' && (u[1] == 'x' || u[1] == 'X')
  }

  /** The value of the digits at the start of `u`, after the sign: hexadecimal
      after a "0x" prefix, decimal otherwise; NaN when there are none. */
  function Magnitude(u: string): Option<nat> {
    var radix := if HexPrefixed(u) then 16 else 10;
    var z := DigitPrefix(if HexPrefixed(u) then u[2..] else u, radix);
    if z == [] then None else Some(ValueIn(z, radix))
  }

  /** `parseInt(s)`: leading white space is skipped, then an optional sign,
      then the magnitude. */
  function ParseInt(s: string): (r: Option<int>)
    ensures r.Some? <==> Magnitude(AfterSign(TrimStart(s))).Some?
  {
    var t := TrimStart(s);
    match Magnitude(AfterSign(t))
    case None => None
    case Some(m) => var v: int := m; Some(if |t| > 0 && t[0] == '-' then -v else v)
  }

  function AfterSign(t: string): string {
    if |t| > 0 && (t[0] == '-' || t[0] == '+') then t[1..] else t
  }

  /** `parseInt(s) || 0`: NaN (and zero) become 0. */
  function ParseIntOrZero(s: string): int {
    ParseInt(s).GetOr(0)
  }

  /** A part that is missing reads as `parseInt(undefined)`, which is NaN,
      and so does the empty string. */
  lemma NaNCases()
    ensures ParseInt("undefined") == None
    ensures ParseInt("") == None
  {
    var u := "undefined";
    assert !IsJsSpace(u[0]) && u[0] != '-' && u[0] != '+';
    assert TrimStart(u) == u && AfterSign(u) == u && !HexPrefixed(u);
    assert DigitValue(u[0]) >= 10;
    assert DigitPrefix(u, 10) == [];
  }

  /** A decimal numeral followed by anything that is not a digit reads as
      its value: `parseInt("12abc")` and `parseInt("12x")` are 12,
      `parseInt("12")` is 12. Only an "x" after a lone "0" starts a
      hexadecimal numeral instead. */
  lemma ReadsLeadingNumeral(n: nat, rest: string)
    requires rest == [] || (!IsDigit(rest[0]) && (n == 0 ==> rest[0] != 'x' && rest[0] != 'X'))
    ensures ParseInt(NatToString(n) + rest) == Some(n)
  {
    var digits := NatToString(n);
    var s := digits + rest;
    if n > 0 && n < 10 {
      assert digits[0] == DigitChar(n) && DigitChar(n) != '0';
    }
    NumeralStart(digits, rest);
    assert Magnitude(s) == Some(n) by {
      DigitPrefixOfNumeral(digits, rest);
      DecimalRoundTrip(n);
    }
  }

  /** Nothing is skipped before a numeral and it has no sign or hexadecimal
      prefix. */
  lemma NumeralStart(digits: string, rest: string)
    requires |digits| >= 1 && (|digits| > 1 ==> digits[0] != '0')
    requires forall i :: 0 <= i < |digits| ==> IsDigit(digits[i])
    requires rest == [] || !IsDigit(rest[0])
    requires rest != [] && digits == "0" ==> rest[0] != 'x' && rest[0] != 'X'
    ensures var s := digits + rest; TrimStart(s) == s && AfterSign(s) == s && !HexPrefixed(s)
  {
    var s := digits + rest;
    var c := digits[0];
    assert s[0] == c;
    DigitStart(c);
    if |s| >= 2 && c == '0' {
      assert |digits| == 1 && digits == "0";
      assert s[1] == rest[0];
    }
  }

  /** A digit is neither white space nor a sign. */
  lemma DigitStart(c: char)
    requires IsDigit(c)
    ensures !IsJsSpace(c) && c != '-' && c != '+'
  {
  }

  lemma {:induction false} DigitPrefixOfNumeral(digits: string, rest: string)
    requires forall i :: 0 <= i < |digits| ==> IsDigit(digits[i])
    requires rest == [] || !IsDigit(rest[0])
    ensures DigitPrefix(digits + rest, 10) == digits
  {
    if digits != [] {
      assert (digits + rest)[1..] == digits[1..] + rest;
      DigitPrefixOfNumeral(digits[1..], rest);
    } else {
      assert digits + rest == rest;
    }
  }

  /** `parseInt` of what Python's `str(n)` writes gives `n` back. */
  lemma NumeralRoundTrip(n: nat)
    ensures ParseInt(NatToString(n)) == Some(n)
    ensures ParseIntOrZero(NatToString(n)) == n
  {
    ReadsLeadingNumeral(n, []);
    assert NatToString(n) + [] == NatToString(n);
  }
}
