/**
 Numbers as text: the decimal rendering JavaScript uses for a non-negative
 integer (`'$' + 200 * (i + 1)`), and the global `parseInt` function with its
 radix argument omitted, as section 19.2.5 of ECMA-262 defines it. A `NaN`
 result is `None`.
 */
module Decimal {
  import opened Api

  /** Value of `c` as a digit of the given radix (10 or 16), if it is one. */
  function DigitValue(c: char, radix: nat): (d: Option<nat>)
    requires radix == 10 || radix == 16
    ensures d.Some? ==> d.value < radix
  {
    if '0' <= c <= '9' then Some(c as nat - '0' as nat)
    else if radix == 16 && 'a' <= c <= 'f' then Some(c as nat - 'a' as nat + 10)
    else if radix == 16 && 'A' <= c <= 'F' then Some(c as nat - 'A' as nat + 10)
    else None
  }

  predicate IsDigit(c: char, radix: nat)
    requires radix == 10 || radix == 16
  {
    DigitValue(c, radix).Some?
  }

  predicate AllDigits(s: string, radix: nat)
    requires radix == 10 || radix == 16
  {
    forall i :: 0 <= i < |s| ==> IsDigit(s[i], radix)
  }

  /** The digit character for `d` in base 10. */
  function DecimalDigit(d: nat): (c: char)
    requires d < 10
    ensures DigitValue(c, 10) == Some(d)
  {
    ('0' as nat + d) as char
  }

  /** The value of a digit string, most significant digit first. */
  function DigitsValue(s: string, radix: nat): nat
    requires radix == 10 || radix == 16
    requires AllDigits(s, radix)
  {
    if |s| == 0 then 0
    else DigitsValue(s[..|s| - 1], radix) * radix + DigitValue(s[|s| - 1], radix).value
  }

  /** The shortest decimal rendering of `n`, as JavaScript's Number-to-String
      produces it for integers below 10^21. */
  function NatToDecimal(n: nat): (s: string)
    ensures |s| > 0
    ensures AllDigits(s, 10)
    ensures s[0] == '0' ==> n == 0
    ensures |s| > 1 ==> s[0] != '0'
  {
    if n < 10 then [DecimalDigit(n)]
    else NatToDecimal(n / 10) + [DecimalDigit(n % 10)]
  }

  /** Reading back the decimal rendering of `n` gives `n`. */
  lemma {:induction false} DecimalValueRoundTrip(n: nat)
    ensures DigitsValue(NatToDecimal(n), 10) == n
  {
    var s := NatToDecimal(n);
    if n >= 10 {
      DecimalValueRoundTrip(n / 10);
      assert s[..|s| - 1] == NatToDecimal(n / 10);
    }
  }

  /** The characters `parseInt` skips before the number: the WhiteSpace and
      LineTerminator code points of ECMA-262 (sections 12.2 and 12.3). */
  predicate IsJsSpace(c: char) {
    var u := c as int;
    u == 0x09 || u == 0x0A || u == 0x0B || u == 0x0C || u == 0x0D || u == 0x20
    || u == 0xA0 || u == 0x1680 || (0x2000 <= u <= 0x200A)
    || u == 0x2028 || u == 0x2029 || u == 0x202F || u == 0x205F
    || u == 0x3000 || u == 0xFEFF
  }

  /** `s` with its leading white space removed. */
  function TrimStart(s: string): (t: string)
    ensures |t| <= |s| && t == s[|s| - |t|..]
    ensures |t| > 0 ==> !IsJsSpace(t[0])
    ensures forall i :: 0 <= i < |s| - |t| ==> IsJsSpace(s[i])
  {
    if |s| > 0 && IsJsSpace(s[0]) then TrimStart(s[1..]) else s
  }

  /** Length of the longest prefix of `s` made of radix digits. */
  function DigitRun(s: string, radix: nat): (n: nat)
    requires radix == 10 || radix == 16
    ensures n <= |s|
    ensures AllDigits(s[..n], radix)
    ensures n < |s| ==> !IsDigit(s[n], radix)
  {
    if |s| > 0 && IsDigit(s[0], radix) then
      var n := 1 + DigitRun(s[1..], radix);
      assert forall i :: 1 <= i < n ==> s[..n][i] == s[1..][..n - 1][i - 1];
      n
    else 0
  }

  /** JavaScript `parseInt(s)` with no radix: skip leading white space, read an
      optional sign, switch to base 16 after a `0x`/`0X` prefix, then read the
      longest run of digits; no digits at all is `NaN`. Text without a single
      digit is therefore never a number, and the result is negative only
      after a minus sign. */
  function ParseInt(s: string): (r: Option<int>)
    ensures (forall i :: 0 <= i < |s| ==> !IsDigit(s[i], 10)) ==> r.None?
    ensures r.Some? && r.value < 0 ==> Negative(TrimStart(s))
    ensures r.Some? && r.value > 0 ==> !Negative(TrimStart(s))
  {
    var t := TrimStart(s);
    assert forall i :: 0 <= i < |t| ==> t[i] == s[|s| - |t| + i];
    ParseTrimmed(t)
  }

  /** `parseInt` once the leading white space is gone. */
  function ParseTrimmed(t: string): (r: Option<int>)
    ensures (forall i :: 0 <= i < |t| ==> !IsDigit(t[i], 10)) ==> r.None?
    ensures r.Some? && r.value < 0 ==> Negative(t)
    ensures r.Some? && r.value > 0 ==> !Negative(t)
  {
    var (radix, body) := Unsigned(t);
    var n := DigitRun(body, radix);
    if n == 0 then None
    else
      assert t[|t| - |body|] == body[0];
      assert radix == 10 ==> IsDigit(t[|t| - |body|], 10);
      assert radix == 16 ==> IsDigit(t[|t| - |body| - 2], 10);
      var magnitude: int := DigitsValue(body[..n], radix);
      Some(if Negative(t) then -magnitude else magnitude)
  }

  /** Whether the (trimmed) text starts with a minus sign. */
  predicate Negative(t: string) {
    |t| > 0 && t[0] == '-'
  }

  /** The radix and digit text left after the sign and any `0x` prefix. */
  function Unsigned(t: string): (rb: (nat, string))
    ensures rb.0 == 10 || rb.0 == 16
    ensures |rb.1| <= |t| && rb.1 == t[|t| - |rb.1|..]
    ensures rb.0 == 16 ==> |rb.1| + 2 <= |t| && t[|t| - |rb.1| - 2] == '0'
  {
    var u := if |t| > 0 && (t[0] == '-' || t[0] == '+') then t[1..] else t;
    if |u| >= 2 && u[0] == '0' && (u[1] == 'x' || u[1] == 'X') then (16, u[2..])
    else (10, u)
  }

  /** A run of radix digits followed by a non-digit (or by nothing) is exactly
      as long as the digits. */
  lemma {:induction false} DigitRunStops(s: string, t: string, radix: nat)
    requires radix == 10 || radix == 16
    requires AllDigits(s, radix)
    requires |t| == 0 || !IsDigit(t[0], radix)
    ensures DigitRun(s + t, radix) == |s|
    decreases |s|
  {
    if |s| > 0 {
      assert AllDigits(s[1..], radix) by {
        forall i | 0 <= i < |s[1..]| ensures IsDigit(s[1..][i], radix) {
          assert s[1..][i] == s[i + 1];
        }
      }
      assert (s + t)[0] == s[0] && (s + t)[1..] == s[1..] + t;
      DigitRunStops(s[1..], t, radix);
    } else {
      assert s + t == t;
    }
  }

  /** Leading white space does not change the number `parseInt` reads. */
  lemma ParseSkipsSpace(c: char, s: string)
    requires IsJsSpace(c)
    ensures ParseInt([c] + s) == ParseInt(s)
  {
    assert ([c] + s)[1..] == s;
    assert TrimStart([c] + s) == TrimStart(s);
  }

  /** A decimal digit is not white space, so trimming stops at it. */
  lemma TrimAtDigit(d: string)
    requires |d| > 0 && '0' <= d[0] <= '9'
    ensures TrimStart(d) == d
  {
    assert !IsJsSpace(d[0]);
  }

  /** Text that starts with a decimal digit has no sign, and no hexadecimal
      prefix unless its second character is `x` or `X`. */
  lemma UnsignedAtDigit(d: string)
    requires |d| > 0 && '0' <= d[0] <= '9'
    requires |d| < 2 || (d[1] != 'x' && d[1] != 'X')
    ensures !Negative(d) && Unsigned(d) == (10, d)
  {
  }

  /** Unsigned decimal text is read as the value of its leading digit run. */
  lemma ParseUnsignedDecimal(d: string, k: nat)
    requires TrimStart(d) == d && !Negative(d) && Unsigned(d) == (10, d)
    requires 0 < k == DigitRun(d, 10)
    ensures ParseInt(d) == Some(DigitsValue(d[..k], 10))
  {
  }

  /** A run of decimal digits followed by a non-digit (and not by an `x` that
      would make a leading `0` a hexadecimal prefix) is read as the run's
      value. */
  lemma ParseDigitsThen(s: string, t: string)
    requires |s| > 0 && AllDigits(s, 10)
    requires |t| == 0 || (!IsDigit(t[0], 10) && t[0] != 'x' && t[0] != 'X')
    ensures ParseInt(s + t) == Some(DigitsValue(s, 10))
  {
    var d := s + t;
    DigitsThenHead(s, t);
    TrimAtDigit(d);
    UnsignedAtDigit(d);
    DigitRunStops(s, t, 10);
    ParseUnsignedDecimal(d, |s|);
  }

  /** The first two characters of digits followed by such text: a decimal
      digit, then no `x` or `X`; and the digits are its prefix. */
  lemma DigitsThenHead(s: string, t: string)
    requires |s| > 0 && AllDigits(s, 10)
    requires |t| == 0 || (!IsDigit(t[0], 10) && t[0] != 'x' && t[0] != 'X')
    ensures var d := s + t;
      && '0' <= d[0] <= '9'
      && (|d| < 2 || (d[1] != 'x' && d[1] != 'X'))
      && d[..|s|] == s
  {
    var d := s + t;
    assert d[0] == s[0] && IsDigit(s[0], 10);
    if |s| >= 2 {
      assert d[1] == s[1] && IsDigit(s[1], 10);
    } else if |d| >= 2 {
      assert d[1] == t[0];
    }
    assert d[..|s|] == s;
  }

  /** `parseInt` reads the decimal rendering of any non-negative integer
      back, whatever non-digit text follows it (`"200px"` is 200). */
  lemma ParseDecimalThen(n: nat, t: string)
    requires |t| == 0 || (!IsDigit(t[0], 10) && t[0] != 'x' && t[0] != 'X')
    ensures ParseInt(NatToDecimal(n) + t) == Some(n)
  {
    ParseDigitsThen(NatToDecimal(n), t);
    DecimalValueRoundTrip(n);
  }

  /** `parseInt` reads back the decimal rendering of any non-negative integer. */
  lemma ParseDecimal(n: nat)
    ensures ParseInt(NatToDecimal(n)) == Some(n)
  {
    ParseDecimalThen(n, []);
    assert NatToDecimal(n) + [] == NatToDecimal(n);
  }

  /** Text that starts with something other than white space, a sign or a
      decimal digit is not a number: `parseInt` gives `NaN`. */
  lemma ParseNonNumeric(s: string)
    requires |s| > 0 && !IsJsSpace(s[0]) && !IsDigit(s[0], 10)
    requires s[0] != '-' && s[0] != '+'
    ensures ParseInt(s) == None
  {
    assert TrimStart(s) == s;
    assert Unsigned(s) == (10, s);
  }
}
