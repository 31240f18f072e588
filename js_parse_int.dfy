/** `parseInt(s, 10)` on a string, as ECMAScript defines it: skip leading
    white space and line terminators, read an optional sign, then the
    longest run of decimal digits; no digit at all gives NaN (here None). */
module JsParseInt {
  import opened JsValues

  /** ECMAScript WhiteSpace and LineTerminator code points: what `parseInt`
      skips before the number. */
  predicate IsJsSpace(c: char) {
    var k := c as int;
    k == 0x09 || k == 0x0A || k == 0x0B || k == 0x0C || k == 0x0D || k == 0x20 ||
    k == 0xA0 || k == 0x1680 || (0x2000 <= k <= 0x200A) || k == 0x2028 || k == 0x2029 ||
    k == 0x202F || k == 0x205F || k == 0x3000 || k == 0xFEFF
  }

  predicate IsDigit(c: char) {
    '0' <= c <= '9'
  }

  function DigitValue(c: char): nat
    requires IsDigit(c)
  {
    (c - '0') as nat
  }

  function DigitChar(d: nat): (c: char)
    requires d < 10
    ensures IsDigit(c) && DigitValue(c) == d
  {
    '0' + d as char
  }

  /** The string without its leading white space. */
  function TrimStart(s: string): (t: string)
    ensures |t| <= |s|
    ensures t != [] ==> !IsJsSpace(t[0])
  {
    if s != [] && IsJsSpace(s[0]) then TrimStart(s[1..]) else s
  }

  /** The longest prefix made only of decimal digits. */
  function DigitPrefix(s: string): (z: string)
    ensures |z| <= |s|
    ensures forall i :: 0 <= i < |z| ==> IsDigit(z[i])
    ensures |z| < |s| ==> !IsDigit(s[|z|])
  {
    if s != [] && IsDigit(s[0]) then [s[0]] + DigitPrefix(s[1..]) else []
  }

  /** The number a string of decimal digits denotes, most significant first. */
  function DigitsValue(z: string): nat
    requires forall i :: 0 <= i < |z| ==> IsDigit(z[i])
  {
    if z == [] then 0 else DigitsValue(z[..|z| - 1]) * 10 + DigitValue(z[|z| - 1])
  }

  /** The value of the digits `u` starts with; None when it starts with none. */
  function ParseDigits(u: string): Option<nat> {
    var z := DigitPrefix(u);
    if z == [] then None else Some(DigitsValue(z))
  }

  /** `parseInt(s, 10)`: None stands for NaN. A leading `-` negates, a
      leading `+` is skipped. `-0` comes out as 0, which `===` does not tell
      apart from +0. */
  function ParseInt10(s: string): (r: Option<int>)
    ensures r.Some? ==> TrimStart(s) != []
    ensures r.Some? && r.value < 0 ==> TrimStart(s)[0] == '-'
  {
    ParseSigned(TrimStart(s))
  }

  /** What `parseInt` reads once the white space is skipped. */
  function ParseSigned(t: string): Option<int> {
    if t != [] && t[0] == '-' then
      match ParseDigits(t[1..])
      case None => None
      case Some(v) => Some(-(v as int))
    else if t != [] && t[0] == '+' then
      match ParseDigits(t[1..])
      case None => None
      case Some(v) => Some(v)
    else
      match ParseDigits(t)
      case None => None
      case Some(v) => Some(v)
  }

  // ---------------------------------------------------------------------
  // The decimal rendering, the partner of ParseInt10

  /** The shortest decimal digits of `n`. */
  function DecimalNat(n: nat): (z: string)
    ensures z != [] && forall i :: 0 <= i < |z| ==> IsDigit(z[i])
  {
    if n < 10 then [DigitChar(n)] else DecimalNat(n / 10) + [DigitChar(n % 10)]
  }

  /** `String(n)` for an integer `n`. */
  function Decimal(n: int): string {
    if n < 0 then "-" + DecimalNat(-n) else DecimalNat(n)
  }

  lemma {:induction false} DigitsValueOfDecimal(n: nat)
    ensures DigitsValue(DecimalNat(n)) == n
  {
    var z := DecimalNat(n);
    if n >= 10 {
      assert z[..|z| - 1] == DecimalNat(n / 10);
      DigitsValueOfDecimal(n / 10);
    }
  }

  /** The digit prefix stops exactly where the digits stop. */
  lemma {:induction false} DigitPrefixOfDigits(z: string, rest: string)
    requires forall i :: 0 <= i < |z| ==> IsDigit(z[i])
    requires rest == [] || !IsDigit(rest[0])
    ensures DigitPrefix(z + rest) == z
  {
    if z != [] {
      assert (z + rest)[1..] == z[1..] + rest;
      DigitPrefixOfDigits(z[1..], rest);
    }
  }

  /** Leading white space does not change the result. */
  lemma {:induction false} TrimStartSkipsSpace(ws: string, s: string)
    requires forall i :: 0 <= i < |ws| ==> IsJsSpace(ws[i])
    requires s == [] || !IsJsSpace(s[0])
    ensures TrimStart(ws + s) == s
  {
    if ws != [] {
      assert (ws + s)[1..] == ws[1..] + s;
      TrimStartSkipsSpace(ws[1..], s);
    }
  }

  /** A string that does not start with white space is not trimmed. */
  lemma TrimStartKeeps(t: string)
    requires t == [] || !IsJsSpace(t[0])
    ensures TrimStart(t) == t
  {
  }

  /** Leading white space does not change the result. */
  lemma ParseSkipsSpace(ws: string, t: string)
    requires forall i :: 0 <= i < |ws| ==> IsJsSpace(ws[i])
    requires t == [] || !IsJsSpace(t[0])
    ensures ParseInt10(ws + t) == ParseInt10(t)
  {
    TrimStartSkipsSpace(ws, t);
    TrimStartKeeps(t);
  }

  /** The digits of a string that starts with them, up to a non-digit. */
  lemma ParseDigitsOf(z: string, rest: string)
    requires z != [] && forall i :: 0 <= i < |z| ==> IsDigit(z[i])
    requires rest == [] || !IsDigit(rest[0])
    ensures ParseDigits(z + rest) == Some(DigitsValue(z))
  {
    DigitPrefixOfDigits(z, rest);
  }

  /** Digits with nothing in front. */
  lemma ParseUnsignedDigits(u: string, v: nat)
    requires u != [] && IsDigit(u[0]) && ParseDigits(u) == Some(v)
    ensures ParseSigned(u) == Some(v)
  {
  }

  /** Digits after a minus sign. */
  lemma ParseNegativeDigits(u: string, v: nat)
    requires ParseDigits(u) == Some(v)
    ensures ParseSigned(['-'] + u) == Some(-(v as int))
  {
    assert (['-'] + u)[1..] == u;
  }

  /** The decimal text of an integer, followed by a tail that does not
      start with a digit, parses back to the integer. */
  lemma ParseDecimalText(n: int, rest: string)
    requires rest == [] || !IsDigit(rest[0])
    ensures var t := Decimal(n) + rest;
      t != [] && !IsJsSpace(t[0]) && ParseInt10(t) == Some(n)
  {
    var m: nat := if n < 0 then -n else n;
    var z := DecimalNat(m);
    var u := z + rest;
    var t := if n < 0 then ['-'] + u else u;
    assert Decimal(n) + rest == t;
    assert u[0] == z[0];
    DigitsValueOfDecimal(m);
    ParseDigitsOf(z, rest);
    if n < 0 {
      ParseNegativeDigits(u, m);
    } else {
      ParseUnsignedDigits(u, m);
    }
    TrimStartKeeps(t);
  }

  /** Round trip: parsing the decimal rendering of any integer, with any
      leading white space and any tail that does not start with a digit,
      gives the integer back. */
  lemma ParseDecimal(n: int, ws: string, rest: string)
    requires forall i :: 0 <= i < |ws| ==> IsJsSpace(ws[i])
    requires rest == [] || !IsDigit(rest[0])
    ensures ParseInt10(ws + Decimal(n) + rest) == Some(n)
  {
    var t := Decimal(n) + rest;
    assert ws + Decimal(n) + rest == ws + t;
    ParseDecimalText(n, rest);
    ParseSkipsSpace(ws, t);
  }

  /** A run of '0' characters. */
  predicate AllZeros(zeros: string) {
    forall i :: 0 <= i < |zeros| ==> zeros[i] == '0'
  }

  lemma {:induction false} ZerosValue(zeros: string)
    requires AllZeros(zeros)
    ensures DigitsValue(zeros) == 0
  {
    if zeros != [] {
      ZerosValue(zeros[..|zeros| - 1]);
    }
  }

  /** Leading zeros do not change the value of a run of digits. */
  lemma {:induction false} LeadingZerosValue(zeros: string, z: string)
    requires AllZeros(zeros)
    requires forall i :: 0 <= i < |z| ==> IsDigit(z[i])
    ensures DigitsValue(zeros + z) == DigitsValue(z)
  {
    if z == [] {
      assert zeros + z == zeros;
      ZerosValue(zeros);
    } else {
      var y := zeros + z;
      assert y[..|y| - 1] == zeros + z[..|z| - 1];
      assert y[|y| - 1] == z[|z| - 1];
      LeadingZerosValue(zeros, z[..|z| - 1]);
    }
  }

  /** Digits after a plus sign. */
  lemma ParsePlusDigits(u: string, v: nat)
    requires ParseDigits(u) == Some(v)
    ensures ParseSigned(['+'] + u) == Some(v)
  {
    assert (['+'] + u)[1..] == u;
  }

  /** The digits of `n` after leading zeros, up to a non-digit. */
  lemma ParseZerosThenDecimal(zeros: string, n: nat, rest: string)
    requires AllZeros(zeros)
    requires rest == [] || !IsDigit(rest[0])
    ensures var u := zeros + DecimalNat(n) + rest;
      u != [] && IsDigit(u[0]) && ParseDigits(u) == Some(n)
  {
    var d := DecimalNat(n);
    var z := zeros + d;
    assert forall i :: 0 <= i < |z| ==> IsDigit(z[i]) by {
      forall i | 0 <= i < |z|
        ensures IsDigit(z[i])
      {
        if i >= |zeros| {
          assert z[i] == d[i - |zeros|];
        }
      }
    }
    LeadingZerosValue(zeros, d);
    DigitsValueOfDecimal(n);
    ParseDigitsOf(z, rest);
    assert (z + rest)[0] == z[0];
  }

  /** An optional sign before a string that starts with digits. */
  lemma ParseOptionalSign(sign: string, u: string, n: nat)
    requires sign == "" || sign == "+" || sign == "-"
    requires u != [] && IsDigit(u[0]) && ParseDigits(u) == Some(n)
    ensures var t := sign + u;
      t != [] && !IsJsSpace(t[0]) && ParseInt10(t) == Some(if sign == "-" then -(n as int) else n as int)
  {
    if sign == "-" {
      ParseNegativeDigits(u, n);
    } else if sign == "+" {
      ParsePlusDigits(u, n);
    } else {
      assert sign + u == u;
      ParseUnsignedDigits(u, n);
    }
    TrimStartKeeps(sign + u);
  }

  /** Route ids such as "+5", "007" or "-03": an optional sign, any run of
      leading zeros, the digits of `n`, then any tail that does not start
      with a digit, all after any white space, read as `n` (negated after
      a minus sign). */
  lemma ParseSignedWithZeros(ws: string, sign: string, zeros: string, n: nat, rest: string)
    requires forall i :: 0 <= i < |ws| ==> IsJsSpace(ws[i])
    requires sign == "" || sign == "+" || sign == "-"
    requires AllZeros(zeros)
    requires rest == [] || !IsDigit(rest[0])
    ensures ParseInt10(ws + sign + zeros + DecimalNat(n) + rest) ==
      Some(if sign == "-" then -(n as int) else n as int)
  {
    var d := DecimalNat(n);
    var u := zeros + d + rest;
    var t := sign + u;
    assert ws + sign + zeros + d + rest == ws + t;
    ParseZerosThenDecimal(zeros, n, rest);
    ParseOptionalSign(sign, u, n);
    ParseSkipsSpace(ws, t);
  }

  /** NaN exactly when, after the white space and an optional sign, the
      string does not continue with a digit. */
  lemma ParseFailsIff(s: string)
    ensures var t := TrimStart(s);
      var u := if t != [] && (t[0] == '-' || t[0] == '+') then t[1..] else t;
      ParseInt10(s).None? <==> (u == [] || !IsDigit(u[0]))
  {
  }
}
