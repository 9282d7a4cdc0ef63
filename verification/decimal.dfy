/** Decimal text for integers as the source produces and reads it: writing
    an `int` to a stream (`operator<<`) and reading one back with
    `std::stoi`, which follows `strtol` in base 10 and then insists on the
    32-bit `int` range. */
module Decimal {

  import opened Options

  const IntMin: int := -0x8000_0000
  const IntMax: int := 0x7FFF_FFFF

  /** The value fits the source's 32-bit `int`. */
  predicate InIntRange(n: int) {
    IntMin <= n <= IntMax
  }

  predicate IsDigit(c: char) {
    '0' <= c <= '9'
  }

  predicate AllDigits(s: string) {
    forall i :: 0 <= i < |s| ==> IsDigit(s[i])
  }

  /** White space as `isspace` classifies it in the C locale. */
  predicate IsSpace(c: char) {
    c == ' ' || c == '\t' || c == '\n' || c == '\U{0B}' || c == '\U{0C}' || c == '\r'
  }

  function DigitChar(d: nat): (c: char)
    requires d < 10
    ensures IsDigit(c)
  {
    ['0', '1', '2', '3', '4', '5', '6', '7', '8', '9'][d]
  }

  function DigitValue(c: char): (d: nat)
    requires IsDigit(c)
    ensures d < 10
  {
    (c as int) - ('0' as int)
  }

  /** The value of a string of decimal digits, most significant first. */
  function DigitsValue(s: string): nat
    requires AllDigits(s)
  {
    if |s| == 0 then 0
    else DigitsValue(s[..|s| - 1]) * 10 + DigitValue(s[|s| - 1])
  }

  /** The shortest decimal numeral of a natural number. */
  function NatToString(n: nat): (r: string)
    ensures |r| > 0 && AllDigits(r)
    ensures DigitsValue(r) == n
  {
    if n < 10 then
      assert DigitValue(DigitChar(n)) == n by {
        assert ['0', '1', '2', '3', '4', '5', '6', '7', '8', '9'][n] as int == '0' as int + n;
      }
      [DigitChar(n)]
    else
      var r := NatToString(n / 10) + [DigitChar(n % 10)];
      assert r[..|r| - 1] == NatToString(n / 10);
      assert DigitValue(DigitChar(n % 10)) == n % 10 by {
        assert ['0', '1', '2', '3', '4', '5', '6', '7', '8', '9'][n % 10] as int == '0' as int + n % 10;
      }
      r
  }

  /** What `operator<<` writes for an `int`: a minus sign for negative
      values, then the digits. */
  function IntToString(n: int): (r: string)
    ensures |r| > 0
    ensures forall i :: 0 <= i < |r| ==> IsDigit(r[i]) || (i == 0 && r[i] == '-')
  {
    if n < 0 then "-" + NatToString(-n) else NatToString(n)
  }

  /** Number of leading characters of `s` that are digits. */
  function DigitRun(s: string): (k: nat)
    ensures k <= |s| && AllDigits(s[..k])
    ensures k < |s| ==> !IsDigit(s[k])
  {
    if |s| == 0 || !IsDigit(s[0]) then 0
    else
      var k := 1 + DigitRun(s[1..]);
      assert s[..k] == [s[0]] + s[1..][..k - 1];
      k
  }

  /** `s` with its leading white space removed. */
  function SkipSpace(s: string): (r: string)
    ensures |r| <= |s| && r == s[|s| - |r|..]
    ensures |r| > 0 ==> !IsSpace(r[0])
    ensures forall i :: 0 <= i < |s| - |r| ==> IsSpace(s[i])
  {
    if |s| > 0 && IsSpace(s[0]) then SkipSpace(s[1..]) else s
  }

  /** `std::stoi(s)`: skip white space, read an optional sign and at least
      one digit, ignore whatever follows; `None` where the source would throw
      (no digits, or a value outside the `int` range). */
  function Stoi(s: string): (r: Option<int>)
    ensures r.Some? ==> InIntRange(r.value)
  {
    var t := SkipSpace(s);
    if |t| > 0 && (t[0] == '-' || t[0] == '+') then SignedValue(t[0] == '-', t[1..])
    else SignedValue(false, t)
  }

  /** The value of the digit run at the front of `u`, negated if asked,
      provided there is at least one digit and the value fits an `int`. */
  function SignedValue(negative: bool, u: string): (r: Option<int>)
    ensures r.Some? ==> InIntRange(r.value)
  {
    var k := DigitRun(u);
    if k == 0 then None
    else
      var magnitude: int := DigitsValue(u[..k]);
      var v := if negative then -magnitude else magnitude;
      if InIntRange(v) then Some(v) else None
  }

  /** Reading back what was written recovers every `int`. */
  lemma StoiIntToString(n: int)
    requires InIntRange(n)
    ensures Stoi(IntToString(n)) == Some(n)
  {
    var text := IntToString(n);
    assert !IsSpace(text[0]) by {
      assert IsDigit(text[0]) || text[0] == '-';
    }
    assert SkipSpace(text) == text;
    if n < 0 {
      var digits := NatToString(-n);
      assert text[1..] == digits;
      SignedValueOfDigits(true, digits);
    } else {
      var digits := NatToString(n);
      assert text == digits;
      assert text[0] != '-' && text[0] != '+';
      SignedValueOfDigits(false, digits);
    }
  }

  /** The value a sign and a digit string denote. */
  function Signed(sign: string, digits: string): int
    requires AllDigits(digits)
  {
    if sign == "-" then -(DigitsValue(digits) as int) else DigitsValue(digits) as int
  }

  /** `std::stoi` reads the number at the front of its input: leading white
      space is skipped, an optional sign and the whole run of digits after it
      are read, and whatever follows the digits is ignored. The result is
      `None` exactly when the number leaves the `int` range. */
  lemma StoiReadsLeadingNumber(w: string, sign: string, digits: string, tail: string)
    requires forall i :: 0 <= i < |w| ==> IsSpace(w[i])
    requires sign == "" || sign == "-" || sign == "+"
    requires |digits| > 0 && AllDigits(digits)
    requires |tail| == 0 || !IsDigit(tail[0])
    ensures Stoi(w + sign + digits + tail) ==
      if InIntRange(Signed(sign, digits)) then Some(Signed(sign, digits)) else None
  {
    assert w + sign + digits + tail == w + sign + (digits + tail);
    StoiOfSigned(w, sign, digits + tail);
    SignedValueOfRun(sign == "-", digits, tail);
    if InIntRange(Signed(sign, digits)) {
      SignedValueOfDigits(sign == "-", digits);
    } else {
      SignedValueOutOfRange(sign == "-", digits);
    }
  }

  /** A number outside the `int` range is refused. */
  lemma SignedValueOutOfRange(negative: bool, digits: string)
    requires |digits| > 0 && AllDigits(digits)
    requires !InIntRange(if negative then -(DigitsValue(digits) as int) else DigitsValue(digits) as int)
    ensures SignedValue(negative, digits) == None
  {
    DigitRunAllDigits(digits);
    assert digits[..|digits|] == digits;
  }

  /** Text after the digit run does not change the value read. */
  lemma SignedValueOfRun(negative: bool, digits: string, tail: string)
    requires |digits| > 0 && AllDigits(digits)
    requires |tail| == 0 || !IsDigit(tail[0])
    ensures SignedValue(negative, digits + tail) == SignedValue(negative, digits)
  {
    var u := digits + tail;
    DigitRunPrefix(digits, tail);
    DigitRunAllDigits(digits);
    assert u[..DigitRun(u)] == digits[..DigitRun(digits)];
  }

  /** Hence the text of any `int` is read back after leading white space and
      before any text that does not start with a digit. */
  lemma StoiSkipsSpaceAndTail(w: string, n: int, tail: string)
    requires forall i :: 0 <= i < |w| ==> IsSpace(w[i])
    requires InIntRange(n)
    requires |tail| == 0 || !IsDigit(tail[0])
    ensures Stoi(w + IntToString(n) + tail) == Some(n)
  {
    var sign, digits := IntToStringParts(n);
    assert w + IntToString(n) + tail == w + sign + digits + tail;
    StoiReadsLeadingNumber(w, sign, digits, tail);
  }

  /** The text of an `int` is an optional minus sign and the digits of its
      magnitude. */
  lemma IntToStringParts(n: int) returns (sign: string, digits: string)
    ensures sign == "" || sign == "-"
    ensures |digits| > 0 && AllDigits(digits)
    ensures IntToString(n) == sign + digits && Signed(sign, digits) == n
  {
    if n < 0 {
      sign, digits := "-", NatToString(-n);
    } else {
      sign, digits := "", NatToString(n);
      assert IntToString(n) == sign + digits;
    }
  }



  /** Without a digit after the white space and the optional sign there is
      nothing to read, and `std::stoi` fails. */
  lemma StoiNeedsDigit(w: string, sign: string, u: string)
    requires forall i :: 0 <= i < |w| ==> IsSpace(w[i])
    requires sign == "" || sign == "-" || sign == "+"
    requires |u| == 0 || !IsDigit(u[0])
    requires sign == "" && |u| > 0 ==> !IsSpace(u[0]) && u[0] != '-' && u[0] != '+'
    ensures Stoi(w + sign + u) == None
  {
    StoiOfSigned(w, sign, u);
  }

  /** After white space and a sign, or no sign where none could be read,
      `Stoi` reads the digit run of what follows. */
  lemma StoiOfSigned(w: string, sign: string, u: string)
    requires forall i :: 0 <= i < |w| ==> IsSpace(w[i])
    requires sign == "" || sign == "-" || sign == "+"
    requires sign == "" && |u| > 0 ==> !IsSpace(u[0]) && u[0] != '-' && u[0] != '+'
    ensures Stoi(w + sign + u) == SignedValue(sign == "-", u)
  {
    var x := sign + u;
    assert w + sign + u == w + x;
    StoiAfterSpace(w, x);
    if |sign| > 0 {
      assert x[0] == sign[0] && x[1..] == u;
    } else {
      assert x == u;
    }
  }

  /** After white space, `Stoi` looks at the first other character. */
  lemma StoiAfterSpace(w: string, x: string)
    requires forall i :: 0 <= i < |w| ==> IsSpace(w[i])
    requires |x| == 0 || !IsSpace(x[0])
    ensures Stoi(w + x) ==
      if |x| > 0 && (x[0] == '-' || x[0] == '+') then SignedValue(x[0] == '-', x[1..])
      else SignedValue(false, x)
  {
    SkipSpacePrefix(w, x);
  }

  /** White space in front is skipped up to the first other character. */
  lemma {:induction false} SkipSpacePrefix(w: string, x: string)
    requires forall i :: 0 <= i < |w| ==> IsSpace(w[i])
    requires |x| == 0 || !IsSpace(x[0])
    ensures SkipSpace(w + x) == x
  {
    if |w| > 0 {
      assert (w + x)[0] == w[0] && (w + x)[1..] == w[1..] + x;
      SkipSpacePrefix(w[1..], x);
    } else {
      assert w + x == x;
    }
  }

  /** The digit run stops where the digits end. */
  lemma {:induction false} DigitRunPrefix(digits: string, tail: string)
    requires AllDigits(digits)
    requires |tail| == 0 || !IsDigit(tail[0])
    ensures DigitRun(digits + tail) == |digits|
  {
    if |digits| > 0 {
      assert (digits + tail)[1..] == digits[1..] + tail;
      DigitRunPrefix(digits[1..], tail);
    } else {
      assert digits + tail == tail;
    }
  }

  /** A non-empty string of digits is read whole. */
  lemma SignedValueOfDigits(negative: bool, digits: string)
    requires |digits| > 0 && AllDigits(digits)
    requires InIntRange(if negative then -(DigitsValue(digits) as int) else DigitsValue(digits) as int)
    ensures SignedValue(negative, digits) == Some(if negative then -(DigitsValue(digits) as int) else DigitsValue(digits) as int)
  {
    DigitRunAllDigits(digits);
    assert digits[..|digits|] == digits;
  }

  /** On a string of digits the digit run is the whole string. */
  lemma {:induction false} DigitRunAllDigits(s: string)
    requires AllDigits(s)
    ensures DigitRun(s) == |s|
  {
    if |s| > 0 {
      DigitRunAllDigits(s[1..]);
    }
  }
}
