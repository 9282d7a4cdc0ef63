/** `formatoHora`: minutes since midnight as "HH:MM", each part written with
    `setw(2)` and fill character '0'. C++ division truncates toward zero,
    which is spelled out here because Dafny's division does not. */
module Clock {

  import opened Decimal

  /** C++ `n / 60` on an `int`: truncation toward zero. */
  function TruncDiv60(n: int): int {
    if n >= 0 then n / 60 else -((-n) / 60)
  }

  /** C++ `n % 60`: the remainder that goes with truncating division. */
  function TruncRem60(n: int): int {
    n - 60 * TruncDiv60(n)
  }

  /** Right-aligned in a field of width two, padded with '0'; longer text is
      written whole. */
  function Pad2(t: string): (r: string)
    ensures |t| >= 2 ==> r == t
    ensures |t| < 2 ==> |r| == 2 && r[2 - |t|..] == t
  {
    if |t| == 0 then "00" else if |t| == 1 then "0" + t else t
  }

  /** The hours, a colon and the minutes, each at least two characters wide,
      so the text is never shorter than "HH:MM". */
  function FormatTime(minutes: int): (r: string)
    ensures |r| >= 5 && ':' in r
  {
    var h := Pad2(IntToString(TruncDiv60(minutes)));
    assert (h + ":")[|h|] == ':';
    h + ":" + Pad2(IntToString(TruncRem60(minutes)))
  }

  /** Padding a numeral with '0' keeps its value. */
  lemma PadKeepsValue(t: string)
    requires |t| > 0 && AllDigits(t)
    ensures |Pad2(t)| >= 2 && AllDigits(Pad2(t)) && DigitsValue(Pad2(t)) == DigitsValue(t)
  {
    if |t| == 1 {
      var r := Pad2(t);
      assert r == ['0', t[0]] && r[..1] == ['0'] && t[..0] == [];
      assert DigitsValue(r[..1]) == DigitsValue([]) * 10 + DigitValue('0') == 0;
    }
  }

  /** A number below 100 has at most two digits. */
  lemma ShortNumeral(n: nat)
    requires n < 100
    ensures |NatToString(n)| <= 2
  {
    if n >= 10 {
      assert NatToString(n) == NatToString(n / 10) + [DigitChar(n % 10)];
    }
  }

  /** `r` is "hours:minutes" for the given number of minutes: the text
      before the last three characters is all digits, a colon follows, then
      two digits of minutes below 60, and the two numbers make up `minutes`. */
  ghost predicate ReadsBackAs(r: string, minutes: int) {
    && |r| >= 5 && r[|r| - 3] == ':'
    && AllDigits(r[..|r| - 3]) && AllDigits(r[|r| - 2..])
    && DigitsValue(r[|r| - 2..]) < 60
    && DigitsValue(r[..|r| - 3]) * 60 + DigitsValue(r[|r| - 2..]) == minutes
  }

  /** Any non-negative number of minutes is written so that it reads back;
      below 100 hours the text is exactly five characters. */
  lemma FormatTimeReadsBack(minutes: int)
    requires minutes >= 0
    ensures ReadsBackAs(FormatTime(minutes), minutes)
    ensures minutes < 6000 ==> |FormatTime(minutes)| == 5
  {
    var hours, rest := minutes / 60, minutes % 60;
    PaddedNumeral(hours);
    PaddedNumeral(rest);
    FormatTimeParts(minutes);
    PartsReadBack(Pad2(NatToString(hours)), Pad2(NatToString(rest)), hours, rest);
  }

  /** A numeral padded to width two: digits, at least two of them, exactly
      two below 100, with the value of the number. */
  lemma PaddedNumeral(n: nat)
    ensures |Pad2(NatToString(n))| >= 2 && AllDigits(Pad2(NatToString(n)))
    ensures DigitsValue(Pad2(NatToString(n))) == n
    ensures n < 100 ==> |Pad2(NatToString(n))| == 2
  {
    PadKeepsValue(NatToString(n));
    if n < 100 {
      ShortNumeral(n);
    }
  }

  /** For non-negative input truncating and Euclidean division agree. */
  lemma FormatTimeParts(minutes: int)
    requires minutes >= 0
    ensures FormatTime(minutes) == Pad2(NatToString(minutes / 60)) + ":" + Pad2(NatToString(minutes % 60))
  {
    assert TruncDiv60(minutes) == minutes / 60 && TruncRem60(minutes) == minutes % 60;
  }

  /** Digits for the hours, a colon and two digits for the minutes read
      back as the total number of minutes. */
  lemma PartsReadBack(h: string, m: string, hours: int, rest: int)
    requires |h| >= 2 && AllDigits(h) && DigitsValue(h) == hours
    requires |m| == 2 && AllDigits(m) && DigitsValue(m) == rest && rest < 60
    ensures ReadsBackAs(h + ":" + m, hours * 60 + rest)
  {
    var r := h + ":" + m;
    assert r[..|r| - 3] == h && r[|r| - 2..] == m && r[|r| - 3] == ':';
  }

  /** Negative input is written the way C++ truncating division leaves it:
      -30 minutes gives "00:-30". */
  lemma NegativeMinutes()
    ensures FormatTime(-30) == "00:-30"
  {
  }
}
