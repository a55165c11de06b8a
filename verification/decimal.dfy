/** Decimal digits: `String(n)` for naturals, `padStart(2, '0')`, and
    `parseInt(s, 10)` (with `None` standing for `NaN`). */
module Decimal {
  import opened Wrappers

  predicate IsDigit(c: char) {
    '0' <= c <= '9'
  }

  predicate AllDigits(s: string) {
    forall i :: 0 <= i < |s| ==> IsDigit(s[i])
  }

  function DigitChar(d: int): (c: char)
    requires 0 <= d < 10
    ensures IsDigit(c)
  {
    (d + '0' as int) as char
  }

  function DigitValue(c: char): (d: int)
    requires IsDigit(c)
    ensures 0 <= d < 10
  {
    c as int - '0' as int
  }

  /** The number a run of digits spells, most significant first. */
  function DigitsValue(s: string): (n: nat)
    requires AllDigits(s)
  {
    if |s| == 0 then 0 else DigitsValue(s[..|s| - 1]) * 10 + DigitValue(s[|s| - 1])
  }

  /** `String(n)`: the shortest decimal spelling, which reads back as `n`. */
  function NatToString(n: nat): (s: string)
    ensures 1 <= |s|
    ensures AllDigits(s)
    ensures |s| > 1 ==> s[0] != '0'
    ensures DigitsValue(s) == n
    ensures n < 10 <==> |s| == 1
  {
    if n < 10 then [DigitChar(n)]
    else
      var prefix := NatToString(n / 10);
      var s := prefix + [DigitChar(n % 10)];
      assert s[..|s| - 1] == prefix;
      s
  }

  lemma NatToStringLength(n: nat)
    ensures 10 <= n < 100 ==> |NatToString(n)| == 2
    ensures 1000 <= n < 10000 ==> |NatToString(n)| == 4
  {
    if n >= 10 {
      NatToStringLength(n / 10);
    }
  }

  /** `padStart(2, '0')`: one leading zero for a one-character string. */
  function PadStart2(s: string): (r: string)
    ensures |s| >= 2 ==> r == s
    ensures |s| < 2 ==> |r| == 2 && r[2 - |s|..] == s
    ensures forall i :: 0 <= i < 2 - |s| ==> r[i] == '0'
  {
    if |s| >= 2 then s else if |s| == 1 then ['0'] + s else "00"
  }

  /** `String(n).padStart(2, '0')`. */
  function TwoDigits(n: nat): (s: string)
    ensures n < 100 ==> |s| == 2 && AllDigits(s) && DigitsValue(s) == n
  {
    var digits := NatToString(n);
    NatToStringLength(n);
    PadStart2(digits)
  }

  /** JavaScript white space, as `trim`, `\s` and `parseInt` match it: the
      WhiteSpace characters (tab, vertical tab, form feed, space, no-break
      space, U+FEFF and the other space separators of Unicode category Zs)
      and the LineTerminator characters (line feed, carriage return, U+2028
      and U+2029), section 12.2 and 12.3 of ECMA-262. */
  predicate IsSpace(c: char) {
    c == ' ' || c == '\t' || c == '\n' || c == '\r' || c == '\U{000B}' || c == '\U{000C}' || c == '\U{00A0}'
    || c == '\U{1680}' || ('\U{2000}' <= c <= '\U{200A}') || c == '\U{2028}' || c == '\U{2029}'
    || c == '\U{202F}' || c == '\U{205F}' || c == '\U{3000}' || c == '\U{FEFF}'
  }

  /** Length of the run of digits that starts `s`. */
  function DigitRun(s: string): (k: nat)
    ensures k <= |s|
    ensures AllDigits(s[..k])
    ensures k < |s| ==> !IsDigit(s[k])
  {
    if |s| == 0 || !IsDigit(s[0]) then 0
    else
      var k := 1 + DigitRun(s[1..]);
      assert s[..k] == [s[0]] + s[1..][..k - 1];
      k
  }

  /** `parseInt(s, 10)`: leading white space, an optional sign, then the
      longest run of digits; `None` (NaN) when there is no digit there. */
  function ParseInt(s: string): (r: Option<int>)
    ensures r.Some? ==> exists k :: 0 <= k < |s| && IsDigit(s[k])
  {
    if |s| > 0 && IsSpace(s[0]) then ParseInt(s[1..])
    else
      var negative := |s| > 0 && s[0] == '-';
      var body := if |s| > 0 && (s[0] == '-' || s[0] == '+') then s[1..] else s;
      var k := DigitRun(body);
      if k == 0 then None
      else
        var v: int := DigitsValue(body[..k]);
        assert IsDigit(body[0]);
        Some(if negative then -v else v)
  }

  /** `String(n)` for any integer: a minus sign before the digits of a
      negative number. */
  function IntToString(n: int): (s: string)
    ensures n >= 0 ==> s == NatToString(n)
    ensures n < 0 ==> |s| >= 2 && s[0] == '-' && s[1..] == NatToString(-n)
  {
    if n >= 0 then NatToString(n) else "-" + NatToString(-n)
  }

  /** `parseInt` reads a non-empty run of digits (leading zeros included)
      as the number it spells. */
  lemma ParseIntOfDigits(s: string)
    requires 1 <= |s| && AllDigits(s)
    ensures ParseInt(s) == Some(DigitsValue(s))
  {
    assert !IsSpace(s[0]) && s[0] != '-' && s[0] != '+';
    DigitRunAll(s);
    assert s[..|s|] == s;
  }

  /** `parseInt` reads back every decimal spelling of a natural. */
  lemma ParseIntOfNatToString(n: nat)
    ensures ParseInt(NatToString(n)) == Some(n)
  {
    ParseIntOfDigits(NatToString(n));
  }

  /** `parseInt` reads back every decimal spelling of an integer. */
  lemma ParseIntOfIntToString(n: int)
    ensures ParseInt(IntToString(n)) == Some(n)
  {
    if n < 0 {
      var s := IntToString(n);
      var digits := NatToString(-n);
      assert !IsSpace(s[0]) && s[0] == '-';
      DigitRunAll(digits);
      assert s[1..] == digits && digits[..|digits|] == digits;
    } else {
      ParseIntOfNatToString(n);
    }
  }

  lemma {:induction false} DigitRunAll(s: string)
    requires AllDigits(s)
    ensures DigitRun(s) == |s|
  {
    if |s| > 0 {
      DigitRunAll(s[1..]);
    }
  }

  /** A digit run followed by a non-digit parses as the run alone. */
  lemma ParseIntStopsAtNonDigit(s: string, t: string)
    requires 1 <= |s| && AllDigits(s)
    requires |t| > 0 && !IsDigit(t[0])
    ensures ParseInt(s + t) == Some(DigitsValue(s))
  {
    var st := s + t;
    assert !IsSpace(st[0]) && st[0] != '-' && st[0] != '+';
    DigitRunPrefix(s, t);
    assert st[..|s|] == s;
  }

  lemma {:induction false} DigitRunPrefix(s: string, t: string)
    requires AllDigits(s)
    requires |t| > 0 && !IsDigit(t[0])
    ensures DigitRun(s + t) == |s|
  {
    if |s| == 0 {
      assert s + t == t;
    } else {
      assert (s + t)[1..] == s[1..] + t;
      DigitRunPrefix(s[1..], t);
    }
  }
}
