/**
 * Python's `str(int)`, which the f-string of the HTTP error message applies
 * to the status code, and a reader that takes the decimal back.
 */
module Decimal {

  import opened Wrappers

  predicate IsDigit(c: char)
  {
    '0' <= c <= '9'
  }

  function DigitChar(d: nat): (c: char)
    requires d < 10
    ensures IsDigit(c)
  {
    ('0' as int + d) as char
  }

  function DigitValue(c: char): (d: nat)
    requires IsDigit(c)
    ensures d < 10 && DigitChar(d) == c
  {
    c as int - '0' as int
  }

  /** The decimal digits of `n`, most significant first, without leading zeros. */
  function NatToDecimal(n: nat): (s: string)
    ensures |s| >= 1 && forall i :: 0 <= i < |s| ==> IsDigit(s[i])
    ensures |s| > 1 ==> s[0] != '0'
  {
    if n < 10 then [DigitChar(n)] else NatToDecimal(n / 10) + [DigitChar(n % 10)]
  }

  /** `str(n)`: a minus sign before the digits of a negative number. */
  function IntToDecimal(n: int): (s: string)
    ensures n >= 0 ==> forall i :: 0 <= i < |s| ==> IsDigit(s[i])
    ensures n < 0 ==> |s| >= 2 && s[0] == '-' && forall i :: 1 <= i < |s| ==> IsDigit(s[i])
    ensures |s| >= 1 && (s[0] == '-' <==> n < 0)
  {
    if n < 0 then "-" + NatToDecimal(-n) else NatToDecimal(n)
  }

  /** The value of a string of digits. */
  function DecimalValue(s: string): nat
    requires forall i :: 0 <= i < |s| ==> IsDigit(s[i])
  {
    if s == [] then 0 else 10 * DecimalValue(s[..|s| - 1]) + DigitValue(s[|s| - 1])
  }

  /** The number of digits at the head of `s`. */
  function DigitRun(s: string): (k: nat)
    ensures k <= |s|
  {
    if |s| > 0 && IsDigit(s[0]) then 1 + DigitRun(s[1..]) else 0
  }

  /** The natural number written at the head of `s`, if `s` starts with a digit. */
  function ReadNat(s: string): Option<nat>
  {
    var k := DigitRun(s);
    DigitRunAreDigits(s);
    if k == 0 then None else Some(DecimalValue(s[..k]))
  }

  /** The integer written at the head of `s`, with an optional minus sign. */
  function ReadInt(s: string): Option<int>
  {
    if |s| > 0 && s[0] == '-' then
      match ReadNat(s[1..])
      case None => None
      case Some(n) => Some(-(n as int))
    else
      match ReadNat(s)
      case None => None
      case Some(n) => Some(n)
  }

  lemma {:induction false} DigitRunAreDigits(s: string)
    ensures forall i :: 0 <= i < DigitRun(s) ==> IsDigit(s[i])
  {
    if |s| > 0 && IsDigit(s[0]) {
      DigitRunAreDigits(s[1..]);
      assert forall i :: 1 <= i < DigitRun(s) ==> s[i] == s[1..][i - 1];
    }
  }

  /** The digits run over a string of digits and stop at the first non-digit after it. */
  lemma {:induction false} DigitRunOverDigits(ds: string, rest: string)
    requires forall i :: 0 <= i < |ds| ==> IsDigit(ds[i])
    requires rest == [] || !IsDigit(rest[0])
    ensures DigitRun(ds + rest) == |ds|
  {
    if ds != [] {
      assert (ds + rest)[1..] == ds[1..] + rest;
      DigitRunOverDigits(ds[1..], rest);
    } else {
      assert ds + rest == rest;
    }
  }

  /** Reading back the digits of `n` gives `n`. */
  lemma {:induction false} DecimalRoundTrip(n: nat)
    ensures DecimalValue(NatToDecimal(n)) == n
  {
    var s := NatToDecimal(n);
    if n >= 10 {
      assert s[..|s| - 1] == NatToDecimal(n / 10);
      DecimalRoundTrip(n / 10);
    }
  }

  /**
   * `str(n)` followed by text that does not start with a digit is read back
   * as `n`.
   */
  lemma IntToDecimalReadBack(n: int, rest: string)
    requires rest == [] || !IsDigit(rest[0])
    ensures ReadInt(IntToDecimal(n) + rest) == Some(n)
  {
    var m: nat := if n < 0 then -n else n;
    var ds := NatToDecimal(m);
    DigitRunOverDigits(ds, rest);
    assert (ds + rest)[..|ds|] == ds;
    DecimalRoundTrip(m);
    assert ReadNat(ds + rest) == Some(m);
    if n < 0 {
      assert IntToDecimal(n) + rest == "-" + (ds + rest);
      assert ("-" + (ds + rest))[1..] == ds + rest;
    } else {
      assert (ds + rest)[0] == ds[0];
    }
  }

  /** `str(n)` can be read back from behind any prefix, if a non-digit follows it. */
  lemma ReadIntAfterPrefix(prefix: string, n: int, rest: string)
    requires rest == [] || !IsDigit(rest[0])
    ensures var s := prefix + IntToDecimal(n) + rest;
      prefix <= s && ReadInt(s[|prefix|..]) == Some(n)
  {
    var s := prefix + IntToDecimal(n) + rest;
    assert s == prefix + (IntToDecimal(n) + rest);
    assert s[|prefix|..] == IntToDecimal(n) + rest;
    IntToDecimalReadBack(n, rest);
  }

  /** The three digits of a status code in the usual range. */
  lemma ThreeDigits(n: nat)
    requires 100 <= n < 1000
    ensures NatToDecimal(n) == [DigitChar(n / 100), DigitChar(n / 10 % 10), DigitChar(n % 10)]
  {
    assert NatToDecimal(n / 10) == [DigitChar(n / 100), DigitChar(n / 10 % 10)];
  }

  /** As `str` writes them: a status code, and a negative number. */
  lemma Examples()
    ensures IntToDecimal(401) == "401"
    ensures IntToDecimal(-7) == "-7"
  {
    ThreeDigits(401);
  }

  /** Different numbers are written differently. */
  lemma IntToDecimalInjective(m: int, n: int)
    requires IntToDecimal(m) == IntToDecimal(n)
    ensures m == n
  {
    IntToDecimalReadBack(m, []);
    IntToDecimalReadBack(n, []);
    assert IntToDecimal(m) + [] == IntToDecimal(n) + [];
  }
}
