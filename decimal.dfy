/**
 * `strconv.Itoa`, used by `ackTrigger` (mock.go) to put a trigger id into the
 * acknowledgement address, together with a reference parser that inverts it.
 */
module Decimal {
  import opened Results

  predicate IsDigit(c: char) {
    '0' <= c <= '9'
  }

  predicate AllDigits(s: string) {
    forall i :: 0 <= i < |s| ==> IsDigit(s[i])
  }

  function DigitChar(d: nat): (c: char)
    requires d < 10
    ensures IsDigit(c) && c as int - '0' as int == d
  {
    ('0' as int + d) as char
  }

  function DigitValue(c: char): (d: nat)
    requires IsDigit(c)
    ensures d < 10 && DigitChar(d) == c
  {
    c as int - '0' as int
  }

  /** The decimal digits of `n`, most significant first, with no leading zero. */
  function NatToDigits(n: nat): (s: string)
    ensures |s| >= 1 && AllDigits(s)
    ensures s[0] == '0' <==> n == 0
    ensures n == 0 ==> s == "0"
    decreases n
  {
    if n < 10 then [DigitChar(n)] else NatToDigits(n / 10) + [DigitChar(n % 10)]
  }

  /**
   * strconv.Itoa: decimal form of `i`, with a leading '-' exactly when `i` is
   * negative and no leading zero; 0 itself is "0". Reading the result back
   * gives `i` (ParseItoa); with the canonical shape this fixes the string.
   */
  function Itoa(i: int): (r: string)
    ensures |r| >= 1 && (r[0] == '-' <==> i < 0)
    ensures var digits := if i < 0 then r[1..] else r;
      |digits| >= 1 && AllDigits(digits) && (digits[0] == '0' ==> i == 0 && digits == "0")
  {
    if i < 0 then
      var digits := NatToDigits(-i);
      var s := "-" + digits;
      assert s[1..] == digits;
      s
    else
      NatToDigits(i)
  }

  /** The value of a string of decimal digits. */
  function ParseNat(s: string): nat
    requires AllDigits(s)
    decreases |s|
  {
    if s == [] then 0 else ParseNat(s[..|s| - 1]) * 10 + DigitValue(s[|s| - 1])
  }

  /** Reads an optionally negative decimal integer; anything else is rejected. */
  function ParseInt(s: string): Option<int> {
    if |s| > 1 && s[0] == '-' && AllDigits(s[1..]) then Some(0 - ParseNat(s[1..]) as int)
    else if |s| > 0 && AllDigits(s) then Some(ParseNat(s))
    else None
  }

  lemma {:induction false} ParseNatToDigits(n: nat)
    ensures ParseNat(NatToDigits(n)) == n
    decreases n
  {
    if n >= 10 {
      var s := NatToDigits(n);
      assert s[..|s| - 1] == NatToDigits(n / 10);
      ParseNatToDigits(n / 10);
    }
  }

  /** Parsing undoes Itoa. */
  lemma ParseItoa(i: int)
    ensures ParseInt(Itoa(i)) == Some(i)
  {
    var s := Itoa(i);
    if i < 0 {
      assert s[1..] == NatToDigits(-i);
      ParseNatToDigits(-i);
    } else {
      ParseNatToDigits(i);
    }
  }

  /** Distinct integers have distinct decimal forms. */
  lemma ItoaInjective(i: int, j: int)
    requires Itoa(i) == Itoa(j)
    ensures i == j
  {
    ParseItoa(i);
    ParseItoa(j);
  }
}
