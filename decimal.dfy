/**
 * Decimal text of natural numbers: Python's `str(n)` / `f'{n}'` for a
 * non-negative int, used for `Content-Length`, the status code and the
 * logged port, and the reading a client does of such a field.
 */
module Decimal {
  import opened Wrappers

  predicate IsDigit(c: char) { '0' <= c <= '9' }

  predicate AllDigits(s: string) { forall i | 0 <= i < |s| :: IsDigit(s[i]) }

  function DigitChar(d: nat): (c: char)
    requires d < 10
    ensures IsDigit(c) && c as int - '0' as int == d
  {
    ('0' as int + d) as char
  }

  /** `str(n)`: decimal digits, most significant first, no leading zero. */
  function NatToString(n: nat): (r: string)
    ensures |r| >= 1 && AllDigits(r)
    ensures r[0] == '0' <==> n == 0
    ensures n == 0 ==> r == "0"
  {
    if n < 10 then [DigitChar(n)] else NatToString(n / 10) + [DigitChar(n % 10)]
  }

  /** The value of a string of digits, most significant first. */
  function DigitsValue(s: string): nat
    requires AllDigits(s)
  {
    if s == [] then 0
    else DigitsValue(s[..|s| - 1]) * 10 + (s[|s| - 1] as int - '0' as int)
  }

  /** Reads a non-empty run of digits; anything else is not a number. */
  function ParseNat(s: string): Option<nat>
  {
    if |s| >= 1 && AllDigits(s) then Some(DigitsValue(s)) else None
  }

  /** Reading back the decimal text of `n` gives `n`. */
  lemma {:induction false} ParseNatToString(n: nat)
    ensures ParseNat(NatToString(n)) == Some(n)
  {
    var r := NatToString(n);
    if n >= 10 {
      var p := NatToString(n / 10);
      assert r[..|r| - 1] == p;
      ParseNatToString(n / 10);
      assert DigitsValue(r) == DigitsValue(p) * 10 + n % 10;
    }
  }

  /** Decimal text has none of the characters that delimit HTTP fields. */
  lemma DigitsHaveNoDelimiters(s: string)
    requires AllDigits(s)
    ensures ' ' !in s && '\r' !in s && '\n' !in s && ':' !in s
    ensures forall i | 0 <= i < |s| :: s[i] as int < 128
  {
    forall i | 0 <= i < |s| ensures s[i] != ' ' && s[i] != '\r' && s[i] != '\n' && s[i] != ':' {
      assert IsDigit(s[i]);
    }
  }
}
