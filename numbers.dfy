/** Integers as text: the decimal rendering a template literal gives an integer-valued
    number (`${n}`), and `parseInt` on a string that starts with an optional sign and
    decimal digits. */
module Numbers {

  import opened Wrappers

  predicate IsDigit(c: char) { '0' <= c <= '9' }

  predicate AllDigits(s: string)
  {
    forall i :: 0 <= i < |s| ==> IsDigit(s[i])
  }

  function DigitChar(d: nat): (c: char)
    requires d < 10
    ensures IsDigit(c)
  {
    ('0' as int + d) as char
  }

  function DigitValue(c: char): (d: nat)
    requires IsDigit(c)
    ensures d < 10 && DigitChar(d) == c
  {
    c as int - '0' as int
  }

  /** The value of a run of decimal digits, most significant first. */
  function DigitsValue(ds: string): nat
    requires AllDigits(ds)
  {
    if ds == [] then 0 else DigitsValue(ds[..|ds| - 1]) * 10 + DigitValue(ds[|ds| - 1])
  }

  /** Decimal rendering of a natural number, without leading zeros. */
  function NatToString(n: nat): (s: string)
    ensures s != [] && AllDigits(s)
    ensures |s| > 1 ==> s[0] != '0'
    decreases n
  {
    if n < 10 then [DigitChar(n)] else NatToString(n / 10) + [DigitChar(n % 10)]
  }

  /** `${i}` for an integer-valued number: a minus sign before negatives. */
  function IntToString(i: int): (s: string)
    ensures s != [] && (s[0] == '-' <==> i < 0)
  {
    if i < 0 then "-" + NatToString(-i) else NatToString(i)
  }

  /** The longest prefix of s made of decimal digits. */
  function LeadingDigits(s: string): (ds: string)
    ensures ds <= s && AllDigits(ds)
    ensures |ds| < |s| ==> !IsDigit(s[|ds|])
  {
    if s == [] || !IsDigit(s[0]) then [] else [s[0]] + LeadingDigits(s[1..])
  }

  /** The value of the digits at the start of s, or None when s does not start with one. */
  function ParseUnsigned(s: string): Option<int>
  {
    var ds := LeadingDigits(s);
    if ds == [] then None else Some(DigitsValue(ds))
  }

  /** `parseInt(s)`: an optional sign, then the digits up to the first non-digit; None stands
      for NaN, which is what parseInt gives when no digit follows the sign. */
  function ParseInt(s: string): (r: Option<int>)
    ensures r.Some? <==> s != [] && (IsDigit(s[0]) || ((s[0] == '-' || s[0] == '+') && |s| > 1 && IsDigit(s[1])))
    ensures r.Some? && r.value < 0 ==> s[0] == '-'
  {
    if s != [] && s[0] == '-' then
      match ParseUnsigned(s[1..])
      case None => None
      case Some(v) => Some(-v)
    else if s != [] && s[0] == '+' then ParseUnsigned(s[1..])
    else ParseUnsigned(s)
  }

  lemma {:induction false} NatToStringValue(n: nat)
    ensures DigitsValue(NatToString(n)) == n
    decreases n
  {
    var s := NatToString(n);
    if n >= 10 {
      NatToStringValue(n / 10);
      assert s[..|s| - 1] == NatToString(n / 10);
    }
  }

  /** Every digit of ds and nothing of t, when t does not start with a digit. */
  lemma {:induction false} LeadingDigitsStopAt(ds: string, t: string)
    requires AllDigits(ds)
    requires t == [] || !IsDigit(t[0])
    ensures LeadingDigits(ds + t) == ds
    decreases |ds|
  {
    if ds == [] {
      assert ds + t == t;
    } else {
      assert (ds + t)[1..] == ds[1..] + t;
      LeadingDigitsStopAt(ds[1..], t);
    }
  }

  /** An unsigned run of digits followed by a non-digit parses to its value. */
  lemma ParseDigits(ds: string, t: string)
    requires ds != [] && AllDigits(ds)
    requires t == [] || !IsDigit(t[0])
    ensures ParseInt(ds + t) == Some(DigitsValue(ds))
  {
    LeadingDigitsStopAt(ds, t);
    assert (ds + t)[0] == ds[0];
  }

  /** A minus sign, a run of digits and then a non-digit parse to the negated value. */
  lemma ParseNegatedDigits(ds: string, t: string)
    requires ds != [] && AllDigits(ds)
    requires t == [] || !IsDigit(t[0])
    ensures ParseInt("-" + (ds + t)) == Some(-(DigitsValue(ds) as int))
  {
    UnsignedDigits(ds, t);
    ParseAfterMinus(ds + t, DigitsValue(ds));
  }

  lemma UnsignedDigits(ds: string, t: string)
    requires ds != [] && AllDigits(ds)
    requires t == [] || !IsDigit(t[0])
    ensures ParseUnsigned(ds + t) == Some(DigitsValue(ds))
  {
    LeadingDigitsStopAt(ds, t);
  }

  lemma ParseAfterMinus(u: string, v: int)
    requires ParseUnsigned(u) == Some(v)
    ensures ParseInt("-" + u) == Some(-v)
  {
    assert ("-" + u)[1..] == u;
  }

  /** parseInt reads back what `${i}` wrote, whatever follows it, provided the text that
      follows does not start with a digit. */
  lemma ParseIntAfterToString(i: int, t: string)
    requires t == [] || !IsDigit(t[0])
    ensures ParseInt(IntToString(i) + t) == Some(i)
  {
    if i < 0 {
      NatToStringValue(-i);
      ParseNegatedDigits(NatToString(-i), t);
      assert IntToString(i) + t == "-" + (NatToString(-i) + t);
    } else {
      NatToStringValue(i);
      ParseDigits(NatToString(i), t);
    }
  }

  /** The round trip: parseInt(`${i}`) == i. */
  lemma ParseIntToString(i: int)
    ensures ParseInt(IntToString(i)) == Some(i)
  {
    ParseIntAfterToString(i, []);
    assert IntToString(i) + [] == IntToString(i);
  }
}
