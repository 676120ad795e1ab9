/** Decimal rendering of integers, as Python's `str(int)` and f-string
    interpolation `f"{n}"` produce it, together with a parser that reads the
    rendering back. The parser is the partner that shows the rendering loses
    no information: distinct numbers never share a rendering. */
module Decimal {
  import opened Wrappers

  predicate IsDigit(c: char)
  {
    '0' <= c <= '9'
  }

  function DigitChar(d: nat): (c: char)
    requires d < 10
    ensures IsDigit(c)
  {
    ('0' as int + d) as char
  }

  function DigitValue(c: char): (d: nat)
    requires IsDigit(c)
    ensures d < 10
    ensures DigitChar(d) == c
  {
    c as int - '0' as int
  }

  predicate AllDigits(s: string)
  {
    forall i :: 0 <= i < |s| ==> IsDigit(s[i])
  }

  /** Decimal digits of a natural number, most significant first, without
      leading zeros. */
  function FromNat(n: nat): (s: string)
    ensures |s| >= 1
    ensures AllDigits(s)
    ensures s[0] == '0' ==> n == 0
    decreases n
  {
    if n < 10 then [DigitChar(n)]
    else
      var prefix := FromNat(n / 10);
      assert prefix[0] != '0';
      prefix + [DigitChar(n % 10)]
  }

  /** Python's `str(i)`: a minus sign in front of the digits of `-i` for a
      negative `i`, the bare digits otherwise. */
  function FromInt(i: int): (s: string)
    ensures |s| >= 1
    ensures i >= 0 ==> AllDigits(s)
    ensures i < 0 ==> s[0] == '-' && AllDigits(s[1..])
    ensures forall k :: 0 <= k < |s| ==> s[k] != ',' && s[k] != ' ' && s[k] != '(' && s[k] != ')'
  {
    if i < 0 then "-" + FromNat(-i) else FromNat(i)
  }

  /** The number a string of digits denotes, read most significant digit
      first; the empty string denotes 0. */
  function Value(s: string): nat
    requires AllDigits(s)
  {
    if |s| == 0 then 0
    else Value(s[..|s| - 1]) * 10 + DigitValue(s[|s| - 1])
  }

  /** Reads a decimal natural number: one or more digits, nothing else. */
  function ParseNat(s: string): (r: Option<nat>)
    ensures r.Some? <==> |s| >= 1 && AllDigits(s)
  {
    if |s| >= 1 && AllDigits(s) then Some(Value(s)) else None
  }

  /** Reads an optionally negative decimal integer. */
  function ParseInt(s: string): (r: Option<int>)
    ensures r.Some? && r.value < 0 ==> |s| >= 2 && s[0] == '-'
  {
    if |s| >= 1 && s[0] == '-' then
      match ParseNat(s[1..])
      case Some(n) => Some(-(n as int))
      case None => None
    else
      match ParseNat(s)
      case Some(n) => Some(n as int)
      case None => None
  }

  lemma {:induction false} ValueOfFromNat(n: nat)
    ensures Value(FromNat(n)) == n
    decreases n
  {
    if n >= 10 {
      var prefix := FromNat(n / 10);
      var s := prefix + [DigitChar(n % 10)];
      assert s[..|s| - 1] == prefix;
      ValueOfFromNat(n / 10);
    }
  }

  /** Reading back the rendering of a natural number gives that number. */
  lemma ParseNatFromNat(n: nat)
    ensures ParseNat(FromNat(n)) == Some(n)
  {
    ValueOfFromNat(n);
  }

  /** Reading back Python's rendering of an integer gives that integer. */
  lemma ParseIntFromInt(i: int)
    ensures ParseInt(FromInt(i)) == Some(i)
  {
    if i < 0 {
      var s := FromInt(i);
      assert s[1..] == FromNat(-i);
      ParseNatFromNat(-i);
    } else {
      ParseNatFromNat(i);
    }
  }

  /** Distinct natural numbers have distinct renderings. */
  lemma FromNatInjective(n: nat, m: nat)
    ensures FromNat(n) == FromNat(m) <==> n == m
  {
    ParseNatFromNat(n);
    ParseNatFromNat(m);
  }

  /** Distinct integers have distinct renderings. */
  lemma FromIntInjective(i: int, j: int)
    ensures FromInt(i) == FromInt(j) <==> i == j
  {
    ParseIntFromInt(i);
    ParseIntFromInt(j);
  }
}
