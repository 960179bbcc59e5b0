/**
 * Go's strconv.Atoi on a 64-bit platform, which ResizeImage uses to read
 * its target width and height: an optional '+' or '-' followed by one or
 * more decimal digits, whose value must fit in an int64. Anything else
 * (empty, a stray character, spaces, underscores, overflow) is an error.
 */
module Decimal {
  import opened Common

  const MinInt64: int := -0x8000_0000_0000_0000
  const MaxInt64: int := 0x7fff_ffff_ffff_ffff

  predicate IsDigit(c: char)
  {
    '0' <= c <= '9'
  }

  predicate AllDigits(s: string)
  {
    forall i :: 0 <= i < |s| ==> IsDigit(s[i])
  }

  /** Value of a string of decimal digits, most significant first. */
  function DigitsValue(s: string): nat
    requires AllDigits(s)
  {
    if s == [] then 0 else DigitsValue(s[..|s| - 1]) * 10 + (s[|s| - 1] as int - '0' as int)
  }

  /** strconv.Atoi: Some(value) on success, None on a syntax or range error. */
  function Atoi(s: string): (r: Option<int>)
    ensures r.Some? ==> MinInt64 <= r.value <= MaxInt64
    ensures r.Some? ==> |s| > 0 && (IsDigit(s[0]) || s[0] == '+' || s[0] == '-')
    ensures r.Some? ==> forall i :: 0 < i < |s| ==> IsDigit(s[i])
    // a lone sign is not a number
    ensures r.Some? ==> IsDigit(s[|s| - 1])
    // an unsigned run of digits is read as its value whenever that fits in an int64
    ensures |s| > 0 && AllDigits(s) && DigitsValue(s) <= MaxInt64 ==> r == Some(DigitsValue(s) as int)
    // and rejected as out of range otherwise
    ensures |s| > 0 && AllDigits(s) && DigitsValue(s) > MaxInt64 ==> r.None?
  {
    var digits := if |s| > 0 && (s[0] == '+' || s[0] == '-') then s[1..] else s;
    if digits == [] || !AllDigits(digits) then None
    else
      var v: int := if s[0] == '-' then -(DigitsValue(digits) as int) else DigitsValue(digits);
      if MinInt64 <= v <= MaxInt64 then Some(v) else None
  }

  /** Decimal digits of n, without leading zeros. */
  function NatDigits(n: nat): (s: string)
    ensures |s| > 0 && AllDigits(s)
  {
    if n < 10 then [('0' as int + n) as char]
    else NatDigits(n / 10) + [('0' as int + n % 10) as char]
  }

  /** strconv.Itoa: the decimal form of v, with a '-' when negative. */
  function Itoa(v: int): (s: string)
    ensures |s| > 0
  {
    if v < 0 then "-" + NatDigits(-v) else NatDigits(v)
  }

  /** Reading back the digits of n gives n. */
  lemma {:induction false} DigitsRoundTrip(n: nat)
    ensures DigitsValue(NatDigits(n)) == n
  {
    if n >= 10 {
      DigitsRoundTrip(n / 10);
      var s := NatDigits(n);
      assert s[..|s| - 1] == NatDigits(n / 10);
    }
  }

  /** Atoi reads back every int64 that Itoa writes. */
  lemma AtoiItoa(v: int)
    requires MinInt64 <= v <= MaxInt64
    ensures Atoi(Itoa(v)) == Some(v)
  {
    var s := Itoa(v);
    if v < 0 {
      var digits := NatDigits(-v);
      DigitsRoundTrip(-v);
      assert s[0] == '-' && s[1..] == digits;
    } else {
      var digits := NatDigits(v);
      DigitsRoundTrip(v);
      assert s == digits && IsDigit(s[0]);
    }
  }

  /**
   * Atoi on an explicit sign (none, '+' or '-') followed by digits: the
   * signed value of the digits when it fits in an int64, a range error
   * otherwise.
   */
  lemma AtoiSigned(sign: string, d: string)
    requires sign == "" || sign == "+" || sign == "-"
    requires |d| > 0 && AllDigits(d)
    ensures var v := if sign == "-" then -(DigitsValue(d) as int) else DigitsValue(d) as int;
      Atoi(sign + d) == if MinInt64 <= v <= MaxInt64 then Some(v) else None
  {
    var s := sign + d;
    if sign == "" {
      assert s == d;
      assert IsDigit(s[0]);
    } else {
      assert s[0] == sign[0];
      assert s[1..] == d;
    }
  }

  /** Non-numeric text is rejected. */
  lemma AtoiRejectsText()
    ensures Atoi("abc") == None
    ensures Atoi("") == None
    ensures Atoi("-") == None
    ensures Atoi("12px") == None
  {
    assert !IsDigit('a');
    assert !IsDigit('p');
  }
}
