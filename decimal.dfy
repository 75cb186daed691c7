/** Decimal text of integers: Python's str() on an int, and Python's int()
    on a string (base 10). */
module Decimal {
  import opened Text

  predicate IsDigit(c: char) {
    '0' <= c <= '9'
  }

  predicate AllDigits(s: string) {
    forall i :: 0 <= i < |s| ==> IsDigit(s[i])
  }

  function DigitChar(d: nat): (c: char)
    requires d < 10
    ensures IsDigit(c) && c as int - '0' as int == d
  {
    ('0' as int + d) as char
  }

  /** str(n) for n >= 0: the shortest decimal numeral of n. */
  function NatToString(n: nat): (r: string)
    ensures r != [] && AllDigits(r)
    ensures r[0] == '0' ==> n == 0
    decreases n
  {
    if n < 10 then [DigitChar(n)] else NatToString(n / 10) + [DigitChar(n % 10)]
  }

  /** str(i) for any int: a minus sign, then the numeral of |i|. */
  function IntToString(i: int): (r: string)
    ensures r != [] && IsDigit(r[|r| - 1])
    ensures (r[0] == '-') <==> (i < 0)
    ensures i >= 0 ==> AllDigits(r)
  {
    if i < 0 then "-" + NatToString(-i) else NatToString(i)
  }

  /** The value of a numeral, most significant digit first. */
  function DigitsValue(s: string): nat
    requires AllDigits(s)
  {
    if s == [] then 0 else DigitsValue(s[..|s| - 1]) * 10 + (s[|s| - 1] as int - '0' as int)
  }

  /** What int() accepts after the sign: digits, with single underscores
      between two digits. */
  predicate IsDigitGroups(s: string) {
    s != [] && IsDigit(s[0]) && IsDigit(s[|s| - 1]) &&
    (forall i :: 0 <= i < |s| ==> IsDigit(s[i]) || s[i] == '_') &&
    (forall i :: 0 <= i < |s| - 1 ==> !(s[i] == '_' && s[i + 1] == '_'))
  }

  function DropUnderscores(s: string): (r: string)
    requires forall i :: 0 <= i < |s| ==> IsDigit(s[i]) || s[i] == '_'
    ensures AllDigits(r)
    ensures AllDigits(s) ==> r == s
  {
    if s == [] then []
    else if s[0] == '_' then DropUnderscores(s[1..])
    else [s[0]] + DropUnderscores(s[1..])
  }

  /** int(s) in base 10: surrounding whitespace is ignored, one optional
      sign, then digit groups; anything else raises ValueError (None).
      Non-ASCII decimal digits are not modelled. */
  function ParseInt(s: string): (r: Option<int>)
    ensures r.Some? ==> Strip(s) != []
    ensures r.Some? && r.value < 0 ==> Strip(s)[0] == '-'
  {
    var t := Strip(s);
    if t != [] && (t[0] == '+' || t[0] == '-') then
      var digits := t[1..];
      if IsDigitGroups(digits) then
        var v: int := DigitsValue(DropUnderscores(digits));
        Some(if t[0] == '-' then -v else v)
      else None
    else if IsDigitGroups(t) then Some(DigitsValue(DropUnderscores(t)))
    else None
  }

  lemma {:induction false} NatToStringValue(n: nat)
    ensures DigitsValue(NatToString(n)) == n
    decreases n
  {
    var r := NatToString(n);
    if n >= 10 {
      NatToStringValue(n / 10);
      assert r[..|r| - 1] == NatToString(n / 10);
    }
  }

  lemma NumeralIsDigitGroups(s: string)
    requires s != [] && AllDigits(s)
    ensures IsDigitGroups(s) && DropUnderscores(s) == s
  {
  }

  lemma DigitIsNotSpace(c: char)
    requires IsDigit(c) || c == '-'
    ensures !IsSpace(c)
  {
  }

  lemma NumeralStripped(i: int)
    ensures Strip(IntToString(i)) == IntToString(i)
  {
    var r := IntToString(i);
    DigitIsNotSpace(r[0]);
    DigitIsNotSpace(r[|r| - 1]);
  }

  /** int() on an unsigned numeral with nothing around it. */
  lemma ParseNumeral(s: string)
    requires Strip(s) == s && s != [] && AllDigits(s)
    ensures ParseInt(s) == Some(DigitsValue(s) as int)
  {
    NumeralIsDigitGroups(s);
  }

  /** int() on a minus sign and a numeral with nothing around them. */
  lemma ParseNegativeNumeral(s: string, n: string)
    requires n != [] && AllDigits(n) && s == "-" + n && Strip(s) == s
    ensures ParseInt(s) == Some(-(DigitsValue(n) as int))
  {
    SignTail(n);
    NumeralIsDigitGroups(n);
  }

  lemma SignTail(n: string)
    ensures ("-" + n)[0] == '-' && ("-" + n)[1..] == n
  {
  }

  /** int(str(i)) == i: the decimal text of every integer reads back as
      that integer. */
  lemma ParseIntRoundTrip(i: int)
    ensures ParseInt(IntToString(i)) == Some(i)
  {
    NumeralStripped(i);
    if i < 0 {
      NegativeRoundTrip(i);
    } else {
      NatToStringValue(i);
      ParseNumeral(IntToString(i));
    }
  }

  lemma NegativeRoundTrip(i: int)
    requires i < 0 && Strip(IntToString(i)) == IntToString(i)
    ensures ParseInt(IntToString(i)) == Some(i)
  {
    NatToStringValue(-i);
    ParseNegativeNumeral(IntToString(i), NatToString(-i));
  }
}
