/** Decimal text of integers, as Python's `str(int)`, the `{n:02d}` format
    and the zero-padded `%d`, `%m`, `%Y` fields of `strftime` write it. */
module Numerals {
  import opened Wrappers

  predicate IsDigit(c: char)
  {
    '0' <= c <= '9'
  }

  predicate AllDigits(s: string)
  {
    forall i :: 0 <= i < |s| ==> IsDigit(s[i])
  }

  function DigitChar(d: nat): (c: char)
    requires d < 10
    ensures IsDigit(c)
  {
    ('0' as int + d) as char
  }

  function DigitValue(c: char): (d: nat)
    requires IsDigit(c)
    ensures d < 10 && DigitChar(d) == c
  {
    c as int - '0' as int
  }

  /** The number a string of decimal digits denotes (leading zeros allowed). */
  function DigitsValue(s: string): nat
    requires AllDigits(s)
  {
    if s == [] then 0 else DigitsValue(s[..|s| - 1]) * 10 + DigitValue(s[|s| - 1])
  }

  /** Shortest decimal text of a natural number. */
  function NatToString(n: nat): (r: string)
    ensures |r| >= 1 && AllDigits(r)
    ensures |r| == 1 <==> n < 10
    decreases n
  {
    if n < 10 then [DigitChar(n)] else NatToString(n / 10) + [DigitChar(n % 10)]
  }

  lemma {:induction false} NatToStringRoundTrip(n: nat)
    ensures DigitsValue(NatToString(n)) == n
    decreases n
  {
    var r := NatToString(n);
    if n < 10 {
      assert r[..0] == [];
    } else {
      NatToStringRoundTrip(n / 10);
      assert r[..|r| - 1] == NatToString(n / 10);
    }
  }

  /** `str(i)` for a Python int. */
  function IntToString(i: int): (r: string)
    ensures i >= 0 ==> r == NatToString(i)
    ensures i < 0 ==> |r| >= 2 && r[0] == '-' && AllDigits(r[1..])
  {
    if i < 0 then "-" + NatToString(-i) else NatToString(i)
  }

  /** Reads back what `IntToString` writes: an optional minus sign and at
      least one digit. */
  function ParseInt(s: string): (r: Option<int>)
  {
    if |s| >= 2 && s[0] == '-' && AllDigits(s[1..]) then Some(-(DigitsValue(s[1..]) as int))
    else if |s| >= 1 && AllDigits(s) then Some(DigitsValue(s))
    else None
  }

  lemma IntToStringRoundTrip(i: int)
    ensures ParseInt(IntToString(i)) == Some(i)
  {
    if i < 0 {
      NegativeTextParses(-i);
    } else {
      NaturalTextParses(i);
    }
  }

  lemma NaturalTextParses(n: nat)
    ensures ParseInt(NatToString(n)) == Some(n)
  {
    var r := NatToString(n);
    assert IsDigit(r[0]);
    NatToStringRoundTrip(n);
  }

  lemma NegativeTextParses(n: nat)
    requires n > 0
    ensures ParseInt("-" + NatToString(n)) == Some(-(n as int))
  {
    var digits := NatToString(n);
    assert ("-" + digits)[1..] == digits;
    NatToStringRoundTrip(n);
  }

  /** Distinct integers have distinct decimal texts. */
  lemma IntToStringInjective(i: int, j: int)
    ensures IntToString(i) == IntToString(j) ==> i == j
  {
    IntToStringRoundTrip(i);
    IntToStringRoundTrip(j);
  }

  /** `{n:02d}`, `%d` and `%m`: two digits, zero-padded. */
  function Pad2(n: nat): (r: string)
    requires n < 100
    ensures |r| == 2 && AllDigits(r)
  {
    [DigitChar(n / 10), DigitChar(n % 10)]
  }

  /** `%Y`: four digits, zero-padded. */
  function Pad4(n: nat): (r: string)
    requires n < 10000
    ensures |r| == 4 && AllDigits(r)
  {
    var tens := n / 10;
    var hundreds := tens / 10;
    [DigitChar(hundreds / 10), DigitChar(hundreds % 10), DigitChar(tens % 10), DigitChar(n % 10)]
  }

  lemma DigitRoundTrip(d: nat)
    requires d < 10
    ensures DigitValue(DigitChar(d)) == d
  {
  }

  /** `Pad2` denotes its argument and is the shortest text padded with zeros. */
  lemma Pad2Meaning(n: nat)
    requires n < 100
    ensures DigitsValue(Pad2(n)) == n
    ensures Pad2(n) == if n < 10 then "0" + NatToString(n) else NatToString(n)
  {
    var r := Pad2(n);
    DigitRoundTrip(n / 10);
    DigitRoundTrip(n % 10);
    assert r[..1][..0] == [];
    assert r[..1] == [r[0]];
    assert DigitsValue(r[..1]) == n / 10;
    assert DigitsValue(r) == (n / 10) * 10 + n % 10;
    if n >= 10 {
      var t := NatToString(n / 10);
      assert t == [DigitChar(n / 10)];
    }
  }

  lemma Pad4Meaning(n: nat)
    requires n < 10000
    ensures DigitsValue(Pad4(n)) == n
  {
    var r := Pad4(n);
    var tens := n / 10;
    var hundreds := tens / 10;
    DigitRoundTrip(hundreds / 10);
    DigitRoundTrip(hundreds % 10);
    DigitRoundTrip(tens % 10);
    DigitRoundTrip(n % 10);
    assert r[..3][..2][..1][..0] == [];
    assert r[..3][..2][..1] == [r[0]];
    assert r[..3][..2] == [r[0], r[1]];
    assert r[..3] == [r[0], r[1], r[2]];
    assert DigitsValue(r[..3][..2][..1]) == hundreds / 10;
    assert DigitsValue(r[..3][..2]) == (hundreds / 10) * 10 + hundreds % 10 == hundreds;
    assert DigitsValue(r[..3]) == hundreds * 10 + tens % 10 == tens;
    assert DigitsValue(r) == tens * 10 + n % 10;
  }
}
