/**
  Python's `str(n)` for an integer (also what an f-string prints for one):
  optional minus sign, then decimal digits with no leading zeros. The parse
  functions are its inverse and serve to state what the text means.
 */
module Decimal {

  predicate IsDigit(c: char) {
    '0' <= c <= '9'
  }

  function DigitChar(d: nat): (c: char)
    requires d < 10
    ensures IsDigit(c)
  {
    ('0' as int + d) as char
  }

  function DigitValue(c: char): (d: nat)
    requires IsDigit(c)
    ensures d < 10 && DigitChar(d) == c
  {
    (c as int) - ('0' as int)
  }

  predicate AllDigits(s: string) {
    forall k :: 0 <= k < |s| ==> IsDigit(s[k])
  }

  /** The decimal digits of `n`, most significant first. */
  function NatToString(n: nat): (s: string)
    ensures |s| >= 1 && AllDigits(s)
    ensures (|s| > 1) == (n >= 10)
    ensures |s| > 1 ==> s[0] != '0'
  {
    if n < 10 then [DigitChar(n)] else NatToString(n / 10) + [DigitChar(n % 10)]
  }

  function IntToString(i: int): (s: string)
    ensures |s| >= 1 && (s[0] == '-' <==> i < 0)
  {
    if i < 0 then "-" + NatToString(-i) else NatToString(i)
  }

  function ParseNat(s: string): nat
    requires AllDigits(s)
  {
    if s == [] then 0 else ParseNat(s[..|s| - 1]) * 10 + DigitValue(s[|s| - 1])
  }

  /** Text of the shape `str(n)` prints: digits, optionally after a minus sign. */
  predicate IsIntText(s: string) {
    if |s| > 0 && s[0] == '-' then |s| > 1 && AllDigits(s[1..]) else |s| > 0 && AllDigits(s)
  }

  /** Integer text as `str` prints it: no leading zero, and no `-0`. */
  predicate IsCanonicalIntText(s: string) {
    && IsIntText(s)
    && var digits := if s[0] == '-' then s[1..] else s;
       (|digits| > 1 || s[0] == '-') ==> digits[0] != '0'
  }

  function ParseInt(s: string): int
    requires IsIntText(s)
  {
    if s[0] == '-' then -(ParseNat(s[1..]) as int) else ParseNat(s)
  }

  lemma {:induction false} ParseNatToString(n: nat)
    ensures ParseNat(NatToString(n)) == n
  {
    if n >= 10 {
      var s := NatToString(n);
      ParseNatToString(n / 10);
      assert s[..|s| - 1] == NatToString(n / 10);
      assert DigitValue(s[|s| - 1]) == n % 10;
      assert ParseNat(s) == (n / 10) * 10 + n % 10;
    }
  }

  lemma NonNegativeText(n: nat)
    ensures IsIntText(NatToString(n)) && ParseInt(NatToString(n)) == n
  {
    var s := NatToString(n);
    assert IsDigit(s[0]);
    ParseNatToString(n);
  }

  lemma NegativeText(n: nat)
    ensures IsIntText("-" + NatToString(n)) && ParseInt("-" + NatToString(n)) == -(n as int)
  {
    var digits := NatToString(n);
    var s := "-" + digits;
    assert s[0] == '-' && s[1..] == digits;
    ParseNatToString(n);
  }

  /** The printed text reads back as the same integer. */
  lemma {:induction false} IntToStringRoundTrip(i: int)
    ensures IsIntText(IntToString(i))
    ensures ParseInt(IntToString(i)) == i
  {
    if i < 0 {
      NegativeText(-i);
    } else {
      NonNegativeText(i);
    }
  }

  /** Printed integers contain only digits and possibly a leading minus sign. */
  lemma {:induction false} IntTextHasOnly(i: int, c: char)
    requires c != '-' && !IsDigit(c)
    ensures c !in IntToString(i)
  {
    var s := IntToString(i);
    if i < 0 {
      forall k | 1 <= k < |s| ensures s[k] != c { assert s[k] == NatToString(-i)[k - 1]; }
    }
  }

  /** Printed integers are canonical. */
  lemma IntToStringCanonical(i: int)
    ensures IsCanonicalIntText(IntToString(i))
  {
    var s := IntToString(i);
    if i < 0 {
      var digits := NatToString(-i);
      assert s[1..] == digits && s[0] == '-';
      assert digits[0] != '0' by {
        if |digits| == 1 {
          assert digits == [DigitChar(-i)];
        }
      }
    } else {
      assert IsDigit(s[0]);
    }
  }

  lemma {:induction false} ParseNatPositive(t: string)
    requires AllDigits(t) && |t| >= 1 && t[0] != '0'
    ensures ParseNat(t) >= 1
  {
    if |t| > 1 {
      var front := t[..|t| - 1];
      assert front[0] == t[0];
      ParseNatPositive(front);
    }
  }

  /** A digit string without a leading zero is exactly what `str` prints for its value. */
  lemma {:induction false} CanonicalNatText(t: string)
    requires AllDigits(t) && |t| >= 1 && (|t| > 1 ==> t[0] != '0')
    ensures NatToString(ParseNat(t)) == t
  {
    var front := t[..|t| - 1];
    var d := DigitValue(t[|t| - 1]);
    if |t| == 1 {
      assert ParseNat(t) == d;
    } else {
      assert front[0] == t[0];
      CanonicalNatText(front);
      ParseNatPositive(front);
      var a := ParseNat(front);
      assert ParseNat(t) == a * 10 + d;
      assert (a * 10 + d) / 10 == a && (a * 10 + d) % 10 == d;
      assert t == front + [t[|t| - 1]];
    }
  }

  /**
    The canonical text of an integer is unique: any canonical text is what
    `str` prints for the integer it denotes. With the round trip, `str(i)` is
    the one canonical text that reads back as `i`.
   */
  lemma CanonicalTextIsPrinted(t: string)
    requires IsCanonicalIntText(t)
    ensures IntToString(ParseInt(t)) == t
  {
    if t[0] == '-' {
      var digits := t[1..];
      CanonicalNatText(digits);
      ParseNatPositive(digits);
      assert t == "-" + digits;
    } else {
      CanonicalNatText(t);
    }
  }
}
