/**
 * How a JavaScript integer is turned into text when it is interpolated into a
 * template literal (`${n}`): optional minus sign, then decimal digits without
 * leading zeros.  The gallery uses this for the image counter and for
 * screenshot paths.
 */
module Decimal {

  predicate IsDigit(c: char) {
    '0' <= c <= '9'
  }

  function DigitChar(d: int): (c: char)
    requires 0 <= d < 10
    ensures IsDigit(c) && c as int - '0' as int == d
  {
    "0123456789"[d]
  }

  /** Decimal rendering of a natural number. */
  function NatToString(n: nat): string
    decreases n
  {
    if n < 10 then [DigitChar(n)] else NatToString(n / 10) + [DigitChar(n % 10)]
  }

  /** The rendering of a natural number is a non-empty string of digits. */
  lemma {:induction false} NatToStringDigits(n: nat)
    ensures |NatToString(n)| >= 1
    ensures forall i :: 0 <= i < |NatToString(n)| ==> IsDigit(NatToString(n)[i])
    decreases n
  {
    if n >= 10 {
      NatToStringDigits(n / 10);
      var s := NatToString(n);
      assert forall i :: 0 <= i < |s| - 1 ==> s[i] == NatToString(n / 10)[i];
    }
  }

  /** Decimal rendering of an integer, as JavaScript's `String(n)` for an integral `n` below 10^21 in magnitude. */
  function IntToString(i: int): string
  {
    if i < 0 then "-" + NatToString(-i) else NatToString(i)
  }

  /** A rendering is non-empty, starts with a minus sign exactly for negative numbers, and holds no `/`. */
  lemma IntToStringShape(i: int)
    ensures |IntToString(i)| >= 1
    ensures i < 0 <==> IntToString(i)[0] == '-'
    ensures i >= 0 ==> IsDigit(IntToString(i)[0])
    ensures forall k :: 0 <= k < |IntToString(i)| ==> IntToString(i)[k] != '/'
  {
    NatToStringDigits(if i < 0 then -i else i);
    if i < 0 {
      var s := IntToString(i);
      assert forall k :: 1 <= k < |s| ==> s[k] == NatToString(-i)[k - 1];
    }
  }

  /** Reads back a string of decimal digits (the inverse of NatToString). */
  function ParseDigits(s: string): int
  {
    if |s| == 0 then 0 else 10 * ParseDigits(s[..|s| - 1]) + (s[|s| - 1] as int - '0' as int)
  }

  function ParseInt(s: string): int
  {
    if |s| > 0 && s[0] == '-' then -ParseDigits(s[1..]) else ParseDigits(s)
  }

  lemma {:induction false} ParseNatToString(n: nat)
    ensures ParseDigits(NatToString(n)) == n
    decreases n
  {
    if n >= 10 {
      var s := NatToString(n);
      assert s[..|s| - 1] == NatToString(n / 10);
      ParseNatToString(n / 10);
    }
  }

  lemma ParseIntToString(i: int)
    ensures ParseInt(IntToString(i)) == i
  {
    NatToStringDigits(if i < 0 then -i else i);
    if i < 0 {
      var t := NatToString(-i);
      var s := "-" + t;
      assert s[0] == '-' && s[1..] == t;
      ParseNatToString(-i);
      assert ParseInt(s) == -ParseDigits(t);
    } else {
      var t := NatToString(i);
      assert IsDigit(t[0]);
      ParseNatToString(i);
      assert ParseInt(t) == ParseDigits(t);
    }
  }

  /** Two different integers never render to the same text. */
  lemma IntToStringInjective(a: int, b: int)
    ensures IntToString(a) == IntToString(b) <==> a == b
  {
    if IntToString(a) == IntToString(b) {
      ParseIntToString(a);
      ParseIntToString(b);
    }
  }

  /** Splitting `x + [sep] + y` at its first `sep` recovers `x` and `y`. */
  lemma SplitAtSeparator(x: string, y: string, u: string, v: string, sep: char)
    requires forall k :: 0 <= k < |x| ==> x[k] != sep
    requires forall k :: 0 <= k < |u| ==> u[k] != sep
    requires x + [sep] + y == u + [sep] + v
    ensures x == u && y == v
  {
    var w := x + [sep] + y;
    assert w == u + [sep] + v;
    assert w[|x|] == sep && w[|u|] == sep;
    assert forall k :: 0 <= k < |x| ==> w[k] == x[k];
    assert forall k :: 0 <= k < |u| ==> w[k] == u[k];
    assert x == w[..|x|] == u;
    assert y == w[|x| + 1..] == v;
  }
}
