/**
 * The few pieces of the Java platform the mod relies on: 32-bit `int`
 * arithmetic, the truncating `%` operator, `Integer.parseInt`/`Integer.toString`
 * and `Boolean.parseBoolean`/`Boolean.toString`.
 */
module JavaLang {
  import opened Wrappers

  const MinInt32: int := -0x8000_0000
  const MaxInt32: int := 0x7fff_ffff

  /** Values of Java's `int`. */
  type Int32 = x: int | MinInt32 <= x <= MaxInt32

  /** Java's `int` overflow: the result is congruent to `x` modulo 2^32. */
  function Wrap32(x: int): (r: Int32)
    ensures MinInt32 <= x <= MaxInt32 ==> r == x
    ensures x == MaxInt32 + 1 ==> r == MinInt32
    ensures (r - x) % 0x1_0000_0000 == 0
  {
    (x - MinInt32) % 0x1_0000_0000 + MinInt32
  }

  /** Java's `a % b` for a positive divisor: rounds the quotient toward zero, so the
      remainder carries the sign of the dividend. With the bounds, the last clause
      pins the result down: it differs from `a` by a multiple of `b`. */
  function Rem(a: int, b: int): (r: int)
    requires b > 0
    ensures a >= 0 ==> 0 <= r < b
    ensures a < 0 ==> -b < r <= 0
    ensures (a - r) % b == 0
  {
    if a >= 0 then
      MultipleHasNoRemainder(a / b, b);
      a % b
    else
      var q := (-a) / b;
      assert a + (-a) % b == (-q) * b;
      MultipleHasNoRemainder(-q, b);
      -((-a) % b)
  }

  /** Division with remainder has only one result. */
  lemma RemainderUnique(a: int, b: int, q: int, r: int)
    requires b > 0 && 0 <= r < b && a == q * b + r
    ensures a % b == r
  {
    var d := a / b;
    assert a == d * b + a % b;
    var e := q - d;
    assert e * b == a % b - r;
    assert e >= 1 ==> e * b >= b;
    assert e <= -1 ==> e * b <= -b;
  }

  /** A multiple of `b` leaves no Euclidean remainder. */
  lemma MultipleHasNoRemainder(k: int, b: int)
    requires b > 0
    ensures (k * b) % b == 0
  {
    RemainderUnique(k * b, b, k, 0);
  }

  /** A zero truncating remainder is a zero Euclidean remainder: the sign convention
      never matters to a divisibility test. */
  lemma RemZeroIffDivisible(a: int, b: int)
    requires b > 0
    ensures Rem(a, b) == 0 <==> a % b == 0
  {
    if a < 0 {
      var n := -a;
      if n % b == 0 {
        assert n == (n / b) * b;
        assert a == (-(n / b)) * b;
        MultipleHasNoRemainder(-(n / b), b);
      } else if a % b == 0 {
        assert a == (a / b) * b;
        assert n == (-(a / b)) * b;
        MultipleHasNoRemainder(-(a / b), b);
      }
    }
  }

  predicate IsDigit(c: char) {
    '0' <= c <= '9'
  }

  predicate AllDigits(s: string) {
    forall i :: 0 <= i < |s| ==> IsDigit(s[i])
  }

  function DigitValue(c: char): (d: nat)
    requires IsDigit(c)
    ensures d < 10
  {
    c as int - '0' as int
  }

  function DigitChar(d: nat): (c: char)
    requires d < 10
    ensures IsDigit(c) && DigitValue(c) == d
  {
    ('0' as int + d) as char
  }

  /** The number a run of decimal digits denotes (leading zeros allowed; no digits denote 0). */
  function DigitsValue(s: string): nat
    requires AllDigits(s)
  {
    if s == [] then 0 else DigitsValue(s[..|s| - 1]) * 10 + DigitValue(s[|s| - 1])
  }

  /** The decimal digits of `n` without leading zeros. */
  function NatToDigits(n: nat): (s: string)
    ensures |s| > 0 && AllDigits(s)
    ensures n > 0 ==> s[0] != '0'
  {
    if n < 10 then [DigitChar(n)] else NatToDigits(n / 10) + [DigitChar(n % 10)]
  }

  lemma {:induction false} NatToDigitsValue(n: nat)
    ensures DigitsValue(NatToDigits(n)) == n
  {
    if n >= 10 {
      NatToDigitsValue(n / 10);
      var s := NatToDigits(n);
      assert s[..|s| - 1] == NatToDigits(n / 10);
    }
  }

  /** `Integer.toString(i)`: an optional minus sign and the digits of the magnitude. */
  function IntToString(i: Int32): (s: string)
    ensures |s| > 0
    ensures s[0] == '-' <==> i < 0
  {
    if i < 0 then "-" + NatToDigits(-(i as int)) else NatToDigits(i)
  }

  /** `Integer.parseInt(s)`: an optional `-` or `+`, then at least one decimal digit,
      and the value must fit in an `int`; anything else is a NumberFormatException,
      here `None`. */
  function ParseInt(s: string): Option<Int32> {
    if |s| == 0 then None
    else
      var signed := s[0] == '-' || s[0] == '+';
      var digits := if signed then s[1..] else s;
      if |digits| == 0 || !AllDigits(digits) then None
      else
        var magnitude := DigitsValue(digits);
        var value: int := if s[0] == '-' then -(magnitude as int) else magnitude;
        if MinInt32 <= value <= MaxInt32 then Some(value) else None
  }

  /** The strings `Integer.parseInt` accepts: an optional sign, then digits only;
      a negative result needs the minus sign. */
  lemma ParseIntAccepts(s: string)
    ensures ParseInt(s).Some? ==> |s| > 0 && AllDigits(s[1..])
    ensures ParseInt(s).Some? ==> IsDigit(s[0]) || (|s| >= 2 && (s[0] == '-' || s[0] == '+'))
    ensures ParseInt(s).Some? && ParseInt(s).value < 0 ==> s[0] == '-'
  {
  }

  /** Whatever `Integer.toString` writes, `Integer.parseInt` reads back. */
  lemma IntRoundTrip(i: Int32)
    ensures ParseInt(IntToString(i)) == Some(i)
  {
    var s := IntToString(i);
    if i < 0 {
      var digits := NatToDigits(-(i as int));
      NatToDigitsValue(-(i as int));
      assert s[0] == '-' && s[1..] == digits;
    } else {
      NatToDigitsValue(i);
      assert IsDigit(s[0]);
    }
  }

  function ToLowerAscii(c: char): char {
    if 'A' <= c <= 'Z' then (c as int + 32) as char else c
  }

  /** `Boolean.parseBoolean(s)`: true exactly when `s` equals "true" ignoring case;
      it never fails. */
  function ParseBoolean(s: string): (r: bool)
    ensures r <==> |s| == 4 && forall i :: 0 <= i < 4 ==> s[i] == "true"[i] || s[i] == "TRUE"[i]
  {
    |s| == 4 && forall i :: 0 <= i < 4 ==> ToLowerAscii(s[i]) == "true"[i]
  }

  /** `Boolean.toString(b)`. */
  function BoolToString(b: bool): string {
    if b then "true" else "false"
  }

  lemma BoolRoundTrip(b: bool)
    ensures ParseBoolean(BoolToString(b)) == b
  {
  }
}
