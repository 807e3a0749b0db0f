/** Java's 32-bit `int`: its range, wrap-around addition, truncating division,
    and the decimal conversions `Integer.parseInt` and `Integer.toString`. */
module JavaInt {
  import opened Wrappers

  const INT_MIN: int := -0x8000_0000
  const INT_MAX: int := 0x7fff_ffff
  const MODULUS: int := 0x1_0000_0000

  predicate InRange(x: int) {
    INT_MIN <= x <= INT_MAX
  }

  type int32 = x: int | InRange(x)

  /** Two's-complement wrap-around: the one `int` congruent to `x` modulo 2^32. */
  function Wrap(x: int): (r: int32)
    ensures InRange(x) ==> r == x
    ensures (r - x) % MODULUS == 0
  {
    (x - INT_MIN) % MODULUS + INT_MIN
  }

  /** Two `int`s congruent modulo 2^32 are the same `int`. */
  lemma CongruentInRangeEqual(a: int32, b: int32)
    requires (a - b) % MODULUS == 0
    ensures a == b
  {
    var d := a as int - b as int;
    assert InRange(a) && InRange(b);
    assert -MODULUS < d < MODULUS;
    assert d == MODULUS * (d / MODULUS);
  }

  /** Wrapping after every addition is the same as wrapping once at the end:
      a running `int` accumulator holds the wrapped exact sum. */
  lemma WrapAdd(a: int, b: int)
    ensures Wrap(Wrap(a) + b) == Wrap(a + b)
  {
    var x, y := Wrap(Wrap(a) + b), Wrap(a + b);
    var u, v := Wrap(a) - a, Wrap(Wrap(a) + b) - (Wrap(a) + b);
    var w := Wrap(a + b) - (a + b);
    assert x - y == u + v - w;
    assert (u + v - w) % MODULUS == 0 by {
      assert u == MODULUS * (u / MODULUS);
      assert v == MODULUS * (v / MODULUS);
      assert w == MODULUS * (w / MODULUS);
      assert u + v - w == MODULUS * (u / MODULUS + v / MODULUS - w / MODULUS);
    }
    CongruentInRangeEqual(x, y);
  }

  /** Java's `/` on `int` with a positive divisor: the quotient is truncated
      toward zero, so the remainder takes the sign of the dividend. */
  function Div(a: int32, b: int): (q: int32)
    requires b > 0
    ensures a >= 0 ==> 0 <= a - q * b < b
    ensures a < 0 ==> -b < a - q * b <= 0
  {
    var m: nat := if a >= 0 then a as int else -(a as int);
    DivFloor(m, b);
    assert InRange(a);
    if a >= 0 then m / b else -(m / b)
  }

  lemma DivFloor(n: nat, b: int)
    requires b > 0
    ensures 0 <= n / b <= n
    ensures 0 <= n - (n / b) * b < b
    ensures -(n as int) - (-(n / b)) * b == -(n - (n / b) * b)
  {
    var q, r := n / b, n % b;
    assert n == q * b + r && 0 <= r < b;
    MulAtLeast(q, b);
  }

  lemma MulAtLeast(q: nat, b: int)
    requires b > 0
    ensures q * b >= q
  {
    assert q * b == q * (b - 1) + q;
  }

  predicate IsDigit(c: char) {
    '0' <= c <= '9'
  }

  function DigitValue(c: char): (d: nat)
    requires IsDigit(c)
    ensures d < 10
  {
    (c as int) - ('0' as int)
  }

  function DigitChar(d: nat): (c: char)
    requires d < 10
    ensures IsDigit(c) && DigitValue(c) == d
  {
    ('0' as int + d) as char
  }

  predicate AllDigits(s: string) {
    forall i :: 0 <= i < |s| ==> IsDigit(s[i])
  }

  /** The value of a numeral, most significant digit first. */
  function DigitsValue(s: string): nat
    requires AllDigits(s)
  {
    if |s| == 0 then 0 else DigitsValue(s[..|s| - 1]) * 10 + DigitValue(s[|s| - 1])
  }

  /** The syntax `Integer.parseInt(s)` accepts in radix 10: an optional `-` or
      `+`, then one or more decimal digits, and nothing else. */
  predicate IsDecimalLiteral(s: string) {
    if |s| > 0 && (s[0] == '-' || s[0] == '+') then |s| > 1 && AllDigits(s[1..])
    else |s| > 0 && AllDigits(s)
  }

  function LiteralValue(s: string): int
    requires IsDecimalLiteral(s)
  {
    if s[0] == '-' then 0 - DigitsValue(s[1..])
    else if s[0] == '+' then DigitsValue(s[1..])
    else DigitsValue(s)
  }

  /** The strings `Integer.parseInt` returns for instead of throwing
      `NumberFormatException`: a decimal literal whose value is an `int`. */
  predicate IsIntString(s: string) {
    IsDecimalLiteral(s) && InRange(LiteralValue(s))
  }

  /** The digit loop of `Integer.parseInt`: consumes `s[i..]` onto the magnitude
      `acc`, failing at the first non-digit and as soon as the magnitude passes
      `limit` (2^31 for a negative literal, 2^31 - 1 otherwise). */
  function Accumulate(s: string, i: nat, acc: nat, limit: nat): (r: Option<nat>)
    requires i <= |s| && acc <= limit
    ensures r.Some? ==> r.value <= limit
    decreases |s| - i
  {
    if i == |s| then Some(acc)
    else if !IsDigit(s[i]) then None
    else
      var next := acc * 10 + DigitValue(s[i]);
      if next > limit then None else Accumulate(s, i + 1, next, limit)
  }

  /** A numeral's prefix never has a larger value than the numeral. */
  lemma {:induction false} DigitsValuePrefix(s: string, k: nat)
    requires AllDigits(s) && k <= |s|
    ensures AllDigits(s[..k]) && DigitsValue(s[..k]) <= DigitsValue(s)
    decreases |s| - k
  {
    if k < |s| {
      DigitsValuePrefix(s, k + 1);
      assert s[..k + 1][..k] == s[..k];
    } else {
      assert s[..k] == s;
    }
  }

  /** The early-exit digit loop computes the numeral's value exactly when that
      value does not exceed the limit. */
  lemma {:induction false} AccumulateValue(s: string, start: nat, i: nat, acc: nat, limit: nat)
    requires start <= i <= |s| && acc <= limit
    requires AllDigits(s[start..i]) && acc == DigitsValue(s[start..i])
    ensures Accumulate(s, i, acc, limit) ==
      if AllDigits(s[start..]) && DigitsValue(s[start..]) <= limit
      then Some(DigitsValue(s[start..])) else None
    decreases |s| - i
  {
    if i == |s| {
      assert s[start..i] == s[start..];
    } else if !IsDigit(s[i]) {
      assert s[start..][i - start] == s[i];
    } else {
      var next := acc * 10 + DigitValue(s[i]);
      assert s[start..i + 1][..i - start] == s[start..i];
      assert AllDigits(s[start..i + 1]);
      assert next == DigitsValue(s[start..i + 1]);
      if next > limit {
        if AllDigits(s[start..]) {
          DigitsValuePrefix(s[start..], i + 1 - start);
          assert s[start..][..i + 1 - start] == s[start..i + 1];
        }
      } else {
        AccumulateValue(s, start, i + 1, next, limit);
      }
    }
  }

  /** `Integer.parseInt(s)` in radix 10: `None` where Java throws
      `NumberFormatException`. */
  function ParseInt(s: string): (r: Option<int32>)
    ensures r.Some? <==> IsIntString(s)
    ensures r.Some? ==> r.value == LiteralValue(s)
  {
    if |s| == 0 then None
    else
      var negative := s[0] == '-';
      var start := if s[0] == '-' || s[0] == '+' then 1 else 0;
      if start == |s| then None
      else
        var limit := if negative then -INT_MIN else INT_MAX;
        AccumulateValue(s, start, start, 0, limit);
        match Accumulate(s, start, 0, limit)
        case None => None
        case Some(m) => Some(if negative then 0 - m else m)
  }

  /** The decimal numeral of a natural number, without leading zeros. */
  function NatToDigits(n: nat): (s: string)
    ensures |s| > 0 && AllDigits(s)
    ensures DigitsValue(s) == n
    ensures n > 0 ==> s[0] != '0'
    ensures s[0] == '0' ==> |s| == 1
  {
    if n < 10 then [DigitChar(n)]
    else
      var prefix := NatToDigits(n / 10);
      var s := prefix + [DigitChar(n % 10)];
      assert s[..|s| - 1] == prefix;
      s
  }

  /** `Integer.toString(n)` (and `Short.toString` of a `short`): the canonical
      signed numeral, a `-` for a negative number, then the numeral of its
      magnitude without leading zeros. */
  function FormatInt(n: int32): (s: string)
    ensures |s| > 0
    ensures forall i :: 0 <= i < |s| ==> IsDigit(s[i]) || (i == 0 && s[i] == '-')
    ensures s[0] == '-' <==> n < 0
    ensures s[0] == '-' ==> |s| > 1 && s[1] != '0'
    ensures s[0] == '0' ==> |s| == 1
  {
    if n < 0 then "-" + NatToDigits(-(n as int)) else NatToDigits(n)
  }

  /** `Integer.parseInt` reads back every string `Integer.toString` writes. */
  lemma ParseFormat(n: int32)
    ensures ParseInt(FormatInt(n)) == Some(n)
  {
    var s := FormatInt(n);
    if n < 0 {
      assert s[1..] == NatToDigits(-(n as int));
    }
  }
}
