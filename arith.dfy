/** Multiplication and division facts used by the address and layout
    arithmetic, kept apart so that each nonlinear step is proved once. */
module Arith {

  /** Multiplying by m >= 0 keeps a non-zero factor's magnitude at least m. */
  lemma MulAwayFromZero(x: int, m: nat)
    ensures x >= 1 ==> x * m >= m
    ensures x <= -1 ==> x * m <= -(m as int)
    ensures x == 0 ==> x * m == 0
  {
  }

  /** Quotient and remainder of q * m + s by m, for s < m. */
  lemma DivModOfSum(q: int, s: nat, m: nat)
    requires s < m
    ensures (q * m + s) / m == q
    ensures (q * m + s) % m == s
  {
    var a := q * m + s;
    var d, r := a / m, a % m;
    assert (d - q) * m == s - r;
    MulAwayFromZero(d - q, m);
  }

  /** Comparing two multiples of m > 0 compares the factors. */
  lemma MulCompare(a: int, b: int, m: nat)
    requires m > 0
    ensures a * m < b * m <==> a < b
    ensures a * m <= b * m <==> a <= b
  {
    assert b * m - a * m == (b - a) * m;
    MulAwayFromZero(b - a, m);
  }

  /** Rounding g down to a multiple of m never exceeds g. */
  lemma RoundDown(g: nat, m: nat)
    requires m > 0
    ensures g / m * m <= g < g / m * m + m
  {
  }

  /** A multiple of a multiple of m is a multiple of m. */
  lemma MultipleOfMultiple(q: nat, line: nat, m: nat)
    requires m > 0 && line % m == 0
    ensures (q * line) % m == 0
  {
    var k := line / m;
    assert q * line == (q * k) * m;
    DivModOfSum(q * k, 0, m);
  }

  /** The remainder of a multiple of m by a multiple of m is a multiple of m. */
  lemma RemainderOfMultiple(s: nat, line: nat, m: nat)
    requires m > 0 && line > 0 && line % m == 0 && s % m == 0
    ensures (s % line) % m == 0
  {
    var q := s / line;
    MultipleOfMultiple(q, line, m);
    var a, b := q * line / m, s / m;
    assert q * line == a * m;
    assert s == b * m;
    assert s % line == (b - a) * m;
    DivModOfSum(b - a, 0, m);
  }

  /** Adding a multiple of m leaves the remainder by m unchanged. */
  lemma ModAddMultiple(x: int, t: int, m: nat)
    requires m > 0
    ensures (x + t * m) % m == x % m
  {
    var q, r := x / m, x % m;
    assert x + t * m == (q + t) * m + r;
    DivModOfSum(q + t, r, m);
  }
}
