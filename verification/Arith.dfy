/** Facts about integer division that the solver does not find on its own. */
module Arith {
  /** uint32_t. */
  function Wrap(x: int): (r: nat)
    ensures r < 0x1_0000_0000
    ensures 0 <= x < 0x1_0000_0000 ==> r == x
  {
    x % 0x1_0000_0000
  }

  lemma {:induction false} SmallMultipleIsZero(e: int, base: int)
    requires -base < e * base < base
    ensures e == 0
  {
  }

  /** A quotient and a remainder below the divisor are the Euclidean ones. */
  lemma {:induction false} DivisionIsUnique(n: int, base: int, q: int, r: int)
    requires n == q * base + r && 0 <= r < base
    ensures q == n / base && r == n % base
  {
    var e := q - n / base;
    assert n == (n / base) * base + n % base;
    assert e * base == n % base - r;
    SmallMultipleIsZero(e, base);
  }

  lemma {:induction false} MulAtLeast(x: int, y: int)
    requires 0 <= x && 1 <= y
    ensures x <= x * y
  {
  }

  lemma {:induction false} AddMul(x: int, y: int, z: int)
    ensures (x + y) * z == x * z + y * z
  {
  }

  lemma {:induction false} MulAssoc(x: int, y: int, z: int)
    ensures x * y * z == x * (y * z)
  {
  }

  /** Halving twice the divisor. */
  lemma {:induction false} DivTwice(x: nat, p: nat)
    requires p > 0
    ensures x / (2 * p) == x / p / 2
  {
    var q, r := x / p, x % p;
    var q2, r2 := q / 2, q % 2;
    assert x == q * p + r && q == 2 * q2 + r2;
    AddMul(2 * q2, r2, p);
    assert 2 * q2 * p == q2 * (2 * p);
    var s := r2 * p + r;
    assert 0 <= s < 2 * p by {
      if r2 == 0 { assert s == r; } else { assert s == p + r; }
    }
    DivisionIsUnique(x, 2 * p, q2, s);
  }

  lemma {:induction false} MulMonotone(x: int, y: int, z: int)
    requires x <= y && 0 <= z
    ensures x * z <= y * z
  {
  }

  /** The two halves of what a quotient is. */
  lemma {:induction false} QuotientBounds(a: nat, b: nat)
    requires b > 0
    ensures a / b * b <= a < (a / b + 1) * b
  {
    AddMul(a / b, 1, b);
  }

  lemma {:induction false} QuotientAtLeast(a: nat, b: nat, q: nat)
    requires b > 0 && q * b <= a
    ensures a / b >= q
  {
    QuotientBounds(a, b);
    if a / b < q { MulMonotone(a / b + 1, q, b); }
  }

  lemma {:induction false} QuotientAtMost(a: nat, b: nat, q: nat)
    requires b > 0 && a < (q + 1) * b
    ensures a / b <= q
  {
    QuotientBounds(a, b);
    if a / b > q { MulMonotone(q + 1, a / b, b); }
  }

  lemma {:induction false} QuotientShrinks(a: nat, b: nat)
    requires b > 0
    ensures 0 <= a / b <= a
  {
    QuotientBounds(a, b);
    MulAtLeast(a / b, b);
  }

  /** Dividing by a rounded-down quotient never gives less than the first divisor. */
  lemma {:induction false} DivideBack(a: nat, c: nat)
    requires a >= c > 0
    ensures a / c > 0 && a / (a / c) >= c
  {
    QuotientAtLeast(a, c, 1);
    QuotientBounds(a, c);
    QuotientAtLeast(a, a / c, c);
  }
}
