/** 64-by-32 bit shift-subtract division (src/hardware/pwm/pwm/div64.c).

    The machine types are newtypes, so every sum, difference, product and cast in
    the methods is checked not to leave its C type. */
module Div64 {
  import opened Arith

  newtype U32 = x: int | 0 <= x < 0x1_0000_0000
  newtype U64 = x: int | 0 <= x < 0x1_0000_0000_0000_0000

  const TWO32: int := 0x1_0000_0000

  /** x doubled k times. */
  ghost function Shl(x: nat, k: nat): (y: nat)
    ensures y >= x
  {
    if k == 0 then x else 2 * Shl(x, k - 1)
  }

  lemma {:induction false} ShlIsMultiple(x: nat, k: nat)
    ensures Shl(x, k) == x * Shl(1, k)
  {
    if k > 0 {
      ShlIsMultiple(x, k - 1);
      assert x * (2 * Shl(1, k - 1)) == 2 * (x * Shl(1, k - 1));
    }
  }

  /** The reduction removes h * base * 2^32, which fits in the dividend. */
  lemma {:induction false} ReductionFits(n: int, high: int, base: int, h: int)
    requires 0 <= n && 0 <= high && 0 < base && high * TWO32 <= n && h == high / base
    ensures 0 <= h <= h * base <= high
    ensures n == h * TWO32 * base + (n - h * base * TWO32)
  {
    var p := h * base;
    assert high == p + high % base;
    MulAtLeast(h, base);
    assert h * TWO32 * base == p * TWO32;
  }

  /** Moving one multiple of the divisor from the remainder to the quotient keeps the
      equation and cannot push the quotient above the dividend. */
  lemma {:induction false} StepFits(n: int, base: nat, res: int, rem: int, k: nat)
    requires n == res * base + rem && 0 < base && 0 <= res && Shl(base, k) <= rem
    ensures res + Shl(1, k) <= n
    ensures n == (res + Shl(1, k)) * base + (rem - Shl(base, k))
  {
    ShlIsMultiple(base, k);
    var d := Shl(1, k);
    AddMul(res, d, base);
    MulAtLeast(res + d, base);
  }

  /** The first part of __div64_32: divide the high word on its own. */
  method Reduce(n: U64, base: U32) returns (res: U64, rem: U64)
    requires base > 0
    ensures n as int == res as int * base as int + rem as int
  {
    rem := n;
    res := 0;
    var high := (rem / 0x1_0000_0000) as U32;
    if high >= base {
      ReductionFits(n as int, high as int, base as int, high as int / base as int);
      high := high / base;
      res := high as U64 * 0x1_0000_0000;
      rem := rem - (high * base) as U64 * 0x1_0000_0000;
    }
  }

  /** The doubling loop: the guard (int64_t)b > 0 keeps the next doubling inside 64 bits. */
  method ScaleUp(base: U32, rem: U64) returns (b: U64, d: U64, ghost k: nat)
    requires base > 0
    ensures b as int == Shl(base as nat, k) && d as int == Shl(1, k)
    ensures rem as int < 2 * b as int
  {
    b, d, k := base as U64, 1, 0;
    while b < 0x8000_0000_0000_0000 && b < rem
      invariant b as int == Shl(base as nat, k) && d as int == Shl(1, k)
      invariant 1 <= d <= b
      decreases 0x8000_0000_0000_0000 - b as int
    {
      b := b + b;
      d := d + d;
      k := k + 1;
    }
  }

  /** __div64_32: the quotient replaces the dividend and the remainder is returned. */
  method DivMod(n: U64, base: U32) returns (quotient: U64, remainder: U32)
    requires base > 0
    ensures n as int == quotient as int * base as int + remainder as int
    ensures remainder < base
    ensures quotient as int == n as int / base as int
    ensures remainder as int == n as int % base as int
  {
    ghost var N, B := n as int, base as nat;
    var res, rem := Reduce(n, base);
    var b, d, k0 := ScaleUp(base, rem);
    ghost var k: nat := k0;

    // the source's do-while: d is at least 1 on entry
    while d != 0
      invariant N == res as int * B + rem as int
      invariant d != 0 ==> d as int == Shl(1, k) && b as int == Shl(B, k) && rem as int < 2 * b as int
      invariant d == 0 ==> rem as int < B
      decreases d
    {
      if rem >= b {
        StepFits(N, B, res as int, rem as int, k);
        rem := rem - b;
        res := res + d;
      }
      b := b / 2;
      d := d / 2;
      k := if k == 0 then 0 else k - 1;
    }
    quotient := res;
    remainder := rem as U32;
    DivisionIsUnique(N, B, quotient as int, remainder as int);
  }
}
