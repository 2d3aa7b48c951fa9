/** The 64-bit division the boot loader supplies for itself (`__udivdi3`). */
module Udivdi3 {
  import opened Positional

  const TWO64 := 0x1_0000_0000_0000_0000

  type dword = x: int | 0 <= x < 0x1_0000_0000_0000_0000

  /** The bits of `n` from position `i` up have been divided. */
  ghost predicate Divided(n: dword, d: dword, i: nat, r: nat, q: nat)
    requires d > 0
  {
    r == Shr(n, i) % d && q == Shr(n, i) / d * Pow(2, i)
  }

  /** The step for bit `i`, in 64-bit arithmetic. The remainder is at most `n >> (i + 1)` before it,
  so that doubling it never loses a bit, however large the divisor. */
  method Step(n: dword, d: dword, i: nat, r: dword, q: dword) returns (r': dword, q': dword)
    requires d > 0 && Divided(n, d, i + 1, r, q)
    ensures Divided(n, d, i, r', q') && r <= Shr(n, i + 1)
  {
    ghost var c := Shr(n, i + 1) / d;
    DivisionEquation(Shr(n, i + 1), d);
    PowPositive(2, i);
    NoBitLost(n, i, c, d, r);
    ShrStep(n, i);
    var bit := n / Pow(2, i) % 2;
    var doubled := 2 * r % TWO64 + bit;  // r << 1, and the next bit of n
    assert doubled == 2 * r + bit;
    if doubled >= d {
      QuotientBit(n, i, c, d, r, q);
      r', q' := doubled - d, q + Pow(2, i);
      BitSet(c, d, r, bit);
      DivModUnique(Shr(n, i), d, 2 * c + 1, r');
    } else {
      r', q' := doubled, q;
      BitClear(c, d, Pow(2, i));
      DivModUnique(Shr(n, i), d, 2 * c, r');
    }
  }

  lemma BitSet(c: int, d: int, r: int, bit: int)
    ensures 2 * (c * d + r) + bit == (2 * c + 1) * d + (2 * r + bit - d)
  {}

  lemma BitClear(c: int, d: int, p: int)
    ensures 2 * c * d == 2 * (c * d) && c * (2 * p) == 2 * c * p
  {}

  method Divide(n: dword, d: dword) returns (q: dword)
    ensures q == if d == 0 then 0 else n / d
  {
    if d == 0 { return 0; }
    if d == 1 { return n; }
    if n < d {
      DivModUnique(n, d, 0, n);
      return 0;
    }
    var r := 0;
    q := 0;
    Pow64();
    DivModUnique(n, Pow(2, 64), 0, n);
    var i := 63;
    while i >= 0
      invariant -1 <= i <= 63 && Divided(n, d, i + 1, r, q)
    {
      r, q := Step(n, d, i, r, q);
      i := i - 1;
    }
  }

  lemma Pow64()
    ensures Pow(2, 64) == TWO64
  {
    assert Pow(2, 1) == 2 && Pow(2, 2) == 4 && Pow(2, 3) == 8 && Pow(2, 4) == 16;
    PowAdd(2, 4, 4);
    PowAdd(2, 8, 8);
    PowAdd(2, 16, 16);
    PowAdd(2, 32, 32);
  }

  lemma NoBitLost(n: dword, i: nat, c: nat, d: nat, r: nat)
    requires Shr(n, i + 1) == c * d + r
    ensures r <= Shr(n, i + 1) && 2 * r <= Shr(n, i) <= n
  {
    MulMonotone(0, c, d);
    ShrStep(n, i);
    PowPositive(2, i);
    DivisionEquation(n, Pow(2, i));
    MulMonotone(1, Pow(2, i), Shr(n, i));
  }

  /** A quotient bit is set in a place that was clear, and the quotient stays a 64-bit number. */
  lemma QuotientBit(n: dword, i: nat, c: nat, d: nat, r: nat, q: nat)
    requires d > 0 && Shr(n, i + 1) == c * d + r && q == c * Pow(2, i + 1)
    requires 2 * r + Shr(n, i) % 2 >= d
    ensures q + Pow(2, i) == (2 * c + 1) * Pow(2, i) <= n
  {
    var x, p := Shr(n, i), Pow(2, i);
    ShrStep(n, i);
    PowPositive(2, i);
    DivisionEquation(n, p);
    OddQuotient(x, c, d, r, x % 2);
    MulMonotone(2 * c + 1, x, p);
    OddMultiple(c, p);
  }

  lemma OddQuotient(x: int, c: nat, d: nat, r: nat, bit: nat)
    requires d > 0 && x == 2 * (c * d + r) + bit && 2 * r + bit >= d
    ensures 2 * c + 1 <= x
  {
    MulMonotone(1, d, c);
  }

  lemma OddMultiple(c: int, p: int)
    ensures c * (2 * p) + p == (2 * c + 1) * p
  {}
}
