/** Positional notation: the value of a little-endian digit sequence in a base.

One definition serves the 28-bit bignum digits and the byte strings exchanged with the RSA
engine. */
module Positional {

  function Pow(b: nat, k: nat): nat {
    if k == 0 then 1 else b * Pow(b, k - 1)
  }

  /** Value of `s`, least significant digit first. */
  function Val(s: seq<int>, b: nat): int {
    if s == [] then 0 else s[0] + b * Val(s[1..], b)
  }

  predicate Digits(s: seq<int>, b: nat) {
    forall i :: 0 <= i < |s| ==> 0 <= s[i] < b
  }

  lemma {:induction false} PowPositive(b: nat, k: nat)
    requires b > 0
    ensures Pow(b, k) > 0
  {
    if k > 0 { PowPositive(b, k - 1); }
  }

  lemma {:induction false} PowAdd(b: nat, j: nat, k: nat)
    ensures Pow(b, j + k) == Pow(b, j) * Pow(b, k)
  {
    if j > 0 {
      PowAdd(b, j - 1, k);
      MulAssoc(b, Pow(b, j - 1), Pow(b, k));
    }
  }

  lemma {:induction false} PowMul(b: nat, j: nat, k: nat)
    ensures Pow(Pow(b, j), k) == Pow(b, j * k)
  {
    if k == 0 {
      assert j * k == 0;
    } else {
      PowMul(b, j, k - 1);
      assert j * k == j + j * (k - 1);
      PowAdd(b, j, j * (k - 1));
    }
  }

  lemma {:induction false} PowMonotone(b: nat, j: nat, k: nat)
    requires b > 0 && j <= k
    ensures Pow(b, j) <= Pow(b, k)
  {
    if j < k {
      PowMonotone(b, j, k - 1);
      PowPositive(b, k - 1);
      MulMonotone(1, b, Pow(b, k - 1));
    }
  }

  lemma BytePow()
    ensures Pow(2, 8) == 256
  {
    assert Pow(2, 1) == 2 && Pow(2, 2) == 4 && Pow(2, 3) == 8;
    PowAdd(2, 4, 4);
  }

  lemma MulAssoc(x: int, y: int, z: int)
    ensures x * (y * z) == x * y * z
  {}

  lemma MulSame(x: int, y: int, z: int)
    requires y == z
    ensures x * y == x * z
  {}

  lemma MulMonotone(x: int, y: int, z: int)
    requires x <= y && 0 <= z
    ensures x * z <= y * z
  {}

  /** The quotient and remainder of a division are determined by the division equation. */
  lemma DivModUnique(n: int, d: int, q: int, r: int)
    requires d > 0 && n == q * d + r && 0 <= r < d
    ensures n / d == q && n % d == r
  {
    var q', r' := n / d, n % d;
    assert (q - q') * d == r' - r;
    if q > q' { MulMonotone(1, q - q', d); }
    if q < q' { MulMonotone(q - q', -1, d); }
  }

  lemma DivisionEquation(m: int, l: int)
    requires l > 0
    ensures m == m / l * l + m % l
  {}

  lemma ModAddMultiple(n: int, d: int, k: int)
    requires d > 0
    ensures (n + k * d) % d == n % d
  {
    assert n + k * d == (n / d + k) * d + n % d;
    DivModUnique(n + k * d, d, n / d + k, n % d);
  }

  lemma {:induction false} ValSnoc(s: seq<int>, d: int, b: nat)
    ensures Val(s + [d], b) == Val(s, b) + d * Pow(b, |s|)
  {
    if s == [] {
      assert s + [d] == [d];
      assert [d][1..] == [];
    } else {
      assert (s + [d])[1..] == s[1..] + [d];
      ValSnoc(s[1..], d, b);
      var p := Pow(b, |s| - 1);
      assert b * (d * p) == d * (b * p);
    }
  }

  lemma {:induction false} ValAppend(s: seq<int>, t: seq<int>, b: nat)
    ensures Val(s + t, b) == Val(s, b) + Pow(b, |s|) * Val(t, b)
  {
    if s == [] {
      assert s + t == t;
    } else {
      var v, p, w := Val(s[1..], b), Pow(b, |s| - 1), Val(t, b);
      assert (s + t)[1..] == s[1..] + t;
      ValAppend(s[1..], t, b);
      Regroup(s[0], b, v, p, w);
    }
  }

  lemma ValThree(p: seq<int>, m: seq<int>, r: seq<int>, b: nat)
    ensures Val(p + (m + r), b) == Val(p, b) + Pow(b, |p|) * (Val(m, b) + Pow(b, |m|) * Val(r, b))
  {
    ValAppend(p, m + r, b);
    ValAppend(m, r, b);
  }

  lemma Regroup(d: int, b: int, v: int, p: int, w: int)
    ensures d + b * (v + p * w) == d + b * v + b * p * w
  {
    MulAssoc(b, p, w);
  }

  lemma {:induction false} ValBound(s: seq<int>, b: nat)
    requires Digits(s, b)
    ensures 0 <= Val(s, b) < Pow(b, |s|)
  {
    if s != [] {
      var v, p := Val(s[1..], b), Pow(b, |s| - 1);
      ValBound(s[1..], b);
      assert 0 <= s[0] < b;
      HeadBound(s[0], v, b, p);
    }
  }

  lemma HeadBound(d: int, v: int, b: int, p: int)
    requires 0 <= d < b && 0 <= v < p
    ensures 0 <= d + b * v < b * p
  {
    MulMonotone(v + 1, p, b);
    MulMonotone(0, v, b);
  }

  lemma {:induction false} ValUpdate(s: seq<int>, k: nat, d: int, b: nat)
    requires k < |s|
    ensures Val(s[k := d], b) == Val(s, b) + (d - s[k]) * Pow(b, k)
  {
    if k == 0 {
      assert s[0 := d][1..] == s[1..];
    } else {
      assert s[k := d][1..] == s[1..][k - 1 := d];
      ValUpdate(s[1..], k - 1, d, b);
      MulAssoc(b, d - s[k], Pow(b, k - 1));
      MulAssoc(d - s[k], b, Pow(b, k - 1));
    }
  }

  lemma {:induction false} ValZeros(s: seq<int>, b: nat)
    requires forall i :: 0 <= i < |s| ==> s[i] == 0
    ensures Val(s, b) == 0
  {
    if s != [] { ValZeros(s[1..], b); }
  }

  /** A digit string whose most significant digit is not zero has the full magnitude. */
  lemma ValTop(s: seq<int>, b: nat)
    requires Digits(s, b) && s != [] && s[|s| - 1] > 0
    ensures Pow(b, |s| - 1) <= Val(s, b)
  {
    var n := |s| - 1;
    assert s == s[..n] + [s[n]];
    ValSnoc(s[..n], s[n], b);
    ValBound(s[..n], b);
    MulMonotone(1, s[n], Pow(b, n));
  }

  /** Digit strings of one length represent different numbers unless they are equal. */
  lemma {:induction false} ValInjective(s: seq<int>, t: seq<int>, b: nat)
    requires Digits(s, b) && Digits(t, b) && |s| == |t| && Val(s, b) == Val(t, b)
    ensures s == t
  {
    if s != [] {
      assert 0 <= s[0] < b && 0 <= t[0] < b;
      DivModUnique(Val(s, b), b, Val(s[1..], b), s[0]);
      DivModUnique(Val(t, b), b, Val(t[1..], b), t[0]);
      ValInjective(s[1..], t[1..], b);
      assert s == [s[0]] + s[1..] && t == [t[0]] + t[1..];
    }
  }

  lemma QuotientNonNegative(n: int, d: int)
    requires 0 <= n && 0 < d
    ensures 0 <= n / d
  {
    DivisionEquation(n, d);
    if n / d < 0 { MulMonotone(n / d, -1, d); }
  }

  /** `e` shifted right by `i` bits. */
  ghost function Shr(e: nat, i: nat): nat
  {
    PowPositive(2, i);
    QuotientNonNegative(e, Pow(2, i));
    e / Pow(2, i)
  }

  lemma ShrStep(e: nat, i: nat)
    ensures Shr(e, i) == 2 * Shr(e, i + 1) + Shr(e, i) % 2
  {
    var p := Pow(2, i);
    PowPositive(2, i);
    DivisionEquation(e, p);
    var q := e / p;
    HalfArith(q, p, e % p);
    DivModUnique(e, 2 * p, q / 2, q % 2 * p + e % p);
  }

  lemma HalfArith(q: int, p: int, r: int)
    requires p > 0 && 0 <= r < p
    ensures q * p + r == q / 2 * (2 * p) + (q % 2 * p + r) && 0 <= q % 2 * p + r < 2 * p
  {
    assert q * p == (2 * (q / 2) + q % 2) * p;
    assert q % 2 == 0 || q % 2 == 1;
  }
}
