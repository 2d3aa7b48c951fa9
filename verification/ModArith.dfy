/** Congruences, and Montgomery products modulo an odd number. */
module ModArith {
  import opened Positional

  ghost predicate Cong(a: int, b: int, n: int)
    requires n > 0
  {
    a % n == b % n
  }

  lemma CongIntro(a: int, b: int, n: int, k: int)
    requires n > 0 && a == b + k * n
    ensures Cong(a, b, n)
  {
    ModAddMultiple(b, n, k);
  }

  lemma CongElim(a: int, b: int, n: int) returns (k: int)
    requires n > 0 && Cong(a, b, n)
    ensures a == b + k * n
  {
    k := a / n - b / n;
    assert a == a / n * n + a % n && b == b / n * n + b % n;
  }

  lemma CongMul(a: int, b: int, c: int, n: int)
    requires n > 0 && Cong(a, b, n)
    ensures Cong(a * c, b * c, n)
  {
    var k := CongElim(a, b, n);
    assert (b + k * n) * c == b * c + k * c * n;
    CongIntro(a * c, b * c, n, k * c);
  }

  lemma CongMod(a: int, n: int)
    requires n > 0
    ensures Cong(a % n, a, n)
  {
    CongIntro(a, a % n, n, a / n);
  }

  /** Modulo an odd number, factors of two cancel. */
  lemma Cancel2(a: int, b: int, n: int)
    requires n > 0 && n % 2 == 1 && Cong(2 * a, 2 * b, n)
    ensures Cong(a, b, n)
  {
    var k := CongElim(2 * a, 2 * b, n);
    EvenFactor(k, n, a - b);
    CongIntro(a, b, n, k / 2);
  }

  lemma EvenFactor(k: int, n: int, d: int)
    requires n % 2 == 1 && k * n == 2 * d
    ensures k % 2 == 0 && d == k / 2 * n
  {
    var m := n / 2;
    assert k * n == 2 * (k * m) + k;
    assert k == 2 * (k / 2);
    assert 2 * (k / 2) * n == 2 * (k / 2 * n);
  }

  lemma {:induction false} CancelPow2(a: int, b: int, k: nat, n: int)
    requires n > 0 && n % 2 == 1 && Cong(a * Pow(2, k), b * Pow(2, k), n)
    ensures Cong(a, b, n)
  {
    if k > 0 {
      var p := Pow(2, k - 1);
      assert a * (2 * p) == 2 * (a * p) && b * (2 * p) == 2 * (b * p);
      Cancel2(a * p, b * p, n);
      CancelPow2(a, b, k - 1, n);
    }
  }

  /** Division by two modulo an odd `n`. */
  function Halve(t: nat, n: nat): nat {
    if t % 2 == 0 then t / 2 else (t + n) / 2
  }

  /** `t / 2^k` modulo an odd `n`: the reduction one command of the RSA engine performs. */
  function Redc(t: nat, n: nat, k: nat): nat
    decreases k
  {
    if k == 0 then t else Redc(Halve(t, n), n, k - 1)
  }

  lemma {:induction false} RedcCorrect(t: nat, n: nat, k: nat)
    requires t < n && n % 2 == 1
    ensures Redc(t, n, k) < n && Cong(Redc(t, n, k) * Pow(2, k), t, n)
    decreases k
  {
    if k > 0 {
      HalveCorrect(t, n);
      RedcCorrect(Halve(t, n), n, k - 1);
      Chain(Redc(t, n, k), Pow(2, k - 1), Halve(t, n), t, n);
    }
  }

  lemma Chain(r: int, p: int, h: int, t: int, n: int)
    requires n > 0 && Cong(r * p, h, n) && Cong(h * 2, t, n)
    ensures Cong(r * (2 * p), t, n)
  {
    CongMul(r * p, h, 2, n);
    assert r * (2 * p) == r * p * 2;
  }

  lemma HalveCorrect(t: nat, n: nat)
    requires t < n && n % 2 == 1
    ensures Halve(t, n) < n && Cong(Halve(t, n) * 2, t, n)
  {
    CongIntro(Halve(t, n) * 2, t, n, if t % 2 == 0 then 0 else 1);
  }

  function MontMul(x: nat, y: nat, n: nat, k: nat): nat
    requires n > 0
  {
    MulMonotone(0, x, y);
    Redc(x * y % n, n, k)
  }

  lemma MontMulCorrect(x: nat, y: nat, n: nat, k: nat)
    requires n % 2 == 1
    ensures MontMul(x, y, n, k) < n && Cong(MontMul(x, y, n, k) * Pow(2, k), x * y, n)
  {
    MulMonotone(0, x, y);
    RedcCorrect(x * y % n, n, k);
    CongMod(x * y, n);
  }

  /** `u` in Montgomery form: times `2^k`, modulo `n`. */
  function Form(u: nat, n: nat, k: nat): nat
    requires n > 0
  {
    MulMonotone(0, u, Pow(2, k));
    u * Pow(2, k) % n
  }

  /** The Montgomery product of two Montgomery forms is the form of the product. */
  lemma FormProduct(u: nat, v: nat, n: nat, k: nat)
    requires n % 2 == 1
    ensures u * v >= 0 && MontMul(Form(u, n, k), Form(v, n, k), n, k) == Form(u * v, n, k)
  {
    var r, fu, fv := Pow(2, k), Form(u, n, k), Form(v, n, k);
    MulMonotone(0, u, v);
    var z := MontMul(fu, fv, n, k);
    MontMulCorrect(fu, fv, n, k);
    CongMod(u * r, n);
    CongMod(v * r, n);
    CongMul(fu, u * r, fv, n);
    CongMul(fv, v * r, u * r, n);
    assert fu * fv == fv * fu && u * r * fv == fv * (u * r);
    Rearrange(u, v, r);
    CancelPow2(z, u * v * r, k, n);
    Small(z, n);
  }

  lemma Rearrange(u: int, v: int, r: int)
    ensures v * r * (u * r) == u * v * r * r
  {}

  lemma Small(z: int, n: int)
    requires 0 <= z < n
    ensures z % n == z
  {}
}
