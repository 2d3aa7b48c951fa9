/** Division by powers of two, bit counting and 2^k: the shifts of the bignum code. */
module BignumShift {
  import opened Words
  import opened Positional
  import opened Bignum

  const DIGIT_BIT := 28

  lemma BaseIsPow2(k: nat)
    ensures Pow(2, DIGIT_BIT) == BASE && Pow(BASE, k) == Pow(2, DIGIT_BIT * k)
  {
    assert Pow(2, 1) == 2 && Pow(2, 2) == 4 && Pow(2, 3) == 8 && Pow(2, 4) == 16;
    PowAdd(2, 4, 3);
    PowAdd(2, 7, 7);
    PowAdd(2, 14, 14);
    PowMul(2, DIGIT_BIT, k);
  }

  /** A shift by `bits` splits a digit into a part that stays and a part that moves down. */
  lemma BitsSplit(bits: nat)
    requires bits <= DIGIT_BIT
    ensures Pow(2, bits) * Pow(2, DIGIT_BIT - bits) == BASE
    ensures Pow(2, bits) > 0 && Pow(2, DIGIT_BIT - bits) > 0
  {
    PowAdd(2, bits, DIGIT_BIT - bits);
    BaseIsPow2(0);
    PowPositive(2, bits);
    PowPositive(2, DIGIT_BIT - bits);
  }

  lemma ShiftHead(c0: int, vc: int, w: int, q0: int, s0: int, q1: int, vs: int)
    requires c0 * w + q0 == s0 + BASE * q1 && vc * w + q1 == vs
    ensures (c0 + BASE * vc) * w + q0 == s0 + BASE * vs
  {
    MulAssoc(BASE, vc, w);
  }

  /** One digit of the shift: `carry` comes in from above, `out` goes down. */
  ghost predicate DigitShifted(digit: int, out: int, x: int, carry: int, w: int)
  {
    digit * w + out == x + BASE * carry && 0 <= digit < BASE && 0 <= out < w
  }

  /** `(x >> bits) | (carry << (28 - bits))`; the two parts do not overlap. */
  method ShiftStep(x: word, carry: word, bits: nat, ghost w: int) returns (digit: word, out: word)
    requires 0 < bits < DIGIT_BIT && w == Pow(2, bits) && x < BASE && carry < w
    ensures DigitShifted(digit, out, x, carry, w)
    ensures out < w
  {
    BitsSplit(bits);
    var lo, hi := Pow(2, bits), Pow(2, DIGIT_BIT - bits);
    var shifted := x / lo;
    out := x % lo;
    DivisionEquation(x, lo);
    ShiftBound(x, shifted, out, carry, lo, hi);
    digit := shifted + carry * hi;
  }

  lemma ShiftBound(x: int, shifted: int, out: int, carry: int, lo: int, hi: int)
    requires 0 <= x < BASE && lo > 0 && hi > 0 && lo * hi == BASE && x == shifted * lo + out && 0 <= out < lo
    requires 0 <= carry < lo
    ensures 0 <= shifted + carry * hi < BASE
    ensures (shifted + carry * hi) * lo + out == x + BASE * carry
    ensures out < BASE
  {
    if shifted >= hi { MulMonotone(hi, shifted, lo); }
    if shifted < 0 { MulMonotone(shifted, -1, lo); }
    MulMonotone(carry, lo - 1, hi);
    MulMonotone(0, carry, hi);
    MulMonotone(1, hi, lo);
    assert (lo - 1) * hi == BASE - hi;
    assert carry * hi * lo == carry * (lo * hi);
  }

  /** `s` shifted right is `c`, and `out` is what was shifted out. */
  ghost predicate Shifted(c: seq<int>, out: int, s: seq<int>, w: int)
  {
    Digits(c, BASE) && 0 <= out < w && Val(c, BASE) * w + out == Val(s, BASE)
  }

  /** `outs` are the carries of a shift from digit `i` up, the last of them zero. */
  ghost predicate DigitsShifted(c: seq<int>, outs: seq<int>, s: seq<int>, i: int, w: int)
    requires |c| == |s| && |outs| == |s| + 1
  {
    outs[|s|] == 0 && forall k :: 0 <= i <= k < |s| ==> DigitShifted(c[k], outs[k], s[k], outs[k + 1], w)
  }

  lemma {:induction false} ShiftedValue(c: seq<int>, outs: seq<int>, s: seq<int>, i: nat, w: int)
    requires |c| == |s| && |outs| == |s| + 1 && i <= |s| && w > 0 && DigitsShifted(c, outs, s, i, w)
    ensures Shifted(c[i..], outs[i], s[i..], w)
    decreases |s| - i
  {
    if i < |s| {
      ShiftedValue(c, outs, s, i + 1, w);
      assert DigitShifted(c[i], outs[i], s[i], outs[i + 1], w);
      ShiftedCons(c[i + 1..], outs[i + 1], s[i + 1..], w, c[i], outs[i], s[i]);
      assert c[i..] == [c[i]] + c[i + 1..] && s[i..] == [s[i]] + s[i + 1..];
    }
  }

  lemma ShiftedCons(c: seq<int>, out: int, s: seq<int>, w: int, c0: int, out': int, s0: int)
    requires Shifted(c, out, s, w) && DigitShifted(c0, out', s0, out, w)
    ensures Shifted([c0] + c, out', [s0] + s, w)
  {
    assert ([c0] + c)[1..] == c && ([s0] + s)[1..] == s;
    ShiftHead(c0, Val(c, BASE), w, out', s0, out, Val(s, BASE));
  }

  method ShiftDigits(c: array<word>, n: nat, bits: nat) returns (out: word)
    requires n <= c.Length && 0 < bits < DIGIT_BIT && Digits(c[..n], BASE)
    modifies c
    ensures Shifted(c[..n], out, old(c[..n]), Pow(2, bits))
  {
    ghost var s, w := c[..n], Pow(2, bits);
    ghost var outs: seq<int> := seq(n + 1, _ => 0);
    PowPositive(2, bits);
    out := 0;
    var i := n - 1;
    while i >= 0
      invariant -1 <= i < n && |outs| == n + 1 && out == outs[i + 1] < w
      invariant forall k :: 0 <= k <= i ==> c[k] == s[k]
      invariant DigitsShifted(c[..n], outs, s, i + 1, w)
    {
      assert s[i] < BASE;
      c[i], out := ShiftStep(c[i], out, bits, w);
      outs := outs[i := out];
      i := i - 1;
    }
    ShiftedValue(c[..n], outs, s, 0, w);
    assert c[..n][0..] == c[..n] && s[0..] == s;
  }

  /** `mp_rshd`: whole digits. */
  method RShd(a: MpInt, count: int)
    requires a.Clamped()
    modifies a`used, a`sign, a.dp
    ensures a.Clamped() && a.used <= old(a.used) && a.sign == (if a.used == 0 then 0 else old(a.sign))
    ensures count > 0 ==> 0 <= old(a.Mag()) - a.Mag() * Pow(BASE, count) < Pow(BASE, count)
    ensures count <= 0 ==> a.Mag() == old(a.Mag())
  {
    if count <= 0 { return; }
    if count >= a.used {
      AllDropped(a.dp[..a.used], count);
      a.used, a.sign := 0, 0;
      return;
    }
    ghost var s := a.dp[..a.used];
    DropLow(s, count);
    MoveDown(a.dp, a.used, count);
    a.used := a.used - count;
    TopKept(s, count);
  }

  lemma TopKept(s: seq<int>, count: nat)
    requires Digits(s, BASE) && count < |s|
    ensures Digits(s[count..], BASE) && s[count..][|s| - count - 1] == s[|s| - 1]
  {
    forall i | 0 <= i < |s| - count ensures 0 <= s[count..][i] < BASE {
      assert s[count..][i] == s[i + count];
    }
  }

  lemma AllDropped(s: seq<int>, count: nat)
    requires Digits(s, BASE) && |s| <= count
    ensures 0 <= Val(s, BASE) < Pow(BASE, count)
  {
    ValBound(s, BASE);
    PowMonotone(BASE, |s|, count);
  }

  lemma DropLow(s: seq<int>, count: nat)
    requires Digits(s, BASE) && count <= |s|
    ensures 0 <= Val(s, BASE) - Val(s[count..], BASE) * Pow(BASE, count) < Pow(BASE, count)
  {
    assert s == s[..count] + s[count..];
    ValAppend(s[..count], s[count..], BASE);
    ValBound(s[..count], BASE);
  }

  method MoveDown(dp: array<word>, n: nat, count: nat)
    requires 0 < count < n <= dp.Length
    modifies dp
    ensures dp[..n - count] == old(dp[..n])[count..]
  {
    ghost var s := dp[..n];
    var i := 0;
    while i < n - count
      invariant 0 <= i <= n - count
      invariant forall k :: 0 <= k < i ==> dp[k] == s[k + count]
      invariant forall k :: i <= k < n ==> dp[k] == s[k]
    {
      dp[i] := dp[i + count];
      i := i + 1;
    }
    while i < n
      invariant n - count <= i <= n
      invariant forall k :: 0 <= k < n - count ==> dp[k] == s[k + count]
    {
      dp[i] := 0;
      i := i + 1;
    }
  }

  /** `n == q * 2^b + r` with a remainder below `2^b`. */
  ghost predicate DividedBy2(n: int, b: nat, q: int, r: int)
  {
    n == q * Pow(2, b) + r && 0 <= r < Pow(2, b)
  }

  lemma Pow2Split(b: nat)
    ensures Pow(2, b) == Pow(BASE, b / DIGIT_BIT) * Pow(2, b % DIGIT_BIT)
  {
    BaseIsPow2(b / DIGIT_BIT);
    PowAdd(2, DIGIT_BIT * (b / DIGIT_BIT), b % DIGIT_BIT);
  }

  /** Cutting a digit string at bit `b`: the digits below, and the low bits of the one it falls in. */
  lemma MaskedValue(lo: seq<int>, x: int, hi: seq<int>, b: nat, w: int) returns (q: int)
    requires Digits(lo, BASE) && 0 <= x && |lo| == b / DIGIT_BIT && w == Pow(2, b % DIGIT_BIT) && w > 0
    ensures DividedBy2(Val(lo + ([x] + hi), BASE), b, q, Val(lo + [x % w], BASE))
    ensures q == x / w + Pow(2, DIGIT_BIT - b % DIGIT_BIT) * Val(hi, BASE)
  {
    var p, h, v := Pow(BASE, |lo|), Pow(2, DIGIT_BIT - b % DIGIT_BIT), Val(hi, BASE);
    ValAppend(lo, [x] + hi, BASE);
    assert ([x] + hi)[1..] == hi && Val([x] + hi, BASE) == x + BASE * v;
    ValSnoc(lo, x % w, BASE);
    ValBound(lo, BASE);
    Pow2Split(b);
    BitsSplit(b % DIGIT_BIT);
    DivisionEquation(x, w);
    q := x / w + h * v;
    MaskArith(Val(lo, BASE), p, x, w, h, v, x / w, x % w);
  }

  lemma MaskArith(l: int, p: int, x: int, w: int, h: int, v: int, xq: int, xr: int)
    requires 0 <= l < p && w > 0 && w * h == BASE && x == xq * w + xr && 0 <= xr < w
    ensures l + p * (x + BASE * v) == (xq + h * v) * (p * w) + (l + xr * p)
    ensures 0 <= l + xr * p < p * w
  {
    assert BASE * v == h * v * w by { MulAssoc(h, v, w); MulAssoc(w, h, v); }
    assert x + BASE * v == (xq + h * v) * w + xr;
    MulSame(p, x + BASE * v, (xq + h * v) * w + xr);
    assert p * ((xq + h * v) * w) == (xq + h * v) * (p * w);
    MulMonotone(xr, w - 1, p);
    MulMonotone(0, xr, p);
    assert (w - 1) * p == p * w - p;
  }

  /** The remainder half of `mp_div_2d`. */
  method MaskLow(d: MpInt, b: nat) returns (ghost q: int)
    requires d.Clamped()
    modifies d`used, d`sign, d.dp
    ensures d.Clamped() && d.sign == (if d.used == 0 then 0 else old(d.sign))
    ensures DividedBy2(old(d.Mag()), b, q, d.Mag())
  {
    var digits, bits := b / DIGIT_BIT, b % DIGIT_BIT;
    BitsSplit(bits);
    if digits < d.used {
      q := Masked(d.dp[..d.used], b, Pow(2, bits));
      MaskDigits(d.dp, d.used, digits, bits);
      d.SetUsed(digits + 1);
    } else {
      NothingToMask(d.dp[..d.used], b);
      q := 0;
    }
  }

  lemma Masked(s: seq<int>, b: nat, w: int) returns (q: int)
    requires Digits(s, BASE) && b / DIGIT_BIT < |s| && w == Pow(2, b % DIGIT_BIT) && w > 0
    ensures DividedBy2(Val(s, BASE), b, q, Val(s[..b / DIGIT_BIT] + [s[b / DIGIT_BIT] % w], BASE))
  {
    var n := b / DIGIT_BIT;
    assert s == s[..n] + ([s[n]] + s[n + 1..]);
    q := MaskedValue(s[..n], s[n], s[n + 1..], b, w);
  }

  lemma NothingToMask(s: seq<int>, b: nat)
    requires Digits(s, BASE) && |s| <= b / DIGIT_BIT
    ensures DividedBy2(Val(s, BASE), b, 0, Val(s, BASE))
  {
    ValBound(s, BASE);
    PowMonotone(BASE, |s|, b / DIGIT_BIT);
    Pow2Split(b);
    PowPositive(2, b % DIGIT_BIT);
    BelowProduct(Val(s, BASE), Pow(BASE, b / DIGIT_BIT), Pow(2, b % DIGIT_BIT));
  }

  lemma BelowProduct(v: int, p: int, w: int)
    requires 0 <= v < p && w > 0
    ensures v < p * w
  {
    MulMonotone(1, w, p);
  }

  method MaskDigits(dp: array<word>, n: nat, digits: nat, bits: nat)
    requires digits < n <= dp.Length && bits < DIGIT_BIT && Digits(dp[..n], BASE) && Pow(2, bits) > 0
    modifies dp
    ensures dp[..digits + 1] == old(dp[..n])[..digits] + [old(dp[..n])[digits] % Pow(2, bits)]
    ensures Digits(dp[..digits + 1], BASE)
  {
    ghost var s := dp[..n];
    var i := digits + 1;
    while i < n
      invariant digits < i <= n
      invariant forall k :: 0 <= k <= digits ==> dp[k] == s[k]
    {
      dp[i] := 0;
      i := i + 1;
    }
    assert s[digits] < BASE;
    LowPart(dp[digits], Pow(2, bits));
    if bits > 0 {
      dp[digits] := dp[digits] % Pow(2, bits);
    } else {
      dp[digits] := 0;
    }
    assert forall k :: 0 <= k < digits ==> s[k] < BASE;
  }

  lemma LowPart(x: int, w: int)
    requires x >= 0 && w > 0
    ensures 0 <= x % w <= x && (w == 1 ==> x % w == 0)
  {
    assert x == x / w * w + x % w;
    if x / w < 0 { MulMonotone(x / w, -1, w); }
    MulMonotone(0, x / w, w);
  }

  lemma Compose(n: int, p: int, m: int, r1: int, w: int, q: int, r2: int)
    requires n == m * p + r1 && 0 <= r1 < p && m == q * w + r2 && 0 <= r2 < w
    ensures n == q * (p * w) + (r2 * p + r1) && 0 <= r2 * p + r1 < p * w
  {
    assert q * w * p == q * (p * w);
    MulMonotone(r2, w - 1, p);
    MulMonotone(0, r2, p);
    assert (w - 1) * p == p * w - p;
  }

  /** The shift `mp_div_2d` really makes: its digit count goes through `int16_t`, and a count
  that comes out negative is ignored. */
  function ShiftAmount(b: nat): nat
  {
    var count := Int16(b / DIGIT_BIT);
    DIGIT_BIT * (if count > 0 then count else 0) + b % DIGIT_BIT
  }

  /** When the quotient is right: the digit count survives the cast, or nothing is left to shift. */
  ghost predicate ShiftExact(n: int, b: nat)
  {
    b / DIGIT_BIT <= 0x7FFF || n < Pow(2, ShiftAmount(b))
  }

  /** The quotient by the shift that is made is the quotient by `2^b` exactly under `ShiftExact`. */
  lemma ShiftIsDivision(n: nat, b: nat)
    ensures Shr(n, ShiftAmount(b)) == Shr(n, b) <==> ShiftExact(n, b)
  {
    var k := ShiftAmount(b);
    if b / DIGIT_BIT <= 0x7FFF {
      assert k == b;
    } else {
      assert k < b;
      ShorterShift(n, k, b);
    }
  }

  /** A shorter shift gives the same quotient only when nothing is left of the number. */
  lemma ShorterShift(n: nat, k: nat, b: nat)
    requires k < b
    ensures Shr(n, k) == Shr(n, b) <==> n < Pow(2, k)
  {
    var p, m := Pow(2, k), Pow(2, b);
    PowPositive(2, k);
    PowMonotone(2, k + 1, b);
    DivisionEquation(n, p);
    DivisionEquation(n, m);
    ShorterQuotient(n, p, m, Shr(n, k), n % p, Shr(n, b), n % m);
  }

  lemma ShorterQuotient(n: nat, p: nat, m: nat, q: nat, r: int, q': nat, r': int)
    requires 0 < p && 2 * p <= m && n == q * p + r && 0 <= r < p && n == q' * m + r' && 0 <= r' < m
    ensures q == q' <==> n < p
  {
    if n < p {
      if q > 0 { MulMonotone(1, q, p); }
      if q' > 0 { MulMonotone(1, q', m); }
    } else if q > 0 {
      MulMonotone(1, q, m - p);
      assert q * (m - p) == q * m - q * p;
    }
  }

  /** The quotient half of `mp_div_2d`: whole digits, then the bits that remain. */
  method ShiftRight(c: MpInt, b: nat)
    requires c.Clamped()
    modifies c`used, c`sign, c.dp
    ensures c.Clamped() && c.used <= old(c.used) && c.sign == (if c.used == 0 then 0 else old(c.sign))
    ensures old(c.Mag()) >= 0 && c.Mag() == Shr(old(c.Mag()), ShiftAmount(b))
  {
    var count, bits := Int16(b / DIGIT_BIT), b % DIGIT_BIT;
    ghost var digits: nat := if count > 0 then count else 0;
    ghost var n, p := c.Mag(), Pow(BASE, digits);
    ValBound(c.dp[..c.used], BASE);
    RShd(c, count);
    ghost var m := c.Mag();
    assert 0 <= n - m * p < p;
    if bits > 0 {
      var out := ShiftDigits(c.dp, c.used, bits);
      Compose(n, p, m, n - m * p, Pow(2, bits), Val(c.dp[..c.used], BASE), out);
      WholeShift(n, digits, bits, Val(c.dp[..c.used], BASE), out * p + (n - m * p));
      c.SetUsed(c.used);
    } else {
      WholeShift(n, digits, 0, m, n - m * p);
    }
  }

  lemma WholeShift(n: nat, digits: nat, bits: nat, q: int, r: int)
    requires n == q * (Pow(BASE, digits) * Pow(2, bits)) + r && 0 <= r < Pow(BASE, digits) * Pow(2, bits)
    ensures Shr(n, DIGIT_BIT * digits + bits) == q
  {
    var m := Pow(2, DIGIT_BIT * digits + bits);
    assert m == Pow(BASE, digits) * Pow(2, bits) by {
      BaseIsPow2(digits);
      PowAdd(2, DIGIT_BIT * digits, bits);
    }
    DivModUnique(n, m, q, r);
  }

  /** `mp_div_2d`. The remainder is always right; `|a| == |c| * 2^b + |d|` exactly when the digit
  count fits 16 bits or the number is below the shift that is made instead. Both results have the
  sign of `a` unless zero. The quotient may replace `a`, and so may the remainder; `d` is optional.
  One object for both results ends up with the remainder, shifted. */
  method Div2d(a: MpInt, b: nat, c: MpInt, d: MpInt?) returns (ret: int)
    requires a.Clamped() && c.Shape() && Apart(a, c)
    requires d != null ==> d.Shape() && Apart(d, a) && Apart(d, c)
    modifies c, c.dp, if d == null then {} else {d, d.dp}
    ensures ret == 0 || ret == -1
    ensures c == a && d == null ==> ret == 0
    ensures c.dp == old(c.dp) || fresh(c.dp)
    ensures ret == 0 ==> c.Clamped() && c.sign == if c.used == 0 then 0 else old(a.sign)
    ensures ret == 0 && d != null ==> d.Clamped() && d.sign == if d.used == 0 then 0 else old(a.sign)
    ensures old(a.Mag()) >= 0
    ensures ret == 0 && d != c ==> c.Mag() == Shr(old(a.Mag()), ShiftAmount(b))
    ensures ret == 0 && d != c ==> (c.Mag() == Shr(old(a.Mag()), b) <==> ShiftExact(old(a.Mag()), b))
    ensures ret == 0 && d != c && d != null ==> d.Mag() == Low(old(a.Mag()), b) < Pow(2, b)
    ensures ret == 0 && d != c && d != null ==>
      (old(a.Mag()) == c.Mag() * Pow(2, b) + d.Mag() <==> ShiftExact(old(a.Mag()), b))
    ensures ret == 0 && d == c ==> c.Mag() == Shr(Low(old(a.Mag()), b), ShiftAmount(b))
  {
    ValBound(a.dp[..a.used], BASE);
    if d == null {
      ret := Quotient(a, b, c);
    } else if d == c {
      ret := QuotientOfRemainder(a, b, c);
    } else {
      ret := QuotientAndRemainder(a, b, c, d);
    }
  }

  /** The low `b` bits. */
  ghost function Low(n: nat, b: nat): nat
  {
    PowPositive(2, b);
    n % Pow(2, b)
  }

  method QuotientOfRemainder(a: MpInt, b: nat, c: MpInt) returns (ret: int)
    requires a.Clamped() && c.Shape() && Apart(a, c)
    modifies c, c.dp
    ensures ret == 0 || ret == -1
    ensures c.dp == old(c.dp) || fresh(c.dp)
    ensures ret == 0 ==> c.Clamped() && c.sign == if c.used == 0 then 0 else old(a.sign)
    ensures old(a.Mag()) >= 0 && (ret == 0 ==> c.Mag() == Shr(Low(old(a.Mag()), b), ShiftAmount(b)))
  {
    ghost var n := a.Mag();
    ValBound(a.dp[..a.used], BASE);
    ret := c.CopyFrom(a);
    if ret != 0 { return; }
    ghost var q;
    ret, q := Remainder(a, b, c);
    if ret != 0 { return; }
    LowOf(n, b, q, c.Mag());
    ShiftRight(c, b);
  }

  lemma LowOf(n: nat, b: nat, q: int, r: int)
    requires DividedBy2(n, b, q, r)
    ensures r == Low(n, b)
  {
    DivModUnique(n, Pow(2, b), q, r);
  }

  method Quotient(a: MpInt, b: nat, c: MpInt) returns (ret: int)
    requires a.Clamped() && c.Shape() && Apart(a, c)
    modifies c, c.dp
    ensures ret == 0 || ret == -1
    ensures c == a ==> ret == 0
    ensures c.dp == old(c.dp) || fresh(c.dp)
    ensures ret == 0 ==> c.Clamped() && c.sign == if c.used == 0 then 0 else old(a.sign)
    ensures ret == 0 ==> old(a.Mag()) >= 0 && c.Mag() == Shr(old(a.Mag()), ShiftAmount(b))
    ensures ret == 0 ==> (c.Mag() == Shr(old(a.Mag()), b) <==> ShiftExact(old(a.Mag()), b))
  {
    ret := c.CopyFrom(a);
    if ret != 0 { return; }
    ValBound(c.dp[..c.used], BASE);
    ShiftIsDivision(c.Mag(), b);
    ShiftRight(c, b);
  }

  method QuotientAndRemainder(a: MpInt, b: nat, c: MpInt, d: MpInt) returns (ret: int)
    requires a.Clamped() && c.Shape() && Apart(a, c)
    requires d.Shape() && d != c && Apart(d, a) && Apart(d, c)
    modifies c, c.dp, d, d.dp
    ensures ret == 0 || ret == -1
    ensures c.dp == old(c.dp) || fresh(c.dp)
    ensures ret == 0 ==> c.Clamped() && c.sign == if c.used == 0 then 0 else old(a.sign)
    ensures ret == 0 ==> d.Clamped() && d.sign == if d.used == 0 then 0 else old(a.sign)
    ensures ret == 0 ==> old(a.Mag()) >= 0 && c.Mag() == Shr(old(a.Mag()), ShiftAmount(b))
    ensures ret == 0 ==> (c.Mag() == Shr(old(a.Mag()), b) <==> ShiftExact(old(a.Mag()), b))
    ensures ret == 0 ==> d.Mag() == Low(old(a.Mag()), b) < Pow(2, b)
    ensures ret == 0 ==> (old(a.Mag()) == c.Mag() * Pow(2, b) + d.Mag() <==> ShiftExact(old(a.Mag()), b))
  {
    ret := c.CopyFrom(a);
    if ret != 0 { return; }
    ghost var n, q := c.Mag(), 0;
    ret, q := Remainder(a, b, d);
    if ret != 0 { return; }
    ShiftRight(c, b);
    ShiftIsDivision(n, b);
    LowOf(n, b, q, d.Mag());
    DivisionOf(n, b, q, d.Mag(), c.Mag());
  }

  lemma DivisionOf(n: nat, b: nat, q: int, r: int, c: int)
    requires DividedBy2(n, b, q, r)
    ensures n == c * Pow(2, b) + r <==> c == Shr(n, b)
  {
    DivModUnique(n, Pow(2, b), q, r);
    if n == c * Pow(2, b) + r { DivModUnique(n, Pow(2, b), c, r); }
  }

  /** Shifting 5 right by 28 * 32768 bits leaves 5, because the digit count becomes -32768. */
  method ShiftLost(five: MpInt) returns (ret: int)
    requires five.Clamped() && five.Mag() == 5
    modifies five, five.dp
    ensures ret == 0 && five.Clamped() && five.Mag() == 5 != Shr(5, 917504)
  {
    assert ShiftAmount(917504) == 0 && Pow(2, 0) == 1 && !ShiftExact(5, 917504);
    ret := Div2d(five, 917504, five, null);
  }

  method Remainder(a: MpInt, b: nat, d: MpInt) returns (ret: int, ghost q: int)
    requires a.Clamped() && d.Shape() && Apart(d, a)
    modifies d, d.dp
    ensures ret == 0 || ret == -1
    ensures d.dp == old(d.dp) || fresh(d.dp)
    ensures ret == 0 ==> d.Clamped() && d.sign == if d.used == 0 then 0 else old(a.sign)
    ensures ret == 0 ==> DividedBy2(old(a.Mag()), b, q, d.Mag())
  {
    q := 0;
    ret := d.CopyFrom(a);
    if ret != 0 { return; }
    q := MaskLow(d, b);
  }

  /** `bits` is the position of the highest set bit of `n`, counted from one. */
  ghost predicate BitLength(n: int, bits: int)
  {
    if n == 0 then bits == 0 else bits > 0 && Pow(2, bits - 1) <= n < Pow(2, bits)
  }

  method CountBits(a: MpInt) returns (bits: int)
    requires a.Clamped()
    ensures BitLength(a.Mag(), bits)
  {
    if a.used == 0 { return 0; }
    var n := a.used - 1;
    ghost var s := a.dp[..a.used];
    assert s == s[..n] + [s[n]];
    bits := n * DIGIT_BIT;
    var d := a.dp[n];
    ghost var t := 0;
    while d > 0
      invariant d >= 0 && t >= 0 && bits == n * DIGIT_BIT + t
      invariant d * Pow(2, t) <= a.dp[n] < (d + 1) * Pow(2, t)
      invariant d > 0 || t > 0
      invariant t > 0 ==> Pow(2, t - 1) <= a.dp[n]
      decreases d
    {
      HalveStep(a.dp[n], d, Pow(2, t));
      bits := bits + 1;
      d := d / 2;
      t := t + 1;
    }
    assert a.dp[n] < Pow(2, t);
    TopDigitBits(s[..n], s[n], t);
  }

  lemma HalveStep(top: int, d: int, p: int)
    requires d > 0 && p > 0 && d * p <= top < (d + 1) * p
    ensures d / 2 * (2 * p) <= top < (d / 2 + 1) * (2 * p) && p <= top
  {
    MulMonotone(1, d, p);
    MulMonotone(2 * (d / 2), d, p);
    MulMonotone(d + 1, 2 * (d / 2) + 2, p);
    assert d / 2 * (2 * p) == 2 * (d / 2) * p && (d / 2 + 1) * (2 * p) == (2 * (d / 2) + 2) * p;
  }

  lemma TopDigitBits(lo: seq<int>, x: int, t: nat)
    requires Digits(lo, BASE) && t > 0 && Pow(2, t - 1) <= x < Pow(2, t)
    ensures BitLength(Val(lo + [x], BASE), |lo| * DIGIT_BIT + t)
  {
    var p, k := Pow(BASE, |lo|), DIGIT_BIT * |lo|;
    ValSnoc(lo, x, BASE);
    ValBound(lo, BASE);
    BaseIsPow2(|lo|);
    PowAdd(2, k, t);
    PowAdd(2, k, t - 1);
    PowPositive(2, t - 1);
    TopArith(Val(lo, BASE), x, p, Pow(2, t - 1), Pow(2, t));
  }

  lemma TopArith(l: int, x: int, p: int, h: int, w: int)
    requires 0 <= l < p && 0 < h <= x < w
    ensures p * h <= l + x * p < p * w && l + x * p > 0
  {
    MulMonotone(h, x, p);
    MulMonotone(x + 1, w, p);
    MulMonotone(1, x, p);
    assert (x + 1) * p == x * p + p;
  }

  /** `rsa_modexp`, which despite its name stores a power of two. */
  method SetPow2(a: MpInt, bits: nat) returns (ret: int)
    requires a.Shape() && bits / DIGIT_BIT < MAX_DIGITS
    modifies a, a.dp
    ensures ret == 0 || ret == -1
    ensures ret == 0 ==> a.Clamped() && a.sign == 0 && a.Mag() == Pow(2, bits)
  {
    a.sign, a.used := 0, 0;
    var i := 0;
    while i < a.alloc
      modifies a.dp
      invariant 0 <= i <= a.alloc
      invariant forall k :: 0 <= k < i ==> a.dp[k] == 0
    {
      a.dp[i] := 0;
      i := i + 1;
    }
    var digit := bits / DIGIT_BIT;
    if a.alloc < digit + 1 {
      ret := a.Grow(digit + 1);
      if ret != 0 { return; }
    }
    var off := bits - digit * DIGIT_BIT;
    BitsSplit(off);
    MulMonotone(1, Pow(2, DIGIT_BIT - off), Pow(2, off));
    assert Pow(2, off) <= BASE;
    a.used := digit + 1;
    ghost var z := a.dp[..digit];
    a.dp[digit] := Pow(2, off);
    assert a.dp[..digit + 1] == z + [Pow(2, off)];
    OneBit(z, off);
    return 0;
  }

  lemma OneBit(z: seq<int>, off: nat)
    requires off < DIGIT_BIT && forall k :: 0 <= k < |z| ==> z[k] == 0
    ensures Val(z + [Pow(2, off)], BASE) == Pow(2, |z| * DIGIT_BIT + off) && 0 < Pow(2, off) < BASE
    ensures Digits(z + [Pow(2, off)], BASE)
  {
    ValZeros(z, BASE);
    ValSnoc(z, Pow(2, off), BASE);
    BaseIsPow2(|z|);
    PowAdd(2, off, |z| * DIGIT_BIT);
    BitsSplit(off);
    assert Pow(2, DIGIT_BIT - off) == 2 * Pow(2, DIGIT_BIT - off - 1);
    PowPositive(2, DIGIT_BIT - off - 1);
    MulMonotone(2, Pow(2, DIGIT_BIT - off), Pow(2, off));
  }
}
