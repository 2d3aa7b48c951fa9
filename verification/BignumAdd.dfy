/** Comparison, addition and subtraction of signed bignums. The result may be stored in
either operand, or both operands and the result may be one object. */
module BignumAdd {
  import opened Words
  import opened Positional
  import opened Bignum
  import opened Carry

  /** Equal above position `k`, larger at `k`: larger as a whole. */
  lemma ValOrder(s: seq<int>, t: seq<int>, k: nat)
    requires Digits(s, BASE) && Digits(t, BASE) && k < |s| == |t|
    requires s[k] > t[k] && forall j :: k < j < |s| ==> s[j] == t[j]
    ensures Val(s, BASE) > Val(t, BASE)
  {
    var p := Pow(BASE, k);
    Split(s, k);
    Split(t, k);
    assert s[k + 1..] == t[k + 1..];
    ValBound(s[..k], BASE);
    ValBound(t[..k], BASE);
    MulMonotone(t[k] + 1, s[k], p);
    assert (t[k] + 1) * p == t[k] * p + p;
  }

  lemma Split(s: seq<int>, k: nat)
    requires k < |s|
    ensures Val(s, BASE) == Val(s[..k], BASE) + s[k] * Pow(BASE, k) + Pow(BASE, k + 1) * Val(s[k + 1..], BASE)
  {
    assert s == s[..k + 1] + s[k + 1..];
    ValAppend(s[..k + 1], s[k + 1..], BASE);
    assert s[..k + 1] == s[..k] + [s[k]];
    ValSnoc(s[..k], s[k], BASE);
  }

  lemma LongerIsLarger(s: seq<int>, t: seq<int>)
    requires Digits(s, BASE) && Digits(t, BASE) && |s| > |t| && s[|s| - 1] > 0
    ensures Val(s, BASE) > Val(t, BASE)
  {
    ValTop(s, BASE);
    ValBound(t, BASE);
    PowMonotone(BASE, |t|, |s| - 1);
  }

  function Sign(x: int): int { if x > 0 then 1 else if x < 0 then -1 else 0 }

  method CmpMag(a: MpInt, b: MpInt) returns (r: int)
    requires a.Clamped() && b.Clamped()
    ensures r == Sign(a.Mag() - b.Mag())
  {
    ghost var s, t := a.dp[..a.used], b.dp[..b.used];
    if a.used > b.used { LongerIsLarger(s, t); return 1; }
    if a.used < b.used { LongerIsLarger(t, s); return -1; }
    var i := a.used - 1;
    while i >= 0
      invariant -1 <= i < a.used
      invariant forall j :: i < j < |s| ==> s[j] == t[j]
    {
      if a.dp[i] > b.dp[i] { ValOrder(s, t, i); return 1; }
      if a.dp[i] < b.dp[i] { ValOrder(t, s, i); return -1; }
      i := i - 1;
    }
    assert s == t;
    return 0;
  }

  method Cmp(a: MpInt, b: MpInt) returns (r: int)
    requires a.Clamped() && b.Clamped()
    ensures r == Sign(a.Value() - b.Value())
  {
    ValBound(a.dp[..a.used], BASE);
    ValBound(b.dp[..b.used], BASE);
    if a.used > 0 { LongerIsLarger(a.dp[..a.used], []); }
    if b.used > 0 { LongerIsLarger(b.dp[..b.used], []); }
    if a.sign != b.sign {
      return if a.sign == 1 then -1 else 1;
    }
    if a.sign == 1 {
      r := CmpMag(b, a);
    } else {
      r := CmpMag(a, b);
    }
  }

  /** The two loops of `s_mp_add`, run as one: past its end the shorter operand adds nothing. */
  method AddDigits(x: array<word>, nx: nat, y: array<word>, ny: nat, c: array<word>)
    returns (carry: word, ghost q: seq<int>)
    requires ny <= nx < c.Length && nx <= x.Length && ny <= y.Length
    requires Digits(x[..nx], BASE) && Digits(y[..ny], BASE)
    modifies c
    ensures Propagated(c[..nx], q, Sums(old(x[..nx]), old(y[..ny]), false))
    ensures carry == q[nx] <= 1
  {
    ghost var xs, ys := x[..nx], y[..ny];
    ghost var ts := Sums(xs, ys, false);
    carry, q := 0, [0];
    var i := 0;
    while i < nx
      invariant 0 <= i <= nx && Propagated(c[..i], q, ts) && carry == q[i] <= 1
      invariant forall k :: i <= k < nx ==> x[k] == xs[k]
      invariant forall k :: i <= k < ny ==> y[k] == ys[k]
    {
      assert xs[i] < BASE && (i < ny ==> ys[i] < BASE) && (i >= ny ==> ts[i] == xs[i]);
      var t := if i < ny then x[i] + y[i] + carry else x[i] + carry;
      c[i] := t % BASE;
      carry := t / BASE;
      q := q + [carry];
      i := i + 1;
    }
  }

  /** The two loops of `s_mp_sub`, run as one. */
  method SubDigits(x: array<word>, nx: nat, y: array<word>, ny: nat, c: array<word>)
    returns (borrow: word, ghost q: seq<int>)
    requires ny <= nx <= c.Length && nx <= x.Length && ny <= y.Length
    requires Digits(x[..nx], BASE) && Digits(y[..ny], BASE)
    modifies c
    ensures Propagated(c[..nx], q, Sums(old(x[..nx]), old(y[..ny]), true))
    ensures 0 - borrow == q[nx] && borrow <= 1
  {
    ghost var xs, ys := x[..nx], y[..ny];
    ghost var ts := Sums(xs, ys, true);
    borrow, q := 0, [0];
    var i := 0;
    while i < nx
      invariant 0 <= i <= nx && Propagated(c[..i], q, ts) && 0 - borrow == q[i] && borrow <= 1
      invariant forall k :: i <= k < nx ==> x[k] == xs[k]
      invariant forall k :: i <= k < ny ==> y[k] == ys[k]
    {
      assert xs[i] < BASE && (i < ny ==> ys[i] < BASE) && (i >= ny ==> ts[i] == xs[i]);
      c[i], borrow := SubStep(if i < ny then x[i] - y[i] - borrow else x[i] - borrow);
      q := q + [0 - borrow];
      i := i + 1;
    }
  }

  /** One difference in 64-bit arithmetic: its low 28 bits, and its sign bit as the borrow. */
  method SubStep(d: int) returns (digit: word, borrow: word)
    requires -BASE <= d < BASE
    ensures digit - BASE * borrow == d && digit < BASE && borrow <= 1
  {
    var t := d % 0x1_0000_0000_0000_0000;
    digit := t % BASE;
    borrow := if t >= 0x8000_0000_0000_0000 then 1 else 0;
  }

  lemma SumDigits(cs: seq<int>, carry: int, q: seq<int>, xs: seq<int>, ys: seq<int>)
    requires |ys| <= |xs| == |cs| && Propagated(cs, q, Sums(xs, ys, false)) && 0 <= carry < BASE && q[|cs|] == carry
    ensures Digits(cs + [carry], BASE) && Val(cs + [carry], BASE) == Val(xs, BASE) + Val(ys, BASE)
  {
    var ts := Sums(xs, ys, false);
    PropagatedValue(cs, q, ts);
    assert ts[..|cs|] == ts;
    SumsValue(xs, ys, ts, false);
    ValSnoc(cs, carry, BASE);
  }

  lemma OneOrZero(o: int, p: int)
    requires -1 <= o <= 0
    ensures o * p == if o == 0 then 0 else -p
  {}

  lemma DifferenceDigits(cs: seq<int>, q: seq<int>, xs: seq<int>, ys: seq<int>)
    requires |ys| <= |xs| == |cs| && Propagated(cs, q, Sums(xs, ys, true)) && -1 <= q[|cs|] <= 0
    requires Val(xs, BASE) >= Val(ys, BASE)
    ensures Digits(cs, BASE) && Val(cs, BASE) == Val(xs, BASE) - Val(ys, BASE)
  {
    DifferenceColumns(cs, q, xs, ys);
    ValBound(cs, BASE);
    OneOrZero(q[|cs|], Pow(BASE, |cs|));
  }

  lemma DifferenceColumns(cs: seq<int>, q: seq<int>, xs: seq<int>, ys: seq<int>)
    requires |ys| <= |xs| == |cs| && Propagated(cs, q, Sums(xs, ys, true))
    ensures Digits(cs, BASE) && Val(cs, BASE) + q[|cs|] * Pow(BASE, |cs|) == Val(xs, BASE) - Val(ys, BASE)
  {
    var ts := Sums(xs, ys, true);
    PropagatedValue(cs, q, ts);
    assert ts[..|cs|] == ts;
    SumsValue(xs, ys, ts, true);
  }

  method StoreSum(x: array<word>, nx: nat, y: array<word>, ny: nat, c: array<word>)
    requires ny <= nx < c.Length && nx <= x.Length && ny <= y.Length
    requires Digits(x[..nx], BASE) && Digits(y[..ny], BASE)
    modifies c
    ensures Digits(c[..nx + 1], BASE)
    ensures Val(c[..nx + 1], BASE) == Val(old(x[..nx]), BASE) + Val(old(y[..ny]), BASE)
  {
    var carry, q := AddDigits(x, nx, y, ny, c);
    SumDigits(c[..nx], carry, q, old(x[..nx]), old(y[..ny]));
    ghost var cs := c[..nx];
    c[nx] := carry;
    assert c[..nx + 1] == cs + [carry];
  }

  /** `s_mp_add`: the sum of the magnitudes. The sign of `c` is the caller's business. */
  method SAdd(a: MpInt, b: MpInt, c: MpInt) returns (ret: int)
    requires a.Ok() && b.Ok() && c.Shape() && Apart(a, b) && Apart(a, c) && Apart(b, c)
    requires a.used < MAX_DIGITS && b.used < MAX_DIGITS
    modifies c, c.dp
    ensures ret == 0 || ret == -1
    ensures c.dp == old(c.dp) || fresh(c.dp)
    ensures ret == 0 ==> c.Ok() && c.Mag() == old(a.Mag()) + old(b.Mag())
    ensures ret == 0 ==> (c.used > 0 ==> c.dp[c.used - 1] > 0) && c.sign == if c.used == 0 then 0 else old(c.sign)
  {
    if a.used >= b.used {
      ret := SAddOrdered(a, b, c);
    } else {
      ret := SAddOrdered(b, a, c);
    }
  }

  method SAddOrdered(x: MpInt, y: MpInt, c: MpInt) returns (ret: int)
    requires x.Ok() && y.Ok() && c.Shape() && Apart(x, y) && Apart(x, c) && Apart(y, c)
    requires y.used <= x.used < MAX_DIGITS
    modifies c, c.dp
    ensures ret == 0 || ret == -1
    ensures c.dp == old(c.dp) || fresh(c.dp)
    ensures ret == 0 ==> c.Ok() && c.Mag() == old(x.Mag()) + old(y.Mag())
    ensures ret == 0 ==> (c.used > 0 ==> c.dp[c.used - 1] > 0) && c.sign == if c.used == 0 then 0 else old(c.sign)
  {
    ghost var xs, ys := x.dp[..x.used], y.dp[..y.used];
    ret := c.Grow(x.used + 1);
    if ret != 0 { return; }
    var n, m := x.used, y.used;
    assert x.dp[..n] == xs && y.dp[..m] == ys;
    StoreSum(x.dp, n, y.dp, m, c.dp);
    c.SetUsed(n + 1);
    return 0;
  }

  /** `s_mp_sub`: the difference of the magnitudes, the first being the larger. */
  method SSub(a: MpInt, b: MpInt, c: MpInt) returns (ret: int)
    requires a.Ok() && b.Ok() && c.Shape() && Apart(a, b) && Apart(a, c) && Apart(b, c)
    requires a.Mag() >= b.Mag() && a.used >= b.used
    modifies c, c.dp
    ensures ret == 0 || ret == -1
    ensures c.dp == old(c.dp) || fresh(c.dp)
    ensures ret == 0 ==> c.Ok() && c.Mag() == old(a.Mag()) - old(b.Mag())
    ensures ret == 0 ==> (c.used > 0 ==> c.dp[c.used - 1] > 0) && c.sign == if c.used == 0 then 0 else old(c.sign)
  {
    ghost var xs, ys := a.dp[..a.used], b.dp[..b.used];
    ret := c.Grow(a.used);
    if ret != 0 { return; }
    var n, m := a.used, b.used;
    assert a.dp[..n] == xs && b.dp[..m] == ys;
    var borrow, q := SubDigits(a.dp, n, b.dp, m, c.dp);
    DifferenceDigits(c.dp[..n], q, xs, ys);
    c.SetUsed(n);
    return 0;
  }

  /** A larger clamped magnitude has at least as many digits. */
  lemma LargerIsLonger(a: MpInt, b: MpInt)
    requires a.Clamped() && b.Clamped() && a.Mag() >= b.Mag()
    ensures a.used >= b.used
  {
    if a.used < b.used { LongerIsLarger(b.dp[..b.used], a.dp[..a.used]); }
  }

  /** The compare-and-subtract tail shared by `mp_add` and `mp_sub`: the smaller magnitude
  is taken from the larger, and the outcome selects the sign. */
  method SubLarger(a: MpInt, b: MpInt, c: MpInt, whenGe: int, whenLt: int) returns (ret: int)
    requires a.Clamped() && b.Clamped() && c.Shape() && Apart(a, b) && Apart(a, c) && Apart(b, c)
    modifies c, c.dp
    ensures ret == 0 || ret == -1
    ensures ret == 0 ==> c.Ok() && (c.used > 0 ==> c.dp[c.used - 1] > 0)
    ensures ret == 0 ==> c.Mag() == Abs(old(a.Mag()) - old(b.Mag()))
    ensures ret == 0 ==> c.sign == if c.used == 0 then 0 else if old(a.Mag()) >= old(b.Mag()) then whenGe else whenLt
    ensures c.dp == old(c.dp) || fresh(c.dp)
  {
    var r := CmpMag(a, b);
    if r >= 0 {
      LargerIsLonger(a, b);
      c.sign := whenGe;
      ret := SSub(a, b, c);
    } else {
      LargerIsLonger(b, a);
      c.sign := whenLt;
      ret := SSub(b, a, c);
    }
  }

  function Abs(x: int): int { if x < 0 then -x else x }

  method Sub(a: MpInt, b: MpInt, c: MpInt) returns (ret: int)
    requires a.Clamped() && b.Clamped() && c.Shape() && Apart(a, b) && Apart(a, c) && Apart(b, c)
    requires a.used < MAX_DIGITS && b.used < MAX_DIGITS
    modifies c, c.dp
    ensures ret == 0 || ret == -1
    ensures ret == 0 ==> c.Clamped() && c.Value() == old(a.Value()) - old(b.Value())
    ensures c.dp == old(c.dp) || fresh(c.dp)
  {
    if a.sign != b.sign {
      c.sign := a.sign;
      ret := SAdd(a, b, c);
    } else {
      ret := SubLarger(a, b, c, a.sign, if a.sign == 0 then 1 else 0);
    }
  }

  method Add(a: MpInt, b: MpInt, c: MpInt) returns (ret: int)
    requires a.Clamped() && b.Clamped() && c.Shape() && Apart(a, b) && Apart(a, c) && Apart(b, c)
    requires a.used < MAX_DIGITS && b.used < MAX_DIGITS
    modifies c, c.dp
    ensures ret == 0 || ret == -1
    ensures ret == 0 ==> c.Clamped() && c.Value() == old(a.Value()) + old(b.Value())
    ensures c.dp == old(c.dp) || fresh(c.dp)
  {
    if a.sign == b.sign {
      c.sign := a.sign;
      ret := SAdd(a, b, c);
    } else {
      ret := SubLarger(a, b, c, a.sign, b.sign);
    }
  }
}
