/** Schoolbook multiplication, truncated to a number of digits, and the signed product. */
module BignumMul {
  import opened Words
  import opened Positional
  import opened Bignum
  import opened Carry

  /** One inner step of the multiply loops in 64-bit arithmetic. Nothing is lost: the sum
  stays below 2^56 and the carry below 2^28. */
  method MulStep(x: word, y: word, t: word, carry: word) returns (digit: word, out: word)
    requires x < BASE && y < BASE && t < BASE && carry < BASE
    ensures digit + BASE * out == x * y + t + carry
    ensures digit < BASE && out < BASE
  {
    MulMonotone(x, BASE - 1, y);
    MulMonotone(y, BASE - 1, BASE - 1);
    MulMonotone(0, x, y);
    ghost var exact := x * y + t + carry;
    var prod := (x * y + t + carry) % 0x1_0000_0000_0000_0000;
    assert prod == exact < 0x100_0000_0000_0000;
    digit := prod % BASE;
    out := prod / BASE;
  }

  /** Columns of one row: a digit times `bs`, on top of what is already there. */
  function Products(d: int, bs: seq<int>, ms: seq<int>): (ts: seq<int>)
    requires |bs| == |ms|
    ensures |ts| == |bs| && forall k :: 0 <= k < |bs| ==> ts[k] == d * bs[k] + ms[k]
  {
    seq(|bs|, k requires 0 <= k < |bs| => d * bs[k] + ms[k])
  }

  lemma {:induction false} ProductsValue(d: int, bs: seq<int>, ms: seq<int>)
    requires |bs| == |ms|
    ensures Val(Products(d, bs, ms), BASE) == d * Val(bs, BASE) + Val(ms, BASE)
  {
    if bs != [] {
      ProductsValue(d, bs[1..], ms[1..]);
      assert Products(d, bs, ms)[1..] == Products(d, bs[1..], ms[1..]);
      Regroup2(d, bs[0], Val(bs[1..], BASE));
    }
  }

  lemma Regroup2(d: int, b0: int, v: int)
    ensures d * (b0 + BASE * v) == d * b0 + BASE * (d * v)
  {}

  /** The inner loop: adds `d` times `b[..limit]` into `t` at position `i`. */
  method MulRow(t: array<word>, i: nat, d: word, b: array<word>, limit: nat) returns (carry: word)
    requires t != b && i + limit <= t.Length && limit <= b.Length && d < BASE
    requires Digits(t[i..i + limit], BASE) && Digits(b[..limit], BASE)
    modifies t
    ensures carry < BASE && Digits(t[i..i + limit], BASE)
    ensures forall k :: 0 <= k < i || i + limit <= k < t.Length ==> t[k] == old(t[k])
    ensures Val(t[i..i + limit], BASE) + carry * Pow(BASE, limit)
         == d * Val(b[..limit], BASE) + Val(old(t[i..i + limit]), BASE)
  {
    ghost var bs, ms := b[..limit], t[i..i + limit];
    ghost var ts := Products(d, bs, ms);
    ghost var q := [0];
    carry := 0;
    var j := 0;
    while j < limit
      invariant 0 <= j <= limit && carry < BASE
      invariant Propagated(t[i..i + j], q, ts) && q[j] == carry
      invariant forall k :: 0 <= k < i || i + j <= k < t.Length ==> t[k] == old(t[k])
    {
      assert bs[j] < BASE && ms[j] < BASE;
      t[i + j], carry := MulStep(d, b[j], t[i + j], carry);
      q := q + [carry];
      j := j + 1;
    }
    RowTotal(t[i..i + limit], q, d, bs, ms);
  }

  lemma RowTotal(c: seq<int>, q: seq<int>, d: int, bs: seq<int>, ms: seq<int>)
    requires |bs| == |ms| == |c| && Propagated(c, q, Products(d, bs, ms))
    ensures Digits(c, BASE) && Val(c, BASE) + q[|c|] * Pow(BASE, |c|) == d * Val(bs, BASE) + Val(ms, BASE)
  {
    var ts := Products(d, bs, ms);
    PropagatedValue(c, q, ts);
    assert ts[..|c|] == ts;
    ProductsValue(d, bs, ms);
  }

  /** A row that ends below the cut: its carry lands on a digit that was still zero. */
  lemma RowKept(p: seq<int>, m: seq<int>, m': seq<int>, r: seq<int>, carry: int, d: int, bs: seq<int>)
    requires |m| == |m'| && r != [] && r[0] == 0
    requires Val(m', BASE) + carry * Pow(BASE, |m|) == d * Val(bs, BASE) + Val(m, BASE)
    ensures Val(p + (m' + r[0 := carry]), BASE) == Val(p + (m + r), BASE) + Pow(BASE, |p|) * (d * Val(bs, BASE))
  {
    ValThree(p, m, r, BASE);
    ValThree(p, m', r[0 := carry], BASE);
    ValUpdate(r, 0, carry, BASE);
    RowFits(Val(p, BASE), Pow(BASE, |p|), Pow(BASE, |m|), Val(m, BASE), Val(m', BASE), Val(r, BASE), carry,
        d * Val(bs, BASE));
  }

  /** A row that reaches the cut: what is dropped is a multiple of the modulus. */
  lemma RowTruncated(p: seq<int>, m: seq<int>, m': seq<int>, carry: int, d: int, lo: seq<int>, hi: seq<int>)
    returns (k: int)
    requires |m| == |m'| == |lo|
    requires Val(m', BASE) + carry * Pow(BASE, |m|) == d * Val(lo, BASE) + Val(m, BASE)
    ensures Val(p + m', BASE)
         == Val(p + m, BASE) + Pow(BASE, |p|) * (d * Val(lo + hi, BASE)) - k * Pow(BASE, |p| + |m|)
  {
    ValAppend(p, m, BASE);
    ValAppend(p, m', BASE);
    ValAppend(lo, hi, BASE);
    PowAdd(BASE, |p|, |m|);
    k := carry + d * Val(hi, BASE);
    RowCut(Val(p, BASE), Pow(BASE, |p|), Pow(BASE, |m|), Val(m, BASE), Val(m', BASE), carry, d, Val(lo, BASE),
        Val(hi, BASE));
  }

  lemma RowFits(p: int, pi: int, pl: int, m: int, m': int, r: int, carry: int, db: int)
    requires m' + carry * pl == db + m
    ensures p + pi * (m' + pl * (r + carry)) == p + pi * (m + pl * r) + pi * db
  {
    assert pl * (r + carry) == pl * r + carry * pl;
    assert m' + pl * (r + carry) == m + pl * r + db;
  }

  lemma RowCut(p: int, pi: int, pl: int, m: int, m': int, carry: int, d: int, lo: int, hi: int)
    requires m' + carry * pl == d * lo + m
    ensures p + pi * m' == p + pi * m + pi * (d * (lo + pl * hi)) - (carry + d * hi) * (pi * pl)
  {
    assert d * (lo + pl * hi) == d * lo + d * hi * pl;
    assert m' == m + d * (lo + pl * hi) - (carry + d * hi) * pl;
    assert pi * ((carry + d * hi) * pl) == (carry + d * hi) * (pi * pl);
  }

  lemma DigitsParts(s: seq<int>, t: seq<int>)
    ensures Digits(s + t, BASE) <==> Digits(s, BASE) && Digits(t, BASE)
  {
    assert forall i :: 0 <= i < |s| ==> (s + t)[i] == s[i];
    assert forall i :: 0 <= i < |t| ==> (s + t)[|s| + i] == t[i];
  }

  /** One pass of the outer loop whose carry still fits below the cut. */
  method AddRowKept(t: array<word>, digs: nat, i: nat, d: word, b: array<word>, nb: nat)
    requires t != b && digs <= t.Length && nb <= b.Length && d < BASE && i + nb < digs
    requires Digits(t[..digs], BASE) && Digits(b[..nb], BASE)
    requires forall j :: i + nb <= j < digs ==> t[j] == 0
    modifies t
    ensures Digits(t[..digs], BASE)
    ensures forall j :: i + 1 + nb <= j < digs ==> t[j] == 0
    ensures Val(t[..digs], BASE) == Val(old(t[..digs]), BASE) + Pow(BASE, i) * (d * Val(b[..nb], BASE))
  {
    ghost var before := t[..digs];
    assert Digits(before[i..i + nb], BASE) && before[i..i + nb] == t[i..i + nb];
    var carry := MulRow(t, i, d, b, nb);
    ghost var after := t[..digs];
    assert after[i..i + nb] == t[i..i + nb];
    assert forall k :: 0 <= k < i || i + nb <= k < digs ==> after[k] == before[k];
    t[i + nb] := carry;
    assert t[..digs] == after[i + nb := carry];
    KeptRow(before, after, i, nb, carry, d, b[..nb]);
  }

  /** The carry of a row goes to the digit behind it. */
  lemma KeptRow(s: seq<int>, s': seq<int>, i: nat, nb: nat, carry: int, d: int, bs: seq<int>)
    requires i + nb < |s| == |s'| && Digits(s, BASE) && s[i + nb] == 0 && 0 <= carry < BASE
    requires (forall k :: 0 <= k < i || i + nb <= k < |s| ==> s'[k] == s[k]) && Digits(s'[i..i + nb], BASE)
    requires Val(s'[i..i + nb], BASE) + carry * Pow(BASE, nb) == d * Val(bs, BASE) + Val(s[i..i + nb], BASE)
    ensures Digits(s'[i + nb := carry], BASE)
    ensures Val(s'[i + nb := carry], BASE) == Val(s, BASE) + Pow(BASE, i) * (d * Val(bs, BASE))
  {
    var p, m, m', r := s[..i], s[i..i + nb], s'[i..i + nb], s[i + nb..];
    assert s == p + (m + r);
    assert s'[i + nb := carry] == p + (m' + r[0 := carry]);
    DigitsParts(p, m + r);
    DigitsParts(m, r);
    DigitsParts(p, m' + r[0 := carry]);
    DigitsParts(m', r[0 := carry]);
    RowKept(p, m, m', r, carry, d, bs);
  }

  /** One pass of the outer loop that is cut short, and loses its carry. */
  method AddRowTruncated(t: array<word>, digs: nat, i: nat, d: word, b: array<word>, nb: nat) returns (ghost k: int)
    requires t != b && digs <= t.Length && nb <= b.Length && d < BASE && i < digs <= i + nb
    requires Digits(t[..digs], BASE) && Digits(b[..nb], BASE)
    modifies t
    ensures Digits(t[..digs], BASE)
    ensures Val(t[..digs], BASE)
         == Val(old(t[..digs]), BASE) + Pow(BASE, i) * (d * Val(b[..nb], BASE)) - k * Pow(BASE, digs)
  {
    var limit := digs - i;
    ghost var p, m := t[..i], t[i..i + limit];
    ghost var lo, hi := b[..limit], b[limit..nb];
    assert t[..digs] == p + m && b[..nb] == lo + hi;
    DigitsParts(p, m);
    DigitsParts(lo, hi);
    var carry := MulRow(t, i, d, b, limit);
    ghost var m' := t[i..i + limit];
    assert t[..digs] == p + m';
    DigitsParts(p, m');
    k := RowTruncated(p, m, m', carry, d, lo, hi);
  }

  lemma RowSkipped(i: nat, digs: nat, d: int, v: int) returns (k: int)
    requires digs <= i
    ensures Pow(BASE, i) * (d * v) == k * Pow(BASE, digs)
  {
    PowAdd(BASE, i - digs, digs);
    k := Pow(BASE, i - digs) * (d * v);
  }

  lemma OuterStep(t: int, t': int, va: int, vb: int, d: int, p: int, m: int, k: int, k': int)
    requires t == va * vb - k * m && t' == t + p * (d * vb) - k' * m
    ensures t' == (va + d * p) * vb - (k + k') * m
  {
    assert p * (d * vb) == d * p * vb;
  }

  /** The product of the digit strings, modulo the cut: what either multiply loop leaves in `t`. */
  ghost predicate Product(t: seq<int>, a: seq<int>, b: seq<int>)
  {
    Digits(t, BASE) && (PowPositive(BASE, |t|); Val(t, BASE) == (Val(a, BASE) * Val(b, BASE)) % Pow(BASE, |t|))
  }

  lemma ProductIs(t: seq<int>, a: seq<int>, b: seq<int>, k: int)
    requires Digits(t, BASE) && Val(t, BASE) == Val(a, BASE) * Val(b, BASE) - k * Pow(BASE, |t|)
    ensures Product(t, a, b)
  {
    ValBound(t, BASE);
    DivModUnique(Val(a, BASE) * Val(b, BASE), Pow(BASE, |t|), k, Val(t, BASE));
  }

  /** The loop of `s_mp_mul_digs`, and of the long path of `rsa_process`, which also skips
  the rows that have no digit to add (`skipEmpty`). */
  method MulLoop(t: array<word>, digs: nat, a: array<word>, na: nat, b: array<word>, nb: nat, skipEmpty: bool)
    requires t != a && t != b && digs <= t.Length && na <= a.Length && nb <= b.Length
    requires Digits(a[..na], BASE) && Digits(b[..nb], BASE)
    requires forall j :: 0 <= j < digs ==> t[j] == 0
    modifies t
    ensures Product(t[..digs], a[..na], b[..nb])
  {
    ghost var k := 0;
    ValZeros(t[..digs], BASE);
    var i := 0;
    while i < na
      invariant 0 <= i <= na && Digits(t[..digs], BASE)
      invariant forall j :: i + nb <= j < digs ==> t[j] == 0
      invariant Val(t[..digs], BASE) == Val(a[..i], BASE) * Val(b[..nb], BASE) - k * Pow(BASE, digs)
    {
      ghost var before := Val(t[..digs], BASE);
      ghost var k';
      assert a[..i + 1] == a[..i] + [a[i]];
      ValSnoc(a[..i], a[i], BASE);
      assert a[i] == a[..na][i];
      if i >= digs {
        k' := RowSkipped(i, digs, a[i], Val(b[..nb], BASE));
      } else if nb == 0 && skipEmpty {
        k' := 0;
      } else if i + nb < digs {
        AddRowKept(t, digs, i, a[i], b, nb);
        k' := 0;
      } else {
        k' := AddRowTruncated(t, digs, i, a[i], b, nb);
      }
      OuterStep(before, Val(t[..digs], BASE), Val(a[..i], BASE), Val(b[..nb], BASE), a[i], Pow(BASE, i),
          Pow(BASE, digs), k, k');
      k := k + k';
      i := i + 1;
    }
    assert a[..na] == a[..i];
    ProductIs(t[..digs], a[..na], b[..nb], k);
  }

  /** The magnitude a multiply truncated to `digs` digits must leave in its result. */
  ghost function Truncated(n: int, digs: nat): int
  {
    PowPositive(BASE, digs);
    n % Pow(BASE, digs)
  }

  /** `c` takes over the contents of `tmp`; the storage of `c` goes with `tmp` and is freed. */
  method Exchange(c: MpInt, tmp: MpInt)
    requires c != tmp && tmp.Ok()
    modifies c
    ensures c.used == tmp.used && c.alloc == tmp.alloc && c.sign == tmp.sign && c.dp == tmp.dp
  {
    c.used, c.alloc, c.sign, c.dp := tmp.used, tmp.alloc, tmp.sign, tmp.dp;
  }

  method SMulDigs(a: MpInt, b: MpInt, c: MpInt, digs: int) returns (ret: int)
    requires a.Ok() && b.Ok() && 0 <= digs <= MAX_DIGITS
    modifies c
    ensures ret == 0 || ret == -1
    ensures ret == 0 ==> c.Ok() && fresh(c.dp) && c.Mag() == Truncated(old(a.Mag()) * old(b.Mag()), digs)
    ensures ret == 0 ==> c.sign == 0 && (c.used > 0 ==> c.dp[c.used - 1] > 0)
    ensures ret != 0 ==> unchanged(c)
  {
    if * { return -1; }
    var tmp := new MpInt(8);
    ret := tmp.Grow(digs);
    if ret != 0 { return; }
    MulLoop(tmp.dp, digs, a.dp, a.used, b.dp, b.used, false);
    tmp.SetUsed(digs);
    Exchange(c, tmp);
  }

  /** `rsa_init`: room for `size` digits, rounded to a multiple of eight, and sixteen more. A
  negative size loses all but its low three bits, and gives 8 or 16 digits. A capacity that wraps
  16 bits asks for almost 4 GB, which `malloc` does not have. */
  method RsaInit(size: int) returns (ret: int, tmp: MpInt?)
    requires -0x8000 <= size <= 0x7FFF
    ensures ret == 0 || ret == -2
    ensures size + 16 > MAX_DIGITS ==> ret == -2
    ensures ret == 0 ==> tmp != null && fresh(tmp) && fresh(tmp.dp) && tmp.Shape() && tmp.used == 0 && tmp.sign == 0
    ensures ret == 0 ==> size <= tmp.alloc && forall k :: 0 <= k < tmp.alloc ==> tmp.dp[k] == 0
    ensures ret == 0 ==> tmp.alloc == if size >= 0 then size / 8 * 8 + 16 else if size % 8 == 0 then 16 else 8
  {
    var low := if size < 0 then (size - 1) % 8 - 8 + 1 else size;  // (size - 1) | -8, and 1 more
    var alloc := Int16(low - low % 8 + 16);
    if alloc < 0 { return -2, null; }
    if * { return -2, null; }
    tmp := new MpInt(alloc);
    ret := 0;
  }

  predicate ShortPath(na: int, nb: int, digs: int)
  {
    digs < 512 && (if na < nb then na else nb) < 256
  }

  /** The long path stores `digs` in the sign field of the result, as the source does. */
  method RsaProcess(a: MpInt, b: MpInt, c: MpInt, digs: int) returns (ret: int)
    requires a.Ok() && b.Ok() && 0 <= digs && digs + 16 <= MAX_DIGITS
    modifies c
    ensures ret == 0 || ret == -1 || ret == -2
    ensures ret == 0 ==> c.Ok() && fresh(c.dp) && c.Mag() == Truncated(old(a.Mag()) * old(b.Mag()), digs)
    ensures ret == 0 ==> (c.used > 0 ==> c.dp[c.used - 1] > 0)
    ensures ret == 0 ==> c.sign == if ShortPath(old(a.used), old(b.used), digs) then 0 else digs
    ensures ret != 0 ==> unchanged(c)
  {
    if ShortPath(a.used, b.used, digs) {
      ret := SMulDigs(a, b, c, digs);
      return;
    }
    var tmp;
    ret, tmp := RsaInit(digs);
    if ret != 0 { return; }
    MulLoop(tmp.dp, digs, a.dp, a.used, b.dp, b.used, true);
    tmp.SetUsed(digs);
    tmp.sign := digs;
    Exchange(c, tmp);
  }

  lemma ProductFits(s: seq<int>, t: seq<int>, digs: nat)
    requires Digits(s, BASE) && Digits(t, BASE) && digs == |s| + |t| + 1
    ensures Truncated(Val(s, BASE) * Val(t, BASE), digs) == Val(s, BASE) * Val(t, BASE)
  {
    var v, w := Val(s, BASE), Val(t, BASE);
    ValBound(s, BASE);
    ValBound(t, BASE);
    MulMonotone(v, Pow(BASE, |s|), w);
    MulMonotone(w, Pow(BASE, |t|), Pow(BASE, |s|));
    MulMonotone(0, v, w);
    PowAdd(BASE, |s|, |t|);
    PowPositive(BASE, digs);
    PowPositive(BASE, digs - 1);
    assert v * w <= Pow(BASE, digs - 1) < Pow(BASE, digs);
    DivModUnique(v * w, Pow(BASE, digs), 0, v * w);
  }

  /** `sha_hash_block`: the exact signed product, also when `c` is `a`, `b` or both. */
  method Mul(a: MpInt, b: MpInt, c: MpInt) returns (ret: int)
    requires a.Clamped() && b.Clamped() && c.Shape() && a.used + b.used + 17 <= MAX_DIGITS
    modifies c
    ensures ret == 0 || ret == -1 || ret == -2
    ensures ret == 0 ==> c.Clamped() && fresh(c.dp) && c.Value() == old(a.Value()) * old(b.Value())
  {
    var digs := a.used + b.used + 1;
    var sign := if a.sign != b.sign then 1 else 0;
    ProductFits(a.dp[..a.used], b.dp[..b.used], digs);
    ghost var x, y, sx, sy := a.Mag(), b.Mag(), a.sign, b.sign;
    ret := RsaProcess(a, b, c, digs);
    if c.used < 1 { sign := 0; }
    c.sign := sign;
    SignedProduct(x, y, sx, sy);
  }

  lemma SignedProduct(x: int, y: int, sx: int, sy: int)
    ensures (if sx == 1 then -x else x) * (if sy == 1 then -y else y)
        == if (sx == 1) != (sy == 1) then -(x * y) else x * y
  {}

  /** One step of the single-digit multiply, whose scalar may use all 32 bits. */
  method ScaleStep(x: word, y: word, carry: word) returns (digit: word, out: word)
    requires y < BASE
    ensures digit + BASE * out == x * y + carry && digit < BASE
  {
    MulMonotone(x, 0xFFFF_FFFF, y);
    MulMonotone(0, x, y);
    var prod := (x * y + carry) % 0x1_0000_0000_0000_0000;
    digit := prod % BASE;
    out := prod / BASE;
  }

  method ScaleDigits(a: array<word>, n: nat, x: word, c: array<word>)
    requires n <= a.Length && n < c.Length && Digits(a[..n], BASE)
    modifies c
    ensures Digits(c[..n], BASE) && Val(c[..n + 1], BASE) == x * Val(old(a[..n]), BASE)
  {
    ghost var xs := a[..n];
    ghost var zs := seq(n, _ => 0);
    ghost var ts := Products(x, xs, zs);
    ghost var q := [0];
    var carry := 0;
    var i := 0;
    while i < n
      invariant 0 <= i <= n && Propagated(c[..i], q, ts) && q[i] == carry
      invariant forall k :: i <= k < n ==> a[k] == xs[k]
    {
      assert xs[i] < BASE && ts[i] == x * xs[i];
      c[i], carry := ScaleStep(x, a[i], carry);
      q := q + [carry];
      i := i + 1;
    }
    ghost var cs := c[..n];
    c[n] := carry;
    assert c[..n + 1] == cs + [carry];
    assert c[..n] == cs;
    ScaledValue(cs, carry, q, x, xs, zs);
  }

  lemma ScaledValue(cs: seq<int>, carry: int, q: seq<int>, x: int, xs: seq<int>, zs: seq<int>)
    requires |xs| == |zs| == |cs| && (forall k :: 0 <= k < |zs| ==> zs[k] == 0)
    requires Propagated(cs, q, Products(x, xs, zs)) && q[|cs|] == carry
    ensures Digits(cs, BASE) && Val(cs + [carry], BASE) == x * Val(xs, BASE)
  {
    var ts := Products(x, xs, zs);
    PropagatedValue(cs, q, ts);
    assert ts[..|cs|] == ts;
    ProductsValue(x, xs, zs);
    ValZeros(zs, BASE);
    ValSnoc(cs, carry, BASE);
  }

  /** A top digit of more than 28 bits shows exactly when the value outgrows the digit count. */
  lemma TopDigitFits(s: seq<int>)
    requires s != [] && Digits(s[..|s| - 1], BASE) && s[|s| - 1] >= 0
    ensures Digits(s, BASE) <==> Val(s, BASE) < Pow(BASE, |s|)
  {
    var n := |s| - 1;
    assert s == s[..n] + [s[n]];
    ValSnoc(s[..n], s[n], BASE);
    ValBound(s[..n], BASE);
    if s[n] < BASE {
      ValBound(s, BASE);
    } else {
      MulMonotone(BASE, s[n], Pow(BASE, n));
    }
  }

  /** `sha_update`: the product with one word. The value is always exact, but with a scalar of
  29 bits or more the top digit can need more than 28 bits: the result is a well-formed
  number exactly when it fits one more digit than `a` has. */
  method MulWord(a: MpInt, x: word, c: MpInt) returns (ret: int)
    requires a.Clamped() && c.Shape() && Apart(a, c) && a.used < MAX_DIGITS
    modifies c, c.dp
    ensures ret == 0 || ret == -1
    ensures old(a.used) < old(c.alloc) ==> ret == 0
    ensures ret == 0 ==> c.Shape() && c.Mag() == x * old(a.Mag()) && (c.used > 0 ==> c.dp[c.used - 1] > 0)
    ensures ret == 0 ==> c.sign == if c.used == 0 then 0 else old(a.sign)
    ensures ret == 0 ==> (c.Ok() <==> x * old(a.Mag()) < Pow(BASE, old(a.used) + 1))
  {
    var n := a.used;
    ghost var xs := a.dp[..n];
    if n >= c.alloc {
      ret := c.Grow(n + 1);
      if ret != 0 { return; }
    }
    c.sign := a.sign;
    if n <= 0 {
      c.used, c.sign := 0, 0;
      assert xs == [];
      PowPositive(BASE, 1);
      return 0;
    }
    assert a.dp[..n] == xs;
    ScaleDigits(a.dp, n, x, c.dp);
    SettleWide(c, n);
    return 0;
  }

  method SettleWide(c: MpInt, n: nat)
    requires c.Shape() && n < c.alloc && Digits(c.dp[..n], BASE)
    modifies c`used, c`sign
    ensures c.Shape() && c.Mag() == Val(c.dp[..n + 1], BASE) && (c.used > 0 ==> c.dp[c.used - 1] > 0)
    ensures c.sign == if c.used == 0 then 0 else old(c.sign)
    ensures c.Ok() <==> Val(c.dp[..n + 1], BASE) < Pow(BASE, n + 1)
  {
    assert c.dp[..n + 1][..n] == c.dp[..n];
    TopDigitFits(c.dp[..n + 1]);
    c.used := n + 1;
    c.Clamp();
    assert c.used <= n ==> forall k :: 0 <= k < c.used ==> c.dp[..c.used][k] == c.dp[..n][k];
    assert c.used <= n ==> c.dp[..n + 1] == c.dp[..n] + [0];
  }

  /** One digit of 28 ones times 32 ones: the top digit comes out wider than 28 bits. */
  method WideTopDigit() returns (c: MpInt)
    ensures c.Shape() && c.Mag() == 0xFFFF_FFFF * 0xFFF_FFFF && !c.Ok()
  {
    var a := new MpInt(1);
    a.dp[0], a.used := 0xFFF_FFFF, 1;
    assert a.dp[..1] == [] + [0xFFF_FFFF];
    ValSnoc([], 0xFFF_FFFF, BASE);
    assert Pow(BASE, 1) == BASE && Pow(BASE, 2) == BASE * Pow(BASE, 1);
    c := new MpInt(8);
    var ret := MulWord(a, 0xFFFF_FFFF, c);
  }
}
