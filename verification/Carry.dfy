/** Carry propagation: the one pass every digit loop of the bignum code makes.

A loop forms one column `ts[i]` after another (a sum, a difference, a product), adds the
carry, keeps the low 28 bits and hands the rest on. A borrow is a negative carry. */
module Carry {
  import opened Positional
  import opened Bignum

  /** Digits `c` and carries `q` (one more than digits, the first zero) of the columns `ts`. */
  ghost predicate Propagated(c: seq<int>, q: seq<int>, ts: seq<int>)
  {
    && |c| <= |ts| && |q| == |c| + 1 && q[0] == 0
    && forall k :: 0 <= k < |c| ==> c[k] + BASE * q[k + 1] == ts[k] + q[k] && 0 <= c[k] < BASE
  }

  /** Propagation keeps the value: the digits and the final carry are worth the columns. */
  lemma {:induction false} PropagatedValue(c: seq<int>, q: seq<int>, ts: seq<int>)
    requires Propagated(c, q, ts)
    ensures Digits(c, BASE)
    ensures Val(c, BASE) + q[|c|] * Pow(BASE, |c|) == Val(ts[..|c|], BASE)
  {
    if c != [] {
      var n := |c| - 1;
      PropagatedValue(c[..n], q[..n + 1], ts);
      assert c == c[..n] + [c[n]] && ts[..|c|] == ts[..n] + [ts[n]];
      ValSnoc(c[..n], c[n], BASE);
      ValSnoc(ts[..n], ts[n], BASE);
      Distribute(c[n], q[n + 1], ts[n], q[n], Pow(BASE, n));
    }
  }

  lemma Distribute(d: int, out: int, t: int, in_: int, p: int)
    requires d + BASE * out == t + in_
    ensures d * p + out * (BASE * p) == t * p + in_ * p
  {
    MulAssoc(out, BASE, p);
    assert (d + BASE * out) * p == (t + in_) * p;
  }

  /** Columns of a digitwise sum, or difference, of `xs` and a shorter `ys`. */
  function Sums(xs: seq<int>, ys: seq<int>, minus: bool): (ts: seq<int>)
    requires |ys| <= |xs|
    ensures |ts| == |xs|
    ensures forall k :: 0 <= k < |ys| ==> ts[k] == if minus then xs[k] - ys[k] else xs[k] + ys[k]
    ensures forall k :: |ys| <= k < |xs| ==> ts[k] == xs[k]
  {
    seq(|xs|, k requires 0 <= k < |xs| =>
      if k >= |ys| then xs[k] else if minus then xs[k] - ys[k] else xs[k] + ys[k])
  }

  lemma {:induction false} SumsValue(xs: seq<int>, ys: seq<int>, ts: seq<int>, minus: bool)
    requires |ys| <= |xs| == |ts|
    requires forall k :: 0 <= k < |ys| ==> ts[k] == if minus then xs[k] - ys[k] else xs[k] + ys[k]
    requires forall k :: |ys| <= k < |xs| ==> ts[k] == xs[k]
    ensures Val(ts, BASE) == if minus then Val(xs, BASE) - Val(ys, BASE) else Val(xs, BASE) + Val(ys, BASE)
  {
    if ys == [] {
      assert ts == xs;
    } else {
      SumsValue(xs[1..], ys[1..], ts[1..], minus);
    }
  }
}
