/** Byte strings of bignums: the big-endian reader and writer, and the little-endian
writer that feeds the RSA engine. */
module BignumBytes {
  import opened Words
  import opened Positional
  import opened Bignum
  import opened Carry
  import opened BignumMul
  import opened BignumShift


  /** The number a big-endian byte string stands for. */
  function BigEndian(bs: seq<byte>): nat {
    if bs == [] then 0 else BigEndian(bs[..|bs| - 1]) * 256 + bs[|bs| - 1]
  }

  /** The last `size` bytes of the big-endian form of `n`. */
  function BytesBE(n: nat, size: nat): (bs: seq<byte>)
    ensures |bs| == size
  {
    if size == 0 then [] else BytesBE(n / 256, size - 1) + [n % 256]
  }

  /** The little-endian form of `n` without leading zeros. */
  function BytesLE(n: nat): seq<byte> {
    if n == 0 then [] else [n % 256] + BytesLE(n / 256)
  }

  function Reverse<T>(s: seq<T>): (r: seq<T>)
    ensures |r| == |s| && forall i :: 0 <= i < |s| ==> r[i] == s[|s| - 1 - i]
  {
    seq(|s|, i requires 0 <= i < |s| => s[|s| - 1 - i])
  }

  /** Writing and reading back: nothing is lost while the number fits. */
  lemma {:induction false} ReadWritten(n: nat, size: nat)
    requires n < Pow(256, size)
    ensures BigEndian(BytesBE(n, size)) == n
  {
    if size > 0 {
      DivBelow(n, Pow(256, size - 1));
      ReadWritten(n / 256, size - 1);
      var bs := BytesBE(n, size);
      assert bs[..size - 1] == BytesBE(n / 256, size - 1);
    }
  }

  lemma DivBelow(n: int, p: int)
    requires 0 <= n < 256 * p
    ensures n / 256 < p
  {}

  /** Reading and writing back: a byte string is the form of its number, at its own length. */
  lemma {:induction false} WriteRead(bs: seq<byte>)
    ensures BytesBE(BigEndian(bs), |bs|) == bs && BigEndian(bs) < Pow(256, |bs|)
  {
    if bs != [] {
      var init := bs[..|bs| - 1];
      WriteRead(init);
      DivModUnique(BigEndian(bs), 256, BigEndian(init), bs[|bs| - 1]);
      assert bs == init + [bs[|bs| - 1]];
    }
  }

  /** Leading zero bytes do not count, so the minimal form is the string without them. */
  lemma {:induction false} LeadingZeros(zeros: seq<byte>, bs: seq<byte>)
    requires forall i :: 0 <= i < |zeros| ==> zeros[i] == 0
    ensures BigEndian(zeros + bs) == BigEndian(bs)
  {
    if bs != [] {
      var n := |bs| - 1;
      LeadingZeros(zeros, bs[..n]);
      assert (zeros + bs)[..|zeros| + n] == zeros + bs[..n];
    } else if zeros != [] {
      var n := |zeros| - 1;
      LeadingZeros(zeros[..n], []);
      assert (zeros + bs)[..n] == zeros[..n] + [];
    } else {
      assert zeros + bs == bs;
    }
  }

  /** Little endian is big endian backwards, and the minimal length counts the bits. */
  lemma {:induction false} LittleBig(n: nat)
    ensures BytesBE(n, |BytesLE(n)|) == Reverse(BytesLE(n))
    ensures Val(BytesLE(n), 256) == n
    ensures n > 0 ==> Pow(256, |BytesLE(n)| - 1) <= n
    ensures n < Pow(256, |BytesLE(n)|)
  {
    if n > 0 {
      var rest := BytesLE(n / 256);
      LittleBig(n / 256);
      assert BytesLE(n) == [n % 256] + rest;
      assert ([n % 256] + rest)[1..] == rest;
      assert Reverse([n % 256] + rest) == Reverse(rest) + [n % 256];
    }
  }

  lemma {:induction false} PowStrict(b: nat, j: nat, k: nat)
    requires b > 1 && Pow(b, j) < Pow(b, k)
    ensures j < k
  {
    if k <= j { PowMonotone(b, k, j); }
  }

  /** The byte count computed from the bit count is the length of the minimal form. */
  lemma SizeIsMinimal(n: nat, bits: nat)
    requires BitLength(n, bits)
    ensures (bits + 7) / 8 == |BytesLE(n)|
  {
    if n > 0 {
      LittleBig(n);
      BytesOfBits(n, bits, |BytesLE(n)|);
    }
  }

  lemma BytesOfBits(n: nat, bits: nat, k: nat)
    requires n > 0 && BitLength(n, bits) && k > 0 && Pow(256, k - 1) <= n < Pow(256, k)
    ensures (bits + 7) / 8 == k
  {
    BytePow();
    PowMul(2, 8, k);
    PowMul(2, 8, k - 1);
    PowStrict(2, bits - 1, 8 * k);
    PowStrict(2, 8 * (k - 1), bits);
  }

  /** `(x << 8) | carry`, split into a digit and what leaves it. */
  method ByteStep(x: word, carry: word) returns (digit: word, out: word)
    requires x < BASE && carry < 256
    ensures digit + BASE * out == 256 * x + carry && digit < BASE && out < 256
    ensures carry == 0 ==> digit % 256 == 0
  {
    var t := x * 256 + carry;
    digit := t % BASE;
    out := t / BASE;
  }

  /** The loop that makes room for one byte: `dp` times 256, and the carry out of the top. */
  method TimesByte(dp: array<word>, n: nat) returns (carry: word)
    requires n <= dp.Length && Digits(dp[..n], BASE)
    modifies dp
    ensures Digits(dp[..n], BASE) && Val(dp[..n], BASE) + carry * Pow(BASE, n) == 256 * Val(old(dp[..n]), BASE)
    ensures forall k :: n <= k < dp.Length ==> dp[k] == old(dp[k])
    ensures n > 0 ==> dp[0] % 256 == 0
  {
    ghost var xs := dp[..n];
    ghost var zs := seq(n, _ => 0);
    ghost var ts, q := Products(256, xs, zs), [0];
    carry := 0;
    var j := 0;
    while j < n
      invariant 0 <= j <= n && Propagated(dp[..j], q, ts) && q[j] == carry < 256
      invariant forall k :: j <= k < dp.Length ==> dp[k] == old(dp[k])
      invariant j > 0 ==> dp[0] % 256 == 0
    {
      assert xs[j] < BASE && ts[j] == 256 * xs[j];
      dp[j], carry := ByteStep(dp[j], carry);
      q := q + [carry];
      j := j + 1;
    }
    ScaledValue(dp[..n], carry, q, 256, xs, zs);
    ValSnoc(dp[..n], carry, BASE);
  }

  /** One byte of input: shift by eight bits and fill the gap. */
  method AppendByte(dp: array<word>, n: nat, x: byte)
    requires 0 < n <= dp.Length && Digits(dp[..n], BASE) && Val(dp[..n], BASE) * 256 + x < Pow(BASE, n)
    modifies dp
    ensures Digits(dp[..n], BASE) && Val(dp[..n], BASE) == Val(old(dp[..n]), BASE) * 256 + x
  {
    ghost var v := Val(dp[..n], BASE);
    var carry := TimesByte(dp, n);
    ghost var cs := dp[..n];
    ValBound(cs, BASE);
    NoCarry(Val(cs, BASE), carry, Pow(BASE, n), 256 * v);
    FillLow(cs, x);
    dp[0] := dp[0] + x;
    assert dp[..n] == cs[0 := cs[0] + x];
  }

  lemma FillLow(cs: seq<int>, x: int)
    requires cs != [] && Digits(cs, BASE) && cs[0] % 256 == 0 && 0 <= x < 256
    ensures Digits(cs[0 := cs[0] + x], BASE) && Val(cs[0 := cs[0] + x], BASE) == Val(cs, BASE) + x
  {
    ValUpdate(cs, 0, cs[0] + x, BASE);
    assert 0 <= cs[0] < BASE && Pow(BASE, 0) == 1;
  }

  lemma NoCarry(l: int, carry: int, p: int, v: int)
    requires 0 <= l && 0 < p && carry >= 0 && l + carry * p == v < p
    ensures carry == 0
  {
    if carry > 0 { MulMonotone(1, carry, p); }
  }

  /** The digit count the reader reserves holds every value of `len` bytes. */
  lemma Reserved(len: nat, need: nat)
    requires need == (len * 8 + DIGIT_BIT - 1) / DIGIT_BIT
    ensures Pow(256, len) <= Pow(BASE, need)
  {
    BytePow();
    PowMul(2, 8, len);
    BaseIsPow2(need);
    PowMonotone(2, 8 * len, DIGIT_BIT * need);
  }

  method ReadUnsignedBin(a: MpInt, b: seq<byte>) returns (ret: int)
    requires a.Shape() && (|b| * 8 + DIGIT_BIT - 1) / DIGIT_BIT <= MAX_DIGITS
    modifies a, a.dp
    ensures ret == 0 || ret == -1
    ensures ret == 0 ==> a.Clamped() && a.sign == 0 && a.Mag() == BigEndian(b)
  {
    a.used, a.sign := 0, 0;
    var need := (|b| * 8 + DIGIT_BIT - 1) / DIGIT_BIT;
    ret := a.Grow(need);
    if ret != 0 { return; }
    Clear(a.dp);
    ReadLoop(a.dp, need, b);
    a.SetUsed(need);
  }

  method Clear(dp: array<word>)
    modifies dp
    ensures forall k :: 0 <= k < dp.Length ==> dp[k] == 0
  {
    for i := 0 to dp.Length
      invariant forall k :: 0 <= k < i ==> dp[k] == 0
    {
      dp[i] := 0;
    }
  }

  method ReadLoop(dp: array<word>, need: nat, b: seq<byte>)
    requires need == (|b| * 8 + DIGIT_BIT - 1) / DIGIT_BIT <= dp.Length
    requires forall k :: 0 <= k < dp.Length ==> dp[k] == 0
    modifies dp
    ensures Digits(dp[..need], BASE) && Val(dp[..need], BASE) == BigEndian(b)
  {
    ValZeros(dp[..need], BASE);
    Reserved(|b|, need);
    var i := 0;
    while i < |b|
      invariant 0 <= i <= |b| && Digits(dp[..need], BASE) && Val(dp[..need], BASE) == BigEndian(b[..i])
    {
      WriteRead(b[..i + 1]);
      PowMonotone(256, i + 1, |b|);
      assert b[..i + 1][..i] == b[..i];
      AppendByte(dp, need, b[i]);
      i := i + 1;
    }
    assert b[..i] == b;
  }

  /** Moves the low eight bits of `tmp` out and drops them. */
  method TakeByte(tmp: MpInt) returns (x: byte)
    requires tmp.Clamped() && tmp.alloc > 0 && tmp.used > 0
    modifies tmp`used, tmp`sign, tmp.dp
    ensures tmp.Clamped() && tmp.Mag() >= 0 && old(tmp.Mag()) == tmp.Mag() * 256 + x
  {
    x := tmp.dp[0] % 256;
    ghost var s := tmp.dp[..tmp.used];
    BytePow();
    var out := ShiftDigits(tmp.dp, tmp.used, 8);
    ghost var c := tmp.dp[..tmp.used];
    ValBound(c, BASE);
    LowByte(s, Val(c, BASE), out, x);
    tmp.SetUsed(tmp.used);
  }

  lemma LowByte(s: seq<int>, v: int, out: int, x: int)
    requires s != [] && v * 256 + out == Val(s, BASE) && 0 <= out < 256 && x == s[0] % 256
    ensures out == x
  {
    var r := Val(s[1..], BASE);
    assert Val(s, BASE) == s[0] + BASE * r;
    DivModUnique(Val(s, BASE), 256, v, out);
    DivModUnique(Val(s, BASE), 256, s[0] / 256 + BASE / 256 * r, x);
  }

  /** Peeling the low byte off the part still to be written. */
  lemma ByteFront(all: seq<byte>, m: nat, i: nat, q: nat, x: byte, rest: seq<byte>)
    requires m > 0 && all == BytesBE(m, i + 1) + rest && m == q * 256 + x && |BytesLE(m)| == i + 1
    ensures all == BytesBE(q, i) + ([x] + rest) && |BytesLE(q)| == i
  {
    DivModUnique(m, 256, q, x);
    assert BytesBE(m, i + 1) == BytesBE(q, i) + [x];
    assert BytesLE(m) == [x] + BytesLE(q);
    assert BytesBE(q, i) + [x] + rest == BytesBE(q, i) + ([x] + rest);
  }

  /** The loop of `mp_to_unsigned_bin_nr`: the bytes of `n`, last first. */
  method ToBinLoop(tmp: MpInt, b: array<byte>, size: nat, ghost n: nat)
    requires tmp.Clamped() && tmp.Mag() == n && size == |BytesLE(n)| <= b.Length
    modifies tmp`used, tmp`sign, tmp.dp, b
    ensures b[..size] == BytesBE(n, size)
    ensures forall k :: size <= k < b.Length ==> b[k] == old(b[k])
  {
    var i := size - 1;
    ghost var m := n;
    while i >= 0
      modifies tmp`used, tmp`sign, tmp.dp, b
      invariant -1 <= i < size && tmp.Clamped() && tmp.Mag() == m && m >= 0 && |BytesLE(m)| == i + 1
      invariant BytesBE(n, size) == BytesBE(m, i + 1) + b[i + 1..size]
      invariant forall k :: size <= k < b.Length ==> b[k] == old(b[k])
    {
      assert m > 0;
      var x := TakeByte(tmp);
      ghost var rest := b[i + 1..size];
      ByteFront(BytesBE(n, size), m, i, tmp.Mag(), x, rest);
      b[i] := x;
      assert b[i..size] == [x] + rest;
      m := tmp.Mag();
      i := i - 1;
    }
    assert b[0..size] == b[..size];
  }

  /** `mp_to_unsigned_bin_nr`: the minimal big-endian form. */
  method ToUnsignedBin(a: MpInt, b: array<byte>) returns (ret: int, size: int)
    requires a.Clamped() && a.Mag() >= 0 && |BytesLE(a.Mag())| <= b.Length
    modifies b
    ensures ret == 0 || ret == -1
    ensures size == |BytesLE(old(a.Mag()))|
    ensures ret == 0 ==> b[..size] == BytesBE(old(a.Mag()), size)
    ensures forall k :: size <= k < b.Length ==> b[k] == old(b[k])
  {
    ghost var n := a.Mag();
    var bits := CountBits(a);
    SizeIsMinimal(n, bits);
    size := (bits + 7) / 8;
    var tmp;
    ret, tmp := InitCopy(a);
    if ret != 0 { return; }
    ToBinLoop(tmp, b, size, n);
  }

  function Strip(bs: seq<byte>): seq<byte> {
    if bs != [] && bs[0] == 0 then Strip(bs[1..]) else bs
  }

  lemma {:induction false} LeadingByte(bs: seq<byte>)
    requires bs != [] && bs[0] > 0
    ensures Pow(256, |bs| - 1) <= BigEndian(bs)
  {
    var n := |bs| - 1;
    if n > 0 { LeadingByte(bs[..n]); }
  }

  /** Read, then write: a byte string comes back without its leading zeros. */
  lemma {:induction false} ReadThenWrite(bs: seq<byte>)
    ensures var v := BigEndian(bs); BytesBE(v, |BytesLE(v)|) == Strip(bs)
  {
    if bs != [] && bs[0] == 0 {
      ReadThenWrite(bs[1..]);
      assert [bs[0]] + bs[1..] == bs;
      LeadingZeros([bs[0]], bs[1..]);
    } else {
      var v := BigEndian(bs);
      WriteRead(bs);
      LittleBig(v);
      if bs != [] {
        LeadingByte(bs);
        PowPositive(256, |bs| - 1);
        PowStrict(256, |bs| - 1, |BytesLE(v)|);
        PowStrict(256, |BytesLE(v)| - 1, |bs|);
      }
    }
  }

  /** Write, then read: every number comes back. */
  lemma WriteThenRead(n: nat)
    ensures BigEndian(BytesBE(n, |BytesLE(n)|)) == n
  {
    LittleBig(n);
    ReadWritten(n, |BytesLE(n)|);
  }

  lemma DigitsByte(s: seq<int>)
    requires Digits(s, BASE) && s != []
    ensures Val(s, BASE) >= 0 && Val(s, BASE) % 256 == s[0] % 256
  {
    ValBound(s, BASE);
    var r := Val(s[1..], BASE);
    DivModUnique(Val(s, BASE), 256, s[0] / 256 + BASE / 256 * r, s[0] % 256);
  }

  /** One turn of the `rsa_core` loop: store the low byte, divide by 256. */
  method EmitByte(tmp: MpInt) returns (x: byte)
    requires tmp.Clamped() && tmp.used > 0
    modifies tmp, tmp.dp
    ensures tmp.Clamped() && (tmp.dp == old(tmp.dp) || fresh(tmp.dp))
    ensures old(tmp.Mag()) > 0 && x == old(tmp.Mag()) % 256 && tmp.Mag() == old(tmp.Mag()) / 256
  {
    ghost var s := tmp.dp[..tmp.used];
    ghost var n := tmp.Mag();
    DigitsByte(s);
    ValTop(s, BASE);
    PowPositive(BASE, |s| - 1);
    BytePow();
    x := tmp.dp[0] % 256;
    var ret := Div2d(tmp, 8, tmp, null);
    assert ShiftExact(n, 8);
  }

  /** `rsa_core`: the minimal little-endian form. */
  method RsaCore(bn: MpInt, out: array<byte>) returns (ret: int, count: nat)
    requires bn.Clamped() && bn.Mag() >= 0 && |BytesLE(bn.Mag())| <= out.Length
    modifies out
    ensures ret == 0 || ret == -1
    ensures ret == 0 ==> count == |BytesLE(old(bn.Mag()))| && out[..count] == BytesLE(old(bn.Mag()))
    ensures ret == 0 ==> forall k :: count <= k < out.Length ==> out[k] == old(out[k])
    ensures ret != 0 ==> forall k :: 0 <= k < out.Length ==> out[k] == old(out[k])
  {
    ghost var n := bn.Mag();
    count := 0;
    var tmp;
    ret, tmp := InitCopy(bn);
    if ret != 0 { return; }
    count := CoreLoop(tmp, out, n);
  }

  lemma OneMore(sofar: seq<byte>, x: byte, m: nat, n: nat)
    requires m > 0 && x == m % 256 && sofar + BytesLE(m) == BytesLE(n)
    ensures sofar + [x] + BytesLE(m / 256) == BytesLE(n) && |sofar| < |BytesLE(n)|
  {
    assert BytesLE(m) == [x] + BytesLE(m / 256);
    assert sofar + [x] + BytesLE(m / 256) == sofar + ([x] + BytesLE(m / 256));
  }

  method CoreLoop(tmp: MpInt, out: array<byte>, ghost n: nat) returns (count: nat)
    requires tmp.Clamped() && tmp.Mag() == n && |BytesLE(n)| <= out.Length
    modifies tmp, tmp.dp, out
    ensures count == |BytesLE(n)| && out[..count] == BytesLE(n)
    ensures forall k :: count <= k < out.Length ==> out[k] == old(out[k])
  {
    ghost var m := n;
    count := 0;
    while tmp.used != 0
      invariant tmp.Clamped() && tmp.Mag() == m && m >= 0 && (tmp.dp == old(tmp.dp) || fresh(tmp.dp))
      invariant count <= out.Length && out[..count] + BytesLE(m) == BytesLE(n)
      invariant forall k :: count <= k < out.Length ==> out[k] == old(out[k])
      decreases m
    {
      var x := EmitByte(tmp);
      ghost var sofar := out[..count];
      OneMore(sofar, x, m, n);
      out[count] := x;
      assert out[..count + 1] == sofar + [x];
      count := count + 1;
      m := m / 256;
    }
    assert tmp.dp[..tmp.used] == [];
  }

  /** `mp_reverse`, and the byte swap of `rsa_step`. */
  method ReverseInPlace(s: array<byte>, len: nat)
    requires len <= s.Length
    modifies s
    ensures s[..len] == Reverse(old(s[..len]))
    ensures forall k :: len <= k < s.Length ==> s[k] == old(s[k])
  {
    var i, j := 0, len - 1;
    while i < j
      invariant 0 <= i <= j + 2 && i + j == len - 1
      invariant forall k :: 0 <= k < i || j < k < len ==> s[k] == old(s[len - 1 - k])
      invariant forall k :: i <= k <= j || len <= k < s.Length ==> s[k] == old(s[k])
    {
      s[i], s[j] := s[j], s[i];
      i := i + 1;
      j := j - 1;
    }
  }

  /** `rsa_step`: the same bytes as `mp_to_unsigned_bin_nr`. */
  method RsaStep(bn: MpInt, out: array<byte>) returns (ret: int, size: int)
    requires bn.Clamped() && bn.Mag() >= 0 && |BytesLE(bn.Mag())| <= out.Length
    modifies out
    ensures ret == 0 || ret == -1
    ensures ret == 0 ==> size == |BytesLE(old(bn.Mag()))| && out[..size] == BytesBE(old(bn.Mag()), size)
    ensures ret == 0 ==> forall k :: size <= k < out.Length ==> out[k] == old(out[k])
  {
    ghost var n := bn.Mag();
    ret, size := RsaCore(bn, out);
    if ret != 0 { return; }
    ReverseInPlace(out, size);
    LittleBig(n);
  }
}
