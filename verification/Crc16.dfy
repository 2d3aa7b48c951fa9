/** The bit-serial CRC-16 of the XMODEM receiver: polynomial 0x1021, initial value 0, most
significant bit first.

Registers and messages are bit strings, most significant bit first, so that XOR is pointwise
and shifting out is dropping the first bit. */
module Crc16 {
  import opened Words
  import opened Positional

  type Bits = seq<bool>
  type Reg = r: Bits | |r| == 16 witness seq(16, _ => false)

  function Zero(): (z: Reg)
    ensures forall i :: 0 <= i < 16 ==> !z[i]
  {
    seq(16, _ => false)
  }

  /** 0x1021: bits 12, 5 and 0. */
  predicate Poly(i: int) { i == 3 || i == 10 || i == 15 }

  /** One turn of the inner loop: shift left, and add the polynomial when a one falls out. */
  function Shift(r: Reg): (s: Reg)
    ensures forall i :: 0 <= i < 16 ==> s[i] == ((i < 15 && r[i + 1]) != (r[0] && Poly(i)))
  {
    seq(16, i requires 0 <= i < 16 => (i < 15 && r[i + 1]) != (r[0] && Poly(i)))
  }

  function ShiftN(r: Reg, n: nat): Reg
    decreases n
  {
    if n == 0 then r else ShiftN(Shift(r), n - 1)
  }

  /** XOR of `bs` into the top bits of the register. */
  function XorTop(r: Reg, bs: Bits): (s: Reg)
    requires |bs| <= 16
    ensures forall i :: 0 <= i < 16 ==> s[i] == (r[i] != (i < |bs| && bs[i]))
  {
    seq(16, i requires 0 <= i < 16 => r[i] != (i < |bs| && bs[i]))
  }

  function Xor(p: Bits, q: Bits): (r: Bits)
    requires |p| == |q|
    ensures |r| == |p| && forall i :: 0 <= i < |p| ==> r[i] == (p[i] != q[i])
  {
    seq(|p|, i requires 0 <= i < |p| => p[i] != q[i])
  }

  /** The division, one message bit at a time. */
  function Feed(r: Reg, bs: Bits): Reg
    decreases |bs|
  {
    if bs == [] then r else Feed(Shift(XorTop(r, bs[..1])), bs[1..])
  }

  lemma {:induction false} FeedAppend(r: Reg, p: Bits, q: Bits)
    ensures Feed(r, p + q) == Feed(Feed(r, p), q)
    decreases |p|
  {
    if p == [] {
      assert p + q == q;
    } else {
      assert (p + q)[..1] == p[..1] && (p + q)[1..] == p[1..] + q;
      FeedAppend(Shift(XorTop(r, p[..1])), p[1..], q);
    }
  }

  /** Up to 16 bits may be added first and shifted out afterwards, as the byte loop does. */
  lemma {:induction false} FeedAtOnce(r: Reg, bs: Bits)
    requires |bs| <= 16
    ensures Feed(r, bs) == ShiftN(XorTop(r, bs), |bs|)
    decreases |bs|
  {
    if bs == [] {
      assert XorTop(r, bs) == r;
    } else {
      var s := Shift(XorTop(r, bs[..1]));
      assert Shift(XorTop(r, bs)) == XorTop(s, bs[1..]);
      FeedAtOnce(s, bs[1..]);
    }
  }

  // ---------- linearity ----------

  lemma StepXor(x: Reg, y: Reg, a: Bits, b: Bits)
    requires |a| == |b| == 1
    ensures Shift(XorTop(Xor(x, y), Xor(a, b))) == Xor(Shift(XorTop(x, a)), Shift(XorTop(y, b)))
  {}

  /** XOR-linear on messages of one length. */
  lemma {:induction false} FeedXor(x: Reg, y: Reg, p: Bits, q: Bits)
    requires |p| == |q|
    ensures Feed(Xor(x, y), Xor(p, q)) == Xor(Feed(x, p), Feed(y, q))
    decreases |p|
  {
    if p != [] {
      StepXor(x, y, p[..1], q[..1]);
      assert Xor(p, q)[..1] == Xor(p[..1], q[..1]) && Xor(p, q)[1..] == Xor(p[1..], q[1..]);
      FeedXor(Shift(XorTop(x, p[..1])), Shift(XorTop(y, q[..1])), p[1..], q[1..]);
    }
  }

  // ---------- residue ----------

  lemma {:induction false} ShiftZero(n: nat)
    ensures ShiftN(Zero(), n) == Zero()
  {
    if n > 0 {
      assert Shift(Zero()) == Zero();
      ShiftZero(n - 1);
    }
  }

  /** A message followed by its own CRC leaves 0. */
  lemma Residue(p: Bits)
    ensures Feed(Zero(), p + Feed(Zero(), p)) == Zero()
  {
    var c := Feed(Zero(), p);
    FeedAppend(Zero(), p, c);
    FeedAtOnce(c, c);
    assert XorTop(c, c) == Zero();
    ShiftZero(16);
  }

  // ---------- burst errors ----------

  /** One of the lowest `t + 1` bits is set. */
  ghost predicate LowBit(r: Reg, t: int) { exists i :: 15 - t <= i < 16 && 0 <= i && r[i] }

  /** A set bit among the lowest can only move up one place, or be replaced by bit 0. */
  lemma BurstStep(r: Reg, b: Bits, t: int)
    requires |b| == 1 && 0 <= t < 15 && LowBit(r, t)
    ensures LowBit(Shift(XorTop(r, b)), t + 1)
  {
    var s := Shift(XorTop(r, b));
    if r[0] != b[0] {
      assert s[15];
    } else {
      var i :| 15 - t <= i < 16 && 0 <= i && r[i];
      assert s[i - 1];
    }
  }

  lemma {:induction false} BurstRun(r: Reg, bs: Bits, t: int)
    requires 0 <= t && t + |bs| <= 15 && LowBit(r, t)
    ensures LowBit(Feed(r, bs), 15)
    decreases |bs|
  {
    if bs == [] {
      var i :| 15 - t <= i < 16 && 0 <= i && r[i];
    } else {
      BurstStep(r, bs[..1], t);
      BurstRun(Shift(XorTop(r, bs[..1])), bs[1..], t + 1);
    }
  }

  /** Zero bits never clear a register. */
  lemma {:induction false} ZerosRun(r: Reg, bs: Bits)
    requires LowBit(r, 15) && forall i :: 0 <= i < |bs| ==> !bs[i]
    ensures LowBit(Feed(r, bs), 15)
    decreases |bs|
  {
    if bs != [] {
      var s := Shift(XorTop(r, bs[..1]));
      var i :| 0 <= i < 16 && r[i];
      if r[0] { assert s[15]; } else { assert s[i - 1]; }
      ZerosRun(s, bs[1..]);
    }
  }

  lemma {:induction false} LeadingZeros(bs: Bits)
    requires forall i :: 0 <= i < |bs| ==> !bs[i]
    ensures Feed(Zero(), bs) == Zero()
    decreases |bs|
  {
    if bs != [] {
      assert Shift(XorTop(Zero(), bs[..1])) == Zero();
      LeadingZeros(bs[1..]);
    }
  }

  lemma Burst(burst: Bits, tail: Bits)
    requires |burst| <= 15 && forall i :: 0 <= i < |tail| ==> !tail[i]
    ensures LowBit(Feed(Zero(), [true] + (burst + tail)), 15)
  {
    var r := Shift(XorTop(Zero(), [true]));
    assert ([true] + (burst + tail))[..1] == [true] && ([true] + (burst + tail))[1..] == burst + tail;
    assert r[15];
    BurstRun(r, burst, 0);
    FeedAppend(r, burst, tail);
    ZerosRun(Feed(r, burst), tail);
  }

  /** An error pattern whose ones lie within 16 consecutive bits is not a multiple. */
  lemma BurstPattern(e: Bits, f: int)
    requires 0 <= f < |e| && e[f] && forall i :: 0 <= i < f || f + 16 <= i < |e| ==> !e[i]
    ensures LowBit(Feed(Zero(), e), 15)
  {
    var m := if f + 16 <= |e| then f + 16 else |e|;
    BurstSplit(e, f, m);
    BurstParts(e[..f], e[f + 1..m], e[m..]);
  }

  lemma BurstSplit(e: Bits, f: nat, m: nat)
    requires f < m <= |e|
    ensures e == e[..f] + ([e[f]] + (e[f + 1..m] + e[m..]))
  {
    assert e[f + 1..] == e[f + 1..m] + e[m..];
    assert e[f..] == [e[f]] + e[f + 1..];
    assert e == e[..f] + e[f..];
  }

  lemma BurstParts(zeros: Bits, burst: Bits, tail: Bits)
    requires |burst| <= 15 && (forall i :: 0 <= i < |zeros| ==> !zeros[i]) && forall i :: 0 <= i < |tail| ==> !tail[i]
    ensures LowBit(Feed(Zero(), zeros + ([true] + (burst + tail))), 15)
  {
    FeedAppend(Zero(), zeros, [true] + (burst + tail));
    LeadingZeros(zeros);
    Burst(burst, tail);
  }

  lemma XorDiffers(x: Reg, y: Reg)
    requires LowBit(Xor(x, y), 15)
    ensures x != y
  {
    var i :| 0 <= i < 16 && Xor(x, y)[i];
    assert x[i] != y[i];
  }

  /** Two messages that differ, and only within 16 consecutive bits, have different CRCs. */
  lemma BurstDetected(p: Bits, q: Bits, start: int)
    requires |p| == |q| && p != q && forall i :: 0 <= i < |p| && !(start <= i < start + 16) ==> p[i] == q[i]
    ensures Feed(Zero(), p) != Feed(Zero(), q)
  {
    var f := FirstDifference(p, q);
    BurstPattern(Xor(p, q), f);
    FeedXor(Zero(), Zero(), p, q);
    assert Xor(Zero(), Zero()) == Zero();
    XorDiffers(Feed(Zero(), p), Feed(Zero(), q));
  }

  lemma {:induction false} FirstDifference(p: Bits, q: Bits) returns (f: int)
    requires |p| == |q| && p != q
    ensures 0 <= f < |p| && p[f] != q[f] && forall i :: 0 <= i < f ==> p[i] == q[i]
    decreases |p|
  {
    if p[0] != q[0] {
      f := 0;
    } else {
      assert p == [p[0]] + p[1..] && q == [q[0]] + q[1..];
      var g := FirstDifference(p[1..], q[1..]);
      f := g + 1;
    }
  }

  // ---------- bytes ----------

  /** The low `n` bits of `x`, most significant first. */
  function BitsOf(x: nat, n: nat): (bs: Bits)
    ensures |bs| == n
  {
    if n == 0 then [] else BitsOf(x / 2, n - 1) + [x % 2 == 1]
  }

  lemma {:induction false} BitsInjective(x: nat, y: nat, n: nat)
    requires x < Pow(2, n) && y < Pow(2, n) && BitsOf(x, n) == BitsOf(y, n)
    ensures x == y
  {
    if n > 0 {
      var s, t := BitsOf(x, n), BitsOf(y, n);
      assert s[..n - 1] == BitsOf(x / 2, n - 1) && t[..n - 1] == BitsOf(y / 2, n - 1);
      assert s[n - 1] == (x % 2 == 1) && t[n - 1] == (y % 2 == 1);
      BitsInjective(x / 2, y / 2, n - 1);
    }
  }

  function ByteBits(x: byte): Bits { BitsOf(x, 8) }

  lemma ByteBitsInjective(x: byte, y: byte)
    requires ByteBits(x) == ByteBits(y)
    ensures x == y
  {
    BytePow();
    BitsInjective(x, y, 8);
  }

  function Message(bs: seq<byte>): Bits {
    if bs == [] then [] else ByteBits(bs[0]) + Message(bs[1..])
  }

  function Crc(bs: seq<byte>): Reg { Feed(Zero(), Message(bs)) }

  lemma {:induction false} MessageAppend(p: seq<byte>, q: seq<byte>)
    ensures Message(p + q) == Message(p) + Message(q)
  {
    if p == [] {
      assert p + q == q;
    } else {
      assert (p + q)[1..] == p[1..] + q;
      MessageAppend(p[1..], q);
    }
  }

  lemma MessageOne(x: byte)
    ensures Message([x]) == ByteBits(x)
  {
    assert [x][1..] == [] && Message([]) == [];
    assert ByteBits(x) + [] == ByteBits(x);
  }

  lemma {:induction false} MessageInjective(p: seq<byte>, q: seq<byte>)
    requires |p| == |q| && Message(p) == Message(q)
    ensures p == q
  {
    if p != [] {
      assert Message(p)[..8] == ByteBits(p[0]) && Message(p)[8..] == Message(p[1..]);
      assert Message(q)[..8] == ByteBits(q[0]) && Message(q)[8..] == Message(q[1..]);
      ByteBitsInjective(p[0], q[0]);
      MessageInjective(p[1..], q[1..]);
      assert p == [p[0]] + p[1..] && q == [q[0]] + q[1..];
    }
  }

  lemma {:induction false} MessageLength(p: seq<byte>)
    ensures |Message(p)| == 8 * |p|
  {
    if p != [] { MessageLength(p[1..]); }
  }

  // ---------- XOR of numbers ----------

  /** XOR of the low `n` bits of two numbers. */
  function XorNat(x: nat, y: nat, n: nat): (z: nat)
    ensures z < Pow(2, n)
    decreases n
  {
    if n == 0 then 0 else 2 * XorNat(x / 2, y / 2, n - 1) + if x % 2 == y % 2 then 0 else 1
  }

  lemma {:induction false} BitsOfXor(x: nat, y: nat, n: nat)
    ensures BitsOf(XorNat(x, y, n), n) == Xor(BitsOf(x, n), BitsOf(y, n))
    decreases n
  {
    if n > 0 {
      BitsOfXor(x / 2, y / 2, n - 1);
      var z := XorNat(x, y, n);
      assert z / 2 == XorNat(x / 2, y / 2, n - 1);
    }
  }

  function XorByte(x: byte, y: byte): byte {
    BytePow();
    XorNat(x, y, 8)
  }

  /** Payloads of one length, byte by byte. */
  function XorBytes(p: seq<byte>, q: seq<byte>): seq<byte>
    requires |p| == |q|
  {
    seq(|p|, i requires 0 <= i < |p| => XorByte(p[i], q[i]))
  }

  lemma XorConcat(a: Bits, b: Bits, c: Bits, d: Bits)
    requires |a| == |c| && |b| == |d|
    ensures Xor(a + b, c + d) == Xor(a, c) + Xor(b, d)
  {}

  lemma {:induction false} MessageXor(p: seq<byte>, q: seq<byte>)
    requires |p| == |q|
    ensures |Message(p)| == |Message(q)| && Message(XorBytes(p, q)) == Xor(Message(p), Message(q))
  {
    MessageLength(p);
    MessageLength(q);
    if p != [] {
      var r := XorBytes(p, q);
      MessageXor(p[1..], q[1..]);
      assert r[1..] == XorBytes(p[1..], q[1..]);
      BitsOfXor(p[0], q[0], 8);
      XorConcat(ByteBits(p[0]), Message(p[1..]), ByteBits(q[0]), Message(q[1..]));
    }
  }

  /** Payloads of one length: the CRC of their XOR is the XOR of their CRCs. */
  lemma CrcXor(p: seq<byte>, q: seq<byte>)
    requires |p| == |q|
    ensures Crc(XorBytes(p, q)) == Xor(Crc(p), Crc(q))
  {
    MessageXor(p, q);
    FeedXor(Zero(), Zero(), Message(p), Message(q));
    assert Xor(Zero(), Zero()) == Zero();
  }

  // ---------- the register as a 16-bit word ----------

  type half = x: int | 0 <= x < 0x1_0000

  function Register(w: half): Reg { BitsOf(w, 16) }

  /** Bits above the low `n` do not matter. */
  lemma {:induction false} BitsLow(x: nat, c: nat, n: nat)
    ensures BitsOf(x + c * Pow(2, n), n) == BitsOf(x, n)
    decreases n
  {
    if n > 0 {
      var p := Pow(2, n - 1);
      Even(c, p);
      BitsLow(x / 2, c, n - 1);
      HalfOfSum(x, c * p);
    }
  }

  lemma Even(c: int, p: int)
    ensures c * (2 * p) == 2 * (c * p)
  {}

  lemma HalfOfSum(x: int, k: int)
    ensures (x + 2 * k) / 2 == x / 2 + k && (x + 2 * k) % 2 == x % 2
  {}

  /** The bits of two numbers side by side. */
  lemma {:induction false} BitsPair(x: nat, y: nat, n: nat, m: nat)
    requires y < Pow(2, m)
    ensures BitsOf(x * Pow(2, m) + y, n + m) == BitsOf(x, n) + BitsOf(y, m)
    decreases m
  {
    if m == 0 {
      assert BitsOf(x, n) + [] == BitsOf(x, n);
    } else {
      var p := Pow(2, m - 1);
      Even(x, p);
      BitsPair(x, y / 2, n, m - 1);
      HalfOfSum(y, x * p);
      assert BitsOf(x, n) + (BitsOf(y / 2, m - 1) + [y % 2 == 1]) == BitsOf(x, n) + BitsOf(y / 2, m - 1) + [y % 2 == 1];
    }
  }

  lemma HalfPower()
    ensures Pow(2, 15) == 0x8000 && Pow(2, 16) == 0x1_0000
  {
    BytePow();
    PowAdd(2, 8, 8);
    assert Pow(2, 16) == 2 * Pow(2, 15);
  }

  /** High byte and low byte, as they come over the line. */
  lemma RegisterBytes(hi: byte, lo: byte)
    ensures Register(256 * hi + lo) == ByteBits(hi) + ByteBits(lo)
  {
    BytePow();
    BitsPair(hi, lo, 8, 8);
  }

  lemma RegisterInjective(v: half, w: half)
    requires Register(v) == Register(w)
    ensures v == w
  {
    HalfPower();
    BitsInjective(v, w, 16);
  }

  /** `crc & 0x8000 ? (crc << 1) ^ 0x1021 : crc << 1` in 16 bits. */
  method ShiftWord(w: half) returns (r: half)
    ensures Register(r) == Shift(Register(w))
  {
    HalfPower();
    TopBit(w);
    var doubled := 2 * w % 0x1_0000;
    Doubled(w);
    if w >= 0x8000 {
      var poly := 0x1021;
      r := XorNat(doubled, poly, 16);
      BitsOfXor(doubled, poly, 16);
      PolyBits(poly);
    } else {
      r := doubled;
    }
  }

  lemma TopBit(w: half)
    ensures Register(w)[0] <==> w >= 0x8000
    ensures Register(w)[1..] == BitsOf(w, 15)
  {
    HalfPower();
    var t := w / 0x8000;
    assert BitsOf(t, 1) == [t == 1] by { assert BitsOf(t / 2, 0) == []; }
    BitsPair(t, w % 0x8000, 1, 15);
    BitsLow(w % 0x8000, t, 15);
  }

  lemma Doubled(w: half)
    ensures Register(2 * w % 0x1_0000) == BitsOf(w, 15) + [false]
  {
    HalfPower();
    BitsLow(2 * w % 0x1_0000, 2 * w / 0x1_0000, 16);
    assert 2 * w % 0x1_0000 + 2 * w / 0x1_0000 * 0x1_0000 == 2 * w;
    assert 2 * w / 2 == w && 2 * w % 2 == 0;
  }

  lemma FourBits(x: nat)
    ensures BitsOf(x, 4) == [x / 2 / 2 / 2 % 2 == 1, x / 2 / 2 % 2 == 1, x / 2 % 2 == 1, x % 2 == 1]
  {
    assert BitsOf(x / 2 / 2 / 2, 1) == [x / 2 / 2 / 2 % 2 == 1];
    assert BitsOf(x / 2 / 2, 2) == BitsOf(x / 2 / 2 / 2, 1) + [x / 2 / 2 % 2 == 1];
    assert BitsOf(x / 2, 3) == BitsOf(x / 2 / 2, 2) + [x / 2 % 2 == 1];
  }

  lemma ByteOfNibbles(h: nat, l: nat)
    requires h < 16 && l < 16
    ensures ByteBits(16 * h + l) == BitsOf(h, 4) + BitsOf(l, 4)
  {
    var p := Pow(2, 4);
    assert p == 16 by { assert Pow(2, 1) == 2 && Pow(2, 2) == 4 && Pow(2, 3) == 8; }
    BitsPair(h, l, 4, 4);
    assert h * p == 16 * h;
  }

  /** The bits of 0x1021. */
  lemma PolyBits(p: half)
    requires p == 0x1021
    ensures Register(p) == seq(16, i => Poly(i))
  {
    RegisterBytes(0x10, 0x21);
    ByteOfNibbles(1, 0);
    ByteOfNibbles(2, 1);
    FourBits(0);
    FourBits(1);
    FourBits(2);
  }

  /** `crc ^ (byte << 8)` */
  method XorHigh(w: half, x: byte) returns (r: half)
    ensures Register(r) == XorTop(Register(w), ByteBits(x))
  {
    HalfPower();
    r := XorNat(w, 256 * x, 16);
    BitsOfXor(w, 256 * x, 16);
    RegisterBytes(x, 0);
    ZeroBits(8);
    XorPadded(Register(w), ByteBits(x), BitsOf(0, 8));
  }

  lemma XorPadded(r: Reg, bs: Bits, zeros: Bits)
    requires |bs| + |zeros| == 16 && forall i :: 0 <= i < |zeros| ==> !zeros[i]
    ensures Xor(r, bs + zeros) == XorTop(r, bs)
  {}

  lemma {:induction false} ZeroBits(n: nat)
    ensures forall i :: 0 <= i < n ==> !BitsOf(0, n)[i]
  {
    if n > 0 { ZeroBits(n - 1); }
  }

  /** A payload followed by its CRC, high byte first, has CRC 0. */
  lemma CrcResidue(p: seq<byte>, hi: byte, lo: byte)
    requires Crc(p) == ByteBits(hi) + ByteBits(lo)
    ensures Crc(p + [hi, lo]) == Zero()
  {
    MessageAppend(p, [hi, lo]);
    MessageAppend([hi], [lo]);
    MessageOne(hi);
    MessageOne(lo);
    assert [hi] + [lo] == [hi, lo];
    Residue(Message(p));
  }

  /** The CRC loop of `xmodem_recv_block`, on a 16-bit word. */
  method ComputeCrc(data: seq<byte>) returns (crc: half)
    ensures Register(crc) == Crc(data)
  {
    crc := 0;
    ZeroBits(16);
    var i := 0;
    while i < |data|
      invariant 0 <= i <= |data| && Register(crc) == Crc(data[..i])
    {
      ghost var before := Register(crc);
      crc := XorHigh(crc, data[i]);
      ghost var x := Register(crc);
      for j := 0 to 8
        invariant ShiftN(Register(crc), 8 - j) == ShiftN(x, 8)
      {
        crc := ShiftWord(crc);
      }
      ByteFed(data, i, before);
      i := i + 1;
    }
    assert data[..i] == data;
  }

  /** A known answer: a single one bit leaves the polynomial. */
  lemma CrcOfOne(one: byte, poly: half)
    requires one == 1 && poly == 0x1021
    ensures Crc([one]) == Register(poly)
  {
    OneBit(one);
    MessageOne(one);
    FeedAppend(Zero(), LeadingBits(7), [true]);
    LeadingZeros(LeadingBits(7));
    PolyBits(poly);
    FeedOne();
  }

  lemma OneBit(one: byte)
    requires one == 1
    ensures ByteBits(one) == LeadingBits(7) + [true]
  {
    ByteOfNibbles(0, one);
    FourBits(0);
    FourBits(one);
  }

  lemma FeedOne()
    ensures Feed(Zero(), [true]) == seq(16, i => Poly(i))
  {
    var bs := [true];
    assert bs[..1] == bs && bs[1..] == [];
    assert Shift(XorTop(Zero(), bs)) == seq(16, i => Poly(i));
  }

  function LeadingBits(n: nat): (z: Bits)
    ensures |z| == n && forall i :: 0 <= i < n ==> !z[i]
  {
    seq(n, _ => false)
  }

  lemma ByteFed(data: seq<byte>, i: nat, before: Reg)
    requires i < |data| && before == Crc(data[..i])
    ensures Crc(data[..i + 1]) == ShiftN(XorTop(before, ByteBits(data[i])), 8)
  {
    assert data[..i + 1] == data[..i] + [data[i]];
    MessageAppend(data[..i], [data[i]]);
    MessageOne(data[i]);
    FeedAppend(Zero(), Message(data[..i]), ByteBits(data[i]));
    FeedAtOnce(before, ByteBits(data[i]));
  }
}
