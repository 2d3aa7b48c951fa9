/** Montgomery exponentiation on the RSA engine (`sha1_full`): the negated inverse of the
modulus, the transfer of numbers to and from the engine, and the square-and-multiply loop. */
module Montgomery {
  import opened Words
  import opened Positional
  import opened Bignum
  import opened BignumShift
  import opened BignumBytes
  import opened ModArith

  // ---------- the Montgomery constant ----------

  /** Lifting an inverse of `d` from modulus `l` to `2 * l`: add `l` when the next bit is wrong. */
  lemma LiftStep(d: int, y: int, l: int)
    requires d % 2 == 1 && l > 1 && d * y % l == 1
    ensures d * (if d * y / l % 2 == 1 then y + l else y) % (2 * l) == 1
  {
    var m := d * y;
    var q := m / l;
    DivisionEquation(m, l);
    if q % 2 == 1 {
      LiftOdd(d, y, l, q);
    } else {
      LiftArith(m, q, l);
    }
  }

  lemma LiftOdd(d: int, y: int, l: int, q: int)
    requires d % 2 == 1 && q % 2 == 1 && l > 1 && d * y == q * l + 1
    ensures d * (y + l) % (2 * l) == 1
  {
    assert d * (y + l) == d * y + d * l;
    assert (q + d) * l == q * l + d * l;
    LiftArith(d * (y + l), q + d, l);
  }

  lemma LiftArith(m: int, q: int, l: int)
    requires l > 1 && q % 2 == 0 && m == q * l + 1
    ensures m % (2 * l) == 1
  {
    assert q * l == q / 2 * (2 * l);
    DivModUnique(m, 2 * l, q / 2, 1);
  }

  /** A bit below 2^32 can be read from the product truncated to 32 bits. */
  lemma BitOfWord(m: int, l: int, h: int)
    requires l > 0 && l * h == TWO32 / 2
    ensures m % TWO32 / l % 2 == m / l % 2
  {
    var p, c := m % TWO32, m / TWO32;
    DivisionEquation(p, l);
    MulSame(c, TWO32, 2 * (l * h));
    BitArith(m, c, p, l, h, p / l, p % l);
    EvenTail(h, c, p / l);
  }

  lemma BitArith(m: int, c: int, p: int, l: int, h: int, q: int, r: int)
    requires l > 0 && m == c * (2 * (l * h)) + p && p == q * l + r && 0 <= r < l
    ensures m / l == q + 2 * h * c
  {
    assert c * (2 * (l * h)) == 2 * h * c * l;
    assert (q + 2 * h * c) * l == q * l + 2 * h * c * l;
    DivModUnique(m, l, q + 2 * h * c, r);
  }

  lemma WordPow()
    ensures Pow(2, 31) == TWO32 / 2 && Pow(2, 32) == TWO32
  {
    BaseIsPow2(0);
    PowAdd(2, 28, 3);
    assert Pow(2, 1) == 2 && Pow(2, 2) == 4 && Pow(2, 3) == 8;
  }

  ghost predicate InverseMod(d: int, y: int, l: int) { l > 1 && d * y % l == 1 }

  /** One step of the loop, in 32-bit arithmetic. */
  method Lift(dp0: word, y: int, left: int, ghost h: int) returns (y': int)
    requires left > 1 && left * h == TWO32 / 2 && 0 < y < left
    ensures 0 < y' < 2 * left
    ensures dp0 % 2 == 1 && InverseMod(dp0, y, left) ==> InverseMod(dp0, y', 2 * left)
  {
    BitOfWord(dp0 * y, left, h);
    if dp0 % 2 == 1 && InverseMod(dp0, y, left) { LiftStep(dp0, y, left); }
    if dp0 * y % TWO32 / left % 2 == 1 {
      y' := y + left;
    } else {
      y' := y;
    }
  }

  /** The 31-step loop of `sha1_full`. The result is minus the inverse of `dp0` modulo 2^32
  exactly when `dp0` is odd. */
  method MontgomeryConstant(dp0: word) returns (mc: word)
    ensures mc * dp0 % TWO32 == TWO32 - 1 <==> dp0 % 2 == 1
  {
    var y, left := 1, 1;
    WordPow();
    var i := 31;
    while i != 0
      invariant 0 <= i <= 31 && left > 0 && left * Pow(2, i) == TWO32 / 2
      invariant 0 < y < 2 * left
      invariant dp0 % 2 == 1 ==> InverseMod(dp0, y, 2 * left)
    {
      MulAssoc(left, 2, Pow(2, i - 1));
      left := 2 * left;
      y := Lift(dp0, y, left, Pow(2, i - 1));
      i := i - 1;
    }
    mc := TWO32 - y;
    Negated(dp0, y);
  }

  lemma Negated(d: int, y: int)
    ensures d % 2 == 1 && d * y % TWO32 == 1 ==> (TWO32 - y) * d % TWO32 == TWO32 - 1
    ensures d % 2 == 0 ==> (TWO32 - y) * d % TWO32 != TWO32 - 1
  {
    var m := (TWO32 - y) * d;
    assert m == TWO32 * d - d * y;
    if d % 2 == 0 {
      assert m == 2 * ((TWO32 - y) * (d / 2));
    } else if d * y % TWO32 == 1 {
      DivModUnique(m, TWO32, d - d * y / TWO32 - 1, TWO32 - 1);
    }
  }

  /** The low 32 bits of the modulus, put together from its two lowest digits. */
  method LowWord(n: MpInt) returns (dp0: word)
    requires n.Clamped() && n.used > 0
    ensures dp0 == n.Mag() % TWO32
  {
    ghost var s := n.dp[..n.used];
    assert 0 <= s[0] < BASE;
    if n.used > 1 {
      assert 0 <= s[1] < BASE;
      dp0 := n.dp[0] + n.dp[1] * BASE % TWO32;
      TwoDigits(s);
    } else {
      dp0 := n.dp[0];
      assert s == [] + [s[0]];
      ValSnoc([], s[0], BASE);
    }
  }

  lemma TwoDigits(s: seq<int>)
    requires |s| >= 2 && 0 <= s[0] < BASE && 0 <= s[1]
    ensures Val(s, BASE) % TWO32 == s[0] + s[1] * BASE % TWO32
  {
    var r := Val(s[1..][1..], BASE);
    assert Val(s, BASE) == s[0] + BASE * (s[1] + BASE * r);
    LowOfTwo(s[0], s[1] / 16, s[1] % 16, r);
    assert s[1] == 16 * (s[1] / 16) + s[1] % 16;
  }

  /** Of the second digit, `16 * h + l`, four bits belong to the low word. */
  lemma LowOfTwo(x: int, h: int, l: int, r: int)
    requires 0 <= x < BASE && 0 <= l < 16
    ensures (x + BASE * (16 * h + l + BASE * r)) % TWO32 == x + (16 * h + l) * BASE % TWO32
  {
    DivModUnique(x + BASE * (16 * h + l + BASE * r), TWO32, h + BASE / 16 * r, x + BASE * l);
    DivModUnique((16 * h + l) * BASE, TWO32, h, BASE * l);
  }

  // ---------- the engine ----------

  /** The low `len` bytes of `z`, least significant first. */
  function LowBytes(z: nat, len: nat): (bs: seq<byte>)
    ensures |bs| == len
  {
    if len == 0 then [] else [z % 256] + LowBytes(z / 256, len - 1)
  }

  lemma {:induction false} LowBytesValue(z: nat, len: nat)
    ensures Pow(256, len) > 0 && Val(LowBytes(z, len), 256) == z % Pow(256, len)
  {
    PowPositive(256, len);
    if len > 0 {
      var p := Pow(256, len - 1);
      LowBytesValue(z / 256, len - 1);
      assert LowBytes(z, len)[1..] == LowBytes(z / 256, len - 1);
      DivisionEquation(z / 256, p);
      NestedMod(z, z / 256, z / 256 / p, z / 256 % p, p);
    }
  }

  lemma NestedMod(z: int, y: int, q: int, r: int, p: int)
    requires p > 0 && y == z / 256 && y == q * p + r && 0 <= r < p
    ensures z % (256 * p) == z % 256 + 256 * r
  {
    assert 256 * (q * p) == q * (256 * p);
    DivModUnique(z, 256 * p, q, z % 256 + 256 * r);
  }

  /** The operand buffers of the engine: X, Y, modulus and result. */
  datatype Buffer = A | B | M | D

  lemma OddFactor(c: int, n: int)
    requires c * n % TWO32 == TWO32 - 1
    ensures n % 2 == 1
  {
    Parity(c, n);
  }

  lemma Parity(c: int, n: int)
    ensures c * n % 2 == if n % 2 == 0 then 0 else c % 2
  {
    var m, r := n / 2, n % 2;
    assert n == 2 * m + r;
    ParityArith(c, m, r);
    EvenPlus(c * m, if r == 0 then 0 else c);
  }

  lemma ParityArith(c: int, m: int, r: int)
    requires r == 0 || r == 1
    ensures c * (2 * m + r) == 2 * (c * m) + if r == 0 then 0 else c
  {}

  lemma EvenPlus(k: int, x: int)
    ensures (2 * k + x) % 2 == x % 2
  {}

  /** The memory-mapped engine: four operand buffers of 256 bytes, the operand size in words
  and the Montgomery constant. */
  class RsaEngine {
    var buf: map<Buffer, seq<byte>>
    var size: nat
    var mc: word

    ghost predicate Valid()
      reads this
    {
      1 <= size <= 64 && forall b: Buffer :: b in buf && |buf[b]| == 256
    }

    function Number(b: Buffer): nat
      reads this
      requires Valid()
    {
      ValBound(buf[b][..4 * size], 256);
      Val(buf[b][..4 * size], 256)
    }

    /** The constant belongs to the modulus, which is therefore odd. */
    ghost predicate Ready()
      reads this
    {
      Valid() && mc * Number(M) % TWO32 == TWO32 - 1
    }

    constructor ()
      ensures Valid()
    {
      var zero: seq<byte> := seq(256, _ => 0);
      var empty := map[A := zero, B := zero, M := zero, D := zero];
      forall b: Buffer ensures b in empty && |empty[b]| == 256 {
        match b case A => case B => case M => case D =>
      }
      buf, size, mc := empty, 1, 0;
    }

    /** Overwrites the operand part of a buffer. */
    method Load(target: Buffer, bytes: seq<byte>)
      requires Valid() && |bytes| == 4 * size
      modifies this`buf
      ensures Valid() && Number(target) == Val(bytes, 256)
      ensures forall b: Buffer :: b != target ==> buf[b] == old(buf[b])
    {
      buf := buf[target := bytes + buf[target][4 * size..]];
      assert buf[target][..4 * size] == bytes;
    }

    /** One command: the Montgomery product of two buffers, stored in a third. */
    method Multiply(x: Buffer, y: Buffer, target: Buffer)
      requires Ready() && target != M
      modifies this`buf
      ensures Ready()
      ensures forall b: Buffer :: b != target ==> buf[b] == old(buf[b])
      ensures old(Number(M)) > 0
      ensures Number(target) == MontMul(old(Number(x)), old(Number(y)), old(Number(M)), 32 * size)
    {
      OddFactor(mc, Number(M));
      var z := MontMul(Number(x), Number(y), Number(M), 32 * size);
      MontMulCorrect(Number(x), Number(y), Number(M), 32 * size);
      ValBound(buf[M][..4 * size], 256);
      LowBytesValue(z, 4 * size);
      Small(z, Pow(256, 4 * size));
      ghost var n := Number(M);
      Load(target, LowBytes(z, 4 * size));
      assert Number(M) == n;
    }

    /** The four values written to RSACON. */
    method Command(code: int)
      requires Ready() && code in {0x20, 0x24, 0x28, 0x2C}
      modifies this`buf
      ensures Ready() && buf[B] == old(buf[B]) && buf[M] == old(buf[M]) && old(Number(M)) > 0
      ensures code == 0x2C ==> Number(D) == MontMul(old(Number(A)), old(Number(A)), old(Number(M)), 32 * size)
      ensures code == 0x20 ==> Number(A) == MontMul(old(Number(D)), old(Number(D)), old(Number(M)), 32 * size)
      ensures code == 0x24 ==> Number(D) == MontMul(old(Number(A)), old(Number(B)), old(Number(M)), 32 * size)
      ensures code == 0x28 ==> Number(A) == MontMul(old(Number(B)), old(Number(D)), old(Number(M)), 32 * size)
    {
      if code == 0x2C {
        Multiply(A, A, D);
      } else if code == 0x20 {
        Multiply(D, D, A);
      } else if code == 0x24 {
        Multiply(A, B, D);
      } else {
        Multiply(B, D, A);
      }
    }
  }

  // ---------- the exponentiation loop ----------

  /** The buffer that holds the running product: A, or D when `monmulFlag` is set. */
  function Current(flag: int): Buffer { if flag == 0 then A else D }

  method Square(eng: RsaEngine, flag: int, ghost u: nat) returns (flag': int)
    requires eng.Ready() && eng.Number(M) > 0 && eng.Number(Current(flag)) == Form(u, eng.Number(M), 32 * eng.size)
    modifies eng`buf
    ensures eng.Ready() && eng.buf[B] == old(eng.buf[B]) && eng.buf[M] == old(eng.buf[M])
    ensures u * u >= 0 && eng.Number(Current(flag')) == Form(u * u, eng.Number(M), 32 * eng.size)
  {
    OddFactor(eng.mc, eng.Number(M));
    FormProduct(u, u, eng.Number(M), 32 * eng.size);
    if flag == 0 {
      eng.Command(0x2C);
      flag' := 1;
    } else {
      eng.Command(0x20);
      flag' := 0;
    }
  }

  method TimesBase(eng: RsaEngine, flag: int, ghost u: nat, ghost v: nat) returns (flag': int)
    requires eng.Ready() && eng.Number(M) > 0 && eng.Number(Current(flag)) == Form(u, eng.Number(M), 32 * eng.size)
    requires eng.Number(B) == Form(v, eng.Number(M), 32 * eng.size)
    modifies eng`buf
    ensures eng.Ready() && eng.buf[B] == old(eng.buf[B]) && eng.buf[M] == old(eng.buf[M])
    ensures u * v >= 0 && eng.Number(Current(flag')) == Form(u * v, eng.Number(M), 32 * eng.size)
  {
    OddFactor(eng.mc, eng.Number(M));
    FormProduct(u, v, eng.Number(M), 32 * eng.size);
    FormProduct(v, u, eng.Number(M), 32 * eng.size);
    assert u * v == v * u;
    if flag == 0 {
      eng.Command(0x24);
      flag' := 1;
    } else {
      eng.Command(0x28);
      flag' := 0;
    }
  }

  /** Bit `i` of the exponent, read from its digits. */
  method ExponentBit(e: MpInt, i: nat) returns (bit: int)
    requires e.Clamped() && e.Mag() >= 0
    ensures bit == Shr(e.Mag(), i) % 2
  {
    var digit, off := i / DIGIT_BIT, i % DIGIT_BIT;
    PowPositive(2, off);
    bit := 0;
    if digit < e.used {
      BitInDigit(e.dp[..e.used], i);
      bit := e.dp[digit] / Pow(2, off) % 2;
    } else {
      NothingToMask(e.dp[..e.used], i);
      DivModUnique(e.Mag(), Pow(2, i), 0, e.Mag());
    }
  }

  lemma BitInDigit(s: seq<int>, i: nat)
    requires Digits(s, BASE) && i / DIGIT_BIT < |s| && Val(s, BASE) >= 0
    ensures Pow(2, i % DIGIT_BIT) > 0
    ensures Shr(Val(s, BASE), i) % 2 == s[i / DIGIT_BIT] / Pow(2, i % DIGIT_BIT) % 2
  {
    var n := i / DIGIT_BIT;
    assert s == s[..n] + ([s[n]] + s[n + 1..]);
    BitOfParts(s[..n], s[n], s[n + 1..], i);
  }

  lemma BitOfParts(lo: seq<int>, x: int, hi: seq<int>, i: nat)
    requires Digits(lo, BASE) && x >= 0 && |lo| == i / DIGIT_BIT && Val(lo + ([x] + hi), BASE) >= 0
    ensures Pow(2, i % DIGIT_BIT) > 0
    ensures Shr(Val(lo + ([x] + hi), BASE), i) % 2 == x / Pow(2, i % DIGIT_BIT) % 2
  {
    var w := Pow(2, i % DIGIT_BIT);
    PowPositive(2, i % DIGIT_BIT);
    PowPositive(2, i);
    var q := MaskedValue(lo, x, hi, i, w);
    DivModUnique(Val(lo + ([x] + hi), BASE), Pow(2, i), q, Val(lo + [x % w], BASE));
    EvenTail(Pow(2, DIGIT_BIT - i % DIGIT_BIT - 1), Val(hi, BASE), x / w);
  }

  lemma EvenTail(h: int, v: int, x: int)
    ensures (x + 2 * h * v) % 2 == x % 2
  {
    assert 2 * h * v == 2 * (h * v);
  }

  lemma PowStep(base: nat, h: nat, bit: nat)
    requires bit == 0 || bit == 1
    ensures Pow(base, 2 * h + bit) == if bit == 1 then Pow(base, h) * Pow(base, h) * base
        else Pow(base, h) * Pow(base, h)
  {
    PowAdd(base, h, h);
    assert h + h == 2 * h;
  }

  /** The loop over the bits of the exponent, from the top. Before the pass for bit `i` the
  current buffer holds `base` to the power `e >> (i + 1)`, in Montgomery form. */
  method PowerLoop(eng: RsaEngine, e: MpInt, ghost base: nat) returns (flag: int)
    requires eng.Ready() && eng.Number(M) > 0 && e.Clamped() && e.Mag() >= 0
    requires eng.Number(A) == Form(1, eng.Number(M), 32 * eng.size)
    requires eng.Number(B) == Form(base, eng.Number(M), 32 * eng.size)
    modifies eng`buf
    ensures eng.Ready() && eng.buf[M] == old(eng.buf[M])
    ensures eng.Number(Current(flag)) == Form(Pow(base, e.Mag()), old(eng.Number(M)), 32 * eng.size)
  {
    var nbits := CountBits(e);
    flag := 0;
    ghost var v, n, k := e.Mag(), eng.Number(M), 32 * eng.size;
    NoBitsLeft(v, nbits);
    var i := nbits - 1;
    while i >= 0
      invariant -1 <= i < nbits && eng.Ready() && eng.buf[M] == old(eng.buf[M]) && eng.buf[B] == old(eng.buf[B])
      invariant eng.Number(M) == n && eng.Number(B) == Form(base, n, k)
      invariant eng.Number(Current(flag)) == Form(Pow(base, Shr(v, i + 1)), n, k)
    {
      ghost var h := Shr(v, i + 1);
      ShrStep(v, i);
      PowStep(base, h, Shr(v, i) % 2);
      flag := Square(eng, flag, Pow(base, h));
      var bit := ExponentBit(e, i);
      if bit == 1 {
        flag := TimesBase(eng, flag, Pow(base, h) * Pow(base, h), base);
      }
      i := i - 1;
    }
    assert Shr(v, 0) == v;
  }

  lemma NoBitsLeft(v: nat, nbits: nat)
    requires BitLength(v, nbits)
    ensures Shr(v, nbits) == 0
  {
    PowPositive(2, nbits);
    DivModUnique(v, Pow(2, nbits), 0, v);
  }

  // ---------- to the engine and back ----------

  lemma {:induction false} PaddedBytes(n: nat, z: seq<byte>, len: nat)
    requires len <= |BytesLE(n)| + |z| && forall i :: 0 <= i < |z| ==> z[i] == 0
    ensures (BytesLE(n) + z)[..len] == LowBytes(n, len)
    decreases len
  {
    if len > 0 {
      if n == 0 {
        assert BytesLE(n) + z == z && z[..len] == [0] + z[1..][..len - 1];
        PaddedBytes(0, z[1..], len - 1);
        assert BytesLE(0) + z[1..] == z[1..];
      } else {
        var rest := BytesLE(n / 256) + z;
        PaddedBytes(n / 256, z, len - 1);
        assert BytesLE(n) + z == [n % 256] + rest;
        assert ([n % 256] + rest)[..len] == [n % 256] + rest[..len - 1];
      }
    }
  }

  /** `hash_ctx_init`: a number into an operand buffer. It arrives whole exactly when it fits
  the operand size. When the copy it works on cannot be allocated, zero arrives instead: the
  source ignores the error. */
  method Transfer(eng: RsaEngine, target: Buffer, bn: MpInt) returns (ok: bool)
    requires eng.Valid() && bn.Clamped() && bn.Mag() >= 0 && |BytesLE(bn.Mag())| <= 256
    modifies eng`buf
    ensures eng.Valid() && forall b: Buffer :: b != target ==> eng.buf[b] == old(eng.buf[b])
    ensures Pow(256, 4 * eng.size) > 0
    ensures ok ==> eng.Number(target) == bn.Mag() % Pow(256, 4 * eng.size)
    ensures !ok ==> eng.Number(target) == 0
  {
    ghost var n := bn.Mag();
    var bytes := new byte[256](_ => 0);
    var ret, count := RsaCore(bn, bytes);
    LowBytesValue(n, 4 * eng.size);
    if ret == 0 {
      PaddedBytes(n, bytes[count..], 4 * eng.size);
      assert bytes[..] == BytesLE(n) + bytes[count..];
      assert bytes[..4 * eng.size] == bytes[..][..4 * eng.size];
    } else {
      ValZeros(bytes[..4 * eng.size], 256);
    }
    eng.Load(target, bytes[..4 * eng.size]);
    ok := ret == 0;
  }

  lemma {:induction false} BigLittle(s: seq<byte>)
    ensures BigEndian(Reverse(s)) == Val(s, 256)
  {
    if s != [] {
      BigLittle(s[1..]);
      assert Reverse(s)[..|s| - 1] == Reverse(s[1..]);
    }
  }

  /** The read-back: the words of the current buffer, byte-reversed and parsed. */
  method ReadBack(eng: RsaEngine, source: Buffer, res: MpInt) returns (ret: int)
    requires eng.Valid() && res.Shape()
    modifies res, res.dp
    ensures ret == 0 || ret == -1
    ensures ret == 0 ==> res.Clamped() && res.sign == 0 && res.Mag() == eng.Number(source)
  {
    var len := 4 * eng.size;
    var words := eng.buf[source][..len];
    var bytes := new byte[len](i requires 0 <= i < len => words[i]);
    assert bytes[..len] == words;
    ReverseInPlace(bytes, len);
    BigLittle(words);
    ret := ReadUnsignedBin(res, bytes[..len]);
  }

  /** The operand size for a modulus of so many bits, in words. */
  function OperandWords(bits: nat): (n: nat)
    ensures bits <= 32 * n && (bits > 0 ==> 32 * (n - 1) < bits) && (bits == 0 ==> n == 0)
  {
    bits / 32 + if bits % 32 == 0 then 0 else 1
  }

  /** Everything below the modulus fits the operand size chosen for it. */
  lemma OperandsFit(n: nat, bits: nat, v: nat)
    requires n > 0 && BitLength(n, bits) && bits <= 2048 && v <= n
    ensures OperandWords(bits) <= 64 && |BytesLE(v)| <= 256 && v < Pow(256, 4 * OperandWords(bits))
  {
    var size := OperandWords(bits);
    FitsBytes(v, bits, 4 * size);
    LittleBig(v);
    if |BytesLE(v)| > 4 * size { PowMonotone(256, 4 * size, |BytesLE(v)| - 1); }
  }

  lemma FitsBytes(v: nat, bits: nat, len: nat)
    requires v < Pow(2, bits) && bits <= 8 * len
    ensures v < Pow(256, len)
  {
    BytePow();
    PowMul(2, 8, len);
    PowMonotone(2, bits, 8 * len);
  }

  /** Writes RSASIZE, RSAMC and the operands M, B and A. */
  method SetUp(eng: RsaEngine, bits: nat, mc: word, n: MpInt, x: MpInt, r: MpInt) returns (ok: bool)
    requires eng.Valid() && n.Clamped() && x.Clamped() && r.Clamped()
    requires n.Mag() > 0 && BitLength(n.Mag(), bits) && bits <= 2048
    requires 0 <= x.Mag() < n.Mag() && 0 <= r.Mag() < n.Mag()
    modifies eng
    ensures eng.Valid() && eng.mc == mc && eng.size == OperandWords(bits)
    ensures ok ==> eng.Number(M) == n.Mag() && eng.Number(B) == x.Mag() && eng.Number(A) == r.Mag()
  {
    OperandsFit(n.Mag(), bits, 0);
    eng.size := OperandWords(bits);
    eng.mc := mc;
    var okM := TransferWhole(eng, M, n, n.Mag(), bits);
    var okB := TransferWhole(eng, B, x, n.Mag(), bits);
    var okA := TransferWhole(eng, A, r, n.Mag(), bits);
    ok := okM && okB && okA;
  }

  method TransferWhole(eng: RsaEngine, target: Buffer, bn: MpInt, ghost n: nat, ghost bits: nat) returns (ok: bool)
    requires eng.Valid() && bn.Clamped() && 0 <= bn.Mag() <= n && BitLength(n, bits) && bits <= 2048
    requires eng.size == OperandWords(bits)
    modifies eng`buf
    ensures eng.Valid() && forall b: Buffer :: b != target ==> eng.buf[b] == old(eng.buf[b])
    ensures ok ==> eng.Number(target) == bn.Mag()
  {
    OperandsFit(n, bits, bn.Mag());
    Small(bn.Mag(), Pow(256, 4 * eng.size));
    ok := Transfer(eng, target, bn);
  }

  lemma SameLength(n: int, bits: nat, bits': nat)
    requires BitLength(n, bits) && BitLength(n, bits')
    ensures bits == bits'
  {
    if n != 0 {
      PowStrict(2, bits - 1, bits');
      PowStrict(2, bits' - 1, bits);
    }
  }

  lemma ConstantBelongs(mc: int, dp0: int, n: int)
    requires dp0 == n % TWO32 && mc * dp0 % TWO32 == TWO32 - 1
    ensures mc * n % TWO32 == TWO32 - 1
  {
    CongMod(n, TWO32);
    CongMul(dp0, n, mc, TWO32);
    assert mc * dp0 == dp0 * mc && mc * n == n * mc;
  }

  lemma OddWord(n: int)
    ensures n % TWO32 % 2 == n % 2
  {}

  method ConstantOf(n: MpInt) returns (mc: word)
    requires n.Clamped() && n.Mag() > 0 && n.Mag() % 2 == 1
    ensures mc * n.Mag() % TWO32 == TWO32 - 1
  {
    ghost var m := n.Mag();
    var dp0 := LowWord(n);
    OddWord(m);
    mc := MontgomeryConstant(dp0);
    ConstantBelongs(mc, dp0, m);
  }

  /** The Montgomery part of `sha1_full`, from the constant to the read-back, given the two
  residues it starts from: `base` and 1 in Montgomery form. What comes back is the power, still
  in Montgomery form. `ok` tells whether the operands reached the engine; when one did not, the
  engine computes on zeros and nothing is claimed. */
  method MontgomeryPower(
    eng: RsaEngine, e: MpInt, n: MpInt, x: MpInt, r: MpInt, res: MpInt, ghost base: nat, ghost bits: nat)
    returns (ret: int, ok: bool)
    requires eng.Valid() && e.Clamped() && n.Clamped() && x.Clamped() && r.Clamped() && res.Shape()
    requires e.Mag() >= 0 && n.Mag() > 0 && n.Mag() % 2 == 1 && BitLength(n.Mag(), bits) && bits <= 2048
    requires x.Mag() == Form(base, n.Mag(), 32 * OperandWords(bits))
    requires r.Mag() == Form(1, n.Mag(), 32 * OperandWords(bits))
    modifies eng, res, res.dp
    ensures ret == 0 || ret == -1
    ensures ret == 0 && ok ==> res.Clamped() && res.sign == 0
    ensures ret == 0 && ok ==> res.Mag() == Form(Pow(base, old(e.Mag())), old(n.Mag()), 32 * OperandWords(bits))
    ensures ret == 0 && ok ==>
      forall s: nat, t: nat, inv: nat :: Splits(base, old(e.Mag()), old(n.Mag()), s, t, inv) ==>
        (res.Mag() == Pow(base, old(e.Mag())) % old(n.Mag()) <==> Pow(2, 32 * OperandWords(bits)) % t == 1 % t)
    ensures var b, m, k := Pow(base, old(e.Mag())), old(n.Mag()), 32 * OperandWords(bits);
      ret == 0 && ok ==> (res.Mag() == b % m <==> ReadBackExact(b, m, k))
  {
    ReadBackIsPower(Pow(base, e.Mag()), n.Mag(), 32 * OperandWords(bits));
    var mc := ConstantOf(n);
    var k := CountBits(n);
    SameLength(n.Mag(), k, bits);
    ok := SetUp(eng, k, mc, n, x, r);
    if !ok { return 0, false; }
    var flag := PowerLoop(eng, e, base);
    ret := ReadBack(eng, Current(flag), res);
    forall s: nat, t: nat, inv: nat | Splits(base, old(e.Mag()), old(n.Mag()), s, t, inv)
      ensures Right(base, old(e.Mag()), old(n.Mag()), 32 * OperandWords(bits))
          <==> Pow(2, 32 * OperandWords(bits)) % t == 1 % t
    {
      ReadBackOnInputs(base, old(e.Mag()), old(n.Mag()), s, t, inv, 32 * OperandWords(bits));
    }
  }

  /** Without the final reduction a result `b` is right exactly when the modulus divides
  `b * (2^k - 1)`. */
  ghost predicate ReadBackExact(b: nat, n: nat, k: nat)
    requires n > 0
  {
    b * (Pow(2, k) - 1) % n == 0
  }

  lemma ReadBackIsPower(b: nat, n: nat, k: nat)
    requires n > 0
    ensures Form(b, n, k) == b % n <==> ReadBackExact(b, n, k)
  {
    var r: int := Pow(2, k);
    assert b * (r - 1) == b * r - b;
    DifferenceDivides(b * r, b, n);
  }

  lemma DifferenceDivides(x: int, y: int, n: int)
    requires n > 0
    ensures Cong(x, y, n) <==> (x - y) % n == 0
  {
    if Cong(x, y, n) {
      var k := CongElim(x, y, n);
      DivModUnique(x - y, n, k, 0);
    }
    if (x - y) % n == 0 { CongIntro(x, y, n, (x - y) / n); }
  }

  ghost predicate Inverse(b: nat, inv: nat, t: nat)
    requires t > 0
  {
    b * inv % t == 1 % t
  }

  lemma {:induction false} PowInverse(b: nat, inv: nat, e: nat, t: nat)
    requires t > 0 && Inverse(b, inv, t)
    ensures Inverse(Pow(b, e), Pow(inv, e), t)
    decreases e
  {
    if e > 0 {
      var x, y := Pow(b, e - 1), Pow(inv, e - 1);
      PowInverse(b, inv, e - 1, t);
      CongMul(x * y, 1, b * inv, t);
      CongMul(b * inv, 1, 1, t);
      PairUp(b, inv, x, y);
    }
  }

  lemma PairUp(b: int, i: int, x: int, y: int)
    ensures b * x * (i * y) == x * y * (b * i)
  {}

  /** The modulus is `s * t`, where `s` divides the base, unless it is 1, and the base is invertible
  modulo `t`. Every square-free modulus, such as that of an RSA key, splits like this for every base
  and every exponent above 0; with `s` = 1 and an invertible base, so does any modulus. */
  ghost predicate Splits(base: nat, e: nat, n: nat, s: nat, t: nat, inv: nat)
  {
    s > 0 && t > 0 && n == s * t && (s == 1 || (e > 0 && base % s == 0)) && Inverse(base, inv, t)
  }

  /** The result read back is the power. */
  ghost predicate Right(base: nat, e: nat, n: nat, k: nat)
    requires n > 0
  {
    Form(Pow(base, e), n, k) == Pow(base, e) % n
  }

  /** On the inputs: the power is read back right exactly when `2^k` is 1 modulo the part of the
  modulus that has nothing in common with the base. */
  lemma ReadBackOnInputs(base: nat, e: nat, n: nat, s: nat, t: nat, inv: nat, k: nat)
    requires n > 0 && Splits(base, e, n, s, t, inv)
    ensures Right(base, e, n, k) <==> Pow(2, k) % t == 1 % t
  {
    var b, x := Pow(base, e), Pow(2, k) - 1;
    ReadBackIsPower(b, n, k);
    PowInverse(base, inv, e, t);
    DifferenceDivides(Pow(2, k), 1, t);
    if ReadBackExact(b, n, k) { FactorDivides(b, x, n, s, t, Pow(inv, e)); }
    if x % t == 0 {
      var y := PowDivides(base, e, s);
      ProductDivides(b, x, n, s, t, y);
    }
  }

  lemma PowDivides(base: nat, e: nat, s: nat) returns (y: int)
    requires s > 0 && (s == 1 || (e > 0 && base % s == 0))
    ensures Pow(base, e) == s * y
  {
    if s == 1 {
      y := Pow(base, e);
    } else {
      y := base / s * Pow(base, e - 1);
      DivisionEquation(base, s);
      MulAssoc(s, base / s, Pow(base, e - 1));
    }
  }

  lemma FactorDivides(b: int, x: int, n: int, s: int, t: int, inv: int)
    requires n > 0 && t > 0 && n == s * t && b * x % n == 0 && b * inv % t == 1 % t
    ensures x % t == 0
  {
    var q := b * x / n;
    DivisionEquation(b * x, n);
    assert b * x == q * s * t by { MulAssoc(q, s, t); }
    CongMul(b * inv, 1, x, t);
    assert b * inv * x == b * x * inv && b * x * inv == q * s * inv * t;
    DivModUnique(b * inv * x, t, q * s * inv, 0);
  }

  lemma ProductDivides(b: int, x: int, n: int, s: int, t: int, y: int)
    requires n > 0 && t > 0 && n == s * t && b == s * y && x % t == 0
    ensures b * x % n == 0
  {
    var m := x / t;
    DivisionEquation(x, t);
    assert b * x == y * m * n;
    DivModUnique(b * x, n, y * m, 0);
  }

  /** It is right for every exponent exactly when `2^k` is 1 modulo the modulus, whatever the base. */
  lemma ReadBackAlways(base: nat, n: nat, k: nat)
    requires n > 0
    ensures (forall e: nat :: Right(base, e, n, k)) <==> Pow(2, k) % n == 1 % n
  {
    var r := Pow(2, k);
    if forall e: nat :: Right(base, e, n, k) {
      assert Right(base, 0, n, k) && Pow(base, 0) == 1;
    }
    if r % n == 1 % n {
      forall e: nat ensures Right(base, e, n, k) {
        CongMul(r, 1, Pow(base, e), n);
        assert r * Pow(base, e) == Pow(base, e) * r;
      }
    }
  }

  /** One is not read back as one: modulo 7, with one word, `2^32` is 4. */
  lemma ReadBackExample()
    ensures Form(1, 7, 32) == 4
  {
    WordPow();
  }
}
