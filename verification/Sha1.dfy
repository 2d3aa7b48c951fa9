/** The streaming SHA-1 context (`sha1_init`, `sha1_update`, `sha1_final`).

The 64-byte block transform runs in hardware; it is a parameter here, and everything is
proved for whatever it computes. The padding is that of section 5.1.1 of FIPS 180-4. */
module Sha1 {
  import opened Words
  import opened Chunks
  import opened BignumBytes

  /** The five state words. */
  datatype Hash = Hash(h0: word, h1: word, h2: word, h3: word, h4: word)

  type Transform = (Hash, seq<byte>) -> Hash

  const IV := Hash(0x67452301, 0xEFCDAB89, 0x98BADCFE, 0x10325476, 0xC3D2E1F0)

  /** The hash of a whole number of blocks. */
  function Fold(f: Transform, h: Hash, m: seq<byte>): Hash
    decreases |m|
  {
    if |m| < 64 then h else Fold(f, f(h, m[..64]), m[64..])
  }

  lemma {:induction false} FoldAppend(f: Transform, h: Hash, m: seq<byte>, t: seq<byte>)
    requires |m| % 64 == 0
    ensures Fold(f, h, m + t) == Fold(f, Fold(f, h, m), t)
    decreases |m|
  {
    if |m| == 0 {
      assert m + t == t;
    } else {
      assert (m + t)[..64] == m[..64] && (m + t)[64..] == m[64..] + t;
      FoldAppend(f, f(h, m[..64]), m[64..], t);
    }
  }

  lemma FoldBlock(f: Transform, h: Hash, m: seq<byte>, block: seq<byte>)
    requires |m| % 64 == 0 && |block| == 64
    ensures Fold(f, h, m + block) == f(Fold(f, h, m), block)
  {
    FoldAppend(f, h, m, block);
    assert block[..64] == block;
  }

  function Zeros(n: nat): (z: seq<byte>)
    ensures |z| == n && forall i :: 0 <= i < n ==> z[i] == 0
  {
    seq(n, _ => 0)
  }

  function BE32(w: word): (bs: seq<byte>)
    ensures |bs| == 4
  {
    [w / 0x100_0000, w / 0x1_0000 % 256, w / 0x100 % 256, w % 256]
  }

  function BE64(n: nat): (bs: seq<byte>)
    requires n < 0x1_0000_0000_0000_0000
    ensures |bs| == 8
  {
    BE32(n / 0x1_0000_0000) + BE32(n % 0x1_0000_0000)
  }

  lemma BigEndian4(x: seq<byte>, b0: byte, b1: byte, b2: byte, b3: byte)
    ensures BigEndian(x + [b0, b1, b2, b3]) == (((BigEndian(x) * 256 + b0) * 256 + b1) * 256 + b2) * 256 + b3
  {
    assert x + [b0, b1, b2, b3] == x + [b0] + [b1] + [b2] + [b3];
    BigEndianSnoc(x, b0);
    BigEndianSnoc(x + [b0], b1);
    BigEndianSnoc(x + [b0] + [b1], b2);
    BigEndianSnoc(x + [b0] + [b1] + [b2], b3);
  }

  lemma BigEndianSnoc(x: seq<byte>, b: byte)
    ensures BigEndian(x + [b]) == BigEndian(x) * 256 + b
  {
    assert (x + [b])[..|x|] == x;
  }

  /** The four bytes of a word, read big-endian behind others. */
  lemma BE32Value(x: seq<byte>, w: word)
    ensures BigEndian(x + BE32(w)) == BigEndian(x) * 0x1_0000_0000 + w
  {
    var bs := BE32(w);
    BigEndian4(x, bs[0], bs[1], bs[2], bs[3]);
    FourBytes(w, w / 0x100, w / 0x1_0000, w / 0x100_0000);
  }

  lemma FourBytes(w: word, w1: int, w2: int, w3: int)
    requires w1 == w / 0x100 && w2 == w / 0x1_0000 && w3 == w / 0x100_0000
    ensures w == ((w3 * 256 + w2 % 256) * 256 + w1 % 256) * 256 + w % 256
  {
    assert w2 == w1 / 0x100 && w3 == w2 / 0x100;
  }

  lemma WordIsBigEndian(w: word)
    ensures BigEndian(BE32(w)) == w
  {
    BE32Value([], w);
    assert [] + BE32(w) == BE32(w);
  }

  lemma LengthIsBigEndian(n: nat)
    requires n < 0x1_0000_0000_0000_0000
    ensures BigEndian(BE64(n)) == n
  {
    WordIsBigEndian(n / 0x1_0000_0000);
    BE32Value(BE32(n / 0x1_0000_0000), n % 0x1_0000_0000);
  }

  /** The initial words, lowest byte first, count up and down in nibbles. */
  lemma IVCounts()
    ensures Reverse(BE32(IV.h0)) + Reverse(BE32(IV.h1)) == [0x01, 0x23, 0x45, 0x67, 0x89, 0xAB, 0xCD, 0xEF]
    ensures Reverse(BE32(IV.h2)) + Reverse(BE32(IV.h3)) == [0xFE, 0xDC, 0xBA, 0x98, 0x76, 0x54, 0x32, 0x10]
    ensures Reverse(BE32(IV.h4)) == [0xF0, 0xE1, 0xD2, 0xC3]
  {
  }

  /** Zero bytes between the 0x80 marker and the length field. */
  function ZeroCount(len: nat): nat { (119 - len % 64) % 64 }

  /** The message, a one bit, zeros, and the bit length in 64 bits (taken modulo 2^64). */
  function Pad(m: seq<byte>): seq<byte> {
    PadWith(m, ZeroCount(|m|), BE64(8 * |m| % 0x1_0000_0000_0000_0000))
  }

  function PadWith(m: seq<byte>, zeros: nat, len: seq<byte>): seq<byte> {
    m + [0x80] + Zeros(zeros) + len
  }

  /** Section 5.1.1: `k` zero bits with `l + 1 + k = 448 (mod 512)`, the least such `k`, then `l`
  in 64 bits. `k` includes the seven zero bits of the marker byte. */
  lemma PadFollowsStandard(m: seq<byte>)
    ensures (8 * |m| + 1 + (7 + 8 * ZeroCount(|m|))) % 512 == 448 && 0 <= 7 + 8 * ZeroCount(|m|) < 512
    ensures |Pad(m)| % 64 == 0 && |Pad(m)| == |m| + 1 + ZeroCount(|m|) + 8
    ensures Pad(m)[..|m|] == m && Pad(m)[|m|] == 0x80
    ensures forall i :: |m| < i < |Pad(m)| - 8 ==> Pad(m)[i] == 0
    ensures 8 * |m| < 0x1_0000_0000_0000_0000 ==> BigEndian(Pad(m)[|Pad(m)| - 8..]) == 8 * |m|
  {
    ZeroCountIsLeast(|m|);
    var len := 8 * |m| % 0x1_0000_0000_0000_0000;
    assert Pad(m)[|Pad(m)| - 8..] == BE64(len);
    LengthIsBigEndian(len);
    Mod64(8 * |m|);
  }

  lemma Mod64(n: nat)
    ensures n < 0x1_0000_0000_0000_0000 ==> n % 0x1_0000_0000_0000_0000 == n
  {}

  lemma ZeroCountIsLeast(len: nat)
    ensures (8 * len + 1 + (7 + 8 * ZeroCount(len))) % 512 == 448 && (len + 1 + ZeroCount(len) + 8) % 64 == 0
  {
    var q, n := len / 64, len % 64;
    var k := if n < 56 then q else q + 1;
    assert ZeroCount(len) == if n < 56 then 55 - n else 119 - n;
    BlockEnd(len + 1 + ZeroCount(len), k);
  }

  lemma BlockEnd(n: int, k: int)
    requires n == 64 * k + 56
    ensures 8 * n % 512 == 448 && (n + 8) % 64 == 0
  {}

  lemma ZeroCountOf(done: nat, rest: nat)
    requires done % 64 == 0 && rest < 64
    ensures ZeroCount(done + rest) == if rest < 56 then 55 - rest else 119 - rest
  {}

  /** The digest: the five words of the final hash, each big-endian. */
  function Digest(h: Hash): seq<byte> {
    BE32(h.h0) + BE32(h.h1) + BE32(h.h2) + BE32(h.h3) + BE32(h.h4)
  }

  /** `bs` holds the words of `h` in order, each with its most significant byte first. */
  ghost predicate HoldsWords(bs: seq<byte>, h: Hash) {
    && |bs| == 20 && BigEndian(bs[0..4]) == h.h0 && BigEndian(bs[4..8]) == h.h1 && BigEndian(bs[8..12]) == h.h2
    && BigEndian(bs[12..16]) == h.h3 && BigEndian(bs[16..20]) == h.h4
  }

  lemma DigestWords(h: Hash)
    ensures HoldsWords(Digest(h), h)
  {
    var bs := Digest(h);
    assert bs[0..4] == BE32(h.h0) && bs[4..8] == BE32(h.h1) && bs[8..12] == BE32(h.h2);
    assert bs[12..16] == BE32(h.h3) && bs[16..20] == BE32(h.h4);
    WordIsBigEndian(h.h0);
    WordIsBigEndian(h.h1);
    WordIsBigEndian(h.h2);
    WordIsBigEndian(h.h3);
    WordIsBigEndian(h.h4);
  }

  function Sha1(f: Transform, m: seq<byte>): seq<byte> {
    Digest(Fold(f, IV, Pad(m)))
  }

  class Context {
    const transform: Transform
    var hi: word        // total_hi
    var lo: word        // total_lo
    var state: Hash
    var bufUsed: word
    var buffer: array<byte>
    ghost var done: seq<byte>  // the whole blocks hashed so far

    ghost predicate Shape()
      reads this
    {
      buffer.Length == 64
    }

    /** State and count belong to the blocks hashed so far; the buffer may be full. */
    ghost predicate Inv()
      reads this
    {
      && Shape() && bufUsed <= 64 && |done| % 64 == 0
      && state == Fold(transform, IV, done) && BitCount(hi, lo, |done|)
    }

    /** As between two calls. */
    ghost predicate Valid()
      reads this
    {
      Inv() && bufUsed < 64
    }

    /** Every byte of the message so far. */
    ghost function Fed(): seq<byte>
      reads this, buffer
      requires Inv()
    {
      done + buffer[..bufUsed]
    }

    constructor (f: Transform)
      ensures Shape() && transform == f && fresh(buffer)
    {
      transform := f;
      hi, lo, state, bufUsed, done := 0, 0, IV, 0, [];
      buffer := new byte[64](_ => 0);
    }

    method Init()
      requires Shape()
      modifies this`hi, this`lo, this`state, this`bufUsed, this`done
      ensures Valid() && Fed() == []
    {
      state := IV;
      bufUsed, hi, lo := 0, 0, 0;
      done := [];
    }

    /** Hashes the full buffer and counts its 512 bits. */
    method Flush()
      requires Inv() && bufUsed == 64
      modifies this`hi, this`lo, this`state, this`bufUsed, this`done
      ensures Valid() && bufUsed == 0 && Fed() == old(Fed())
    {
      ghost var next := done + buffer[..];
      FoldBlock(transform, IV, done, buffer[..]);
      NextBlock(|done|);
      state := transform(state, buffer[..]);
      AddBits(512, |done|);
      assert |next| == |done| + 64;
      done := next;
      bufUsed := 0;
      assert done + buffer[..0] == done;
    }

    /** Adds to the 64-bit count: a wrap of the low word carries into the high word. */
    method AddBits(bits: nat, ghost n: nat)
      requires BitCount(hi, lo, n) && bits <= 512 && bits % 8 == 0
      modifies this`hi, this`lo
      ensures BitCount(hi, lo, n + bits / 8)
    {
      CountMore(hi, lo, n, bits);
      var before := lo;
      lo := (lo + bits) % 0x1_0000_0000;
      if lo < before {
        hi := (hi + 1) % 0x1_0000_0000;
      }
    }

    /** One pass of the update loop. */
    method Absorb(data: seq<byte>)
      requires Valid() && |data| <= 64 - bufUsed
      modifies this`hi, this`lo, this`state, this`bufUsed, this`done, buffer
      ensures Valid() && Fed() == old(Fed()) + data
    {
      CopyIn(buffer, bufUsed, data);
      bufUsed := bufUsed + |data|;
      assert Fed() == old(Fed()) + data;
      if bufUsed == 64 {
        Flush();
      }
    }

    method Update(data: seq<byte>)
      requires Valid()
      modifies this`hi, this`lo, this`state, this`bufUsed, this`done, buffer
      ensures Valid() && Fed() == old(Fed()) + data
    {
      ghost var before := Fed();
      var i := 0;
      assert before + data[..0] == before;
      while i < |data|
        invariant 0 <= i <= |data| && Valid() && Fed() == before + data[..i]
      {
        var space := 64 - bufUsed;
        var n := if space < |data| - i then space else |data| - i;
        NextPiece(before, data, i, n);
        Absorb(data[i..i + n]);
        i := i + n;
      }
      assert data[..i] == data;
    }

    method ZeroFill(from: nat, to: nat)
      requires from <= to <= buffer.Length
      modifies buffer
      ensures buffer[..to] == old(buffer[..from]) + Zeros(to - from)
    {
      for i := from to to
        invariant buffer[..i] == old(buffer[..from]) + Zeros(i - from)
      {
        buffer[i] := 0;
      }
    }

    /** Marker and zeros when the length field no longer fits: closes a block of its own. */
    method MarkerBlock()
      requires Shape() && 56 <= bufUsed < 64
      modifies this`state, buffer
      ensures state == transform(old(state), old(buffer[..bufUsed]) + [0x80] + Zeros(63 - bufUsed))
    {
      buffer[bufUsed] := 0x80;
      assert buffer[..bufUsed + 1] == old(buffer[..bufUsed]) + [0x80];
      ZeroFill(bufUsed + 1, 64);
      assert buffer[..] == buffer[..64];
      state := transform(state, buffer[..]);
    }

    /** Zeros up to the length field, the length, and the last transform. */
    method LengthBlock(pos: nat)
      requires Shape() && pos <= 56
      modifies this`state, buffer
      ensures state == transform(old(state), old(buffer[..pos]) + Zeros(56 - pos) + (BE32(hi) + BE32(lo)))
    {
      ZeroFill(pos, 56);
      CopyIn(buffer, 56, BE32(hi) + BE32(lo));
      assert buffer[..] == buffer[..64];
      state := transform(state, buffer[..]);
    }

    /** The padding and the last one or two transforms. */
    method Close()
      requires Valid()
      modifies this`hi, this`lo, this`state, buffer
      ensures state == Fold(transform, IV, Pad(old(Fed())))
    {
      ghost var rest := buffer[..bufUsed];
      AddBits(8 * bufUsed, |done|);
      PadOf(done, rest, hi, lo);
      if bufUsed >= 56 {
        MarkerBlock();
        LengthBlock(0);
        TwoBlocks(transform, done, rest, BE32(hi) + BE32(lo));
      } else {
        buffer[bufUsed] := 0x80;
        assert buffer[..bufUsed + 1] == rest + [0x80];
        LengthBlock(bufUsed + 1);
        OneBlock(transform, done, rest, BE32(hi) + BE32(lo));
      }
    }

    /** Returns -5 without a digest buffer, or when the context claims a full block; otherwise
    the digest of everything fed, and a cleared context. */
    method Final(digest: array?<byte>) returns (ret: int)
      requires Shape() && (bufUsed < 64 ==> Valid())
      requires digest != null ==> digest.Length >= 20 && digest != buffer
      modifies this`hi, this`lo, this`state, this`bufUsed, this`done, buffer, if digest == null then {} else {digest}
      ensures digest == null || old(bufUsed) >= 64 ==> ret == -5 && unchanged(this) && unchanged(buffer)
      ensures digest != null && old(bufUsed) < 64 ==> ret == 20 && digest[..20] == Sha1(transform, old(Fed()))
      ensures ret == 20 ==> HoldsWords(digest[..20], Fold(transform, IV, Pad(old(Fed()))))
      ensures ret == 20 ==> hi == lo == bufUsed == 0 && state == Hash(0, 0, 0, 0, 0) && buffer[..] == Zeros(64)
    {
      if digest == null { return -5; }
      if bufUsed >= 64 { return -5; }
      Close();
      DigestWords(state);
      CopyIn(digest, 0, Digest(state));
      assert digest[..20] == Digest(state);
      hi, lo, bufUsed, state := 0, 0, 0, Hash(0, 0, 0, 0, 0);
      ZeroFill(0, 64);
      assert buffer[..] == buffer[..64];
      return 20;
    }
  }

  lemma NextBlock(n: nat)
    ensures n % 64 == 0 ==> (n + 64) % 64 == 0
  {}

  lemma CountMore(hi: word, lo: word, n: nat, bits: nat)
    requires BitCount(hi, lo, n) && bits <= 512 && bits % 8 == 0
    ensures lo + bits < 0x1_0000_0000 ==> BitCount(hi, lo + bits, n + bits / 8)
    ensures lo + bits >= 0x1_0000_0000 ==> BitCount((hi + 1) % 0x1_0000_0000, lo + bits - 0x1_0000_0000, n + bits / 8)
  {
    assert 8 * (n + bits / 8) == 8 * n + bits;
  }

  lemma CountIsLength(hi: word, lo: word, n: nat)
    requires BitCount(hi, lo, n)
    ensures BE64(8 * n % 0x1_0000_0000_0000_0000) == BE32(hi) + BE32(lo)
  {
    HighLow(8 * n % 0x1_0000_0000_0000_0000, hi, lo);
  }

  lemma HighLow(v: nat, hi: word, lo: word)
    requires v == hi * 0x1_0000_0000 + lo
    ensures v / 0x1_0000_0000 == hi && v % 0x1_0000_0000 == lo
  {}

  /** The padding of `done + rest`, with the length as the two counter words hold it. */
  lemma PadOf(done: seq<byte>, rest: seq<byte>, hi: word, lo: word)
    requires |done| % 64 == 0 && |rest| < 64 && BitCount(hi, lo, |done| + |rest|)
    ensures var zeros := if |rest| < 56 then 55 - |rest| else 119 - |rest|;
      Pad(done + rest) == PadWith(done + rest, zeros, BE32(hi) + BE32(lo))
  {
    assert |done + rest| == |done| + |rest|;
    CountIsLength(hi, lo, |done| + |rest|);
    ZeroCountOf(|done|, |rest|);
  }

  lemma OneBlock(f: Transform, done: seq<byte>, rest: seq<byte>, len: seq<byte>)
    requires |done| % 64 == 0 && |rest| < 56 && |len| == 8
    ensures Fold(f, IV, PadWith(done + rest, 55 - |rest|, len))
         == f(Fold(f, IV, done), rest + [0x80] + Zeros(56 - (|rest| + 1)) + len)
  {
    var block := rest + [0x80] + Zeros(56 - (|rest| + 1)) + len;
    assert PadWith(done + rest, 55 - |rest|, len) == done + block;
    FoldBlock(f, IV, done, block);
  }

  lemma TwoBlocks(f: Transform, done: seq<byte>, rest: seq<byte>, len: seq<byte>)
    requires |done| % 64 == 0 && 56 <= |rest| < 64 && |len| == 8
    ensures Fold(f, IV, PadWith(done + rest, 119 - |rest|, len))
         == f(f(Fold(f, IV, done), rest + [0x80] + Zeros(63 - |rest|)), [] + Zeros(56 - 0) + len)
  {
    var first, second := rest + [0x80] + Zeros(63 - |rest|), [] + Zeros(56 - 0) + len;
    assert Zeros(119 - |rest|) == Zeros(63 - |rest|) + Zeros(56);
    assert PadWith(done + rest, 119 - |rest|, len) == done + first + second;
    FoldBlock(f, IV, done, first);
    FoldBlock(f, IV, done + first, second);
  }

  /** `hi` and `lo` are the 64-bit count, in bits, of `n` bytes. */
  ghost predicate BitCount(hi: word, lo: word, n: nat)
  {
    hi * 0x1_0000_0000 + lo == 8 * n % 0x1_0000_0000_0000_0000
  }

  lemma NextPiece(before: seq<byte>, data: seq<byte>, i: nat, n: nat)
    requires i + n <= |data|
    ensures before + data[..i] + data[i..i + n] == before + data[..i + n]
  {
    assert data[..i + n] == data[..i] + data[i..i + n];
  }

  method CopyIn(buffer: array<byte>, at: nat, data: seq<byte>)
    requires at + |data| <= buffer.Length
    modifies buffer
    ensures buffer[..at + |data|] == old(buffer[..at]) + data
  {
    for k := 0 to |data|
      invariant buffer[..at + k] == old(buffer[..at]) + data[..k]
    {
      buffer[at + k] := data[k];
    }
  }

  /** A whole run: however the message is cut into updates, the digest is that of the message. */
  method HashAll(f: Transform, chunks: seq<seq<byte>>) returns (digest: seq<byte>)
    ensures digest == Sha1(f, Concat(chunks)) && HoldsWords(digest, Fold(f, IV, Pad(Concat(chunks))))
  {
    var ctx := new Context(f);
    ctx.Init();
    var i := 0;
    while i < |chunks|
      invariant 0 <= i <= |chunks| && ctx.Valid() && fresh(ctx) && fresh(ctx.buffer)
      invariant ctx.Fed() == Concat(chunks[..i])
    {
      ctx.Update(chunks[i]);
      assert chunks[..i + 1][..i] == chunks[..i];
      i := i + 1;
    }
    assert chunks[..i] == chunks;
    var out := new byte[20];
    var ret := ctx.Final(out);
    digest := out[..20];
  }
}
