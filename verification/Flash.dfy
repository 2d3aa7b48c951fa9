/** Byte-addressed flash. Writing is a byte store at consecutive addresses, which are 32 bits
wide and wrap around. */
module Flash {
  import opened Words

  function Store<T>(f: map<int, T>, a: int, bs: seq<T>): map<int, T>
    decreases |bs|
  {
    if bs == [] then f else Store(f[a % TWO32 := bs[0]], a + 1, bs[1..])
  }

  /** Two adjacent writes are one write. */
  lemma {:induction false} StoreAppend<T>(f: map<int, T>, a: int, bs: seq<T>, cs: seq<T>)
    ensures Store(f, a, bs + cs) == Store(Store(f, a, bs), a + |bs|, cs)
    decreases |bs|
  {
    if bs == [] {
      assert bs + cs == cs;
    } else {
      assert (bs + cs)[1..] == bs[1..] + cs;
      StoreAppend(f[a % TWO32 := bs[0]], a + 1, bs[1..], cs);
    }
  }

  /** Only the address modulo 2^32 matters. */
  lemma {:induction false} StoreWraps<T>(f: map<int, T>, a: int, bs: seq<T>)
    ensures Store(f, a, bs) == Store(f, a % TWO32, bs)
    decreases |bs|
  {
    if bs != [] {
      var g := f[a % TWO32 := bs[0]];
      StoreWraps(g, a + 1, bs[1..]);
      StoreWraps(g, a % TWO32 + 1, bs[1..]);
    }
  }

  /** A write that does not wrap holds its bytes and changes no other address. */
  lemma {:induction false} StoreAt<T>(f: map<int, T>, a: int, bs: seq<T>, p: int)
    requires 0 <= a && a + |bs| <= TWO32
    ensures a <= p < a + |bs| ==> p in Store(f, a, bs) && Store(f, a, bs)[p] == bs[p - a]
    ensures !(a <= p < a + |bs|) && p in f ==> p in Store(f, a, bs) && Store(f, a, bs)[p] == f[p]
    ensures !(a <= p < a + |bs|) && p !in f ==> p !in Store(f, a, bs)
    decreases |bs|
  {
    if bs != [] {
      StoreAt(f[a % TWO32 := bs[0]], a + 1, bs[1..], p);
    }
  }

  /** Reading `n` bytes; flash that was never written reads as erased. */
  function Read(f: map<int, byte>, a: int, n: nat): (bs: seq<byte>)
    ensures |bs| == n
  {
    seq(n, i requires 0 <= i < n => if (a + i) % TWO32 in f then f[(a + i) % TWO32] else 0xFF)
  }

  /** Appending to what has been written since `a`. */
  lemma ReadStored(f: map<int, byte>, a: int, n: nat, bs: seq<byte>)
    requires 0 <= a && a + n + |bs| <= TWO32
    ensures Read(Store(f, a + n, bs), a, n + |bs|) == Read(f, a, n) + bs
  {
    var g := Store(f, a + n, bs);
    forall i | 0 <= i < n + |bs| ensures Read(g, a, n + |bs|)[i] == (Read(f, a, n) + bs)[i] {
      StoreAt(f, a + n, bs, a + i);
    }
  }

  /** A write elsewhere is not seen. */
  lemma ReadElsewhere(f: map<int, byte>, a: int, n: nat, b: int, bs: seq<byte>)
    requires 0 <= a && a + n <= TWO32 && 0 <= b && b + |bs| <= TWO32
    requires b + |bs| <= a || a + n <= b
    ensures Read(Store(f, b, bs), a, n) == Read(f, a, n)
  {
    forall i | 0 <= i < n ensures Read(Store(f, b, bs), a, n)[i] == Read(f, a, n)[i] {
      StoreAt(f, b, bs, a + i);
    }
  }

  /** Reading from behind a write all the way round to its first byte does not see it. */
  lemma ReadAround(f: map<int, byte>, a: int, bs: seq<byte>, n: nat)
    requires 0 <= a && a + |bs| <= TWO32 && n + |bs| <= TWO32
    ensures Read(Store(f, a, bs), a + |bs|, n) == Read(f, a + |bs|, n)
  {
    var b := a + |bs|;
    forall i | 0 <= i < n ensures Read(Store(f, a, bs), b, n)[i] == Read(f, b, n)[i] {
      StoreAt(f, a, bs, (b + i) % TWO32);
    }
  }
}
