/** The `mp_int` record of the boot loader and the operations that manage its storage.

Digits are 28 bits wide and stored least significant first. Digits at or above `used`
are unspecified: several operations leave stale values there. `malloc` may fail at any
call, so every operation that allocates may return -1. */
module Bignum {
  import opened Words
  import opened Positional

  const BASE := 0x1000_0000
  const MAX_DIGITS := 0x7FFF  // `used` and `alloc` are int16_t

  class MpInt {
    var used: int
    var alloc: int
    var sign: int
    var dp: array<word>

    /** What every operation keeps, clamped or not. */
    ghost predicate Shape()
      reads this`used, this`alloc, this`dp
    {
      0 <= used <= alloc == dp.Length <= MAX_DIGITS
    }

    /** The digits in use are 28 bits wide. */
    ghost predicate Ok()
      reads this`used, this`alloc, this`dp, dp
    {
      Shape() && Digits(dp[..used], BASE)
    }

    /** No leading zero digit, and no negative zero. */
    ghost predicate Clamped()
      reads this, dp
    {
      Ok() && (used > 0 ==> dp[used - 1] > 0) && (sign == 0 || sign == 1) && (used == 0 ==> sign == 0)
    }

    ghost function Mag(): int
      reads this`used, this`alloc, this`dp, dp
      requires Shape()
    {
      Val(dp[..used], BASE)
    }

    ghost function Value(): int
      reads this, dp
      requires Shape()
    {
      if sign == 1 then -Mag() else Mag()
    }

    constructor (size: int)
      requires 0 <= size <= MAX_DIGITS
      ensures Shape() && used == 0 && sign == 0 && alloc == size && fresh(dp)
      ensures forall k :: 0 <= k < alloc ==> dp[k] == 0
    {
      used, alloc, sign := 0, size, 0;
      dp := new word[size](_ => 0);
    }

    method Grow(size: int) returns (ret: int)
      requires Shape() && size <= MAX_DIGITS
      modifies this`alloc, this`dp
      ensures Shape() && old(alloc) <= alloc
      ensures ret == 0 ==> size <= alloc
      ensures ret != 0 ==> ret == -1 && dp == old(dp)
      ensures dp == old(dp) || fresh(dp)
      ensures forall k :: 0 <= k < old(alloc) ==> dp[k] == old(dp[k])
      ensures dp[..used] == old(dp[..used])
      ensures forall k :: old(alloc) <= k < alloc ==> dp[k] == 0
    {
      if alloc >= size { return 0; }
      if * { return -1; }  // malloc returned NULL
      var tmp := new word[size];
      var i := 0;
      while i < alloc
        modifies tmp
        invariant 0 <= i <= alloc
        invariant forall k :: 0 <= k < i ==> tmp[k] == dp[k]
      {
        tmp[i] := dp[i];
        i := i + 1;
      }
      while i < size
        modifies tmp
        invariant alloc <= i <= size
        invariant forall k :: 0 <= k < alloc ==> tmp[k] == dp[k]
        invariant forall k :: alloc <= k < i ==> tmp[k] == 0
      {
        tmp[i] := 0;
        i := i + 1;
      }
      dp := tmp;
      alloc := size;
      return 0;
    }

    method Clamp()
      requires Shape()
      modifies this`used, this`sign
      ensures Shape() && used <= old(used) && Mag() == old(Mag())
      ensures used > 0 ==> dp[used - 1] != 0
      ensures sign == if used == 0 then 0 else old(sign)
      ensures old(Ok()) ==> Ok()
      ensures used < old(used) ==> dp[old(used) - 1] == 0
    {
      while used > 0 && dp[used - 1] == 0
        invariant 0 <= used <= old(used) && sign == old(sign)
        invariant used < old(used) ==> dp[old(used) - 1] == 0
        invariant Val(dp[..used], BASE) == old(Mag())
      {
        assert dp[..used] == dp[..used - 1] + [0];
        ValSnoc(dp[..used - 1], 0, BASE);
        used := used - 1;
      }
      if used == 0 { sign := 0; }
    }

    /** `used = n; mp_clamp(this)`, the tail of every digit loop. */
    method SetUsed(n: int)
      requires Shape() && 0 <= n <= alloc && Digits(dp[..n], BASE)
      modifies this`used, this`sign
      ensures Ok() && used <= n && Mag() == old(Val(dp[..n], BASE))
      ensures used > 0 ==> dp[used - 1] > 0
      ensures sign == if used == 0 then 0 else old(sign)
    {
      used := n;
      Clamp();
    }

    /** Overwrites this number with `src`. */
    method CopyFrom(src: MpInt) returns (ret: int)
      requires Shape() && src.Ok() && Apart(this, src)
      modifies this, dp
      ensures ret == 0 || ret == -1
      ensures Shape() && (dp == old(dp) || fresh(dp))
      ensures ret == 0 ==> used == old(src.used) && sign == old(src.sign) && dp[..used] == old(src.dp[..src.used])
      ensures ret == 0 && old(src.Clamped()) ==> Clamped() && Mag() == old(src.Mag())
      ensures this == src ==> ret == 0 && unchanged(this) && unchanged(dp)
    {
      if this == src { return 0; }
      if alloc < src.used {
        ret := Grow(src.used);
        if ret != 0 { return; }
      }
      CopyDigits(dp, src.dp, src.used);
      used := src.used;
      sign := src.sign;
      return 0;
    }
  }

  /** The digit loops of `mp_copy`: copies the first `n` digits and clears the others. */
  method CopyDigits(dst: array<word>, src: array<word>, n: nat)
    requires n <= dst.Length && n <= src.Length && dst != src
    modifies dst
    ensures dst[..n] == src[..n]
  {
    var i := 0;
    while i < n
      invariant 0 <= i <= n
      invariant forall k :: 0 <= k < i ==> dst[k] == src[k]
    {
      dst[i] := src[i];
      i := i + 1;
    }
    while i < dst.Length
      invariant n <= i <= dst.Length
      invariant forall k :: 0 <= k < n ==> dst[k] == src[k]
    {
      dst[i] := 0;
      i := i + 1;
    }
  }

  /** Two numbers share storage only when they are the same object. */
  ghost predicate Apart(a: MpInt, b: MpInt)
    reads a`dp, b`dp
  {
    a == b || a.dp != b.dp
  }

  method InitCopy(src: MpInt) returns (ret: int, tmp: MpInt?)
    requires src.Ok()
    ensures ret == 0 || ret == -1
    ensures ret == 0 ==> tmp != null && fresh(tmp) && fresh(tmp.dp) && tmp.Shape()
    ensures ret == 0 ==> tmp.sign == src.sign && tmp.used == src.used && tmp.dp[..tmp.used] == src.dp[..src.used]
    ensures ret == 0 && src.Clamped() ==> tmp.Clamped() && tmp.Mag() == src.Mag()
  {
    if * { return -1, null; }
    var t := new MpInt(8);
    ret := t.CopyFrom(src);
    tmp := t;
  }
}
