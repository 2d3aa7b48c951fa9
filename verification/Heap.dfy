/** The best-fit heap of the boot loader (`malloc`, `free`).

Block headers live in memory: `next` and `size` map the address of a header to its two words.
The list head is itself such a word, at `LIST`, so that the walk needs no special case. */
module Heap {
  import opened Words

  const START := 0x20011430
  const END := 0x20028000
  const LIST := 0x20010064
  const HEADER := 8
  const MIN_SPLIT := 15

  type Sizes = map<int, int>

  // ---------- blocks ----------

  ghost predicate BlockOk(size: Sizes, a: int)
  {
    a in size && START <= a && a % 8 == 0 && 0 <= size[a] && size[a] % 8 == 0 && a + HEADER + size[a] <= END
  }

  ghost predicate Disjoint(size: Sizes, a: int, b: int)
    requires a in size && b in size
  {
    a + HEADER + size[a] <= b || b + HEADER + size[b] <= a
  }

  /** Aligned blocks inside the heap that do not overlap. */
  ghost predicate Blocks(size: Sizes, all: set<int>)
  {
    && (forall a :: a in all ==> BlockOk(size, a))
    && forall a, b :: a in all && b in all && a != b ==> Disjoint(size, a, b)
  }

  /** What `Blocks` says of two of them. */
  lemma BlocksApart(size: Sizes, all: set<int>, a: int, b: int)
    requires Blocks(size, all) && a in all && b in all && a != b
    ensures 0x20011430 <= a && a % 8 == 0 && a + 8 <= a + 8 + SizeOf(size, a) <= 0x20028000 && SizeOf(size, a) % 8 == 0
    ensures a + 8 + SizeOf(size, a) <= b || b + 8 + SizeOf(size, b) <= a
  {
    assert BlockOk(size, a) && BlockOk(size, b) && Disjoint(size, a, b);
  }

  ghost predicate Sorted(list: seq<int>)
  {
    forall i, j :: 0 <= i < j < |list| ==> list[i] < list[j]
  }

  ghost function Elements(list: seq<int>): set<int> { set a | a in list }

  /** The address of the header before the `k`th free block; the list head comes first, and NULL
  after the last. */
  ghost function At(list: seq<int>, k: nat): int
    requires k <= |list| + 1
  {
    if k == 0 then LIST else if k <= |list| then list[k - 1] else 0
  }

  ghost predicate LinkAt(next: map<int, int>, list: seq<int>, k: nat)
    requires k <= |list|
  {
    At(list, k) in next && next[At(list, k)] == At(list, k + 1)
  }

  ghost predicate Linked(next: map<int, int>, list: seq<int>)
  {
    forall k :: 0 <= k <= |list| ==> LinkAt(next, list, k)
  }

  /** Bytes in the free list, headers included. */
  ghost function FreeBytes(size: Sizes, list: seq<int>): int
  {
    if list == [] then 0 else HEADER + SizeOf(size, list[0]) + FreeBytes(size, list[1..])
  }

  function SizeOf(size: Sizes, a: int): int { if a in size then size[a] else 0 }

  /** `(n + 7) & ~7` */
  function AlignedSize(n: word): (need: int)
    ensures 0 <= need && need % 8 == 0
  {
    (n + 7) % TWO32 / 8 * 8
  }

  /** Block `a` cut down to `need` bytes, with the rest as a block of its own. */
  ghost function SplitSizes(size: Sizes, a: int, need: int): Sizes {
    size[a + HEADER + need := SizeOf(size, a) - need - HEADER][a := need]
  }

  /** The free list after taking its block `b` for `need` bytes: the rest of the block, if it is
  large enough, takes its place. */
  ghost function TakenList(size: Sizes, list: seq<int>, b: int, need: int): seq<int>
    requires 0 <= b < |list|
  {
    if SizeOf(size, list[b]) - need >= MIN_SPLIT then list[b := list[b] + HEADER + need] else list[..b] + list[b + 1..]
  }

  ghost function TakenSizes(size: Sizes, a: int, need: int): Sizes {
    if SizeOf(size, a) - need >= MIN_SPLIT then SplitSizes(size, a, need) else size
  }

  /** The free list after freeing block `a`: merged with the first free block, put in front of it,
  or not put anywhere. */
  ghost function FreedList(size: Sizes, list: seq<int>, a: int): seq<int> {
    if list == [] then [a]
    else if Touches(size, a, list[0]) then [a] + list[1..]
    else if Touches(size, list[0], a) then list
    else if a < list[0] then [a] + list
    else list
  }

  ghost function FreedSizes(size: Sizes, list: seq<int>, a: int): Sizes {
    if list == [] then size
    else if Touches(size, a, list[0]) then size[a := SizeOf(size, a) + SizeOf(size, list[0]) + HEADER]
    else if Touches(size, list[0], a) then size[list[0] := SizeOf(size, list[0]) + SizeOf(size, a) + HEADER][a := 0]
    else size
  }

  /** Block `b` starts where block `a` ends. */
  ghost predicate Touches(size: Sizes, a: int, b: int) { b == a + HEADER + SizeOf(size, a) }

  /** Freeing block `a` in terms of the list before and after. A block that touches the first free
  block, on either side, becomes one block with it, at the lower address and with a payload that
  spans both; no other entry or size changes. Any other block is put in front of a list that
  begins above it, and changes nothing otherwise. */
  ghost predicate Coalesced(size: Sizes, list: seq<int>, a: int, size': Sizes, list': seq<int>)
  {
    if list == [] then list' == [a] && size' == size
    else
      var first, n, m := list[0], SizeOf(size, list[0]), SizeOf(size, a);
      if first == a + 8 + m then
        list' == [a] + list[1..] && SizeOf(size', a) == m + 8 + n && SameSizes(size, size', {a})
      else if a == first + 8 + n then
        list' == list && SizeOf(size', first) == n + 8 + m && SameSizes(size, size', {a, first})
      else
        list' == (if a < first then [a] + list else list) && size' == size
  }

  /** A block that touches the first free block adds no list entry; the first entry afterwards is the
  lower of the two and reaches to the end of the upper. */
  lemma CoalescedCovers(size: Sizes, list: seq<int>, a: int, size': Sizes, list': seq<int>)
    requires list != [] && Coalesced(size, list, a, size', list')
    requires list[0] == a + 8 + SizeOf(size, a) || a == list[0] + 8 + SizeOf(size, list[0])
    requires 0 <= SizeOf(size, a) && 0 <= SizeOf(size, list[0])
    ensures var lower, upper := if a < list[0] then a else list[0], if a < list[0] then list[0] else a;
      && |list'| == |list| && list'[0] == lower && list'[1..] == list[1..]
      && lower + 8 + SizeOf(size', lower) == upper + 8 + SizeOf(size, upper)
  {}

  ghost predicate SameSizes(size: Sizes, size': Sizes, but: set<int>)
  {
    forall c :: c !in but ==> SizeOf(size', c) == SizeOf(size, c)
  }

  /** The first of the smallest blocks that are large enough. */
  ghost predicate BestFit(size: Sizes, list: seq<int>, need: int, b: int)
  {
    && 0 <= b < |list| && need <= SizeOf(size, list[b])
    && (forall j :: 0 <= j < |list| && need <= SizeOf(size, list[j]) ==> SizeOf(size, list[b]) <= SizeOf(size, list[j]))
    && forall j :: 0 <= j < b && need <= SizeOf(size, list[j]) ==> SizeOf(size, list[b]) < SizeOf(size, list[j])
  }

  /** In a sorted list that is the lowest of the smallest blocks that are large enough. */
  lemma LowestOfSmallest(size: Sizes, list: seq<int>, need: int, b: int, j: int)
    requires Sorted(list) && BestFit(size, list, need, b) && 0 <= j < |list| && need <= SizeOf(size, list[j])
    ensures need <= SizeOf(size, list[b]) <= SizeOf(size, list[j])
    ensures SizeOf(size, list[j]) == SizeOf(size, list[b]) ==> list[b] <= list[j]
  {}

  ghost predicate NoneFits(size: Sizes, list: seq<int>, need: int)
  {
    forall j :: 0 <= j < |list| ==> SizeOf(size, list[j]) < need
  }

  // ---------- what the list operations keep ----------

  lemma SplitBlock(size: Sizes, all: set<int>, a: int, need: int)
    requires Blocks(size, all) && a in all && 0 <= need && need % 8 == 0 && size[a] - need >= MIN_SPLIT
    ensures var b := a + HEADER + need;
      b !in all && size[a] - need - HEADER >= 8 &&
      Blocks(size[b := size[a] - need - HEADER][a := need], all + {b})
  {
    var b := a + HEADER + need;
    assert BlockOk(size, a);
    var size' := size[b := size[a] - need - HEADER][a := need];
    Multiples(a, size[a], need);
    forall c, d | c in all + {b} && d in all + {b} && c != d ensures Disjoint(size', c, d) {
      if c in all && c != a { assert BlockOk(size, c) && Disjoint(size, c, a); }
      if d in all && d != a { assert BlockOk(size, d) && Disjoint(size, d, a); }
      if c in all && d in all { assert Disjoint(size, c, d); }
    }
  }

  /** A remainder of at least 15 that is a multiple of 8 leaves room for a header and 8 bytes. */
  lemma Multiples(a: int, s: int, need: int)
    requires a % 8 == 0 && s % 8 == 0 && need % 8 == 0 && s - need >= MIN_SPLIT
    ensures (a + HEADER + need) % 8 == 0 && (s - need - HEADER) % 8 == 0 && s - need - HEADER >= 8
  {}

  /** Merging `b`, which starts where `a` ends, into `a`. */
  lemma MergeBlocks(size: Sizes, all: set<int>, a: int, b: int)
    requires Blocks(size, all) && a in all && b in all && b == a + HEADER + size[a]
    ensures Blocks(size[a := size[a] + size[b] + HEADER], all - {b})
  {
    assert BlockOk(size, a) && BlockOk(size, b);
    var size' := size[a := size[a] + size[b] + HEADER];
    forall c, d | c in all - {b} && d in all - {b} && c != d ensures Disjoint(size', c, d) {
      if c != a { assert BlockOk(size, c) && Disjoint(size, c, a) && Disjoint(size, c, b); }
      if d != a { assert BlockOk(size, d) && Disjoint(size, d, a) && Disjoint(size, d, b); }
      assert Disjoint(size, c, d);
    }
  }

  lemma {:induction false} FreeBytesFrame(size: Sizes, size': Sizes, list: seq<int>)
    requires forall i :: 0 <= i < |list| ==> SizeOf(size, list[i]) == SizeOf(size', list[i])
    ensures FreeBytes(size, list) == FreeBytes(size', list)
  {
    if list != [] { FreeBytesFrame(size, size', list[1..]); }
  }

  lemma {:induction false} FreeBytesAppend(size: Sizes, l: seq<int>, r: seq<int>)
    ensures FreeBytes(size, l + r) == FreeBytes(size, l) + FreeBytes(size, r)
  {
    if l == [] {
      assert l + r == r;
    } else {
      assert (l + r)[1..] == l[1..] + r;
      FreeBytesAppend(size, l[1..], r);
    }
  }

  /** Everything about the free list that does not depend on the links. */
  ghost predicate ListOk(size: Sizes, list: seq<int>, live: set<int>)
  {
    Sorted(list) && live !! Elements(list) && Blocks(size, live + Elements(list))
  }

  /** Splitting block `b` of the list: its front becomes live, the rest takes its place. */
  lemma SplitKeeps(size: Sizes, list: seq<int>, live: set<int>, b: int, need: int)
    requires ListOk(size, list, live) && 0 <= b < |list|
    requires 0 <= need && need % 8 == 0 && SizeOf(size, list[b]) - need >= MIN_SPLIT
    ensures var a := list[b];
      var rest := a + HEADER + need;
      var size' := size[rest := size[a] - need - HEADER][a := need];
      ListOk(size', list[b := rest], live + {a}) && SizeOf(size', rest) >= 8 && rest !in list
  {
    var a := list[b];
    var all := live + Elements(list);
    assert a in all;
    SplitBlock(size, all, a, need);
    var rest := a + HEADER + need;
    ReplacedElements(list, b, rest);
    assert live + {a} + Elements(list[b := rest]) == all + {rest};
    SplitSorted(size, list, live, b, rest);
  }

  lemma SplitSorted(size: Sizes, list: seq<int>, live: set<int>, b: int, rest: int)
    requires ListOk(size, list, live) && 0 <= b < |list| && list[b] < rest < list[b] + HEADER + SizeOf(size, list[b])
    ensures Sorted(list[b := rest])
  {
    var all := live + Elements(list);
    forall j | b < j < |list| ensures rest < list[j] {
      assert list[j] in all && list[b] in all && list[b] < list[j];
      assert BlockOk(size, list[j]) && Disjoint(size, list[b], list[j]);
    }
  }

  lemma SplitBytes(size: Sizes, list: seq<int>, b: int, rest: int, need: int)
    requires Sorted(list) && 0 <= b < |list| && list[b] in size && rest !in list && rest != list[b]
    ensures var a := list[b];
      var size' := size[rest := size[a] - need - HEADER][a := need];
      FreeBytes(size', list[b := rest]) + HEADER + need == FreeBytes(size, list)
  {
    var a := list[b];
    var size' := size[rest := size[a] - need - HEADER][a := need];
    var l, r := list[..b], list[b + 1..];
    assert list == l + ([a] + r) && list[b := rest] == l + ([rest] + r);
    FreeBytesAppend(size, l, [a] + r);
    FreeBytesAppend(size', l, [rest] + r);
    FreeBytesFrame(size, size', l);
    FreeBytesFrame(size, size', r);
    assert ([a] + r)[1..] == r && ([rest] + r)[1..] == r;
  }

  lemma ReplacedElements(list: seq<int>, b: int, x: int)
    requires Sorted(list) && 0 <= b < |list|
    ensures Elements(list[b := x]) == Elements(list) - {list[b]} + {x}
  {
    forall c ensures c in list[b := x] <==> (c in list && c != list[b]) || c == x {
      if c in list && c != list[b] {
        var i :| 0 <= i < |list| && list[i] == c;
        assert list[b := x][i] == c;
      }
      if c == x { assert list[b := x][b] == c; }
    }
  }

  /** Taking block `b` out of the list as a whole. */
  lemma RemoveKeeps(size: Sizes, list: seq<int>, live: set<int>, b: int)
    requires ListOk(size, list, live) && 0 <= b < |list|
    ensures ListOk(size, list[..b] + list[b + 1..], live + {list[b]})
  {
    var list' := list[..b] + list[b + 1..];
    RemovedElements(list, b);
    assert live + {list[b]} + Elements(list') == live + Elements(list);
  }

  lemma RemoveBytes(size: Sizes, list: seq<int>, b: int)
    requires 0 <= b < |list|
    ensures FreeBytes(size, list[..b] + list[b + 1..]) + HEADER + SizeOf(size, list[b]) == FreeBytes(size, list)
  {
    var l, a, r := list[..b], list[b], list[b + 1..];
    assert list == l + ([a] + r);
    FreeBytesAppend(size, l, [a] + r);
    FreeBytesAppend(size, l, r);
    assert ([a] + r)[1..] == r;
  }

  lemma RemovedElements(list: seq<int>, b: int)
    requires Sorted(list) && 0 <= b < |list|
    ensures Elements(list[..b] + list[b + 1..]) == Elements(list) - {list[b]}
  {
    var list' := list[..b] + list[b + 1..];
    forall c ensures c in list' <==> c in list && c != list[b] {
      if c in list && c != list[b] {
        var i :| 0 <= i < |list| && list[i] == c;
        assert list'[if i < b then i else i - 1] == c;
      }
      if c in list' {
        var i :| 0 <= i < |list'| && list'[i] == c;
        assert list[if i < b then i else i + 1] == c;
      }
    }
  }

  // ---------- what freeing keeps ----------

  lemma FewerBlocks(size: Sizes, size': Sizes, all: set<int>, all': set<int>)
    requires Blocks(size, all) && all' <= all
    requires forall a :: a in all' ==> SizeOf(size', a) == SizeOf(size, a) && a in size'
    ensures Blocks(size', all')
  {
    forall a | a in all' ensures BlockOk(size', a) { assert BlockOk(size, a); }
    forall a, b | a in all' && b in all' && a != b ensures Disjoint(size', a, b) {
      assert BlockOk(size, a) && BlockOk(size, b) && Disjoint(size, a, b);
    }
  }

  /** The block in front of the first free block absorbs it. */
  lemma ForwardKeeps(size: Sizes, list: seq<int>, live: set<int>, a: int)
    requires ListOk(size, list, live) && a in live && list != [] && list[0] == a + HEADER + SizeOf(size, a)
    ensures a !in list && ListOk(size[a := size[a] + SizeOf(size, list[0]) + HEADER], [a] + list[1..], live - {a})
  {
    var all, h := live + Elements(list), list[0];
    assert h in all && a in all && BlockOk(size, a) && BlockOk(size, h);
    assert a !in Elements(list);
    MergeBlocks(size, all, a, h);
    ForwardElements(list, live, a);
    SortedPush(a, list[1..]);
  }

  lemma ForwardElements(list: seq<int>, live: set<int>, a: int)
    requires Sorted(list) && list != [] && live !! Elements(list) && a in live
    ensures live - {a} + Elements([a] + list[1..]) == live + Elements(list) - {list[0]}
    ensures live - {a} !! Elements([a] + list[1..])
  {
    RemovedElements(list, 0);
    assert list[..0] + list[1..] == list[1..];
    PushedElements(a, list[1..]);
    assert list[0] in Elements(list);
  }

  lemma SortedPush(a: int, list: seq<int>)
    requires Sorted(list) && (list != [] ==> a < list[0])
    ensures Sorted([a] + list)
  {
    forall i, j | 0 <= i < j < |[a] + list| ensures ([a] + list)[i] < ([a] + list)[j] {
      if i == 0 && j > 1 { assert list[0] < list[j - 1]; }
    }
  }

  lemma ForwardBytes(size: Sizes, list: seq<int>, a: int)
    requires list != [] && a !in list && a in size
    ensures FreeBytes(size[a := size[a] + SizeOf(size, list[0]) + HEADER], [a] + list[1..])
         == FreeBytes(size, list) + HEADER + SizeOf(size, a)
  {
    FreeBytesFrame(size, size[a := size[a] + SizeOf(size, list[0]) + HEADER], list[1..]);
    assert ([a] + list[1..])[1..] == list[1..];
  }

  lemma PushedElements(a: int, list: seq<int>)
    ensures Elements([a] + list) == {a} + Elements(list)
  {}

  /** The first free block absorbs the block behind it. */
  lemma BackwardKeeps(size: Sizes, list: seq<int>, live: set<int>, a: int)
    requires ListOk(size, list, live) && a in live && list != [] && a == list[0] + HEADER + SizeOf(size, list[0])
    ensures ListOk(size[list[0] := SizeOf(size, list[0]) + size[a] + HEADER][a := 0], list, live - {a})
  {
    var all, h := live + Elements(list), list[0];
    assert h in all && a in all && BlockOk(size, a) && BlockOk(size, h);
    MergeBlocks(size, all, h, a);
    var size1 := size[h := size[h] + size[a] + HEADER];
    var size' := size1[a := 0];
    forall c | c in all - {a} ensures c in size' && SizeOf(size', c) == SizeOf(size1, c) { assert BlockOk(size1, c); }
    FewerBlocks(size1, size', all - {a}, all - {a});
    assert live - {a} + Elements(list) == all - {a};
  }

  lemma BackwardBytes(size: Sizes, list: seq<int>, a: int)
    requires list != [] && Sorted(list) && a !in list
    ensures FreeBytes(size[list[0] := SizeOf(size, list[0]) + SizeOf(size, a) + HEADER][a := 0], list)
         == FreeBytes(size, list) + HEADER + SizeOf(size, a)
  {
    FreeBytesFrame(size, size[list[0] := SizeOf(size, list[0]) + SizeOf(size, a) + HEADER][a := 0], list[1..]);
  }

  /** A block below the first free block goes in front of it. */
  lemma InsertKeeps(size: Sizes, list: seq<int>, live: set<int>, a: int)
    requires ListOk(size, list, live) && a in live && (list != [] ==> a < list[0])
    ensures ListOk(size, [a] + list, live - {a}) && a !in list
    ensures FreeBytes(size, [a] + list) == FreeBytes(size, list) + HEADER + SizeOf(size, a)
  {
    PushedElements(a, list);
    assert live - {a} + Elements([a] + list) == live + Elements(list);
    assert ([a] + list)[1..] == list;
  }

  /** A block that is neither is not put anywhere. */
  lemma DropKeeps(size: Sizes, list: seq<int>, live: set<int>, a: int)
    requires ListOk(size, list, live) && a in live
    ensures ListOk(size, list, live - {a})
  {
    var all := live + Elements(list);
    forall c | c in all ensures c in size { assert BlockOk(size, c); }
    FewerBlocks(size, size, all, live - {a} + Elements(list));
  }

  // ---------- links ----------

  /** The headers of the list, and its head, are pairwise different words. */
  ghost predicate Distinct(list: seq<int>)
  {
    Sorted(list) && forall i :: 0 <= i < |list| ==> LIST < list[i]
  }

  lemma LinkReplaced(next: map<int, int>, list: seq<int>, b: int, x: int)
    requires Linked(next, list) && Distinct(list) && 0 <= b < |list| && x !in list && LIST < x
    ensures list[b] in next && Linked(next[x := next[list[b]]][At(list, b) := x], list[b := x])
  {
    var list' := list[b := x];
    assert LinkAt(next, list, b + 1);
    var next' := next[x := next[list[b]]][At(list, b) := x];
    forall k | 0 <= k <= |list| ensures LinkAt(next', list', k) {
      assert LinkAt(next, list, k);
    }
  }

  lemma LinkRemoved(next: map<int, int>, list: seq<int>, b: int)
    requires Linked(next, list) && Distinct(list) && 0 <= b < |list|
    ensures list[b] in next && Linked(next[At(list, b) := next[list[b]]], list[..b] + list[b + 1..])
  {
    var list' := list[..b] + list[b + 1..];
    assert LinkAt(next, list, b + 1);
    var next' := next[At(list, b) := next[list[b]]];
    forall k | 0 <= k <= |list'| ensures LinkAt(next', list', k) {
      if k < b {
        assert LinkAt(next, list, k) && At(list', k) == At(list, k) && At(list', k + 1) == At(list, k + 1);
        AtDistinct(list, k, b);
      } else if k == b {
        assert At(list', k) == At(list, b) && At(list', k + 1) == At(list, b + 2);
      } else {
        assert LinkAt(next, list, k + 1) && At(list', k) == At(list, k + 1) && At(list', k + 1) == At(list, k + 2);
        AtDistinct(list, b, k + 1);
      }
    }
  }

  lemma AtDistinct(list: seq<int>, i: nat, j: nat)
    requires Distinct(list) && i < j <= |list|
    ensures At(list, i) != At(list, j)
  {}

  /** A new first block. */
  lemma LinkPushed(next: map<int, int>, list: seq<int>, x: int, drop: int)
    requires Linked(next, list) && Distinct(list) && x !in list && LIST < x && 0 <= drop <= |list| && drop <= 1
    ensures Linked(next[LIST := x][x := At(list, drop + 1)], [x] + list[drop..])
  {
    var list' := [x] + list[drop..];
    var next' := next[LIST := x][x := At(list, drop + 1)];
    forall k | 0 <= k <= |list'| ensures LinkAt(next', list', k) {
      if k >= 2 {
        assert At(list', k) == At(list, k - 1 + drop);
        assert LinkAt(next, list, k - 1 + drop);
      }
    }
  }

  /** The words of a block outside the list do not matter, nor does setting the head again. */
  lemma LinkUnlisted(next: map<int, int>, list: seq<int>, a: int, first: int)
    requires Linked(next, list) && Distinct(list) && a !in list && LIST < a && list != [] && first == list[0]
    ensures Linked(next[a := first][LIST := first], list)
  {
    var next' := next[a := first][LIST := first];
    forall k | 0 <= k <= |list| ensures LinkAt(next', list, k) {
      assert LinkAt(next, list, k);
    }
  }

  lemma ListDistinct(size: Sizes, list: seq<int>, live: set<int>)
    requires ListOk(size, list, live)
    ensures Distinct(list)
  {
    forall i | 0 <= i < |list| ensures LIST < list[i] {
      assert list[i] in live + Elements(list);
      assert BlockOk(size, list[i]);
    }
  }

  /** Splitting block `b` of the list, with its links and bytes. */
  lemma FrontTaken(next: map<int, int>, size: Sizes, list: seq<int>, live: set<int>, b: int, need: int)
    requires Linked(next, list) && ListOk(size, list, live) && 0 <= b < |list|
    requires 0 <= need && need % 8 == 0 && SizeOf(size, list[b]) - need >= MIN_SPLIT
    ensures var a := list[b];
      var rest := a + HEADER + need;
      var size' := SplitSizes(size, a, need);
      && a in size && a in next
      && Linked(next[rest := next[a]][At(list, b) := rest], list[b := rest])
      && ListOk(size', list[b := rest], live + {a})
      && FreeBytes(size', list[b := rest]) + HEADER + need == FreeBytes(size, list)
      && forall c :: c in live ==> SizeOf(size', c) == SizeOf(size, c)
  {
    var a := list[b];
    var rest := a + HEADER + need;
    FreeBlock(size, list, live, b);
    SplitKeeps(size, list, live, b, need);
    SplitBytes(size, list, b, rest, need);
    LinkReplaced(next, list, b, rest);
    assert rest !in live by { SplitBlock(size, live + Elements(list), a, need); }
  }

  // ---------- the allocator ----------

  class Allocator {
    var initialized: bool
    var next: map<int, int>
    var size: Sizes
    ghost var list: seq<int>  // free blocks in list order
    ghost var live: set<int>  // allocated blocks

    ghost predicate Valid()
      reads this
    {
      if initialized then Linked(next, list) && ListOk(size, list, live) else live == {}
    }

    /** Free list and sizes as the first call will set them up. */
    ghost function FreeList(): seq<int>
      reads this
    {
      if initialized then list else [START]
    }

    ghost function Sizes(): Sizes
      reads this
    {
      if initialized then size else size[START := END - START - HEADER]
    }

    constructor ()
      ensures Valid() && !initialized
    {
      initialized, next, size, list, live := false, map[], map[], [], {};
    }

    method Initialize()
      requires Valid()
      modifies this
      ensures Valid() && initialized && list == old(FreeList()) && size == old(Sizes()) && live == old(live)
    {
      if !initialized {
        next := next[LIST := START][START := 0];
        size := size[START := END - START - HEADER];
        list := [START];
        initialized := true;
        assert Elements(list) == {START};
      }
    }

    /** The walk: the first of the smallest sufficient blocks, and the link that leads to it. */
    method Search(need: int) returns (best: int, prev: int, ghost b: int)
      requires Valid() && initialized && need >= 0
      ensures best == 0 <==> NoneFits(size, list, need)
      ensures best != 0 ==> BestFit(size, list, need, b) && best == list[b] && prev == At(list, b)
    {
      ListDistinct(size, list, live);
      best, prev, b := 0, 0, 0;
      var bestSize := 0;
      assert LinkAt(next, list, 0);
      var p, c := LIST, next[LIST];
      ghost var k := 0;
      while c != 0
        invariant 0 <= k <= |list| && p == At(list, k) && c == At(list, k + 1)
        invariant best == 0 ==> forall j :: 0 <= j < k ==> SizeOf(size, list[j]) < need
        invariant best != 0 ==> BestFit(size, list[..k], need, b) && best == list[b]
        invariant best != 0 ==> prev == At(list, b) && bestSize == SizeOf(size, best)
        decreases |list| - k
      {
        assert k < |list| && c == list[k];
        if SizeOf(size, c) >= need {
          if best == 0 || SizeOf(size, c) < bestSize {
            best, prev, bestSize := c, p, SizeOf(size, c);
            b := k;
          }
        }
        assert LinkAt(next, list, k + 1);
        p, c := c, next[c];
        k := k + 1;
      }
      assert list[..k] == list;
    }

    /** Takes block `b` for a request of `need` bytes, splitting it when the rest is large enough. */
    method Take(best: int, prev: int, need: int, ghost b: int)
      requires Valid() && initialized && 0 <= b < |list| && best == list[b] && prev == At(list, b)
      requires 0 <= need <= SizeOf(size, best) && need % 8 == 0
      modifies this
      ensures Valid() && initialized && live == old(live) + {best} && best !in old(live)
      ensures START <= best && need <= SizeOf(size, best) < need + MIN_SPLIT
      ensures SizeOf(size, best) - need in {0, 8}
      ensures list == TakenList(old(size), old(list), b, need) && size == TakenSizes(old(size), best, need)
      ensures FreeBytes(size, list) + HEADER + SizeOf(size, best) == old(FreeBytes(size, list))
      ensures forall a :: a in old(live) ==> SizeOf(size, a) == old(SizeOf(size, a))
    {
      FreeBlock(size, list, live, b);
      if SizeOf(size, best) - need >= MIN_SPLIT {
        TakeFront(best, prev, need, b);
      } else {
        TakeWhole(best, prev, b);
      }
    }

    method TakeFront(best: int, prev: int, need: int, ghost b: int)
      requires Valid() && initialized && 0 <= b < |list| && best == list[b] && prev == At(list, b)
      requires 0 <= need && SizeOf(size, best) - need >= MIN_SPLIT && need % 8 == 0
      modifies this`next, this`size, this`list, this`live
      ensures Valid() && live == old(live) + {best} && SizeOf(size, best) == need
      ensures list == old(list)[b := best + HEADER + need] && size == SplitSizes(old(size), best, need)
      ensures FreeBytes(size, list) + HEADER + need == old(FreeBytes(size, list))
      ensures forall a :: a in old(live) ==> SizeOf(size, a) == old(SizeOf(size, a))
    {
      FrontTaken(next, size, list, live, b, need);
      var rest := best + HEADER + need;
      next := next[rest := next[best]][prev := rest];
      size := size[rest := SizeOf(size, best) - need - HEADER][best := need];
      list := list[b := rest];
      live := live + {best};
    }

    method TakeWhole(best: int, prev: int, ghost b: int)
      requires Valid() && initialized && 0 <= b < |list| && best == list[b] && prev == At(list, b)
      modifies this`next, this`list, this`live
      ensures Valid() && live == old(live) + {best} && list == old(list)[..b] + old(list)[b + 1..]
      ensures FreeBytes(size, list) + HEADER + SizeOf(size, best) == old(FreeBytes(size, list))
    {
      ListDistinct(size, list, live);
      RemoveKeeps(size, list, live, b);
      RemoveBytes(size, list, b);
      LinkRemoved(next, list, b);
      next := next[prev := next[best]];
      list := list[..b] + list[b + 1..];
      live := live + {best};
    }

    /** Best fit. `b` is the position, in the list before the call, of the block that was taken. */
    method Malloc(n: word) returns (ptr: int, ghost b: int)
      requires Valid()
      modifies this
      ensures Valid() && initialized
      ensures ptr == 0 <==> NoneFits(old(Sizes()), old(FreeList()), AlignedSize(n))
      ensures ptr == 0 ==> list == old(FreeList()) && size == old(Sizes()) && live == old(live)
      ensures ptr != 0 ==> BestFit(old(Sizes()), old(FreeList()), AlignedSize(n), b)
      ensures ptr != 0 ==> ptr == old(FreeList())[b] + HEADER
      ensures ptr != 0 ==> live == old(live) + {ptr - HEADER} && ptr - HEADER !in old(live)
      ensures ptr != 0 ==> AlignedSize(n) <= SizeOf(size, ptr - HEADER) < AlignedSize(n) + MIN_SPLIT
      ensures ptr != 0 ==> SizeOf(size, ptr - HEADER) - AlignedSize(n) in {0, 8}
      ensures ptr != 0 ==> list == TakenList(old(Sizes()), old(FreeList()), b, AlignedSize(n))
      ensures ptr != 0 ==> size == TakenSizes(old(Sizes()), ptr - HEADER, AlignedSize(n))
      ensures FreeBytes(size, list) + (if ptr == 0 then 0 else HEADER + SizeOf(size, ptr - HEADER))
           == FreeBytes(old(Sizes()), old(FreeList()))
      ensures forall a :: a in old(live) ==> SizeOf(size, a) == SizeOf(old(Sizes()), a)
    {
      Initialize();
      var need := AlignedSize(n);
      var best, prev;
      best, prev, b := Search(need);
      ptr := 0;
      if best != 0 {
        Take(best, prev, need, b);
        ptr := best + HEADER;
      }
    }

    /** The blocks `free` finds a place for: below the first free block, or right behind it. */
    ghost predicate Reclaimed(a: int)
      reads this
    {
      list == [] || a < list[0] || a == list[0] + HEADER + SizeOf(size, list[0])
    }

    ghost function Returned(a: int): int
      reads this
    {
      if Reclaimed(a) then HEADER + SizeOf(size, a) else 0
    }

    /** Makes `a` the first free block, in place of the first one when that was merged into it. */
    method Push(a: int, curr: int, ghost drop: int)
      requires initialized && Linked(next, list) && Distinct(list) && a !in list && LIST < a
      requires 0 <= drop <= 1 && drop <= |list| && curr == At(list, drop + 1)
      modifies this`next, this`list
      ensures Linked(next, list) && list == [a] + old(list)[drop..]
    {
      LinkPushed(next, list, a, drop);
      next := next[LIST := a][a := curr];
      list := [a] + list[drop..];
    }

    method FreeForward(a: int)
      requires Valid() && initialized && a in live && list != [] && Touches(size, a, list[0])
      modifies this
      ensures Valid() && initialized && live == old(live) - {a}
      ensures list == [a] + old(list)[1..]
      ensures size == old(size)[a := old(SizeOf(size, a) + SizeOf(size, list[0]) + HEADER)]
      ensures FreeBytes(size, list) == old(FreeBytes(size, list)) + HEADER + old(SizeOf(size, a))
    {
      LiveBlock(size, list, live, a);
      ForwardKeeps(size, list, live, a);
      ForwardBytes(size, list, a);
      assert LinkAt(next, list, 0) && LinkAt(next, list, 1);
      var head := next[LIST];
      assert head == list[0];
      size := size[a := size[a] + SizeOf(size, head) + HEADER];
      var curr := next[head];
      // a second free block lies above the merged one, so the tests end in an insertion
      assert curr != 0 ==> curr == list[1] && a < list[0] < list[1];
      Push(a, curr, 1);
      live := live - {a};
    }

    method FreeBackward(a: int)
      requires Valid() && initialized && a in live && list != [] && Touches(size, list[0], a)
      modifies this
      ensures Valid() && initialized && live == old(live) - {a} && list == old(list)
      ensures size == old(size)[list[0] := old(SizeOf(size, list[0]) + SizeOf(size, a) + HEADER)][a := 0]
      ensures FreeBytes(size, list) == old(FreeBytes(size, list)) + HEADER + old(SizeOf(size, a))
    {
      LiveBlock(size, list, live, a);
      BackwardKeeps(size, list, live, a);
      BackwardBytes(size, list, a);
      assert LinkAt(next, list, 0);
      var curr := next[LIST];
      size := size[curr := SizeOf(size, curr) + SizeOf(size, a) + HEADER][a := 0];
      LinkUnlisted(next, list, a, curr);
      next := next[a := curr][LIST := curr];
      live := live - {a};
    }

    method FreeInsert(a: int)
      requires Valid() && initialized && a in live && (list != [] ==> a < list[0])
      modifies this
      ensures Valid() && initialized && live == old(live) - {a}
      ensures list == [a] + old(list) && size == old(size)
      ensures FreeBytes(size, list) == old(FreeBytes(size, list)) + HEADER + old(SizeOf(size, a))
    {
      LiveBlock(size, list, live, a);
      InsertKeeps(size, list, live, a);
      assert LinkAt(next, list, 0);
      Push(a, next[LIST], 0);
      assert old(list)[0..] == old(list);
      live := live - {a};
    }

    /** The walk over the rest of the list, which changes nothing. */
    method FreeDrop(a: int)
      requires Valid() && initialized && a in live
      modifies this`live
      ensures Valid() && live == old(live) - {a}
    {
      assert LinkAt(next, list, 0);
      var curr := next[LIST];
      ghost var k := 1;
      while curr != 0 && curr in next && next[curr] != 0
        invariant 1 <= k <= |list| + 1 && curr == At(list, k)
        decreases |list| - k
      {
        assert LinkAt(next, list, k);
        curr := next[curr];
        k := k + 1;
      }
      DropKeeps(size, list, live, a);
      live := live - {a};
    }

    /** Safety holds for every live pointer. The bytes return to the free list exactly when the
    block is below the first free block or right behind it; otherwise they are lost. */
    method Free(ptr: int)
      requires Valid() && (ptr == 0 || ptr - HEADER in live)
      modifies this
      ensures Valid() && initialized == old(initialized)
      ensures ptr == 0 ==> live == old(live) && list == old(list) && size == old(size)
      ensures ptr != 0 ==> live == old(live) - {ptr - HEADER}
      ensures ptr != 0 ==> list == FreedList(old(size), old(list), ptr - HEADER)
      ensures ptr != 0 ==> size == FreedSizes(old(size), old(list), ptr - HEADER)
      ensures ptr != 0 ==> Coalesced(old(size), old(list), ptr - HEADER, size, list)
      ensures ptr != 0 ==> FreeBytes(size, list) == old(FreeBytes(size, list)) + old(Returned(ptr - HEADER))
      ensures forall c :: c in live ==> SizeOf(size, c) == old(SizeOf(size, c))
    {
      if ptr == 0 { return; }
      var a := ptr - HEADER;
      LiveApart(list, live);
      FreedCoalesced(size, list, live, a);
      assert LinkAt(next, list, 0);
      var curr := next[LIST];
      FirstIsNotNull(size, list, live);
      if curr == ptr + SizeOf(size, a) && curr != 0 {
        FreeForward(a);
      } else if curr == 0 {
        FreeInsert(a);
      } else if curr + HEADER + SizeOf(size, curr) == a {
        FreeBackward(a);
      } else if a < curr {
        FreeInsert(a);
      } else {
        FreeDrop(a);
      }
    }
  }

  lemma FreedCoalesced(size: Sizes, list: seq<int>, live: set<int>, a: int)
    requires ListOk(size, list, live) && a in live
    ensures Coalesced(size, list, a, FreedSizes(size, list, a), FreedList(size, list, a))
  {
    LiveBlock(size, list, live, a);
    if list != [] { FreeBlock(size, list, live, 0); }
  }

  /** A live block is an aligned block of the heap and not in the list. */
  lemma LiveBlock(size: Sizes, list: seq<int>, live: set<int>, a: int)
    requires ListOk(size, list, live) && a in live
    ensures BlockOk(size, a) && a !in list && LIST < a && Distinct(list)
  {
    ListDistinct(size, list, live);
    LiveApart(list, live);
    assert a in live + Elements(list);
  }

  lemma FreeBlock(size: Sizes, list: seq<int>, live: set<int>, b: int)
    requires ListOk(size, list, live) && 0 <= b < |list|
    ensures BlockOk(size, list[b]) && list[b] !in live && Distinct(list)
  {
    ListDistinct(size, list, live);
    assert list[b] in Elements(list);
    assert list[b] in live + Elements(list);
  }

  lemma LiveApart(list: seq<int>, live: set<int>)
    requires live !! Elements(list)
    ensures forall c :: c in live ==> c !in list
  {
    forall c | c in live ensures c !in list {
      assert c !in Elements(list);
    }
  }

  lemma FirstIsNotNull(size: Sizes, list: seq<int>, live: set<int>)
    requires ListOk(size, list, live)
    ensures At(list, 1) == 0 <==> list == []
  {
    ListDistinct(size, list, live);
  }

  /** The rounded request holds the request unless the rounding itself wraps; a request within
  seven bytes of 2^32 becomes a request for nothing. */
  lemma RequestRounding(n: word)
    ensures n <= AlignedSize(n) <==> n <= TWO32 - 8
    ensures n <= TWO32 - 8 ==> AlignedSize(n) < n + 8
    ensures n > TWO32 - 8 ==> AlignedSize(n) == 0
  {}

  datatype Request = Allocate(n: word) | Release(ptr: int)

  /** `held` without `a`. */
  function Without(held: seq<int>, a: int): seq<int> {
    if held == [] then [] else if held[0] == a then held[1..] else [held[0]] + Without(held[1..], a)
  }

  ghost predicate Unique(held: seq<int>) { forall i, j :: 0 <= i < j < |held| ==> held[i] != held[j] }

  lemma {:induction false} WithoutBytes(size: Sizes, held: seq<int>, a: int)
    requires a in held
    ensures FreeBytes(size, Without(held, a)) + HEADER + SizeOf(size, a) == FreeBytes(size, held)
  {
    if held[0] != a {
      WithoutBytes(size, held[1..], a);
      assert ([held[0]] + Without(held[1..], a))[1..] == Without(held[1..], a);
    }
  }

  lemma {:induction false} WithoutElements(held: seq<int>, a: int)
    requires Unique(held)
    ensures Unique(Without(held, a)) && Elements(Without(held, a)) == Elements(held) - {a}
  {
    if held != [] {
      var x, rest := held[0], held[1..];
      assert held == [x] + rest;
      assert forall i :: 0 <= i < |rest| ==> rest[i] == held[i + 1];
      assert x !in Elements(rest);
      PushedElements(x, rest);
      if x != a {
        WithoutElements(rest, a);
        PushedElements(x, Without(rest, a));
        assert x !in Elements(Without(rest, a));
        UniquePush(x, Without(rest, a));
      }
    }
  }

  lemma UniquePush(x: int, held: seq<int>)
    requires Unique(held) && x !in Elements(held)
    ensures Unique([x] + held)
  {
    forall i, j | 0 <= i < j < |[x] + held| ensures ([x] + held)[i] != ([x] + held)[j] {
      if i == 0 { assert held[j - 1] in Elements(held); }
    }
  }

  /** Before the first allocation the whole heap is free. */
  lemma FirstBlock(size: Sizes)
    ensures FreeBytes(size[START := END - START - HEADER], [START]) == END - START
  {
    assert [START][1..] == [];
    assert FreeBytes(size[START := END - START - HEADER], []) == 0;
  }

  /** The client holds the live blocks, and free bytes, held bytes and lost bytes add up. */
  ghost predicate Balanced(h: Allocator, held: seq<int>, lost: int, total: int)
    reads h
  {
    && h.Valid() && Unique(held) && Elements(held) == h.live
    && FreeBytes(h.Sizes(), h.FreeList()) + FreeBytes(h.Sizes(), held) + lost == total
  }

  lemma HeldFrame(size: Sizes, size': Sizes, held: seq<int>, live: set<int>)
    requires Elements(held) <= live && forall a :: a in live ==> SizeOf(size', a) == SizeOf(size, a)
    ensures FreeBytes(size', held) == FreeBytes(size, held)
  {
    forall i | 0 <= i < |held| ensures SizeOf(size, held[i]) == SizeOf(size', held[i]) {
      assert held[i] in Elements(held);
    }
    FreeBytesFrame(size, size', held);
  }

  lemma HeldPush(size: Sizes, held: seq<int>, a: int)
    requires Unique(held) && a !in Elements(held)
    ensures Unique([a] + held) && Elements([a] + held) == Elements(held) + {a}
    ensures FreeBytes(size, [a] + held) == HEADER + SizeOf(size, a) + FreeBytes(size, held)
  {
    PushedElements(a, held);
    UniquePush(a, held);
    assert ([a] + held)[1..] == held;
  }

  /** `malloc` as far as the balance is concerned. */
  method MallocBytes(h: Allocator, n: word) returns (ptr: int)
    requires h.Valid()
    modifies h
    ensures h.Valid() && h.initialized
    ensures ptr == 0 ==> h.live == old(h.live)
    ensures ptr != 0 ==> h.live == old(h.live) + {ptr - HEADER} && ptr - HEADER !in old(h.live)
    ensures FreeBytes(h.size, h.list) + (if ptr == 0 then 0 else HEADER + SizeOf(h.size, ptr - HEADER))
         == old(FreeBytes(h.Sizes(), h.FreeList()))
    ensures forall a :: a in old(h.live) ==> SizeOf(h.size, a) == SizeOf(old(h.Sizes()), a)
  {
    ghost var b;
    ptr, b := h.Malloc(n);
  }

  method AllocateHeld(h: Allocator, n: word, held: seq<int>, ghost lost: int, ghost total: int)
    returns (held': seq<int>)
    requires Balanced(h, held, lost, total)
    modifies h
    ensures Balanced(h, held', lost, total)
  {
    ghost var size, live := h.Sizes(), h.live;
    var ptr := MallocBytes(h, n);
    HeldFrame(size, h.size, held, live);
    held' := held;
    if ptr != 0 {
      held' := [ptr - HEADER] + held;
      HeldPush(h.size, held, ptr - HEADER);
    }
  }

  /** A block that `free` finds no place for is lost, with its header. */
  method ReleaseHeld(h: Allocator, ptr: int, held: seq<int>, ghost lost: nat, ghost total: int)
    returns (held': seq<int>, ghost lost': nat)
    requires Balanced(h, held, lost, total) && ptr != 0 && ptr - HEADER in held
    modifies h
    ensures Balanced(h, held', lost', total)
    ensures lost' == lost + old(if h.Reclaimed(ptr - HEADER) then 0 else HEADER + SizeOf(h.size, ptr - HEADER))
  {
    var a := ptr - HEADER;
    assert a in Elements(held);
    ghost var size := h.size;
    LiveBlock(size, h.list, h.live, a);
    lost' := lost + if h.Reclaimed(a) then 0 else HEADER + SizeOf(size, a);
    held' := Without(held, a);
    WithoutElements(held, a);
    WithoutBytes(size, held, a);
    h.Free(ptr);
    HeldFrame(size, h.size, held', h.live);
  }

  /** Every run of a client that releases only what it holds (`held` are the headers of its
  blocks): the free list stays sorted and well linked, held and free blocks stay aligned, inside
  the heap and disjoint, and no byte of the heap is unaccounted for. */
  method Run(h: Allocator, requests: seq<Request>) returns (held: seq<int>, ghost lost: nat)
    requires h.Valid() && h.live == {}
    modifies h
    ensures h.Valid() && Elements(held) == h.live && Unique(held)
    ensures h.initialized ==> Sorted(h.list) && Linked(h.next, h.list) && Blocks(h.size, h.live + Elements(h.list))
    ensures FreeBytes(h.Sizes(), h.FreeList()) + FreeBytes(h.Sizes(), held) + lost
         == old(FreeBytes(h.Sizes(), h.FreeList()))
    ensures !old(h.initialized) ==> old(FreeBytes(h.Sizes(), h.FreeList())) == END - START
  {
    ghost var total := FreeBytes(h.Sizes(), h.FreeList());
    if !h.initialized { FirstBlock(h.size); }
    held, lost := [], 0;
    for i := 0 to |requests|
      invariant Balanced(h, held, lost, total)
    {
      match requests[i] {
        case Allocate(n) =>
          held := AllocateHeld(h, n, held, lost, total);
        case Release(ptr) =>
          if ptr != 0 && ptr - HEADER in held {
            held, lost := ReleaseHeld(h, ptr, held, lost, total);
          }
      }
    }
  }

  /** An allocation from a heap whose one free block is large enough to be split. */
  method AllocateFront(h: Allocator, n: word, x: int) returns (ptr: int)
    requires h.Valid() && h.FreeList() == [x] && SizeOf(h.Sizes(), x) - AlignedSize(n) >= MIN_SPLIT
    modifies h
    ensures h.Valid() && h.initialized && ptr == x + HEADER && h.live == old(h.live) + {x}
    ensures h.list == [ptr + AlignedSize(n)] && h.size == SplitSizes(old(h.Sizes()), x, AlignedSize(n))
  {
    var need := AlignedSize(n);
    assert old(h.FreeList())[0] == x;
    ghost var b;
    ptr, b := h.Malloc(n);
    assert [x][0 := ptr + need] == [ptr + need];
  }

  /** Four blocks of 16 bytes each. */
  method FourBlocks() returns (h: Allocator)
    ensures fresh(h) && h.Valid() && h.initialized
    ensures h.live == {START, START + 16, START + 32, START + 48} && h.list == [START + 64]
    ensures SizeOf(h.size, START) == SizeOf(h.size, START + 32) == SizeOf(h.size, START + 48) == 8
    ensures SizeOf(h.size, START + 64) == END - START - 72
  {
    h := new Allocator();
    var p1 := AllocateFront(h, 8, START);
    var p2 := AllocateFront(h, 8, START + 16);
    var p3 := AllocateFront(h, 8, START + 32);
    var p4 := AllocateFront(h, 8, START + 48);
  }

  /** Of four blocks the first and the third are freed: the third is above the first free block
  and not next to it, so it is neither live nor free any more. */
  method LostBlock() returns (h: Allocator)
    ensures fresh(h) && h.Valid()
    ensures h.live == {START + 16, START + 48} && h.list == [START, START + 64]
    ensures FreeBytes(h.size, h.list) + 2 * 16 == END - START - 16
  {
    h := FourBlocks();
    h.Free(START + HEADER);
    assert h.list == [START, START + 64] && h.list[1..] == [START + 64];
    h.Free(START + 32 + HEADER);
  }

  /** A request for 2^32 - 1 bytes is served with an empty block. */
  method EmptyBlock() returns (h: Allocator, ptr: int)
    ensures fresh(h) && h.Valid() && ptr == START + HEADER && h.live == {START} && SizeOf(h.size, START) == 0
  {
    h := new Allocator();
    RequestRounding(0xFFFF_FFFF);
    ptr := AllocateFront(h, 0xFFFF_FFFF, START);
  }

  /** An allocation that takes the one free block as a whole. */
  method AllocateAll(h: Allocator, n: word, x: int) returns (ptr: int)
    requires h.Valid() && h.initialized && h.list == [x] && SizeOf(h.size, x) == AlignedSize(n)
    modifies h
    ensures h.Valid() && h.list == [] && h.size == old(h.size) && ptr == x + HEADER
  {
    assert h.list[0] == x;
    ghost var b;
    ptr, b := h.Malloc(n);
  }

  /** The last of four blocks is right below the free rest of the heap: freed, it is merged with it. */
  method MergedLast() returns (h: Allocator)
    ensures fresh(h) && h.Valid() && h.initialized
    ensures h.list == [START + 48] && SizeOf(h.size, START + 48) == END - START - 56
  {
    h := FourBlocks();
    h.Free(START + 56);
  }

  /** All of both can then be allocated at once. */
  method MergedReused() returns (h: Allocator, ptr: int)
    ensures fresh(h) && h.Valid() && h.list == [] && ptr == START + 56 && SizeOf(h.size, START + 48) == END - START - 56
  {
    h := MergedLast();
    var rest := END - START - 56;
    ptr := AllocateAll(h, rest, START + 48);
  }
}
