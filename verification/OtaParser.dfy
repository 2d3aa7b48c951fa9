/** The callback that receives the decompressed OTA stream (`ota_gzcb`): a parser of
(header, body) records that can stop and resume at any byte, and writes the bodies of script
images to flash. */
module OtaParser {
  import opened Words
  import opened Chunks
  import opened Flash
  import opened ImageHeader

  const SCRIPT := 2

  /** The static variables of the callback, and the flash it writes. */
  datatype State = State(head: Header, fill: nat, skip: word, flash: map<int, byte>)

  // ---------- the parser, one byte at a time ----------

  function Step(s: State, base: word, x: byte): State
    requires s.fill <= HEADER_SIZE
  {
    if s.skip > 0 then
      s.(flash := if ImgType(s.head) == SCRIPT
                  then s.flash[(base + (ImgLen(s.head) - s.skip)) % TWO32 := x] else s.flash,
         skip := s.skip - 1,
         fill := if s.skip == 1 then 0 else s.fill)
    else if s.fill < HEADER_SIZE then
      var head := s.head[s.fill := x];
      s.(head := head, fill := s.fill + 1, skip := if s.fill + 1 == HEADER_SIZE then ImgLen(head) else 0)
    else
      s
  }

  function Parse(s: State, base: word, bs: seq<byte>): (r: State)
    requires s.fill <= HEADER_SIZE
    ensures r.fill <= HEADER_SIZE
    decreases |bs|
  {
    if bs == [] then s else Parse(Step(s, base, bs[0]), base, bs[1..])
  }

  /** Resuming: the split of the stream into chunks does not matter. */
  lemma {:induction false} ParseAppend(s: State, base: word, bs: seq<byte>, cs: seq<byte>)
    requires s.fill <= HEADER_SIZE
    ensures Parse(s, base, bs + cs) == Parse(Parse(s, base, bs), base, cs)
    decreases |bs|
  {
    if bs == [] {
      assert bs + cs == cs;
    } else {
      assert (bs + cs)[1..] == bs[1..] + cs;
      ParseAppend(Step(s, base, bs[0]), base, bs[1..], cs);
    }
  }

  lemma Advance(s: State, base: word, chunk: seq<byte>, i: nat, n: nat)
    requires s.fill <= HEADER_SIZE && i + n <= |chunk|
    ensures Parse(s, base, chunk[..i + n]) == Parse(Parse(s, base, chunk[..i]), base, chunk[i..][..n])
  {
    ParseAppend(s, base, chunk[..i], chunk[i..][..n]);
    assert chunk[..i + n] == chunk[..i] + chunk[i..][..n];
  }

  // ---------- what a run of bytes does at once ----------

  function WriteBody(s: State, base: word, bs: seq<byte>): map<int, byte>
  {
    if ImgType(s.head) == SCRIPT then Store(s.flash, base + (ImgLen(s.head) - s.skip), bs) else s.flash
  }

  /** Body bytes: one write, and the counter goes down; at the end the next header is due. */
  lemma {:induction false} BodyRun(s: State, base: word, bs: seq<byte>)
    requires s.fill <= HEADER_SIZE && 0 < |bs| <= s.skip
    ensures Parse(s, base, bs)
         == s.(flash := WriteBody(s, base, bs), skip := s.skip - |bs|, fill := if |bs| == s.skip then 0 else s.fill)
    decreases |bs|
  {
    var t := Step(s, base, bs[0]);
    if |bs| == 1 {
      assert bs[1..] == [];
      assert Store(s.flash, base + (ImgLen(s.head) - s.skip), bs)
          == s.flash[(base + (ImgLen(s.head) - s.skip)) % TWO32 := bs[0]];
    } else {
      BodyRun(t, base, bs[1..]);
    }
  }

  /** Header bytes: copied in place; the last one announces the body. */
  lemma {:induction false} HeadRun(s: State, base: word, bs: seq<byte>)
    requires s.skip == 0 && 0 < |bs| && s.fill + |bs| <= HEADER_SIZE
    ensures var head := s.head[..s.fill] + bs + s.head[s.fill + |bs|..];
      Parse(s, base, bs) == State(head, s.fill + |bs|,
                                  if s.fill + |bs| == HEADER_SIZE then ImgLen(head) else 0, s.flash)
    decreases |bs|
  {
    var t := Step(s, base, bs[0]);
    var head := s.head[..s.fill] + bs + s.head[s.fill + |bs|..];
    if |bs| == 1 {
      assert bs[1..] == [];
      assert t.head == head;
    } else {
      HeadRun(t, base, bs[1..]);
      assert t.head[..t.fill] + bs[1..] + t.head[t.fill + |bs[1..]|..] == head;
    }
  }

  /** After a header that announces an empty body nothing is ever consumed again. */
  lemma {:induction false} Stuck(s: State, base: word, bs: seq<byte>)
    requires s.skip == 0 && s.fill == HEADER_SIZE
    ensures Parse(s, base, bs) == s
    decreases |bs|
  {
    if bs != [] { Stuck(s, base, bs[1..]); }
  }

  // ---------- the callback ----------

  method CopyAt(a: array<byte>, at: nat, bs: seq<byte>)
    requires at + |bs| <= a.Length
    modifies a
    ensures a[..] == old(a[..])[..at] + bs + old(a[..])[at + |bs|..]
  {
    for k := 0 to |bs|
      invariant forall j :: 0 <= j < k ==> a[at + j] == bs[j]
      invariant forall j :: 0 <= j < at || at + k <= j < a.Length ==> a[j] == old(a[j])
    {
      a[at + k] := bs[k];
    }
  }

  class Parser {
    const base: word        // luadb_addr
    var head: array<byte>   // tmphead
    var fill: word          // head_fill_count
    var skip: word          // image_skip_remain
    var flash: map<int, byte>

    ghost predicate Valid()
      reads this
    {
      head.Length == HEADER_SIZE && fill <= HEADER_SIZE
    }

    ghost function Abs(): State
      reads this, head
      requires Valid()
    {
      State(head[..], fill, skip, flash)
    }

    constructor (base: word, flash: map<int, byte>)
      ensures Valid() && fresh(head) && this.base == base && fill == 0 && skip == 0 && this.flash == flash
    {
      this.base, this.flash := base, flash;
      head := new byte[HEADER_SIZE](_ => 0);
      fill, skip := 0, 0;
    }

    /** The body branch: as much of `bs` as belongs to the body. */
    method Body(bs: seq<byte>) returns (n: nat)
      requires Valid() && skip > 0 && bs != []
      modifies this`fill, this`skip, this`flash
      ensures Valid() && 0 < n <= |bs| && Abs() == Parse(old(Abs()), base, bs[..n])
      ensures n < |bs| ==> n == old(skip)
    {
      n := if |bs| >= skip then skip else |bs|;
      BodyRun(Abs(), base, bs[..n]);
      var h := head[..];
      if ImgType(h) == SCRIPT {
        flash := Store(flash, base + (ImgLen(h) - skip), bs[..n]);
      }
      if |bs| >= skip {
        skip, fill := 0, 0;
      } else {
        skip := skip - |bs|;
      }
    }

    /** The header branch: as much of `bs` as belongs to the header. */
    method Head(bs: seq<byte>) returns (n: nat)
      requires Valid() && skip == 0 && fill < HEADER_SIZE && bs != []
      modifies this`fill, this`skip, head
      ensures Valid() && 0 < n <= |bs| && Abs() == Parse(old(Abs()), base, bs[..n])
    {
      n := if fill + |bs| >= HEADER_SIZE then HEADER_SIZE - fill else |bs|;
      HeadRun(Abs(), base, bs[..n]);
      CopyAt(head, fill, bs[..n]);
      fill := fill + n;
      if fill == HEADER_SIZE {
        skip := ImgLen(head[..]);
      }
    }

    /** `ota_gzcb`. The `goto next` loop consumes at least one byte in every pass but the last. */
    method Feed(chunk: seq<byte>) returns (ret: int)
      requires Valid()
      modifies this`fill, this`skip, this`flash, head
      ensures Valid() && ret == 1 && Abs() == Parse(old(Abs()), base, chunk)
    {
      var i := 0;
      while i < |chunk|
        invariant 0 <= i <= |chunk| && Valid() && Abs() == Parse(old(Abs()), base, chunk[..i])
      {
        var n;
        if skip > 0 {
          n := Body(chunk[i..]);
        } else if fill < HEADER_SIZE {
          n := Head(chunk[i..]);
        } else {
          n := |chunk| - i;
          Stuck(Abs(), base, chunk[i..][..n]);
          Advance(old(Abs()), base, chunk, i, n);
          assert chunk[..|chunk|] == chunk;
          return 1;
        }
        Advance(old(Abs()), base, chunk, i, n);
        i := i + n;
      }
      assert chunk[..i] == chunk;
      return 1;
    }
  }

  /** A whole run of the callback: any split of the stream leaves the state and the flash that
  one call with the whole stream leaves. */
  method FeedAll(p: Parser, chunks: seq<seq<byte>>)
    requires p.Valid()
    modifies p`fill, p`skip, p`flash, p.head
    ensures p.Valid() && p.Abs() == Parse(old(p.Abs()), p.base, Concat(chunks))
  {
    var i := 0;
    while i < |chunks|
      invariant 0 <= i <= |chunks| && p.Valid() && p.Abs() == Parse(old(p.Abs()), p.base, Concat(chunks[..i]))
    {
      var r := p.Feed(chunks[i]);
      assert chunks[..i + 1][..i] == chunks[..i];
      ParseAppend(old(p.Abs()), p.base, Concat(chunks[..i]), chunks[i]);
      i := i + 1;
    }
    assert chunks[..i] == chunks;
  }

  // ---------- what a stream of records leaves in flash ----------

  datatype Record = Record(head: Header, body: seq<byte>) {
    ghost predicate Consistent() { ImgLen(head) == |body| }
  }

  function Stream(rs: seq<Record>): seq<byte> {
    if rs == [] then [] else rs[0].head + rs[0].body + Stream(rs[1..])
  }

  /** The script bodies, each written from `base`, in stream order. */
  function WriteScripts(flash: map<int, byte>, base: word, rs: seq<Record>): map<int, byte>
    decreases |rs|
  {
    if rs == [] then flash
    else WriteScripts(if ImgType(rs[0].head) == SCRIPT then Store(flash, base, rs[0].body) else flash, base, rs[1..])
  }

  /** The records the parser gets to see: it stops at the first empty body. */
  function BeforeEmpty(rs: seq<Record>): seq<Record> {
    if rs == [] || rs[0].body == [] then [] else [rs[0]] + BeforeEmpty(rs[1..])
  }

  lemma HeaderOf(s: State, base: word, head: Header)
    requires s.fill == 0 && s.skip == 0
    ensures Parse(s, base, head) == State(head, HEADER_SIZE, ImgLen(head), s.flash)
  {
    HeadRun(s, base, head);
    assert s.head[..0] + head + s.head[HEADER_SIZE..] == head;
  }

  lemma RecordOf(s: State, base: word, r: Record)
    requires s.fill == 0 && s.skip == 0 && r.Consistent() && r.body != []
    ensures Parse(s, base, r.head + r.body) == State(r.head, 0, 0, WriteScripts(s.flash, base, [r]))
  {
    HeaderOf(s, base, r.head);
    ParseAppend(s, base, r.head, r.body);
    BodyRun(State(r.head, HEADER_SIZE, ImgLen(r.head), s.flash), base, r.body);
    assert [r][1..] == [];
  }

  /** On a stream of records the flash receives exactly the script bodies that precede the
  first empty record, and the parser is ready for another header unless there is one. */
  lemma {:induction false} StreamWritten(s: State, base: word, rs: seq<Record>)
    requires s.fill == 0 && s.skip == 0 && forall i :: 0 <= i < |rs| ==> rs[i].Consistent()
    ensures Parse(s, base, Stream(rs)).flash == WriteScripts(s.flash, base, BeforeEmpty(rs))
    ensures Parse(s, base, Stream(rs)).skip == 0
    ensures Parse(s, base, Stream(rs)).fill == if BeforeEmpty(rs) == rs then 0 else HEADER_SIZE
    decreases |rs|
  {
    if rs != [] {
      var r, rest := rs[0], Stream(rs[1..]);
      if r.body == [] {
        HeaderOf(s, base, r.head);
        assert Stream(rs) == r.head + rest;
        ParseAppend(s, base, r.head, rest);
        Stuck(Parse(s, base, r.head), base, rest);
      } else {
        RecordOf(s, base, r);
        ParseAppend(s, base, r.head + r.body, rest);
        var t := Parse(s, base, r.head + r.body);
        StreamWritten(t, base, rs[1..]);
        var seen := BeforeEmpty(rs[1..]);
        assert ([r] + seen)[1..] == seen && [r][1..] == [];
        assert rs == [r] + rs[1..];
      }
    }
  }

  lemma {:induction false} WriteAppend(flash: map<int, byte>, base: word, p: seq<Record>, q: seq<Record>)
    ensures WriteScripts(flash, base, p + q) == WriteScripts(WriteScripts(flash, base, p), base, q)
    decreases |p|
  {
    if p == [] {
      assert p + q == q;
    } else {
      assert (p + q)[1..] == p[1..] + q;
      WriteAppend(if ImgType(p[0].head) == SCRIPT then Store(flash, base, p[0].body) else flash, base, p[1..], q);
    }
  }

  /** Records of other types leave the flash alone. */
  lemma {:induction false} NoScripts(flash: map<int, byte>, base: word, rs: seq<Record>)
    requires forall i :: 0 <= i < |rs| ==> rs[i].head[4] % 16 != 2
    ensures WriteScripts(flash, base, rs) == flash
    decreases |rs|
  {
    if rs != [] { NoScripts(flash, base, rs[1..]); }
  }

  /** After a stream of records with bodies, the last script is in flash, byte for byte from `base`. */
  lemma LastScriptStored(s: State, base: word, before: seq<Record>, r: Record, after: seq<Record>, p: int)
    requires s.fill == 0 && s.skip == 0
    requires forall i :: 0 <= i < |before| ==> before[i].Consistent() && before[i].body != []
    requires forall i :: 0 <= i < |after| ==> after[i].Consistent() && after[i].body != [] && after[i].head[4] % 16 != 2
    requires r.Consistent() && r.body != [] && r.head[4] % 16 == 2 && base + |r.body| <= TWO32
    requires base <= p < base + |r.body|
    ensures var flash := Parse(s, base, Stream(before + [r] + after)).flash;
      p in flash && flash[p] == r.body[p - base]
  {
    var rs := before + [r] + after;
    StreamWritten(s, base, rs);
    NoEmptyBody(rs);
    WriteAppend(s.flash, base, before + [r], after);
    WriteAppend(s.flash, base, before, [r]);
    var f := WriteScripts(s.flash, base, before);
    assert [r][1..] == [];
    assert WriteScripts(f, base, [r]) == Store(f, base, r.body);
    NoScripts(Store(f, base, r.body), base, after);
    StoreAt(f, base, r.body, p);
  }

  lemma {:induction false} NoEmptyBody(rs: seq<Record>)
    ensures BeforeEmpty(rs) == rs <==> forall i :: 0 <= i < |rs| ==> rs[i].body != []
  {
    if rs != [] {
      NoEmptyBody(rs[1..]);
      assert rs == [rs[0]] + rs[1..];
      if rs[0].body != [] && BeforeEmpty(rs) == rs {
        assert BeforeEmpty(rs[1..]) == rs[1..];
        assert forall i :: 0 < i < |rs| ==> rs[i] == rs[1..][i - 1];
      }
    }
  }

  /** A full image with an empty body, then a script of one byte. */
  function EmptyThenScript(): (rs: seq<Record>)
    ensures |rs| == 2 && rs[0].Consistent() && rs[1].Consistent()
    ensures rs[0].body == [] && ImgType(rs[1].head) == SCRIPT && rs[1].body == [0x42]
  {
    [Record(Sealed(Fields(0, 1, 0, 0), 0), []), Record(Sealed(Fields(0, 2, 1, 0), 0), [0x42])]
  }

  /** The script behind the empty image never reaches flash. */
  lemma ScriptLost(s: State, base: word)
    requires s.fill == 0 && s.skip == 0
    ensures Parse(s, base, Stream(EmptyThenScript())).flash == s.flash
    ensures WriteScripts(s.flash, base, EmptyThenScript()[1..]) == s.flash[base := 0x42]
  {
    var rs := EmptyThenScript();
    StreamWritten(s, base, rs);
    assert rs[1..] == [rs[1]] && rs[1..][1..] == [];
    var body := rs[1].body;
    assert Store(s.flash, base, body) == s.flash[base := 0x42];
  }
}
