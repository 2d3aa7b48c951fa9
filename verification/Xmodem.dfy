/** The XMODEM receiver (`xmodem_recv_init`, `xmodem_recv_block`, `xmodem_recv_data`).

`uart_getchar` blocks until a byte arrives, so the receiver runs on what has arrived so far: a
finite input, at whose end it waits. Everything is proved for every such input. */
module Xmodem {
  import opened Words
  import opened Chunks
  import opened Crc16
  import opened Flash

  const SOH: byte := 0x01
  const STX: byte := 0x02
  const EOT: byte := 0x04
  const ACK: byte := 0x06
  const NAK: byte := 0x15
  const CRC_CHR: byte := 0x43
  const MAX_RETRIES := 100

  // ---------- one block ----------

  /** What the receiver makes of its input: not enough of it, a block it rejects after reading
  `used` bytes, or the payload of the block it expects. */
  datatype Verdict = Waiting | Rejected(used: nat) | Accepted(payload: seq<byte>)

  /** A block number and its complement add up to 0xFF in eight bits. */
  predicate Paired(number: int, complement: int) { (number + complement) % 256 == 0xFF }

  function Judge(input: seq<byte>, blockSize: nat, expected: byte): Verdict {
    if |input| < 2 then Waiting
    else if !Paired(input[0], input[1]) then Rejected(2)
    else JudgeBody(input[0], input[2..], blockSize, expected)
  }

  /** Payload and CRC, after the block number. */
  function JudgeBody(number: byte, body: seq<byte>, blockSize: nat, expected: byte): Verdict {
    if |body| < blockSize + 2 then Waiting
    else if Crc(body[..blockSize]) != ByteBits(body[blockSize]) + ByteBits(body[blockSize + 1])
    then Rejected(blockSize + 4)
    else if number != expected then Rejected(blockSize + 4)
    else Accepted(body[..blockSize])
  }

  /** On bytes, the complement of a block number is what is missing to 255. */
  lemma PairedIs(number: byte, complement: byte)
    ensures Paired(number, complement) <==> complement == 255 - number
  {}

  /** Every frame of whatever bytes: rejected after two when the second is not the complement of the
  first, accepted exactly when CRC and number are right as well. */
  lemma JudgeFrame(
    number: byte, complement: byte, payload: seq<byte>, hi: byte, lo: byte, rest: seq<byte>, expected: byte)
    ensures Judge([number, complement] + payload + [hi, lo] + rest, |payload|, expected)
         == if complement != 255 - number then Rejected(2)
            else if Crc(payload) == ByteBits(hi) + ByteBits(lo) && number == expected then Accepted(payload)
            else Rejected(|payload| + 4)
  {
    PairedIs(number, complement);
    var input, body := [number, complement] + payload + [hi, lo] + rest, payload + [hi, lo] + rest;
    assert input[2..] == body && body[..|payload|] == payload && body[|payload|] == hi && body[|payload| + 1] == lo;
  }

  /** Two bytes that do not belong together are rejected whatever follows. */
  lemma UnpairedRejected(number: byte, complement: byte, rest: seq<byte>, blockSize: nat, expected: byte)
    requires complement != 255 - number
    ensures Judge([number, complement] + rest, blockSize, expected) == Rejected(2)
  {
    PairedIs(number, complement);
  }

  lemma BurstChangesCrc(sent: seq<byte>, received: seq<byte>, start: int)
    requires |sent| == |received| && sent != received && OnlyWithin(Message(sent), Message(received), start)
    ensures Crc(sent) != Crc(received)
  {
    MessageLength(sent);
    MessageLength(received);
    assert Message(sent) != Message(received) by {
      if Message(sent) == Message(received) { MessageInjective(sent, received); }
    }
    BurstDetected(Message(sent), Message(received), start);
  }

  /** Two bit strings agree outside 16 consecutive bits. */
  ghost predicate OnlyWithin(p: Bits, q: Bits, start: int)
  {
    |p| == |q| && forall i :: 0 <= i < |p| && !(start <= i < start + 16) ==> p[i] == q[i]
  }

  /** A payload changed within 16 consecutive bits is rejected, whatever block is expected. */
  lemma BurstRejected(
    number: byte, complement: byte, sent: seq<byte>, received: seq<byte>, hi: byte, lo: byte, rest: seq<byte>,
    expected: byte, start: int)
    requires Crc(sent) == ByteBits(hi) + ByteBits(lo)
    requires |sent| == |received| && sent != received && OnlyWithin(Message(sent), Message(received), start)
    ensures Judge([number, complement] + received + [hi, lo] + rest, |received|, expected)
         == Rejected(if complement == 255 - number then |received| + 4 else 2)
  {
    BurstChangesCrc(sent, received, start);
    JudgeFrame(number, complement, received, hi, lo, rest, expected);
  }

  // ---------- a session ----------

  /** The receive context, and the flash it fills. */
  datatype Ctx = Ctx(blockNum: byte, retry: byte, total: word, dest: word, blockSize: word, flash: map<int, byte>)

  /** `frames` and `numbers` are the accepted payloads and the block numbers they came under, in
  order; `replies` the bytes sent back. */
  datatype Session = Session(
    ctx: Ctx, gaveUp: bool, frames: seq<seq<byte>>, numbers: seq<byte>, rejected: nat, replies: seq<byte>)
  {
    function AfterNak(): Session { this.(rejected := rejected + 1, replies := [NAK] + replies) }

    function AfterAck(number: byte, payload: seq<byte>): Session {
      this.(frames := [payload] + frames, numbers := [number] + numbers, replies := [ACK] + replies)
    }
  }

  function Accept(c: Ctx, payload: seq<byte>): Ctx {
    c.(blockNum := (c.blockNum + 1) % 256, total := (c.total + c.blockSize) % TWO32,
       dest := (c.dest + c.blockSize) % TWO32, flash := Store(c.flash, c.dest, payload))
  }

  function Reject(c: Ctx): Ctx { c.(retry := (c.retry + 1) % 256) }

  /** The session, block by block. */
  function Receive(c: Ctx, input: seq<byte>): Session
    decreases |input|
  {
    match Judge(input, c.blockSize, c.blockNum)
    case Waiting => Session(c, false, [], [], 0, [])
    case Rejected(used) =>
      var d := Reject(c);
      if d.retry >= MAX_RETRIES then Session(d, true, [], [], 1, [NAK])
      else Receive(d, input[used..]).AfterNak()
    case Accepted(payload) =>
      Receive(Accept(c, payload), input[c.blockSize + 4..]).AfterAck(input[0], payload)
  }

  /** The rejection that ends a session started with retry count `r`. */
  function Limit(r: byte): nat {
    if r < MAX_RETRIES then MAX_RETRIES - r else if r < 255 then 1 else MAX_RETRIES + 1
  }

  /** The counters after a session. */
  ghost predicate Counted(c: Ctx, s: Session)
  {
    && s.ctx.blockSize == c.blockSize
    && s.ctx.total == (c.total + c.blockSize * |s.frames|) % TWO32
    && s.ctx.dest == (c.dest + c.blockSize * |s.frames|) % TWO32
    && s.ctx.blockNum == (c.blockNum + |s.frames|) % 256
    && s.ctx.retry == (c.retry + s.rejected) % 256
  }

  /** Accounting over the whole session. */
  ghost predicate Accounted(c: Ctx, s: Session)
  {
    && Counted(c, s)
    && (forall i :: 0 <= i < |s.frames| ==> |s.frames[i]| == c.blockSize)
    && s.ctx.flash == Store(c.flash, c.dest, Concat(s.frames))
    && |s.replies| == |s.frames| + s.rejected
    && (if s.gaveUp then s.rejected == Limit(c.retry) else s.rejected < Limit(c.retry))
  }

  lemma AcceptAccounted(c: Ctx, number: byte, payload: seq<byte>, s: Session)
    requires |payload| == c.blockSize && Accounted(Accept(c, payload), s)
    ensures Accounted(c, s.AfterAck(number, payload))
  {
    AcceptCounted(c, number, payload, s);
    FlashAccepted(c.flash, c.dest, payload, s.frames);
  }

  lemma AcceptCounted(c: Ctx, number: byte, payload: seq<byte>, s: Session)
    requires Counted(Accept(c, payload), s)
    ensures Counted(c, s.AfterAck(number, payload))
  {
    var n, b := |s.frames|, c.blockSize;
    assert |s.AfterAck(number, payload).frames| == n + 1;
    WrapBlocks(c.total, b, n, b * n, TWO32);
    WrapBlocks(c.dest, b, n, b * n, TWO32);
    WrapAdd(c.blockNum, 1, n, 256);
  }

  lemma WrapBlocks(x: int, b: int, n: int, p: int, m: int)
    requires m == TWO32 && p == b * n
    ensures ((x + b) % m + p) % m == (x + b * (n + 1)) % m
  {
    assert b * (n + 1) == b + p;
    WrapAdd(x, b, p, m);
  }

  lemma FlashAccepted(f: map<int, byte>, dest: int, payload: seq<byte>, frames: seq<seq<byte>>)
    ensures Store(Store(f, dest, payload), (dest + |payload|) % TWO32, Concat(frames))
        == Store(f, dest, Concat([payload] + frames))
  {
    ConcatCons(payload, frames);
    StoreAppend(f, dest, payload, Concat(frames));
    StoreWraps(Store(f, dest, payload), dest + |payload|, Concat(frames));
  }

  lemma WrapAdd(x: int, y: int, z: int, m: int)
    requires m == TWO32 || m == 256
    ensures ((x + y) % m + z) % m == (x + (y + z)) % m
  {
    if m == 256 {} else {}
  }

  lemma RejectAccounted(c: Ctx, s: Session)
    requires Reject(c).retry < MAX_RETRIES && Accounted(Reject(c), s)
    ensures Accounted(c, s.AfterNak())
  {
    WrapAdd(c.retry, 1, s.rejected, 256);
  }

  /** For every input: `total` and `dest` advance by the block size for each accepted block and
  for nothing else, the flash holds the accepted payloads one after the other, block numbers
  count them modulo 256, and the session ends at exactly the rejection `Limit` names. */
  lemma {:induction false} SessionAccounted(c: Ctx, input: seq<byte>)
    ensures Accounted(c, Receive(c, input))
    decreases |input|
  {
    match Judge(input, c.blockSize, c.blockNum)
    case Waiting =>
      assert c.blockSize * 0 == 0;
    case Rejected(used) =>
      var d := Reject(c);
      if d.retry >= MAX_RETRIES {
        assert c.blockSize * 0 == 0;
      } else {
        SessionAccounted(d, input[used..]);
        RejectAccounted(c, Receive(d, input[used..]));
      }
    case Accepted(payload) =>
      SessionAccounted(Accept(c, payload), input[c.blockSize + 4..]);
      AcceptAccounted(c, input[0], payload, Receive(Accept(c, payload), input[c.blockSize + 4..]));
  }

  ghost predicate Numbered(first: int, numbers: seq<byte>)
  {
    forall k :: 0 <= k < |numbers| ==> numbers[k] == (first + k) % 256
  }

  lemma NumberedCons(first: byte, numbers: seq<byte>)
    requires Numbered((first + 1) % 256, numbers)
    ensures Numbered(first, [first] + numbers)
  {
    forall k | 0 <= k < |numbers| + 1 ensures ([first] + numbers)[k] == (first + k) % 256 {
      if k > 0 { WrapAdd(first, 1, k - 1, 256); }
    }
  }

  /** The accepted blocks came under consecutive numbers, from the expected one on. */
  lemma {:induction false} SessionNumbered(c: Ctx, input: seq<byte>)
    ensures Numbered(c.blockNum, Receive(c, input).numbers)
    decreases |input|
  {
    match Judge(input, c.blockSize, c.blockNum)
    case Waiting =>
    case Rejected(used) =>
      if Reject(c).retry < MAX_RETRIES { SessionNumbered(Reject(c), input[used..]); }
    case Accepted(payload) =>
      var rest := Receive(Accept(c, payload), input[c.blockSize + 4..]);
      SessionNumbered(Accept(c, payload), input[c.blockSize + 4..]);
      NumberedCons(c.blockNum, rest.numbers);
  }

  /** When a session gives up, in numbers: at rejection 100 - r, for r retries on entry. */
  lemma SessionGivesUp(c: Ctx, input: seq<byte>)
    requires c.retry < 100
    ensures var s := Receive(c, input);
      if s.gaveUp then s.rejected == 100 - c.retry else s.rejected < 100 - c.retry
  {
    SessionAccounted(c, input);
  }

  // ---------- a transfer without errors ----------

  /** A payload with its CRC. */
  datatype Frame = Frame(payload: seq<byte>, hi: byte, lo: byte) {
    ghost predicate Sound(blockSize: nat) {
      |payload| == blockSize && Crc(payload) == ByteBits(hi) + ByteBits(lo)
    }
  }

  /** Every payload has one. */
  method FrameOf(payload: seq<byte>) returns (f: Frame)
    ensures f.payload == payload && f.Sound(|payload|)
  {
    var crc := ComputeCrc(payload);
    f := Frame(payload, crc / 256, crc % 256);
    RegisterBytes(f.hi, f.lo);
  }

  /** The bytes of a transfer: number, complement, payload and CRC of each block, numbered from `first`. */
  function Transfer(first: byte, frames: seq<Frame>): seq<byte>
    decreases |frames|
  {
    if frames == [] then [] else FrameBytes(first, frames[0]) + Transfer((first + 1) % 256, frames[1..])
  }

  function FrameBytes(number: byte, f: Frame): seq<byte> {
    [number, 255 - number] + f.payload + [f.hi, f.lo]
  }

  lemma FrameReceived(c: Ctx, f: Frame, more: seq<byte>)
    requires f.Sound(c.blockSize)
    ensures Receive(c, FrameBytes(c.blockNum, f) + more)
         == Receive(Accept(c, f.payload), more).AfterAck(c.blockNum, f.payload)
  {
    var n := c.blockNum;
    JudgeFrame(n, 255 - n, f.payload, f.hi, f.lo, more, n);
    assert (FrameBytes(n, f) + more)[c.blockSize + 4..] == more;
  }

  function Payloads(frames: seq<Frame>): seq<seq<byte>> {
    if frames == [] then [] else [frames[0].payload] + Payloads(frames[1..])
  }

  /** A transfer without errors, from the expected number on, is received as it was sent. */
  lemma {:induction false} TransferReceived(c: Ctx, frames: seq<Frame>)
    requires forall i :: 0 <= i < |frames| ==> frames[i].Sound(c.blockSize)
    ensures var s := Receive(c, Transfer(c.blockNum, frames));
      && s.frames == Payloads(frames) && s.rejected == 0 && !s.gaveUp
      && |s.replies| == |frames| && forall i :: 0 <= i < |frames| ==> s.replies[i] == ACK
    decreases |frames|
  {
    if frames != [] {
      var f, rest := frames[0], frames[1..];
      assert f.Sound(c.blockSize);
      assert forall i :: 0 <= i < |rest| ==> rest[i] == frames[i + 1];
      TransferReceived(Accept(c, f.payload), rest);
      FrameReceived(c, f, Transfer(Accept(c, f.payload).blockNum, rest));
    }
  }

  // ---------- input that comes in pieces ----------

  /** What has not been read when the session `Receive(c, input)` stops. */
  function Unread(c: Ctx, input: seq<byte>): seq<byte>
    decreases |input|
  {
    match Judge(input, c.blockSize, c.blockNum)
    case Waiting => input
    case Rejected(used) =>
      if Reject(c).retry >= MAX_RETRIES then input[used..] else Unread(Reject(c), input[used..])
    case Accepted(payload) => Unread(Accept(c, payload), input[c.blockSize + 4..])
  }

  /** One session, and then another from where it stopped. */
  function Join(s: Session, t: Session): Session {
    Session(t.ctx, t.gaveUp, s.frames + t.frames, s.numbers + t.numbers, s.rejected + t.rejected, s.replies + t.replies)
  }

  lemma JudgeMore(p: seq<byte>, q: seq<byte>, blockSize: nat, expected: byte)
    requires !Judge(p, blockSize, expected).Waiting?
    ensures Judge(p + q, blockSize, expected) == Judge(p, blockSize, expected)
  {
    assert (p + q)[2..] == p[2..] + q;
    var body, n := p[2..], blockSize;
    if Paired(p[0], p[1]) {
      assert (body + q)[..n] == body[..n] && (body + q)[n] == body[n] && (body + q)[n + 1] == body[n + 1];
    }
  }

  /** Waiting is not an end: with more input the session goes on where it stopped, and nothing that
  was done is undone. A session that gave up does not look at more input. */
  lemma {:induction false} ReceiveMore(c: Ctx, p: seq<byte>, q: seq<byte>)
    ensures var s := Receive(c, p);
      Receive(c, p + q) == if s.gaveUp then s else Join(s, Receive(s.ctx, Unread(c, p) + q))
    decreases |p|
  {
    match Judge(p, c.blockSize, c.blockNum)
    case Waiting =>
      JoinEmpty(c, Receive(c, p + q));
    case Rejected(used) =>
      JudgeMore(p, q, c.blockSize, c.blockNum);
      assert (p + q)[used..] == p[used..] + q;
      if Reject(c).retry < MAX_RETRIES {
        ReceiveMore(Reject(c), p[used..], q);
        var s, d := Receive(Reject(c), p[used..]), Reject(c);
        JoinNak(s, Receive(s.ctx, Unread(d, p[used..]) + q));
      }
    case Accepted(payload) =>
      JudgeMore(p, q, c.blockSize, c.blockNum);
      var n, d := c.blockSize + 4, Accept(c, payload);
      assert (p + q)[n..] == p[n..] + q;
      ReceiveMore(d, p[n..], q);
      var s := Receive(d, p[n..]);
      JoinAck(s, Receive(s.ctx, Unread(d, p[n..]) + q), p[0], payload);
  }

  lemma JoinEmpty(c: Ctx, t: Session)
    ensures Join(Session(c, false, [], [], 0, []), t) == t
  {
    assert [] + t.frames == t.frames && [] + t.numbers == t.numbers && [] + t.replies == t.replies;
  }

  lemma JoinNak(s: Session, t: Session)
    ensures Join(s, t).AfterNak() == Join(s.AfterNak(), t)
  {
    assert [NAK] + (s.replies + t.replies) == [NAK] + s.replies + t.replies;
  }

  lemma JoinAck(s: Session, t: Session, number: byte, payload: seq<byte>)
    ensures Join(s, t).AfterAck(number, payload) == Join(s.AfterAck(number, payload), t)
  {
    assert [payload] + (s.frames + t.frames) == [payload] + s.frames + t.frames;
    assert [number] + (s.numbers + t.numbers) == [number] + s.numbers + t.numbers;
    assert [ACK] + (s.replies + t.replies) == [ACK] + s.replies + t.replies;
  }

  /** The session that starts at `c` with `input` goes on, after one reply, at `d` with `rest`. */
  ghost predicate GoesOn(c: Ctx, input: seq<byte>, d: Ctx, rest: seq<byte>, reply: byte)
  {
    var s, t := Receive(c, input), Receive(d, rest);
    s.ctx == t.ctx && s.gaveUp == t.gaveUp && s.replies == [reply] + t.replies
  }

  lemma AcceptGoesOn(c: Ctx, input: seq<byte>)
    requires Judge(input, c.blockSize, c.blockNum).Accepted?
    ensures var payload := Judge(input, c.blockSize, c.blockNum).payload;
      c.blockSize + 4 <= |input| && GoesOn(c, input, Accept(c, payload), input[c.blockSize + 4..], ACK)
  {}

  lemma RejectGoesOn(c: Ctx, input: seq<byte>)
    requires Judge(input, c.blockSize, c.blockNum).Rejected?
    ensures var used := Judge(input, c.blockSize, c.blockNum).used;
      && 0 < used <= |input|
      && if Reject(c).retry >= MAX_RETRIES then Receive(c, input) == Session(Reject(c), true, [], [], 1, [NAK])
         else GoesOn(c, input, Reject(c), input[used..], NAK)
  {}

  // ---------- the receiver ----------

  class Receiver {
    var state: byte
    var blockNum: byte   // the block expected next
    var retry: byte
    var total: word      // total_rx
    var dest: word       // dest_addr
    var blockSize: word
    var input: seq<byte>   // received and not yet read
    var output: seq<byte>  // sent
    var flash: map<int, byte>

    ghost function Context(): Ctx
      reads this
    {
      Ctx(blockNum, retry, total, dest, blockSize, flash)
    }

    constructor (input: seq<byte>, flash: map<int, byte>)
      ensures this.input == input && this.flash == flash && output == []
    {
      state, blockNum, retry, total, dest, blockSize := 0, 0, 0, 0, 0, 0;
      this.input, this.flash, output := input, flash, [];
    }

    method GetChar() returns (ch: byte)
      requires input != []
      modifies this`input
      ensures ch == old(input)[0] && input == old(input)[1..]
    {
      ch, input := input[0], input[1..];
    }

    /** `silent` timeouts pass before the first byte arrives. Nine of them end the handshake; with
    fewer, the retry count keeps them, and a start byte sets the block size. */
    method RecvInit(destAddr: word, silent: nat) returns (ret: int)
      requires silent < 9 ==> input != []
      modifies this
      ensures flash == old(flash)
      ensures blockNum == 1 && total == 0 && dest == destAddr && retry == 1 + (if silent < 9 then silent else 9)
      ensures ret == (if silent >= 9 then -1 else if old(input)[0] == SOH || old(input)[0] == STX then 0
                      else if old(input)[0] == EOT then 1 else -2)
      ensures ret == 0 ==> blockSize == (if old(input)[0] == SOH then 128 else 1024) && state == 1
      ensures input == if silent >= 9 then old(input) else old(input)[1..]
      ensures output == old(output) + [CRC_CHR] + seq(if silent < 9 then silent else 9, _ => NAK)
    {
      state, blockNum, retry, total, dest := 0, 1, 1, 0, destAddr;
      output := output + [CRC_CHR];
      var left := silent;
      while left > 0
        modifies this`output, this`retry
        invariant 0 <= left <= silent && retry == 1 + silent - left < 10
        invariant output == old(output) + [CRC_CHR] + seq(retry - 1, _ => NAK)
      {
        output := output + [NAK];
        retry := retry + 1;
        if retry >= 10 { return -1; }
        left := left - 1;
      }
      var ch := GetChar();
      if ch == SOH {
        blockSize, state := 128, 1;
        return 0;
      } else if ch == STX {
        blockSize, state := 1024, 1;
        return 0;
      } else if ch == EOT {
        return 1;
      }
      return -2;
    }

    /** Reads one block into `buffer`. When the input ends first, the receiver is left waiting. */
    method RecvBlock(buffer: array<byte>) returns (v: Verdict)
      requires blockSize <= buffer.Length
      modifies this`blockNum, this`total, this`input, this`output, buffer
      ensures v == Judge(old(input), blockSize, old(blockNum))
      ensures v.Waiting? ==> blockNum == old(blockNum) && total == old(total) && output == old(output)
      ensures v.Rejected? ==> blockNum == old(blockNum) && total == old(total) && output == old(output) + [NAK]
      ensures v.Rejected? ==> v.used <= |old(input)| && input == old(input)[v.used..]
      ensures v.Accepted? ==> blockNum == (old(blockNum) + 1) % 256 && total == (old(total) + blockSize) % TWO32
      ensures v.Accepted? ==> output == old(output) + [ACK] && input == old(input)[blockSize + 4..]
      ensures v.Accepted? ==> buffer[..blockSize] == v.payload
    {
      ghost var all := input;
      if |input| < 2 { return Waiting; }
      var number := GetChar();
      var complement := GetChar();
      assert input == all[2..];
      if !Paired(number, complement) {
        output := output + [NAK];
        return Rejected(2);
      }
      v := RecvBody(number, buffer);
      assert blockSize + 2 <= |all[2..]| ==> all[2..][blockSize + 2..] == all[blockSize + 4..];
    }

    method RecvBody(number: byte, buffer: array<byte>) returns (v: Verdict)
      requires blockSize <= buffer.Length
      modifies this`blockNum, this`total, this`input, this`output, buffer
      ensures v == JudgeBody(number, old(input), blockSize, old(blockNum))
      ensures v.Waiting? ==> blockNum == old(blockNum) && total == old(total) && output == old(output)
      ensures v.Rejected? ==> blockNum == old(blockNum) && total == old(total) && output == old(output) + [NAK]
      ensures v.Accepted? ==> blockNum == (old(blockNum) + 1) % 256 && total == (old(total) + blockSize) % TWO32
      ensures v.Accepted? ==> output == old(output) + [ACK] && buffer[..blockSize] == v.payload
      ensures !v.Waiting? ==> input == old(input)[blockSize + 2..]
    {
      ghost var all := input;
      if |input| < blockSize + 2 { return Waiting; }
      ReadPayload(buffer);
      var payload := buffer[..blockSize];
      assert input == all[blockSize..];
      var hi := GetChar();
      var lo := GetChar();
      assert hi == all[blockSize] && lo == all[blockSize + 1] && input == all[blockSize + 2..];
      v := Conclude(number, payload, hi, lo);
    }

    /** The checks on a block that has been read, and the reply. */
    method Conclude(number: byte, payload: seq<byte>, hi: byte, lo: byte) returns (v: Verdict)
      modifies this`blockNum, this`total, this`output
      ensures v == if Crc(payload) == ByteBits(hi) + ByteBits(lo) && number == old(blockNum) then Accepted(payload)
                   else Rejected(blockSize + 4)
      ensures output == old(output) + [if v.Accepted? then ACK else NAK]
      ensures blockNum == if v.Accepted? then (old(blockNum) + 1) % 256 else old(blockNum)
      ensures total == if v.Accepted? then (old(total) + blockSize) % TWO32 else old(total)
    {
      var computed := ComputeCrc(payload);
      var received := 256 * hi + lo;
      RegisterBytes(hi, lo);
      if Register(computed) == Register(received) { RegisterInjective(computed, received); }
      if computed != received {
        output := output + [NAK];
        return Rejected(blockSize + 4);
      }
      if number != blockNum {
        output := output + [NAK];
        return Rejected(blockSize + 4);
      }
      blockNum := (blockNum + 1) % 256;
      total := (total + blockSize) % TWO32;
      output := output + [ACK];
      return Accepted(payload);
    }

    method ReadPayload(buffer: array<byte>)
      requires blockSize <= buffer.Length && blockSize <= |input|
      modifies this`input, buffer
      ensures buffer[..blockSize] == old(input)[..blockSize] && input == old(input)[blockSize..]
    {
      for i := 0 to blockSize
        modifies this`input, buffer
        invariant input == old(input)[i..] && buffer[..i] == old(input)[..i]
      {
        buffer[i] := GetChar();
      }
    }

    /** One turn of the receive loop. */
    method Turn(buffer: array<byte>) returns (over: bool, gaveUp: bool, reply: byte)
      requires blockSize <= buffer.Length
      modifies this`blockNum, this`retry, this`total, this`dest, this`input, this`output, this`flash, buffer
      ensures output == if over && !gaveUp then old(output) else old(output) + [reply]
      ensures over ==>
        Receive(old(Context()), old(input))
        == Session(Context(), gaveUp, [], [], if gaveUp then 1 else 0, if gaveUp then [reply] else [])
      ensures !over ==> |input| < |old(input)| && GoesOn(old(Context()), old(input), Context(), input, reply)
      ensures blockSize == old(blockSize)
    {
      ghost var c := Context();
      var v := RecvBlock(buffer);
      match v {
        case Waiting =>
          return true, false, NAK;
        case Accepted(payload) =>
          flash := Store(flash, dest, buffer[..blockSize]);
          dest := (dest + blockSize) % TWO32;
          AcceptGoesOn(c, old(input));
          assert Context() == Accept(c, payload);
          return false, false, ACK;
        case Rejected(used) =>
          retry := (retry + 1) % 256;
          RejectGoesOn(c, old(input));
          assert Context() == Reject(c);
          return retry >= MAX_RETRIES, retry >= MAX_RETRIES, NAK;
      }
    }

    /** Receives until it gives up, returning true, or waits for more input. */
    method RecvData(buffer: array<byte>) returns (gaveUp: bool)
      requires blockSize <= buffer.Length
      modifies this`blockNum, this`retry, this`total, this`dest, this`input, this`output, this`flash, buffer
      ensures Context() == Receive(old(Context()), old(input)).ctx
      ensures gaveUp == Receive(old(Context()), old(input)).gaveUp
      ensures output == old(output) + Receive(old(Context()), old(input)).replies
    {
      ghost var whole := Receive(Context(), input);
      ghost var sent: seq<byte> := [];
      gaveUp := false;
      var over := false;
      while !over
        invariant !over ==> Ahead(whole, Receive(Context(), input), sent)
        invariant over ==> Context() == whole.ctx && gaveUp == whole.gaveUp && sent == whole.replies
        invariant output == old(output) + sent && blockSize <= buffer.Length
        decreases !over, |input|
      {
        var reply;
        ghost var c, before := Context(), input;
        over, gaveUp, reply := Turn(buffer);
        if !over { AheadNext(whole, c, before, Context(), input, sent, reply); }
        sent := if over && !gaveUp then sent else sent + [reply];
      }
    }

    static lemma AheadNext(
      whole: Session, c: Ctx, input: seq<byte>, d: Ctx, rest: seq<byte>, sent: seq<byte>, reply: byte)
      requires Ahead(whole, Receive(c, input), sent) && GoesOn(c, input, d, rest, reply)
      ensures Ahead(whole, Receive(d, rest), sent + [reply])
    {
      var t := Receive(d, rest);
      assert sent + ([reply] + t.replies) == sent + [reply] + t.replies;
    }

    /** After the replies `sent`, what is left of the session `whole` is `rest`. */
    static ghost predicate Ahead(whole: Session, rest: Session, sent: seq<byte>)
    {
      whole.ctx == rest.ctx && whole.gaveUp == rest.gaveUp && whole.replies == sent + rest.replies
    }
  }
}
