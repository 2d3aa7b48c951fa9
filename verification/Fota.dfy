/** The firmware download writer (`luat_fota_*`): a write-behind buffer in front of the OTA zone
and the IDLE / ONGO / DONE state machine that guards the upgrade flag. */
module Fota {
  import opened Words
  import opened Flash
  import opened ImageHeader
  import opened Positional

  const BUFFER_SIZE := 0x8000
  const SECTOR_SIZE := 4096
  const MAGIC_NO := 0xA0FFFF9F
  const FULL_IMAGE := 1

  datatype Phase = IDLE | ONGO | DONE

  /** A write of the upgrade flag: the state, the image in the zone, and the bytes written. */
  datatype FlagWrite = FlagWrite(phase: Phase, image: seq<byte>, written: seq<byte>) {
    /** Written in state DONE for a full image that was checked, with the checksum it announces. */
    ghost predicate Justified(crc: Crc) {
      && phase == DONE && Checked(crc, image) && image[4] % 16 == FULL_IMAGE && written == image[24..28]
    }
  }

  /** Lengths for which `img_len + 64` does not fit 32 bits. */
  predicate Wraps(imgLen: word) { imgLen + HEADER_SIZE >= TWO32 }

  /** The length check lets an image through that is not there as a whole exactly when it wraps. */
  lemma LengthCheckGap(imgLen: word, stored: nat)
    requires HEADER_SIZE <= stored < TWO32
    ensures (imgLen + HEADER_SIZE) % TWO32 <= stored && stored < imgLen + HEADER_SIZE <==> Wraps(imgLen)
  {
    if Wraps(imgLen) {
      assert (imgLen + HEADER_SIZE) % TWO32 == imgLen + HEADER_SIZE - TWO32 < HEADER_SIZE;
    }
  }

  /** The CRC-32 peripheral is unspecified. */
  type Crc = seq<byte> -> word

  /** An image that is there as a whole, with the checksum it announces for the whole words of its
  body, unless its length field makes the length check wrap. */
  ghost predicate Checked(crc: Crc, image: seq<byte>) {
    && HEADER_SIZE <= |image|
    && var len := ImgLen(image[..HEADER_SIZE]);
      !Wraps(len) ==>
        && HEADER_SIZE + len <= |image|
        && crc(image[HEADER_SIZE..HEADER_SIZE + (len - len % 4)]) == OrgChecksum(image[..HEADER_SIZE])
  }

  /** The verdict of the header check on the first 64 bytes of an image. */
  function HeadVerdict(crc: Crc, h: Header): int {
    if MagicNo(h) != MAGIC_NO then -2
    else if crc(h[..HEADER_SIZE - 4]) != HdChecksum(h) then -3
    else 0
  }

  /** On the bytes: the magic number, and the checksum of the first 60 bytes in the last four. */
  lemma HeadVerdictIs(crc: Crc, h: Header)
    ensures HeadVerdict(crc, h) == -2 <==> Val(h[0..4], 256) != 0xA0FFFF9F
    ensures HeadVerdict(crc, h) == -3 <==> Val(h[0..4], 256) == 0xA0FFFF9F && crc(h[..60]) != Val(h[60..64], 256)
    ensures HeadVerdict(crc, h) == 0 <==> Val(h[0..4], 256) == 0xA0FFFF9F && crc(h[..60]) == Val(h[60..64], 256)
  {
    FieldPositions(h);
  }

  /** Erased sectors. */
  function Erased(sectors: nat): seq<byte> { seq(sectors * SECTOR_SIZE, _ => 0xFF) }

  lemma ErasedAppend(f: map<int, byte>, base: int, i: nat, j: nat)
    ensures Store(Store(f, base, Erased(i)), base + i * SECTOR_SIZE, Erased(j)) == Store(f, base, Erased(i + j))
  {
    StoreAppend(f, base, Erased(i), Erased(j));
    assert Erased(i) + Erased(j) == Erased(i + j);
  }

  lemma SplitAt(s: seq<byte>, from: nat, at: nat)
    requires from <= at <= |s|
    ensures s[from..|s|] == s[from..at] + s[at..]
  {}

  class Writer {
    const crc: Crc
    const zone: word        // upgrade_img_addr
    const zoneSize: word    // ota_zone_size
    const flagAddr: word    // TLS_FLASH_OTA_FLAG_ADDR
    var phase: Phase        // fota_state
    var offset: nat         // fota_write_offset
    var headCheck: bool     // fota_head_check
    var buffer: array?<byte>
    var bufferLen: nat      // fota_buffer_len
    var flash: map<int, byte>
    ghost var accepted: seq<byte>    // all bytes taken since init
    ghost var flags: seq<FlagWrite>  // all writes of the upgrade flag

    /** Nothing wraps: zone address plus stored bytes stay in 32 bits. */
    ghost predicate Shape()
      reads this
    {
      && bufferLen <= BUFFER_SIZE && zone + |accepted| <= TWO32 && |accepted| == offset + bufferLen
      && (buffer != null ==> buffer.Length == BUFFER_SIZE) && (buffer == null ==> bufferLen == 0)
    }

    /** The zone, followed by the buffer, holds all accepted bytes. */
    ghost predicate Stored()
      reads this, buffer
    {
      && Shape()
      && Read(flash, zone, offset) == accepted[..offset]
      && (buffer != null ==> buffer[..bufferLen] == accepted[offset..])
    }

    function Header(): Header
      reads this`flash
    {
      Read(flash, zone, HEADER_SIZE)
    }

    /** The checksum of the whole words of the body. */
    function BodyChecksum(): word
      reads this`flash
    {
      var len := ImgLen(Header());
      crc(Read(flash, zone + HEADER_SIZE, len - len % 4))
    }

    /** The image in the zone passed every check of `luat_fota_done`. */
    ghost predicate Verified()
      reads this
    {
      bufferLen == 0 && Checked(crc, accepted)
    }

    /** The buffer is full and does not fit behind what is in the zone. */
    predicate Stuck()
      reads this
    {
      bufferLen == BUFFER_SIZE && zoneSize < offset + bufferLen
    }

    /** What `fota_head_check` tells about the first 64 accepted bytes. */
    ghost predicate HeadJudged()
      reads this
    {
      && (headCheck ==> HEADER_SIZE <= |accepted| && HeadVerdict(crc, accepted[..HEADER_SIZE]) == 0)
      && (!headCheck && HEADER_SIZE <= |accepted| && !Stuck() ==> HeadVerdict(crc, accepted[..HEADER_SIZE]) != 0)
    }

    ghost predicate FlagsJustified()
      reads this
    {
      forall i :: 0 <= i < |flags| ==> flags[i].Justified(crc)
    }

    ghost predicate Valid()
      reads this, buffer
    {
      Stored() && HeadJudged() && (phase == DONE ==> Verified()) && FlagsJustified()
    }

    constructor (crc: Crc, zone: word, zoneSize: word, flagAddr: word, flash: map<int, byte>)
      ensures Valid() && phase == IDLE && buffer == null && accepted == [] && flags == [] && this.flash == flash
      ensures this.crc == crc && this.zone == zone && this.zoneSize == zoneSize && this.flagAddr == flagAddr
    {
      this.crc, this.zone, this.zoneSize, this.flagAddr := crc, zone, zoneSize, flagAddr;
      this.flash := flash;
      phase, offset, headCheck, buffer, bufferLen := IDLE, 0, false, null, 0;
      accepted, flags := [], [];
    }

    method Init() returns (ret: int)
      requires Valid()
      modifies this
      ensures Valid() && phase == ONGO && !headCheck && accepted == [] && flags == old(flags)
      ensures ret == 0 || ret == -1
      ensures ret == 0 ==> buffer != null
      ensures buffer == old(buffer) || fresh(buffer)
      ensures ret == -1 ==> buffer == null && flash == old(flash)
      ensures ret == 0 ==> flash == Store(old(flash), zone / SECTOR_SIZE * SECTOR_SIZE, Erased(zoneSize / SECTOR_SIZE))
      ensures ret == 0 && zone + zoneSize <= TWO32 ==>
        forall p :: 0 <= p - zone / 4096 * 4096 < zoneSize / 4096 * 4096 ==> p in flash && flash[p] == 0xFF
    {
      phase, offset, headCheck, bufferLen := ONGO, 0, false, 0;
      accepted := [];
      if buffer == null {
        if * { return -1; }  // no memory
        buffer := new byte[BUFFER_SIZE];
      }
      EraseZone();
      if zone + zoneSize <= TWO32 { ZoneErased(old(flash)); }
      return 0;
    }

    lemma ZoneErased(f: map<int, byte>)
      requires zone + zoneSize <= TWO32
      ensures var g := Store(f, zone / SECTOR_SIZE * SECTOR_SIZE, Erased(zoneSize / SECTOR_SIZE));
        forall p :: 0 <= p - zone / 4096 * 4096 < zoneSize / 4096 * 4096 ==> p in g && g[p] == 0xFF
    {
      var a, bs := zone / SECTOR_SIZE * SECTOR_SIZE, Erased(zoneSize / SECTOR_SIZE);
      var g := Store(f, a, bs);
      forall p | 0 <= p - zone / 4096 * 4096 < zoneSize / 4096 * 4096 ensures p in g && g[p] == 0xFF {
        StoreAt(f, a, bs, p);
      }
    }

    method EraseZone()
      modifies this`flash
      ensures flash == Store(old(flash), zone / SECTOR_SIZE * SECTOR_SIZE, Erased(zoneSize / SECTOR_SIZE))
    {
      ghost var base := zone / SECTOR_SIZE * SECTOR_SIZE;
      assert Erased(0) == [];
      var i, one := 0, 1;
      while i < zoneSize / SECTOR_SIZE
        invariant 0 <= i <= zoneSize / SECTOR_SIZE && flash == Store(old(flash), base, Erased(i))
      {
        var sector := (zone + i * SECTOR_SIZE) / SECTOR_SIZE;
        assert sector * SECTOR_SIZE == base + i * SECTOR_SIZE;
        ErasedAppend(old(flash), base, i, one);
        flash := Store(flash, sector * SECTOR_SIZE, Erased(one));
        i := i + 1;
      }
    }

    /** Writes the buffer behind what is already in the zone. */
    method Flush()
      requires Stored() && buffer != null
      modifies this`flash, this`offset, this`bufferLen
      ensures Stored() && bufferLen == 0 && offset == |accepted|
      ensures flash == Store(old(flash), zone + old(offset), old(buffer[..bufferLen]))
    {
      ReadStored(flash, zone, offset, buffer[..bufferLen]);
      assert accepted == accepted[..offset] + accepted[offset..];
      flash := Store(flash, zone + offset, buffer[..bufferLen]);
      offset := offset + bufferLen;
      bufferLen := 0;
      assert accepted[..offset] == accepted;
    }

    /** Takes `n` bytes into the buffer. */
    method Take(data: seq<byte>)
      requires Stored() && buffer != null && bufferLen + |data| <= BUFFER_SIZE && zone + |accepted| + |data| <= TWO32
      modifies this`bufferLen, this`accepted, buffer
      ensures Stored() && accepted == old(accepted) + data && bufferLen == old(bufferLen) + |data|
    {
      ghost var before := buffer[..bufferLen];
      for k := 0 to |data|
        modifies buffer
        invariant buffer[..bufferLen + k] == before + data[..k]
      {
        buffer[bufferLen + k] := data[k];
      }
      bufferLen := bufferLen + |data|;
      accepted := accepted + data;
      assert accepted[..offset] == old(accepted)[..offset];
      assert accepted[offset..] == old(accepted)[offset..] + data;
    }

    /** Between two states the flash changed by the bytes accepted from `from` on, in order. */
    ghost predicate Appended(before: map<int, byte>, from: nat)
      reads this
      requires Shape()
    {
      from <= offset && flash == Store(before, zone + from, accepted[from..offset])
    }

    /** One more flush: still the accepted bytes in order. */
    method FlushAfter(ghost before: map<int, byte>, ghost from: nat)
      requires Stored() && buffer != null && Appended(before, from)
      modifies this`flash, this`offset, this`bufferLen
      ensures Stored() && bufferLen == 0 && offset == |accepted| && Appended(before, from)
    {
      ghost var part, rest := accepted[from..offset], buffer[..bufferLen];
      StoreAppend(before, zone + from, part, rest);
      SplitAt(accepted, from, offset);
      Flush();
    }

    /** How far the zone is filled when `n` bytes have been taken and every full buffer flushed. */
    static function FlushedTo(off: nat, used: nat, n: nat): nat { off + (used + n) / BUFFER_SIZE * BUFFER_SIZE }

    /** Taking `n` bytes would flush a buffer that no longer fits the zone. */
    predicate Full(off: nat, used: nat, n: nat)
    {
      n > 0 && used + n >= BUFFER_SIZE && zoneSize < FlushedTo(off, used, n)
    }

    lemma FullAt(off: nat, used: nat, n: nat, i: nat, flushes: nat)
      requires 0 < flushes && 0 < n && i <= n && used + i == flushes * BUFFER_SIZE
          && zoneSize < off + flushes * BUFFER_SIZE
      ensures Full(off, used, n)
    {
      assert flushes <= (used + n) / BUFFER_SIZE;
    }

    lemma NotFull(off: nat, used: nat, n: nat, flushes: nat, left: nat)
      requires used + n == flushes * BUFFER_SIZE + left && left < BUFFER_SIZE
      requires flushes > 0 ==> off + flushes * BUFFER_SIZE <= zoneSize
      ensures !Full(off, used, n) && (used + n) / BUFFER_SIZE == flushes
    {
    }

    /** One `memcpy` of the copy loop: as much of the rest of `data` as the buffer holds. */
    method TakeSome(data: seq<byte>, i: nat, ghost start: seq<byte>, ghost before: map<int, byte>, ghost from: nat)
      returns (j: nat)
      requires Stored() && buffer != null && i < |data| && accepted == start + data[..i]
      requires Appended(before, from) && zone + |start| + |data| <= TWO32
      modifies this`bufferLen, this`accepted, buffer
      ensures Stored() && i <= j <= |data| && accepted == start + data[..j]
      ensures Appended(before, from) && bufferLen == old(bufferLen) + j - i
      ensures j == |data| || bufferLen == BUFFER_SIZE
    {
      var canCopy, remaining := BUFFER_SIZE - bufferLen, |data| - i;
      var n := if canCopy < remaining then canCopy else remaining;
      assert data[..i + n] == data[..i] + data[i..i + n];
      assert start + data[..i + n] == start + data[..i] + data[i..i + n];
      Take(data[i..i + n]);
      assert accepted[from..offset] == old(accepted)[from..offset];
      return i + n;
    }

    /** The copy loop of `luat_fota_write`: takes all of `data`, or fills the buffer and finds
    the zone full. */
    method Fill(data: seq<byte>) returns (full: bool, ghost taken: nat)
      requires Stored() && buffer != null && zone + |accepted| + |data| <= TWO32
      modifies this`flash, this`offset, this`bufferLen, this`accepted, buffer
      ensures Stored() && taken <= |data| && accepted == old(accepted) + data[..taken]
      ensures Appended(old(flash), old(offset))
      ensures full == Full(old(offset), old(bufferLen), |data|)
      ensures if full then Stuck()
        else taken == |data| && (|data| > 0 ==> offset == FlushedTo(old(offset), old(bufferLen), |data|))
      ensures old(offset) <= zoneSize ==> offset <= zoneSize
    {
      var i := 0;
      ghost var flushes := 0;
      while i < |data|
        modifies this`flash, this`offset, this`bufferLen, this`accepted, buffer
        invariant 0 <= i <= |data| && Stored() && accepted == old(accepted) + data[..i]
        invariant Appended(old(flash), old(offset))
        invariant flushes >= 0 && offset == old(offset) + flushes * BUFFER_SIZE && (flushes > 0 ==> offset <= zoneSize)
        invariant bufferLen < BUFFER_SIZE || i == flushes == 0
        decreases |data| - i, bufferLen
      {
        i := TakeSome(data, i, old(accepted), old(flash), old(offset));
        if bufferLen >= BUFFER_SIZE {
          if offset + bufferLen > zoneSize {
            FullAt(old(offset), old(bufferLen), |data|, i, flushes + 1);
            return true, i;
          }
          FlushAfter(old(flash), old(offset));
          flushes := flushes + 1;
        }
      }
      if |data| > 0 { NotFull(old(offset), old(bufferLen), |data|, flushes, bufferLen); }
      return false, i;
    }

    /** `img_checksum` over the flash as it is mapped into memory. */
    method ImgChecksum(addr: int, len: nat) returns (cm: word)
      ensures cm == crc(Read(flash, addr, len - len % 4))
      ensures len % 4 == 0 ==> cm == crc(Read(flash, addr, len))
    {
      var fed: seq<byte> := [];
      var i := 0;
      while i < len / 4
        invariant 0 <= i <= len / 4 && fed == Read(flash, addr, 4 * i)
      {
        var w := Read(flash, addr + 4 * i, 4);
        assert Read(flash, addr, 4 * (i + 1)) == Read(flash, addr, 4 * i) + w;
        fed := fed + w;
        i := i + 1;
      }
      assert 4 * (len / 4) == len - len % 4;
      cm := crc(fed);
    }

    /** Flushes, and judges the header once 64 bytes have come in. */
    method CheckHead(ghost before: map<int, byte>, ghost from: nat) returns (ret: int)
      requires Stored() && buffer != null && Appended(before, from)
      modifies this`flash, this`offset, this`bufferLen, this`headCheck
      ensures Stored() && Appended(before, from)
      ensures var due := !old(headCheck) && |accepted| >= HEADER_SIZE;
        && (due ==> offset == |accepted| && ret == HeadVerdict(crc, accepted[..HEADER_SIZE]) && headCheck == (ret == 0))
        && (!due ==> ret == 0 && offset == old(offset) && headCheck == old(headCheck))
    {
      if headCheck || offset + bufferLen < HEADER_SIZE { return 0; }
      if bufferLen > 0 { FlushAfter(before, from); }
      var head := Header();
      HeaderIsAccepted(this);
      if MagicNo(head) != MAGIC_NO { return -2; }
      var cm := ImgChecksum(zone, HEADER_SIZE - 4);
      assert Read(flash, zone, HEADER_SIZE - 4) == head[..HEADER_SIZE - 4];
      if cm != HdChecksum(head) { return -3; }
      headCheck := true;
      return 0;
    }

    /** When the header flush takes the stored bytes past the end of the zone: the header is not
    judged yet, no full buffer is refused, and there are more bytes than the zone holds. */
    predicate Overflows(n: nat)
      reads this
    {
      && phase == ONGO && buffer != null && !headCheck && !Full(offset, bufferLen, n)
      && HEADER_SIZE <= offset + bufferLen + n && zoneSize < offset + bufferLen + n
    }

    /** The header flush is the one write that is not checked against the zone size. */
    method Write(data: seq<byte>) returns (ret: int, ghost taken: nat)
      requires Valid() && zone + |accepted| + |data| <= TWO32
      modifies this`flash, this`offset, this`bufferLen, this`accepted, this`headCheck, buffer
      ensures Valid() && taken <= |data| && accepted == old(accepted) + data[..taken]
      ensures Appended(old(flash), old(offset))
      ensures phase != ONGO || buffer == null ==> ret == -1 && taken == 0
      ensures phase != ONGO || buffer == null ==> offset == old(offset) && bufferLen == old(bufferLen)
      ensures phase == ONGO && buffer != null ==> (ret == -1 <==> Full(old(offset), old(bufferLen), |data|))
      ensures phase == ONGO && buffer != null ==>
        if ret == -1 then Stuck()
        else if !old(headCheck) && |accepted| >= HEADER_SIZE
        then taken == |data| && ret == HeadVerdict(crc, accepted[..HEADER_SIZE]) && offset == |accepted|
        else taken == |data| && ret == 0 && (|data| > 0 ==> offset == FlushedTo(old(offset), old(bufferLen), |data|))
      ensures phase == ONGO && buffer != null && old(|accepted|) + |data| <= zoneSize ==> ret != -1
      ensures old(offset) <= zoneSize ==> (zoneSize < offset <==> old(Overflows(|data|)))
    {
      assert data[..0] == [] && accepted + [] == accepted;
      if phase != ONGO { return -1, 0; }
      if buffer == null { return -1, 0; }
      var full;
      full, taken := Fill(data);
      HeadKept(old(accepted), accepted);
      if full { return -1, taken; }
      ret := CheckHead(old(flash), old(offset));
    }

    lemma HeadKept(before: seq<byte>, after: seq<byte>)
      requires before <= after
      ensures HEADER_SIZE <= |before| ==> after[..HEADER_SIZE] == before[..HEADER_SIZE]
    {
    }

    /** The checks of `luat_fota_done` on an image of `stored` bytes. */
    function DoneVerdict(): int
      reads this`flash, this`offset
    {
      if offset == 0 then -1
      else if offset < HEADER_SIZE then -2
      else if (ImgLen(Header()) + HEADER_SIZE) % TWO32 > offset then -4
      else if BodyChecksum() != OrgChecksum(Header()) then -3
      else 0
    }

    method Done() returns (ret: int)
      requires Valid()
      modifies this`phase, this`flash, this`offset, this`bufferLen
      ensures Valid() && Appended(old(flash), old(offset))
      ensures phase == if ret == 0 then DONE else old(phase)
      ensures old(phase) == DONE ==> offset == old(offset)
      ensures if old(bufferLen) > 0 && old(offset) + old(bufferLen) > zoneSize
              then ret == -1 && offset == old(offset)
              else offset == |accepted| && ret == DoneVerdict()
      ensures old(offset) <= zoneSize ==> offset <= zoneSize
    {
      if bufferLen > 0 {
        if offset + bufferLen > zoneSize { return -1; }
        FlushAfter(flash, offset);
      }
      assert accepted[..offset] == accepted;
      ret := Judge();
    }

    method Judge() returns (ret: int)
      requires Stored() && HeadJudged() && FlagsJustified() && bufferLen == 0 && (phase == DONE ==> Verified())
      modifies this`phase
      ensures Valid() && ret == DoneVerdict() && phase == if ret == 0 then DONE else old(phase)
    {
      ret := CheckImage();
      if ret == 0 {
        ImageChecked(this);
        phase := DONE;
      }
    }

    method CheckImage() returns (ret: int)
      ensures ret == DoneVerdict()
    {
      if offset == 0 { return -1; }
      if offset < HEADER_SIZE { return -2; }
      var head := Header();
      var len := ImgLen(head);
      if (len + HEADER_SIZE) % TWO32 > offset { return -4; }
      var cm := ImgChecksum(zone + HEADER_SIZE, len);
      if cm != OrgChecksum(head) { return -3; }
      return 0;
    }

    /** `status` is what the flash driver answers: 0 when the flag was stored. */
    method End(isOk: bool, status: int) returns (ret: int)
      requires Valid() && flagAddr + 4 <= TWO32
      requires flagAddr + 4 <= zone || zone + |accepted| <= flagAddr  // the flag is not in the zone
      modifies this`flash, this`flags
      ensures Valid()
      ensures var write := phase == DONE && isOk && ImgType(old(Header())) == FULL_IMAGE;
        && ret == (if write then status else if phase == DONE && isOk then 0 else -1)
        && |flags| == |old(flags)| + (if write then 1 else 0) && old(flags) <= flags
        && (write ==> flags[|old(flags)|] == FlagWrite(phase, accepted, old(Header())[24..28]))
        && flash == if write && status == 0 then Store(old(flash), flagAddr, old(Header())[24..28]) else old(flash)
    {
      if phase == DONE && isOk {
        ret := 0;
        var head := Header();
        if ImgType(head) == FULL_IMAGE {
          ret := status;
          HeaderIsAccepted(this);
          flags := flags + [FlagWrite(phase, accepted, head[24..28])];
          if status == 0 {
            FlagElsewhere();
            flash := Store(flash, flagAddr, head[24..28]);
          }
        }
        return;
      }
      return -1;
    }

    lemma FlagElsewhere()
      requires Stored() && Verified() && flagAddr + 4 <= TWO32
      requires flagAddr + 4 <= zone || zone + |accepted| <= flagAddr
      ensures Read(Store(flash, flagAddr, Header()[24..28]), zone, offset) == Read(flash, zone, offset)
    {
      ReadElsewhere(flash, zone, offset, flagAddr, Header()[24..28]);
    }
  }

  lemma ImageChecked(w: Writer)
    requires w.Stored() && w.bufferLen == 0 && w.DoneVerdict() == 0
    ensures Checked(w.crc, w.accepted)
  {
    var len := ImgLen(w.Header());
    HeaderIsAccepted(w);
    if !Wraps(len) { ZoneIsAccepted(w, HEADER_SIZE, len - len % 4); }
  }

  /** The verdict of `luat_fota_done` on what was accepted: nothing, less than a header, and from
  then on the length check in 32 bits. */
  lemma DoneVerdictIs(w: Writer)
    requires w.Stored() && w.bufferLen == 0
    ensures w.DoneVerdict() == -1 <==> |w.accepted| == 0
    ensures w.DoneVerdict() == -2 <==> 0 < |w.accepted| < 64
    ensures 64 <= |w.accepted| ==>
      (w.DoneVerdict() == -4 <==> |w.accepted| < (Val(w.accepted[12..16], 256) + 64) % TWO32)
  {
    if 64 <= |w.accepted| {
      HeaderIsAccepted(w);
      FieldPositions(w.Header());
      assert w.accepted[..64][12..16] == w.accepted[12..16];
    }
  }

  /** `Checked` on the bytes, for a length that does not wrap. */
  lemma CheckedIs(crc: Crc, image: seq<byte>, len: int)
    requires 64 <= |image| && len == Val(image[12..16], 256) && len + 64 < TWO32
    ensures 0 <= len
    ensures Checked(crc, image) <==>
      64 + len <= |image| && crc(image[64..64 + (len - len % 4)]) == Val(image[24..28], 256)
  {
    FieldPositions(image[..64]);
    assert image[..64][12..16] == image[12..16] && image[..64][24..28] == image[24..28];
  }

  /** Without a wrap, an image is accepted exactly when it is whole and its words have the checksum
  announced. */
  lemma DoneIffChecked(w: Writer)
    requires w.Stored() && w.bufferLen == 0 && 64 <= |w.accepted| && !Wraps(ImgLen(w.accepted[..64]))
    ensures w.DoneVerdict() == 0 <==> Checked(w.crc, w.accepted)
  {
    var len := ImgLen(w.accepted[..64]);
    HeaderIsAccepted(w);
    assert (len + HEADER_SIZE) % TWO32 == len + HEADER_SIZE;
    if len + 64 <= |w.accepted| { ZoneIsAccepted(w, 64, len - len % 4); }
  }

  /** Flash below `offset` holds the accepted bytes. */
  lemma ZoneIsAccepted(w: Writer, from: nat, len: nat)
    requires w.Stored() && from + len <= w.offset
    ensures Read(w.flash, w.zone + from, len) == w.accepted[from..from + len]
  {
    assert Read(w.flash, w.zone + from, len) == Read(w.flash, w.zone, w.offset)[from..from + len];
    assert w.accepted[..w.offset][from..from + len] == w.accepted[from..from + len];
  }

  lemma HeaderIsAccepted(w: Writer)
    requires w.Stored() && HEADER_SIZE <= w.offset
    ensures w.Header() == w.accepted[..HEADER_SIZE]
  {
    assert Read(w.flash, w.zone, HEADER_SIZE) == Read(w.flash, w.zone, w.offset)[..HEADER_SIZE];
    assert w.accepted[..w.offset][..HEADER_SIZE] == w.accepted[..HEADER_SIZE];
  }

  /** In state DONE the header is a valid one exactly when `luat_fota_write` found it so:
  `luat_fota_done` does not look at the verdict. */
  lemma DoneHeader(w: Writer)
    requires w.Valid() && w.phase == DONE
    ensures w.headCheck <==> HeadVerdict(w.crc, w.Header()) == 0
  {
    HeaderIsAccepted(w);
  }

  /** Where an update may write: the zone, the sectors that are erased for it, and the flag if it is
  written. */
  predicate Touchable(w: Writer, p: int, flagged: bool) {
    w.zone / SECTOR_SIZE * SECTOR_SIZE <= p < w.zone + w.zoneSize || (flagged && w.flagAddr <= p < w.flagAddr + 4)
  }

  predicate SameAt(f: map<int, byte>, g: map<int, byte>, p: int) {
    if p in f then p in g && g[p] == f[p] else p !in g
  }

  ghost predicate SameElsewhere(w: Writer, f: map<int, byte>, g: map<int, byte>, flagged: bool) {
    forall p :: Touchable(w, p, flagged) || SameAt(f, g, p)
  }

  /** What that means for one address. */
  lemma SameThere(w: Writer, f: map<int, byte>, g: map<int, byte>, flagged: bool, p: int)
    requires SameElsewhere(w, f, g, flagged)
    requires p < w.zone / 4096 * 4096 || w.zone + w.zoneSize <= p
    requires !flagged || p < w.flagAddr || w.flagAddr + 4 <= p
    ensures (p in f <==> p in g) && (p in f ==> g[p] == f[p])
  {
    assert Touchable(w, p, flagged) || SameAt(f, g, p);
  }

  /** As long as the stored bytes fit the zone, flash outside the zone is as it was. */
  lemma ZoneOnly(w: Writer, before: map<int, byte>, from: nat, p: int)
    requires w.Shape() && w.Appended(before, from) && w.offset <= w.zoneSize && w.zone + w.zoneSize <= TWO32
    requires !(w.zone <= p < w.zone + w.zoneSize)
    ensures SameAt(before, w.flash, p)
  {
    StoreAt(before, w.zone + from, w.accepted[from..w.offset], p);
  }

  lemma AppendedElsewhere(w: Writer, before: map<int, byte>, from: nat)
    requires w.Shape() && w.Appended(before, from) && w.offset <= w.zoneSize && w.zone + w.zoneSize <= TWO32
    ensures SameElsewhere(w, before, w.flash, false)
  {
    forall p | !Touchable(w, p, false) ensures SameAt(before, w.flash, p) {
      ZoneOnly(w, before, from, p);
    }
  }

  lemma ErasedElsewhere(w: Writer, f: map<int, byte>)
    requires w.zone + w.zoneSize <= TWO32
    ensures SameElsewhere(w, f, Store(f, w.zone / SECTOR_SIZE * SECTOR_SIZE, Erased(w.zoneSize / SECTOR_SIZE)), false)
  {
    var a, bs := w.zone / SECTOR_SIZE * SECTOR_SIZE, Erased(w.zoneSize / SECTOR_SIZE);
    forall p | !Touchable(w, p, false) ensures SameAt(f, Store(f, a, bs), p) {
      StoreAt(f, a, bs, p);
    }
  }

  lemma FlagOnly(w: Writer, f: map<int, byte>, bs: seq<byte>)
    requires w.flagAddr + 4 <= TWO32 && |bs| == 4
    ensures SameElsewhere(w, f, Store(f, w.flagAddr, bs), true)
  {
    forall p | !Touchable(w, p, true) ensures SameAt(f, Store(f, w.flagAddr, bs), p) {
      StoreAt(f, w.flagAddr, bs, p);
    }
  }

  lemma SameTwice(w: Writer, f: map<int, byte>, g: map<int, byte>, h: map<int, byte>, first: bool, second: bool)
    requires SameElsewhere(w, f, g, first) && SameElsewhere(w, g, h, second)
    ensures SameElsewhere(w, f, h, first || second)
  {
    forall p | !Touchable(w, p, first || second) ensures SameAt(f, h, p) {
      assert SameAt(f, g, p) && SameAt(g, h, p);
    }
  }

  /** The partition table of the AIR6208: the update zone ends where the application begins. */
  const ZONE_8M: word := 0x0801_0000
  const ZONE_SIZE_8M: word := 0x20_0000
  const APP_8M: word := 0x0821_0000
  const FLAG_8M: word := 0x087F_F000

  /** The unchecked header flush at work: a first write that is 100 bytes larger than the zone
  ends in the application. */
  method HeaderFlushOverflows(crc: Crc) returns (initialized: bool, app: seq<byte>)
    ensures initialized ==> app == seq(100, _ => 0)
  {
    var w, ret := Begin(crc);
    if ret != 0 { return false, []; }
    var data: seq<byte> := seq(ZONE_SIZE_8M + 100, _ => 0);
    assert w.Overflows(|data|);
    var r, n := w.Write(data);
    assert w.offset == |w.accepted| && w.accepted == data;
    app := Read(w.flash, APP_8M, 100);
    assert app == Read(w.flash, w.zone, w.offset)[ZONE_SIZE_8M..];
    return true, app;
  }

  /** Nothing but a header is written. */
  method Offer(w: Writer, h: Header) returns (ret: int)
    requires w.Valid() && w.phase == ONGO && w.buffer != null && w.accepted == [] && !w.headCheck
        && w.zone + HEADER_SIZE <= TWO32
    modifies w`flash, w`offset, w`bufferLen, w`accepted, w`headCheck, w.buffer
    ensures w.Valid() && |w.accepted| == w.offset == HEADER_SIZE && w.Header() == h && ret == HeadVerdict(w.crc, h)
    ensures w.flash == Store(old(w.flash), w.zone, h)
  {
    ghost var n;
    ret, n := w.Write(h);
    assert [] + h[..HEADER_SIZE] == h;
    assert w.accepted == h && h[0..HEADER_SIZE] == h;
    HeaderIsAccepted(w);
  }

  /** What `luat_fota_done` finds when nothing but the header `h` has been written over `f`. */
  function HeaderOnlyVerdict(crc: Crc, f: map<int, byte>, zone: word, h: Header): int {
    var len := ImgLen(h);
    if (len + HEADER_SIZE) % TWO32 > HEADER_SIZE then -4
    else if crc(Read(f, zone + HEADER_SIZE, len - len % 4)) != OrgChecksum(h) then -3
    else 0
  }

  method OfferDone(w: Writer, h: Header) returns (write: int, done: int)
    requires w.Valid() && w.phase == ONGO && w.buffer != null && w.accepted == [] && !w.headCheck
    requires ImgLen(h) + HEADER_SIZE <= TWO32 && w.zone + HEADER_SIZE <= TWO32
    modifies w, w.buffer
    ensures w.Valid() && |w.accepted| == w.offset == HEADER_SIZE && w.Header() == h
    ensures write == HeadVerdict(w.crc, h) && done == HeaderOnlyVerdict(w.crc, old(w.flash), w.zone, h)
    ensures w.phase == if done == 0 then DONE else ONGO
  {
    ReadAround(w.flash, w.zone, h, ImgLen(h) - ImgLen(h) % 4);
    write := Offer(w, h);
    done := w.Done();
  }

  /** A whole update with nothing but a header. */
  method Install(w: Writer, h: Header) returns (write: int, done: int)
    requires w.Valid() && w.phase == ONGO && w.buffer != null && w.accepted == [] && !w.headCheck
    requires ImgLen(h) + HEADER_SIZE <= TWO32 && ImgType(h) == FULL_IMAGE
    requires w.zone + HEADER_SIZE <= w.flagAddr && w.flagAddr + 4 <= TWO32
    modifies w, w.buffer
    ensures w.offset == HEADER_SIZE && write == HeadVerdict(w.crc, h)
    ensures done == HeaderOnlyVerdict(w.crc, old(w.flash), w.zone, h)
    ensures done == 0 ==> Read(w.flash, w.flagAddr, 4) == h[24..28]
  {
    write, done := OfferDone(w, h);
    ReadStored(w.flash, w.flagAddr, 0, h[24..28]);
    assert Read(w.flash, w.flagAddr, 0) + h[24..28] == h[24..28];
    var end := w.End(true, 0);
  }

  /** A writer for the AIR6208 after `luat_fota_init`. */
  method Begin(crc: Crc) returns (w: Writer, ret: int)
    ensures fresh(w) && w.crc == crc && w.zone == ZONE_8M && w.zoneSize == ZONE_SIZE_8M && w.flagAddr == FLAG_8M
    ensures ret == 0 ==> w.Valid() && w.phase == ONGO && w.accepted == [] && !w.headCheck
    ensures ret == 0 ==> w.buffer != null && fresh(w.buffer)
  {
    w := new Writer(crc, ZONE_8M, ZONE_SIZE_8M, FLAG_8M, map[]);
    ret := w.Init();
  }

  /** `luat_fota_done` ignores a refused header: an image without the magic number, refused with
  -2, still gets the upgrade flag. */
  method RefusedHeaderInstalled(crc: Crc) returns (initialized: bool, write: int, done: int, flag: seq<byte>)
    ensures initialized ==> write == -2 && done == 0 && |flag| == 4 && Word(flag, 0) == crc([])
  {
    var w, ret := Begin(crc);
    if ret != 0 { return false, 0, 0, []; }
    var h := Sealed(Fields(0, 1, 0, crc([])), 0);
    assert Read(w.flash, w.zone + HEADER_SIZE, 0) == [];
    write, done := Install(w, h);
    return true, write, done, Read(w.flash, FLAG_8M, 4);
  }

  /** The length check passed by wrapping: the header announces 2^32 - 64 bytes, nothing but the
  header is there, and the image is declared complete. Its checksum is that of everything else
  in memory. */
  method WrappedLengthDone(crc: Crc) returns (initialized: bool, write: int, done: int, imgLen: word, stored: nat)
    ensures initialized ==> write == 0 && done == 0 && stored < imgLen + HEADER_SIZE
  {
    var w, ret := Begin(crc);
    if ret != 0 { return false, 0, 0, 0, 0; }
    imgLen := 0xFFFF_FFC0;
    var body := Fields(MAGIC_NO, 1, imgLen, crc(Read(w.flash, ZONE_8M + HEADER_SIZE, imgLen)));
    var h := Sealed(body, crc(body));
    write, done := Install(w, h);
    return true, write, done, imgLen, w.offset;
  }

  /** The calls an update makes, with what each is given. */
  datatype Call = InitCall | WriteCall(data: seq<byte>) | DoneCall | EndCall(isOk: bool, status: int)

  /** The bytes that may have been accepted since the last initialization, after a call. */
  function After(n: nat, call: Call): nat {
    match call
    case InitCall => 0
    case WriteCall(data) => n + |data|
    case _ => n
  }

  /** The most there may have been at any time of a run that starts with `n`. */
  function Peak(n: nat, calls: seq<Call>): (m: nat)
    ensures n <= m
    decreases |calls|
  {
    if calls == [] then n
    else
      var m := Peak(After(n, calls[0]), calls[1..]);
      if n < m then m else n
  }

  function Total(calls: seq<Call>): nat {
    if calls == [] then 0 else (if calls[0].WriteCall? then |calls[0].data| else 0) + Total(calls[1..])
  }

  /** Without an initialization the peak is what there was and all that is written. */
  lemma {:induction false} PeakOfWrites(n: nat, calls: seq<Call>)
    requires forall i :: 0 <= i < |calls| ==> !calls[i].InitCall?
    ensures Peak(n, calls) == n + Total(calls)
    decreases |calls|
  {
    if calls != [] { PeakOfWrites(After(n, calls[0]), calls[1..]); }
  }

  /** An initialization starts over. */
  lemma {:induction false} PeakOfInit(n: nat, before: seq<Call>, after: seq<Call>)
    ensures var p, q := Peak(n, before), Peak(0, after);
      Peak(n, before + [InitCall] + after) == if p < q then q else p
    decreases |before|
  {
    var calls := before + [InitCall] + after;
    if before == [] {
      assert calls[1..] == after;
    } else {
      assert calls[1..] == before[1..] + [InitCall] + after;
      PeakOfInit(After(n, before[0]), before[1..], after);
    }
  }

  lemma {:induction false} PeakMonotone(n: nat, m: nat, calls: seq<Call>)
    requires n <= m
    ensures Peak(n, calls) <= Peak(m, calls)
    decreases |calls|
  {
    if calls != [] { PeakMonotone(After(n, calls[0]), After(m, calls[0]), calls[1..]); }
  }

  /** A write whose header flush leaves the zone; see `Writer.Write`. */
  predicate Leaves(w: Writer, call: Call)
    reads w
  {
    call.WriteCall? && w.Overflows(|call.data|)
  }

  /** One call of a run. */
  method Step(w: Writer, call: Call)
    requires w.Valid() && w.flagAddr + 4 <= TWO32
    requires w.zone + |w.accepted| <= TWO32 && w.zone + After(|w.accepted|, call) <= TWO32
    requires w.flagAddr + 4 <= w.zone || w.zone + |w.accepted| <= w.flagAddr
    modifies w, w.buffer
    ensures w.Valid() && |w.accepted| <= After(|old(w.accepted)|, call)
    ensures w.buffer == old(w.buffer) || fresh(w.buffer)
    ensures old(w.offset) <= w.zoneSize ==> (w.zoneSize < w.offset <==> old(Leaves(w, call)))
    ensures old(w.flags) <= w.flags
    ensures w.offset <= w.zoneSize && w.zone + w.zoneSize <= TWO32 ==>
      SameElsewhere(w, old(w.flash), w.flash, w.flags != old(w.flags))
  {
    match call {
      case InitCall =>
        var r := w.Init();
        if w.zone + w.zoneSize <= TWO32 { ErasedElsewhere(w, old(w.flash)); }
      case WriteCall(data) =>
        var r, n := w.Write(data);
        if w.offset <= w.zoneSize && w.zone + w.zoneSize <= TWO32 { AppendedElsewhere(w, old(w.flash), old(w.offset)); }
      case DoneCall =>
        var r := w.Done();
        if w.offset <= w.zoneSize && w.zone + w.zoneSize <= TWO32 { AppendedElsewhere(w, old(w.flash), old(w.offset)); }
      case EndCall(isOk, status) =>
        FlagOnly(w, w.flash, w.Header()[24..28]);
        var r := w.End(isOk, status);
    }
  }

  /** Every run: in each state it reaches, zone and buffer hold the accepted bytes, DONE means the
  image was verified, and every write of the upgrade flag was justified when it happened. As long
  as no write leaves the zone, which cannot happen while there are no more bytes than the zone
  holds, nothing outside the zone, the sectors erased for it and the flag is ever changed, and the
  flag only if a write of it is on record. */
  method Run(w: Writer, calls: seq<Call>) returns (inZone: bool)
    requires w.Valid() && w.flagAddr + 4 <= TWO32 && w.zone + Peak(|w.accepted|, calls) <= TWO32
    requires w.flagAddr + 4 <= w.zone || w.zone + Peak(|w.accepted|, calls) <= w.flagAddr
    modifies w, w.buffer
    ensures w.Stored() && (w.phase == DONE ==> w.Verified()) && w.FlagsJustified()
    ensures w.phase == DONE ==> (w.headCheck <==> HeadVerdict(w.crc, w.Header()) == 0)
    ensures |w.accepted| <= Peak(|old(w.accepted)|, calls)
    ensures w.buffer == old(w.buffer) || fresh(w.buffer)
    ensures old(w.flags) <= w.flags
    ensures inZone ==> w.offset <= w.zoneSize
    ensures inZone && w.zone + w.zoneSize <= TWO32 ==> SameElsewhere(w, old(w.flash), w.flash, w.flags != old(w.flags))
    ensures Peak(|old(w.accepted)|, calls) <= w.zoneSize ==> inZone
    decreases |calls|
  {
    if calls == [] {
      if w.phase == DONE { DoneHeader(w); }
      return w.offset <= w.zoneSize;
    }
    var stays := w.offset <= w.zoneSize && !Leaves(w, calls[0]);
    Step(w, calls[0]);
    PeakMonotone(|w.accepted|, After(|old(w.accepted)|, calls[0]), calls[1..]);
    ghost var f, flags := w.flash, w.flags;
    inZone := Run(w, calls[1..]);
    inZone := stays && inZone;
    if inZone && w.zone + w.zoneSize <= TWO32 {
      SameTwice(w, old(w.flash), f, w.flash, flags != old(w.flags), w.flags != flags);
    }
  }
}
