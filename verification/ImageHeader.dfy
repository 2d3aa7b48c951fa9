/** The 64-byte image header: the fields the update code reads. */
module ImageHeader {
  import opened Words
  import opened Positional

  const HEADER_SIZE := 64

  type Header = h: seq<byte> | |h| == HEADER_SIZE witness seq(HEADER_SIZE, _ => 0)

  /** A little-endian word of the header. */
  function Word(bs: seq<byte>, at: nat): word
    requires at + 4 <= |bs|
  {
    var b0: int, b1: int, b2: int, b3: int := bs[at], bs[at + 1], bs[at + 2], bs[at + 3];
    b0 + 0x100 * b1 + 0x1_0000 * b2 + 0x100_0000 * b3
  }

  function MagicNo(h: Header): word { Word(h, 0) }
  function ImgType(h: Header): nat { h[4] % 16 }
  function ImgLen(h: Header): word { Word(h, 12) }
  function OrgChecksum(h: Header): word { Word(h, 24) }
  function HdChecksum(h: Header): word { Word(h, 60) }

  lemma WordIsLittleEndian(bs: seq<byte>, at: nat)
    requires at + 4 <= |bs|
    ensures Word(bs, at) == Val(bs[at..at + 4], 256)
  {
    var w: seq<int> := bs[at..at + 4];
    assert Val(w, 256) == w[0] + 256 * Val(w[1..], 256);
    assert Val(w[1..], 256) == w[1] + 256 * Val(w[2..], 256) by { assert w[1..][1..] == w[2..]; }
    assert Val(w[2..], 256) == w[2] + 256 * Val(w[3..], 256) by { assert w[2..][1..] == w[3..]; }
    assert Val(w[3..], 256) == w[3] by { assert w[3..][1..] == []; }
  }

  /** Where the fields are. */
  lemma FieldPositions(h: Header)
    ensures MagicNo(h) == Val(h[0..4], 256) && ImgLen(h) == Val(h[12..16], 256)
    ensures OrgChecksum(h) == Val(h[24..28], 256) && HdChecksum(h) == Val(h[60..64], 256)
  {
    WordIsLittleEndian(h, 0);
    WordIsLittleEndian(h, 12);
    WordIsLittleEndian(h, 24);
    WordIsLittleEndian(h, 60);
  }

  /** Of the attribute byte only the low four bits are the type. */
  lemma TypeBits(h: Header, hi: nat, lo: nat)
    requires lo < 16 && h[4] == 16 * hi + lo
    ensures ImgType(h) == lo
  {}

  function LittleEndian(v: word): (bs: seq<byte>)
    ensures |bs| == 4 && Word(bs, 0) == v
  {
    var q1 := v / 0x100;
    var q2 := q1 / 0x100;
    var q3 := q2 / 0x100;
    [v % 0x100, q1 % 0x100, q2 % 0x100, q3]
  }

  /** The checksummed part of a header, zero where no field is given. */
  function Fields(magic: word, imgType: byte, imgLen: word, org: word): (bs: seq<byte>)
    ensures |bs| == HEADER_SIZE - 4 && bs[4] == imgType
    ensures Word(bs, 0) == magic && Word(bs, 12) == imgLen && Word(bs, 24) == org
  {
    LittleEndian(magic) + [imgType, 0, 0, 0, 0, 0, 0, 0] + LittleEndian(imgLen) + seq(8, _ => 0)
        + LittleEndian(org) + seq(32, _ => 0)
  }

  /** Such a header with its checksum. */
  function Sealed(bs: seq<byte>, hd: word): (h: Header)
    requires |bs| == HEADER_SIZE - 4
    ensures MagicNo(h) == Word(bs, 0) && h[4] == bs[4] && ImgLen(h) == Word(bs, 12) && OrgChecksum(h) == Word(bs, 24)
    ensures HdChecksum(h) == hd && h[..HEADER_SIZE - 4] == bs
  {
    bs + LittleEndian(hd)
  }
}
