/**
 The 24-byte header of the memcached binary protocol (draft-stone-memcache-binary-01, section 2, packet
 structure), multi-byte fields in network order.
 */
module ProtocolHeader {
  import opened Bytes

  const MAGIC_REQUEST: byte := 0x80
  const MAGIC_RESPONSE: byte := 0x81
  const OPCODE_GET: byte := 0
  const OPCODE_SET: byte := 1
  const HEADER: nat := 24

  datatype Header = Header(magic: byte, opcode: byte, keylen: nat, extlen: byte, datatyp: byte, status: nat,
                           bodylen: nat, opaqueId: Buffer, cas: Buffer)

  predicate Encodable(h: Header)
  {
    h.keylen < U16 && h.status < U16 && h.bodylen < U32 && |h.opaqueId| == 4 && |h.cas| == 8
  }

  function EncodedHeader(h: Header): (s: Buffer)
    requires Encodable(h)
    ensures |s| == HEADER
  {
    [h.magic, h.opcode, Hi(h.keylen), Lo(h.keylen), h.extlen, h.datatyp, Hi(h.status), Lo(h.status)]
    + Be32(h.bodylen) + h.opaqueId + h.cas
  }

  function Be32(w: nat): (s: Buffer)
    requires w < U32
    ensures |s| == 4
  {
    [Hi(w / U16), Lo(w / U16), Hi(w % U16), Lo(w % U16)]
  }

  function Word32(s: Buffer, at: nat): (w: nat)
    requires at + 4 <= |s|
    ensures w < U32
  {
    Be16(s[at], s[at + 1]) * U16 + Be16(s[at + 2], s[at + 3])
  }

  /** A 32-bit word in the host's own, little-endian order. */
  function Le32(w: nat): (s: Buffer)
    requires w < U32
    ensures |s| == 4
  {
    [Lo(w), Lo(w / 0x100), Lo(w / U16), Lo(w / 0x100_0000)]
  }

  function DecodedHeader(s: Buffer): (h: Header)
    requires |s| >= HEADER
    ensures Encodable(h)
  {
    Header(s[0], s[1], Be16(s[2], s[3]), s[4], s[5], Be16(s[6], s[7]), Word32(s, 8), s[12..16], s[16..24])
  }

  lemma BigEndianFour(s: Buffer, at: nat)
    requires at + 4 <= |s|
    ensures BigEndian(s[at..at + 4]) == Word32(s, at)
  {
    var w := s[at..at + 4];
    BigEndianTwo(w[..2]);
    assert w[..3][..2] == w[..2];
    assert BigEndian(w[..3]) == BigEndian(w[..2]) * 256 + w[2] as nat;
    assert BigEndian(w) == BigEndian(w[..3]) * 256 + w[3] as nat;
  }

  /** Where each field is, in network order: magic, opcode, key length, extras length, data type, status, body
      length, opaque word, version. */
  lemma HeaderLayout(s: Buffer)
    requires |s| >= HEADER
    ensures DecodedHeader(s) == Header(s[0], s[1], BigEndian(s[2..4]), s[4], s[5], BigEndian(s[6..8]),
                                       BigEndian(s[8..12]), s[12..16], s[16..24])
  {
    hide Be16, Word32, BigEndian;
    BigEndianTwo(s[2..4]);
    BigEndianTwo(s[6..8]);
    BigEndianFour(s, 8);
  }

  lemma Be32RoundTrip(w: nat)
    requires w < U32
    ensures Word32(Be32(w), 0) == w
  {
    Be16RoundTrip(w / U16);
    Be16RoundTrip(w % U16);
  }

  /** Decoding an encoded header, whatever follows it, gives the header back. */
  lemma HeaderRoundTrip(h: Header, rest: Buffer)
    requires Encodable(h)
    ensures DecodedHeader(EncodedHeader(h) + rest) == h
  {
    hide Be16, Hi, Lo, Be32, Word32;
    var s := EncodedHeader(h) + rest;
    Be16RoundTrip(h.keylen);
    Be16RoundTrip(h.status);
    Be32RoundTrip(h.bodylen);
    assert s[8..12] == Be32(h.bodylen);
    Word32At(s, 8);
    assert s[12..16] == h.opaqueId && s[16..24] == h.cas;
  }

  lemma HeaderDecoded(h: Header, s: Buffer)
    requires Encodable(h) && |s| >= HEADER && s[..HEADER] == EncodedHeader(h)
    ensures DecodedHeader(s) == h
  {
    hide EncodedHeader, DecodedHeader;
    assert s == EncodedHeader(h) + s[HEADER..];
    HeaderRoundTrip(h, s[HEADER..]);
  }

  lemma Word32At(s: Buffer, at: nat)
    requires at + 4 <= |s|
    ensures Word32(s, at) == Word32(s[at..at + 4], 0)
  {
  }

  /** No two byte strings decode to the same header; with HeaderRoundTrip, decoding is one to one. */
  lemma HeaderInjective(s: Buffer, t: Buffer)
    requires |s| >= HEADER && |t| >= HEADER && DecodedHeader(s) == DecodedHeader(t)
    ensures s[..HEADER] == t[..HEADER]
  {
    hide Be16, Word32;
    HalvesEqual(s[2], s[3], t[2], t[3]);
    HalvesEqual(s[6], s[7], t[6], t[7]);
    WordsEqual(s, t, 8);
    assert s[..HEADER] == s[..8] + s[8..12] + s[12..16] + s[16..24];
    assert t[..HEADER] == t[..8] + t[8..12] + t[12..16] + t[16..24];
  }

  lemma HalvesEqual(a: byte, b: byte, c: byte, d: byte)
    requires Be16(a, b) == Be16(c, d)
    ensures a == c && b == d
  {
  }

  lemma WordsEqual(s: Buffer, t: Buffer, at: nat)
    requires at + 4 <= |s| && at + 4 <= |t| && Word32(s, at) == Word32(t, at)
    ensures s[at..at + 4] == t[at..at + 4]
  {
    hide Be16;
    HalvesEqual(s[at], s[at + 1], t[at], t[at + 1]);
    HalvesEqual(s[at + 2], s[at + 3], t[at + 2], t[at + 3]);
  }
}
