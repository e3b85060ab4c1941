/**
 The memcached binary protocol as the server speaks it (draft-stone-memcache-binary-01, section 2, packet
 structure): validating a request, reading its key and value, and answering it by overwriting the
 request's own buffer. The message starts at the packet's payload offset, which is 0 for datagrams; only then
 is the packet's length that of the message.
 */
module Memcached {
  import opened Bytes
  import opened Decimals
  import opened HexText
  import opened Items
  import opened LookupTables
  import opened Packets
  import opened ProtocolHeader
  import opened SetStatement
  import opened TableModel
  import opened Wrappers

  /** What every handler may read or write of a message, its value aside: the longest reply. */
  const MESSAGE_ROOM: nat := HEADER + 4 + ITEM_LEN

  /** Packet lengths are signed 32-bit words. */
  const INT_LIMIT: nat := 0x8000_0000

  const KEY_ID_RANGE: nat := 0x10_0000

  /** STATUS_ERR as it goes out: the host's 0x0100, stored by a little-endian host. */
  const STATUS_ERR: nat := 1

  const NOT_FOUND: Buffer := [110, 111, 116, 32, 102, 111, 117, 110, 100]

  // ---------------------------------------------------------------------------------------------
  // Requests

  /** validate_header: GET without extras and value, SET with extras, key and body, and a total length that
      is exactly the header plus the body. */
  predicate ValidRequest(h: Header, ln: nat)
  {
    && h.magic == MAGIC_REQUEST && (h.opcode == OPCODE_GET || h.opcode == OPCODE_SET) && h.datatyp == 0
    && (if h.opcode == OPCODE_GET then
          h.extlen == 0 && h.keylen != 0 && h.bodylen == h.keylen
        else
          h.extlen != 0 && h.keylen != 0 && h.bodylen != 0)
    && h.bodylen + HEADER == ln
  }

  /** A request that the server answers: valid, with a 4-byte key. */
  predicate Accepted(s: Buffer, ln: nat)
    requires |s| >= MESSAGE_ROOM
  {
    ValidRequest(DecodedHeader(s), ln) && DecodedHeader(s).keylen == 4
  }

  /** The table key: the low 20 bits of the 4-byte key, in network order, behind the extras. */
  function KeyId(s: Buffer): nat
    requires |s| >= MESSAGE_ROOM
  {
    Word32(s, HEADER + DecodedHeader(s).extlen as nat) % KEY_ID_RANGE
  }

  /** Where a message's value starts, and how long it is: the length can come out negative. */
  function ValueAt(s: Buffer): nat
    requires |s| >= HEADER
  {
    HEADER + DecodedHeader(s).extlen as nat + DecodedHeader(s).keylen
  }

  function ValueLength(s: Buffer): int
    requires |s| >= HEADER
  {
    DecodedHeader(s).bodylen - DecodedHeader(s).extlen as nat - DecodedHeader(s).keylen
  }

  /** The value of a message; nothing for a negative length. */
  function Value(s: Buffer): Buffer
    requires |s| >= HEADER && (ValueLength(s) > 0 ==> ValueAt(s) + ValueLength(s) <= |s|)
  {
    if ValueLength(s) <= 0 then [] else s[ValueAt(s)..ValueAt(s) + ValueLength(s)]
  }

  /** Which bytes make an accepted request: the request magic, data type 0, a key of 4 bytes, a length that is the
      header and the body, and for opcode 0 neither extras nor value, for opcode 1 extras and some body. Nothing else
      in the message matters. */
  lemma AcceptedIff(s: Buffer, ln: nat)
    requires |s| >= MESSAGE_ROOM
    ensures Accepted(s, ln) <==>
      && s[0] == 0x80 && s[5] == 0 && BigEndian(s[2..4]) == 4 && ln == 24 + BigEndian(s[8..12])
      && ((s[1] == 0 && s[4] == 0 && ln == 28) || (s[1] == 1 && s[4] != 0 && ln > 24))
  {
    HeaderLayout(s);
    hide DecodedHeader, BigEndian;
  }

  /** The table key is the low 20 bits of the four bytes behind the extras. */
  lemma KeyIdBytes(s: Buffer)
    requires |s| >= MESSAGE_ROOM
    ensures var at := 24 + s[4] as nat; KeyId(s) == BigEndian(s[at..at + 4]) % 0x10_0000
  {
    BigEndianFour(s, 24 + s[4] as nat);
    hide Word32, BigEndian;
  }

  const NO_CAS: Buffer := [0, 0, 0, 0, 0, 0, 0, 0]

  function GetRequest(key: nat, opaqueId: Buffer): Buffer
    requires key < U32 && |opaqueId| == 4
  {
    EncodedHeader(Header(MAGIC_REQUEST, OPCODE_GET, 4, 0, 0, 0, 4, opaqueId, NO_CAS)) + Be32(key)
  }

  function SetRequest(key: nat, extras: Buffer, val: Buffer, opaqueId: Buffer): Buffer
    requires key < U32 && |opaqueId| == 4 && |extras| < 256 && |extras| + 4 + |val| < U32
  {
    EncodedHeader(Header(MAGIC_REQUEST, OPCODE_SET, 4, |extras| as byte, 0, 0, |extras| + 4 + |val|, opaqueId, NO_CAS))
    + extras + Be32(key) + val
  }

  /** A GET request is accepted, whatever follows it in the receive buffer, and yields its key modulo 2^20. */
  lemma GetRequestReceived(key: nat, opaqueId: Buffer, s: Buffer)
    requires key < U32 && |opaqueId| == 4
    requires |s| >= MESSAGE_ROOM && GetRequest(key, opaqueId) <= s
    ensures Accepted(s, |GetRequest(key, opaqueId)|) && DecodedHeader(s).opcode == OPCODE_GET
    ensures KeyId(s) == key % KEY_ID_RANGE
  {
    hide EncodedHeader, DecodedHeader, Word32, Be32;
    var h := Header(MAGIC_REQUEST, OPCODE_GET, 4, 0, 0, 0, 4, opaqueId, NO_CAS);
    assert s == EncodedHeader(h) + s[HEADER..];
    HeaderRoundTrip(h, s[HEADER..]);
    assert s[HEADER..HEADER + 4] == Be32(key);
    Word32At(s, HEADER);
    Be32RoundTrip(key);
  }

  /** A SET request with extras is accepted and yields its key modulo 2^20 and exactly its value. */
  lemma SetRequestReceived(key: nat, extras: Buffer, val: Buffer, opaqueId: Buffer, s: Buffer)
    requires key < U32 && |opaqueId| == 4 && 0 < |extras| < 256
    requires |s| >= MESSAGE_ROOM && HEADER + |extras| + 4 + |val| < INT_LIMIT
    requires SetRequest(key, extras, val, opaqueId) <= s
    ensures Accepted(s, |SetRequest(key, extras, val, opaqueId)|) && DecodedHeader(s).opcode == OPCODE_SET
    ensures KeyId(s) == key % KEY_ID_RANGE
    ensures ValueLength(s) == |val| && ValueAt(s) + |val| <= |s| && Value(s) == val
  {
    hide EncodedHeader, DecodedHeader, Word32, Be32;
    var n := |extras|;
    var h := Header(MAGIC_REQUEST, OPCODE_SET, 4, n as byte, 0, 0, n + 4 + |val|, opaqueId, NO_CAS);
    assert s == EncodedHeader(h) + s[HEADER..];
    HeaderRoundTrip(h, s[HEADER..]);
    assert s[HEADER + n..HEADER + n + 4] == Be32(key);
    Word32At(s, HEADER + n);
    Be32RoundTrip(key);
    assert s[HEADER + n + 4..HEADER + n + 4 + |val|] == val;
  }

  // ---------------------------------------------------------------------------------------------
  // Replies

  predicate ItemFits(itm: Item)
  {
    itm.datalen <= |itm.data| == ITEM_LEN && itm.expire < U32
  }

  ghost predicate Servable(t: Table<Item>)
  {
    forall k :: 0 <= k < |t.cells| ==> ItemFits(t.cells[k].current.body) && ItemFits(t.cells[k].spare.body)
  }

  function HitReply(s: Buffer, itm: Item): (r: Buffer)
    requires |s| >= MESSAGE_ROOM && ItemFits(itm)
    ensures |r| == |s|
  {
    EncodedHeader(HitHeader(s, itm))
    + Le32(itm.expire) + itm.data[..itm.datalen] + s[HEADER + 4 + itm.datalen..]
  }

  function MissReply(s: Buffer): (r: Buffer)
    requires |s| >= MESSAGE_ROOM
    ensures |r| == |s|
  {
    EncodedHeader(MissHeader()) + NOT_FOUND + s[HEADER + |NOT_FOUND|..]
  }

  function SetReply(s: Buffer, ok: bool): (r: Buffer)
    requires |s| >= MESSAGE_ROOM
    ensures |r| == |s|
  {
    EncodedHeader(Header(MAGIC_RESPONSE, OPCODE_SET, 0, 0, 0, if ok then 0 else STATUS_ERR, 0, s[12..16], NO_CAS))
    + s[HEADER..]
  }

  /** The answer to a GET: the table's value for the key, or "not found" for an absent or empty one. */
  function GetReply(s: Buffer, t: Table<Item>): (Buffer, nat)
    requires |s| >= MESSAGE_ROOM && forall k :: 0 <= k < |t.cells| ==> ItemFits(t.cells[k].current.body)
  {
    match Lookup(t, KeyId(s))
    case None => (MissReply(s), HEADER + |NOT_FOUND|)
    case Some(r) =>
      if r.body.datalen == 0 then (MissReply(s), HEADER + |NOT_FOUND|)
      else (HitReply(s, r.body), HEADER + 4 + r.body.datalen)
  }

  /** Every reply is framed: its length is the header plus the body it announces. A hit, read through the
      same offsets as a request, gives exactly the stored bytes and the request's opaque word. */
  lemma GetReplyReads(s: Buffer, t: Table<Item>)
    requires |s| >= MESSAGE_ROOM && Servable(t)
    ensures var (r, ln) := GetReply(s, t); var h := DecodedHeader(r);
      && ln == HEADER + h.bodylen <= |r| == |s| && h.magic == MAGIC_RESPONSE && h.opcode == OPCODE_GET
      && ValueAt(r) + ValueLength(r) == ln
      && (h.status == 0 <==> Answer(t, KeyId(s)).Some?)
      && Value(r) == (match Answer(t, KeyId(s)) case Some(v) => v case None => NOT_FOUND)
      && (h.status == 0 ==> h.opaqueId == s[12..16])
  {
    hide EncodedHeader, DecodedHeader, Le32, KeyId;
    var (r, ln) := GetReply(s, t);
    match Lookup(t, KeyId(s)) {
      case Some(rec) =>
        if rec.body.datalen == 0 {
          MissParts(s);
          HeaderDecoded(MissHeader(), r);
        } else {
          HitParts(s, rec.body);
          HeaderDecoded(HitHeader(s, rec.body), r);
        }
      case None =>
        MissParts(s);
        HeaderDecoded(MissHeader(), r);
    }
  }

  /** A hit reply, byte by byte: response magic, opcode 0, no key, four bytes of extras, status 0, a body of the extras
      and the value, the request's opaque word, no version; the expiry in the host's order, and the value. What lies
      behind stays. */
  lemma HitReads(s: Buffer, itm: Item)
    requires |s| >= MESSAGE_ROOM && ItemFits(itm)
    ensures var r, n := HitReply(s, itm), itm.datalen;
      && r[..HEADER] ==
           [0x81, 0, 0, 0, 4, 0, 0, 0] + Be32(n + 4) + s[12..16] + [0, 0, 0, 0, 0, 0, 0, 0]
      && r[24..28] == Le32(itm.expire) && r[28..28 + n] == itm.data[..n] && r[28 + n..] == s[28 + n..]
  {
    HitParts(s, itm);
    hide HitReply, Le32, Be32;
  }

  function HitHeader(s: Buffer, itm: Item): (h: Header)
    requires |s| >= MESSAGE_ROOM && ItemFits(itm)
    ensures Encodable(h)
  {
    Header(MAGIC_RESPONSE, OPCODE_GET, 0, 4, 0, 0, itm.datalen + 4, s[12..16], NO_CAS)
  }

  lemma HitParts(s: Buffer, itm: Item)
    requires |s| >= MESSAGE_ROOM && ItemFits(itm)
    ensures var r, n := HitReply(s, itm), itm.datalen;
      && r[..HEADER] == EncodedHeader(HitHeader(s, itm)) && r[24..28] == Le32(itm.expire)
      && r[28..28 + n] == itm.data[..n] && r[28 + n..] == s[28 + n..]
  {
    hide EncodedHeader, Le32;
  }

  /** The bytes of a word in the host's order, least significant first. */
  lemma Le32Bytes(w: nat)
    requires w < U32
    ensures var b := Le32(w);
      b[0] as nat + b[1] as nat * 0x100 + b[2] as nat * 0x1_0000 + b[3] as nat * 0x100_0000 == w
  {
    LowHalf(w);
    LowHalf(w / U16);
    assert w / 0x100_0000 == w / U16 / 0x100 by { Quarter(w); }
  }

  lemma LowHalf(w: nat)
    ensures w % 0x100 + w / 0x100 % 0x100 * 0x100 == w % 0x1_0000
  {
    var q, r := w / 0x1_0000, w % 0x1_0000;
    assert w / 0x100 == q * 0x100 + r / 0x100;
  }

  lemma Quarter(w: nat)
    ensures w / 0x100_0000 == w / 0x1_0000 / 0x100
  {
  }

  /** A miss reply, byte by byte: response magic, opcode 0, no key or extras, status 1, a body of nine bytes, neither
      opaque word nor version, and the text; what lies behind stays. */
  lemma MissReads(s: Buffer)
    requires |s| >= MESSAGE_ROOM
    ensures var r := MissReply(s);
      && r[..HEADER] == [0x81, 0, 0, 0, 0, 0, 0, 1, 0, 0, 0, 9, 0, 0, 0, 0, 0, 0, 0, 0, 0, 0, 0, 0]
      && r[HEADER..HEADER + 9] == NOT_FOUND && r[HEADER + 9..] == s[HEADER + 9..]
  {
    MissParts(s);
    hide MissReply;
    assert EncodedHeader(MissHeader()) == [0x81, 0, 0, 0, 0, 0, 0, 1] + [0, 0, 0, 9] + [0, 0, 0, 0] + NO_CAS;
  }

  function MissHeader(): (h: Header)
    ensures Encodable(h)
  {
    Header(MAGIC_RESPONSE, OPCODE_GET, 0, 0, 0, STATUS_ERR, |NOT_FOUND|, [0, 0, 0, 0], NO_CAS)
  }

  lemma MissParts(s: Buffer)
    requires |s| >= MESSAGE_ROOM
    ensures var r := MissReply(s);
      && r[..HEADER] == EncodedHeader(MissHeader())
      && r[HEADER..HEADER + 9] == NOT_FOUND && r[HEADER + 9..] == s[HEADER + 9..]
  {
    hide EncodedHeader;
  }

  /** A SET reply overwrites the header and nothing behind it. */
  lemma SetReplyKeeps(s: Buffer, ok: bool)
    requires |s| >= MESSAGE_ROOM
    ensures SetReply(s, ok)[HEADER..] == s[HEADER..]
  {
    hide EncodedHeader;
  }

  /** The header of a SET reply, byte by byte: response magic, opcode 1, no key, extras or body, status 0 or 1, the
      request's opaque word, no version. */
  lemma SetReplyReads(s: Buffer, ok: bool)
    requires |s| >= MESSAGE_ROOM
    ensures SetReply(s, ok)[..HEADER] ==
      [0x81, 1, 0, 0, 0, 0, 0, if ok then 0 else 1, 0, 0, 0, 0] + s[12..16] + [0, 0, 0, 0, 0, 0, 0, 0]
  {
    var status := if ok then 0 else STATUS_ERR;
    var h := Header(MAGIC_RESPONSE, OPCODE_SET, 0, 0, 0, status, 0, s[12..16], NO_CAS);
    assert SetReply(s, ok)[..HEADER] == EncodedHeader(h) by { hide EncodedHeader; }
  }

  // ---------------------------------------------------------------------------------------------
  // The server

  /** m with s written over it at off. */
  function Overwritten(m: Buffer, off: nat, s: Buffer): Buffer
    requires off + |s| <= |m|
  {
    m[..off] + s + m[off + |s|..]
  }

  /** Writing right behind a finished front. */
  lemma OverwrittenNext(front: Buffer, rest: Buffer, s: Buffer)
    requires |s| <= |rest|
    ensures Overwritten(front + rest, |front|, s) == (front + s) + rest[|s|..]
  {
  }

  /** Write s into the message that starts at `at`. */
  method Put(data: array<byte>, at: nat, off: nat, s: Buffer)
    requires at + off + |s| <= data.Length
    modifies data
    ensures data[..at] == old(data[..at])
    ensures data[at..] == Overwritten(old(data[at..]), off, s)
  {
    ghost var m := data[at..];
    for i := 0 to |s|
      invariant forall j :: 0 <= j < data.Length ==>
        data[j] == if at + off <= j < at + off + i then s[j - at - off] else old(data[j])
    {
      data[at + off + i] := s[i];
    }
    forall j | 0 <= j < data.Length - at
      ensures data[at..][j] == Overwritten(m, off, s)[j] {
      assert data[at..][j] == data[at + j] && m[j] == old(data[at + j]);
    }
  }

  class Server {
    const table: LookupTable<Item>

    constructor (table: LookupTable<Item>)
      ensures this.table == table
    {
      this.table := table;
    }

    /** Overwrite the header in place; the opaque word is cleared or left as it is. */
    method SetHeader(data: array<byte>, at: nat, opcode: byte, extlen: byte, status: nat, bodylen: nat,
                     keepOpaque: bool)
      requires at + MESSAGE_ROOM <= data.Length && status < U16 && bodylen < U32
      modifies data
      ensures data[..at] == old(data[..at])
      ensures var opaqueId := if keepOpaque then old(data[at..][12..16]) else [0, 0, 0, 0];
        data[at..] == EncodedHeader(Header(MAGIC_RESPONSE, opcode, 0, extlen, 0, status, bodylen, opaqueId, NO_CAS))
                      + old(data[at..][HEADER..])
    {
      hide Be32, Hi, Lo, EncodedHeader;
      ghost var s := data[at..];
      ghost var first := [MAGIC_RESPONSE, opcode, 0, 0, extlen, 0, Hi(status), Lo(status)];
      ghost var opaqueId := if keepOpaque then s[12..16] else [0, 0, 0, 0];
      HeaderOver(s, first, Be32(bodylen), opaqueId, NO_CAS);
      hide Overwritten;
      Put(data, at, 0, [MAGIC_RESPONSE, opcode, 0, 0, extlen, 0, Hi(status), Lo(status)]);
      Put(data, at, 8, Be32(bodylen));
      if !keepOpaque {
        Put(data, at, 12, [0, 0, 0, 0]);
      }
      Put(data, at, 16, NO_CAS);
      HeaderParts(opcode, extlen, status, bodylen, opaqueId);
    }

    /** The parts of a header written one after the other; an opaque word that is kept need not be written. */
    lemma HeaderOver(m: Buffer, a: Buffer, b: Buffer, c: Buffer, d: Buffer)
      requires |m| >= HEADER && |a| == 8 && |b| == |c| == 4 && |d| == 8
      ensures var m2 := Overwritten(Overwritten(m, 0, a), 8, b);
        && |m2| == |m|
        && |Overwritten(m2, 12, c)| == |m| && Overwritten(Overwritten(m2, 12, c), 16, d) == a + b + c + d + m[HEADER..]
        && (c == m[12..16] ==> Overwritten(m2, 16, d) == a + b + c + d + m[HEADER..])
    {
      OverwrittenNext([], m, a);
      assert [] + m == m && [] + a == a;
      OverwrittenNext(a, m[8..], b);
      OverwrittenNext(a + b, m[12..], c);
      OverwrittenNext(a + b + c, m[16..], d);
      assert m[8..][4..] == m[12..] && m[12..][4..] == m[16..] && m[16..][8..] == m[HEADER..];
      hide Overwritten;
      if c == m[12..16] {
        assert m[12..] == c + m[16..];
        assert a + b + (c + m[16..]) == a + b + c + m[16..];
      }
    }

    lemma HeaderParts(opcode: byte, extlen: byte, status: nat, bodylen: nat, opaqueId: Buffer)
      requires status < U16 && bodylen < U32 && |opaqueId| == 4
      ensures EncodedHeader(Header(MAGIC_RESPONSE, opcode, 0, extlen, 0, status, bodylen, opaqueId, NO_CAS)) ==
        [MAGIC_RESPONSE, opcode, 0, 0, extlen, 0, Hi(status), Lo(status)] + Be32(bodylen) + opaqueId + NO_CAS
    {
      ZeroHalves();
    }

    lemma ZeroHalves()
      ensures Hi(0) == 0 && Lo(0) == 0
    {
    }

    /** The answer for an absent or empty value. */
    method ReplyMiss(pkt: Packet)
      requires pkt.payload + MESSAGE_ROOM <= pkt.data.Length
      modifies pkt`len, pkt.data
      ensures pkt.data[..pkt.payload] == old(pkt.data[..pkt.payload])
      ensures pkt.data[pkt.payload..] == MissReply(old(pkt.data[pkt.payload..])) && pkt.len == HEADER + |NOT_FOUND|
    {
      hide EncodedHeader;
      var data, at := pkt.data, pkt.payload;
      SetHeader(data, at, OPCODE_GET, 0, STATUS_ERR, |NOT_FOUND|, false);
      Put(data, at, HEADER, NOT_FOUND);
      pkt.len := HEADER + |NOT_FOUND|;
    }

    /** The answer with an item's value. */
    method ReplyHit(pkt: Packet, itm: Item)
      requires pkt.payload + MESSAGE_ROOM <= pkt.data.Length && ItemFits(itm)
      modifies pkt`len, pkt.data
      ensures pkt.data[..pkt.payload] == old(pkt.data[..pkt.payload])
      ensures pkt.data[pkt.payload..] == HitReply(old(pkt.data[pkt.payload..]), itm)
      ensures pkt.len == HEADER + 4 + itm.datalen
    {
      hide EncodedHeader, Le32;
      var data, at := pkt.data, pkt.payload;
      ghost var s := data[at..];
      SetHeader(data, at, OPCODE_GET, 4, 0, itm.datalen + 4, true);
      ghost var header := data[at..][..HEADER];
      assert data[at..] == header + s[HEADER..];
      Put(data, at, HEADER, Le32(itm.expire));
      assert data[at..] == header + Le32(itm.expire) + s[HEADER + 4..];
      Put(data, at, HEADER + 4, itm.data[..itm.datalen]);
      assert data[at..] == header + Le32(itm.expire) + itm.data[..itm.datalen] + s[HEADER + 4 + itm.datalen..];
      pkt.len := HEADER + itm.datalen + 4;
    }

    method OnRecieveGet(pkt: Packet, key: nat)
      requires pkt.payload + MESSAGE_ROOM <= pkt.data.Length && key == KeyId(pkt.data[pkt.payload..])
      requires table.Valid() && Servable(table.View()) && {pkt, pkt.data} !! table.Repr()
      modifies pkt`len, pkt.data
      ensures pkt.data[..pkt.payload] == old(pkt.data[..pkt.payload])
      ensures (pkt.data[pkt.payload..], pkt.len) == GetReply(old(pkt.data[pkt.payload..]), old(table.View()))
    {
      hide HitReply, MissReply, KeyId;
      var it := table.Find(key, false);
      if it == End {
        ReplyMiss(pkt);
        return;
      }
      var itm := table.Get(it).body;
      if itm.datalen == 0 {
        ReplyMiss(pkt);
        return;
      }
      ReplyHit(pkt, itm);
    }

    /** The database reports whether the statement succeeded. */
    method OnRecieveSet(pkt: Packet, key: nat, val: nat, vlen: int, dbOk: bool) returns (sql: string)
      requires pkt.payload + MESSAGE_ROOM <= pkt.data.Length
      requires val + (if vlen < 0 then 0 else vlen) <= pkt.data.Length
      modifies pkt`len, pkt.data
      ensures pkt.data[..pkt.payload] == old(pkt.data[..pkt.payload])
      ensures pkt.data[pkt.payload..] == SetReply(old(pkt.data[pkt.payload..]), dbOk) && pkt.len == HEADER
      ensures sql == InsertStatement(key, old(pkt.data[val..val + if vlen < 0 then 0 else vlen]))
    {
      var hexval := Bin2Hex(pkt.data, val, vlen);
      sql := "INSERT INTO kvs(`key`,`val`)VALUES(";
      sql := sql + Decimal(key);
      sql := sql + ",0x";
      sql := sql + hexval;
      sql := sql + ")ON DUPLICATE KEY UPDATE val = 0x";
      sql := sql + hexval;
      SetHeader(pkt.data, pkt.payload, OPCODE_SET, 0, if dbOk then 0 else STATUS_ERR, 0, true);
      pkt.len := HEADER;
    }

    /** Returns whether to send the packet back, and the statement sent to the database, if any. The value of an
        accepted SET must lie inside the buffer. */
    method OnRecieve(pkt: Packet, dbOk: bool) returns (needSend: bool, sql: Option<string>)
      requires pkt.payload + MESSAGE_ROOM <= pkt.data.Length && 0 <= pkt.len
      requires Accepted(pkt.data[pkt.payload..], pkt.len) ==> pkt.payload + pkt.len <= pkt.data.Length
      requires table.Valid() && Servable(table.View()) && {pkt, pkt.data} !! table.Repr()
      modifies pkt`len, pkt.data
      ensures needSend == Accepted(old(pkt.data[pkt.payload..]), old(pkt.len))
      ensures pkt.data[..pkt.payload] == old(pkt.data[..pkt.payload])
      ensures !needSend ==> unchanged(pkt) && unchanged(pkt.data) && sql == None
      ensures needSend ==> var s := old(pkt.data[pkt.payload..]);
        if DecodedHeader(s).opcode == OPCODE_GET then
          sql == None && (pkt.data[pkt.payload..], pkt.len) == GetReply(s, old(table.View()))
        else
          && (ValueLength(s) > 0 ==> ValueAt(s) + ValueLength(s) <= |s|)
          && sql == Some(InsertStatement(KeyId(s), Value(s)))
          && pkt.data[pkt.payload..] == SetReply(s, dbOk) && pkt.len == HEADER
    {
      hide DecodedHeader, KeyId, GetReply, SetReply, InsertStatement, ValueAt, ValueLength, Servable;
      var s := pkt.data[pkt.payload..];
      var h := DecodedHeader(s);
      sql := None;
      if !ValidRequest(h, pkt.len) {
        return false, None;
      }
      if h.keylen != 4 {
        return false, None;
      }
      if h.opcode == OPCODE_GET {
        OnRecieveGet(pkt, KeyId(s));
        return true, None;
      } else {
        ValueEnds(s, pkt.len);
        ghost var value := Value(s);
        var at, vlen := ValueAt(s), ValueLength(s);
        assert value == pkt.data[pkt.payload + at..pkt.payload + at + if vlen < 0 then 0 else vlen];
        var statement := OnRecieveSet(pkt, KeyId(s), pkt.payload + at, vlen, dbOk);
        return true, Some(statement);
      }
    }
  }

  /** The value of a valid request ends where the message ends. */
  lemma ValueEnds(s: Buffer, len: nat)
    requires |s| >= HEADER && ValidRequest(DecodedHeader(s), len) && len <= |s| && |s| >= MESSAGE_ROOM
    ensures ValueLength(s) > 0 ==> ValueAt(s) + ValueLength(s) == len
    ensures DecodedHeader(s).keylen == 4 ==> ValueAt(s) <= |s|
  {
  }

  /** Behind the headers of a frame, whose length counts them, too, a request is accepted only if the body it
      announces exceeds what the frame holds by the length of those headers; so no request that fills its frame
      is. */
  lemma FrameNeverAccepted(s: Buffer, payload: nat, len: nat)
    requires payload + MESSAGE_ROOM <= |s|
    ensures var bodylen := DecodedHeader(s[payload..]).bodylen;
      && (Accepted(s[payload..], len) ==> bodylen - (len - payload - HEADER) == payload)
      && (payload > 0 && len == payload + HEADER + bodylen ==> !Accepted(s[payload..], len))
  {
  }
}
