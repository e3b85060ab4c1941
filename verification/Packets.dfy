/** Frames and datagrams: where the headers are and which handler a packet belongs to. */
module Packets {
  import opened Bytes

  const ETHERTYPE_VLAN: nat := 0x8100
  const ETHERTYPE_IP: nat := 0x0800
  const ETHERTYPE_IPV6: nat := 0x86DD
  const ETHERTYPE_ARP: nat := 0x0806
  const IPPROTO_ICMP: byte := 1
  const IPPROTO_UDP: byte := 17
  const IPPROTO_ICMPV6: byte := 58
  const ETHER_HEADER: nat := 14
  const IP6_HEADER: nat := 40
  const UDP_HEADER: nat := 8
  const BUFFER_SIZE: nat := 2048

  datatype Kind = Other | Udp | Arp | Icmp

  function EtherWord(s: Buffer, at: nat): nat
    requires at + 1 < |s|
  {
    Be16(s[at], s[at + 1])
  }

  /** LEN_VLAN: 8 for two tags, 4 for one, 0 for none. */
  function LenVlan(s: Buffer): nat
    requires |s| >= BUFFER_SIZE
  {
    if EtherWord(s, 12) == ETHERTYPE_VLAN then
      if EtherWord(s, 16) == ETHERTYPE_VLAN then 8 else 4
    else
      0
  }

  /** CHK_ETHERTYPE: the word it compares for two tags is the inner tag's control word. */
  predicate CheckEtherType(s: Buffer, t: nat)
    requires |s| >= BUFFER_SIZE
  {
    if EtherWord(s, 12) == ETHERTYPE_VLAN then
      if EtherWord(s, 16) == ETHERTYPE_VLAN then EtherWord(s, 18) == t else EtherWord(s, 16) == t
    else
      EtherWord(s, 12) == t
  }

  /** The protocol type that follows the last VLAN tag. */
  function ProtocolType(s: Buffer): nat
    requires |s| >= BUFFER_SIZE
  {
    EtherWord(s, 12 + LenVlan(s))
  }

  ghost predicate TypesCheckedRight(s: Buffer)
    requires |s| >= BUFFER_SIZE
  {
    forall t: nat :: CheckEtherType(s, t) <==> ProtocolType(s) == t
  }

  /** The type check is right for every type exactly for frames with at most one tag, or whose inner control
      word happens to be the protocol type. */
  lemma EtherTypeCheckedIff(s: Buffer)
    requires |s| >= BUFFER_SIZE
    ensures TypesCheckedRight(s) <==> LenVlan(s) <= 4 || EtherWord(s, 18) == ProtocolType(s)
  {
    hide EtherWord;
    if TypesCheckedRight(s) {
      assert CheckEtherType(s, ProtocolType(s));
    }
  }

  function LenIp(s: Buffer): nat
    requires |s| >= BUFFER_SIZE
  {
    var ip := ETHER_HEADER + LenVlan(s);
    if s[ip] / 16 == 4 then s[ip] as nat % 16 * 4 else IP6_HEADER
  }

  /** The offsets by bytes: a tag is the word 0x8100 in front of the type, at most two are looked at; an IP header
      of version 4 is as long as its low four bits say, in words of four bytes, any other 40 bytes. */
  lemma HeaderOffsets(s: Buffer)
    requires |s| >= BUFFER_SIZE
    ensures var tag: Buffer := [0x81, 0];
      LenVlan(s) == if s[12..14] != tag then 0 else if s[16..18] != tag then 4 else 8
    ensures var ip := 14 + LenVlan(s);
      && ProtocolType(s) == BigEndian(s[ip - 2..ip])
      && LenIp(s) == if 0x40 <= s[ip] < 0x50 then (s[ip] - 0x40) as nat * 4 else 40
  {
    BigEndianTwo(s[12 + LenVlan(s)..14 + LenVlan(s)]);
  }

  function KindOf(s: Buffer): Kind
    requires |s| >= BUFFER_SIZE
  {
    var ip := ETHER_HEADER + LenVlan(s);
    if CheckEtherType(s, ETHERTYPE_IP) then
      if s[ip + 9] == IPPROTO_UDP then Udp
      else if s[ip + 9] == IPPROTO_ICMP && s[ip + 8] != 0 then Icmp
      else Other
    else if CheckEtherType(s, ETHERTYPE_IPV6) then
      if s[ip + 6] == IPPROTO_ICMPV6 && s[ip + 7] != 0 then Icmp
      else if s[ip + 6] == IPPROTO_UDP then Udp
      else Other
    else if CheckEtherType(s, ETHERTYPE_ARP) then Arp
    else Other
  }

  class Packet {
    const data: array<byte>
    var len: int
    var lenVlan: nat
    var lenIp: nat
    var ip: nat
    var udp: nat
    var arp: nat
    var icmp: nat
    var payload: nat
    var kind: Kind

    /** A datagram read from a socket: every header starts at offset 0. */
    constructor FromDatagram(data: array<byte>, len: int)
      ensures this.data == data && this.len == len && kind == Udp
      ensures lenVlan == lenIp == ip == udp == arp == icmp == payload == 0
    {
      this.data, this.len := data, len;
      lenVlan, lenIp, ip, udp, arp, icmp, payload := 0, 0, 0, 0, 0, 0, 0;
      kind := Udp;
    }

    /** A whole frame. The headers follow each other without gap behind the VLAN tags. */
    constructor FromFrame(data: array<byte>, len: int)
      requires data.Length >= BUFFER_SIZE
      ensures this.data == data && this.len == len && lenVlan == LenVlan(data[..]) && lenIp == LenIp(data[..])
      ensures ip == arp == ETHER_HEADER + lenVlan && udp == icmp == ip + lenIp && payload == udp + UDP_HEADER
      ensures lenIp <= 60 && payload + 24 <= data.Length
      ensures kind == KindOf(data[..])
    {
      var s := data[..];
      this.data, this.len := data, len;
      lenVlan := LenVlan(s);
      lenIp := LenIp(s);
      ip := ETHER_HEADER + LenVlan(s);
      arp := ETHER_HEADER + LenVlan(s);
      udp := ETHER_HEADER + LenVlan(s) + LenIp(s);
      icmp := ETHER_HEADER + LenVlan(s) + LenIp(s);
      payload := ETHER_HEADER + LenVlan(s) + LenIp(s) + UDP_HEADER;
      kind := KindOf(s);
    }
  }

  /** A frame's kind is read off the type word that is compared, behind no tag, behind one tag, or right behind the
      second tag's mark, and off the IP header behind all tags: next protocol UDP, or ICMP with hops left. */
  lemma KindByProtocol(s: Buffer)
    requires |s| >= BUFFER_SIZE
    ensures var v := LenVlan(s); var ip := 14 + v;
      var t := BigEndian(if v == 0 then s[12..14] else if v == 4 then s[16..18] else s[18..20]);
      && (KindOf(s) == Arp <==> t == 0x0806)
      && (KindOf(s) == Udp <==> (t == 0x0800 && s[ip + 9] == 17) || (t == 0x86DD && s[ip + 6] == 17))
      && (KindOf(s) == Icmp <==>
            (t == 0x0800 && s[ip + 9] == 1 && s[ip + 8] != 0) || (t == 0x86DD && s[ip + 6] == 58 && s[ip + 7] != 0))
  {
    BigEndianTwo(s[12..14]);
    BigEndianTwo(s[16..18]);
    BigEndianTwo(s[18..20]);
    hide BigEndian;
  }
}
