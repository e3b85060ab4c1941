/** The key hash and the routing of external requests to the server's internal addresses by it. */
module KeyRouting {
  import opened Bytes
  import opened Packets
  import opened ProtocolHeader
  import opened IcmpReply

  const HASH_SEED: nat := 5381
  const INVERSE_OF_33: nat := 0x3E0F_83E1
  const EXTERNAL_IP_OCT3: byte := 0x10
  const INTERNAL_IP_OCT3: nat := 0x80
  const USECORE_COUNT: nat := 12

  // ---------------------------------------------------------------------------------------------
  // The hash

  /** The 32-bit word (h << 5) + h. */
  function Times33(h: nat): (r: nat)
    ensures r < U32
  {
    (h * 32 + h) % U32
  }

  function Over33(h: nat): (r: nat)
    ensures r < U32
  {
    h * INVERSE_OF_33 % U32
  }

  function Pow2(n: nat): (r: nat)
    ensures r > 0
  {
    if n == 0 then 1 else 2 * Pow2(n - 1)
  }

  /** Exclusive or of two n-bit numbers. */
  function Xor(a: nat, b: nat, n: nat): (r: nat)
    ensures r < Pow2(n)
  {
    if n == 0 then 0 else 2 * Xor(a / 2, b / 2, n - 1) + (a + b) % 2
  }

  lemma WordBits()
    ensures Pow2(32) == U32
  {
    assert Pow2(8) == 256;
    assert Pow2(16) == 0x1_0000;
    assert Pow2(24) == 0x100_0000;
  }

  lemma Halves(q: nat, r: nat)
    requires r < 2
    ensures (2 * q + r) / 2 == q && (2 * q + r) % 2 == r
  {
  }

  /** Exclusive or, bit by bit: q and p with last bits i and j. */
  lemma XorUnfold(q: nat, i: nat, p: nat, j: nat, n: nat)
    requires i < 2 && j < 2 && n > 0
    ensures Xor(2 * q + i, 2 * p + j, n) == 2 * Xor(q, p, n - 1) + if i == j then 0 else 1
  {
    Halves(q, i);
    Halves(p, j);
    Halves(q + p + (i + j) / 2, (i + j) % 2);
  }

  /** Bit i of a, counted from the lowest. */
  predicate BitOf(a: nat, i: nat)
  {
    if i == 0 then a % 2 == 1 else BitOf(a / 2, i - 1)
  }

  /** Bit by bit, the exclusive or differs exactly where its arguments do. */
  lemma {:induction false} XorBits(a: nat, b: nat, n: nat, i: nat)
    requires i < n
    ensures BitOf(Xor(a, b, n), i) <==> BitOf(a, i) != BitOf(b, i)
  {
    var x := Xor(a, b, n);
    Halves(Xor(a / 2, b / 2, n - 1), (a + b) % 2);
    assert x / 2 == Xor(a / 2, b / 2, n - 1) && x % 2 == (a + b) % 2;
    if i > 0 {
      XorBits(a / 2, b / 2, n - 1, i - 1);
    }
  }

  lemma {:induction false} XorTwice(a: nat, b: nat, n: nat)
    requires a < Pow2(n)
    ensures Xor(Xor(a, b, n), b, n) == a
  {
    if n > 0 {
      var q, i, p, j := a / 2, a % 2, b / 2, b % 2;
      XorTwice(q, p, n - 1);
      XorUnfold(q, i, p, j, n);
      XorUnfold(Xor(q, p, n - 1), if i == j then 0 else 1, p, j, n);
      hide Xor;
    }
  }

  lemma {:induction false} XorCommutes(a: nat, b: nat, n: nat)
    ensures Xor(a, b, n) == Xor(b, a, n)
  {
    if n > 0 {
      XorCommutes(a / 2, b / 2, n - 1);
    }
  }

  lemma ModMultiple(h: nat, k: int)
    requires h < U32
    ensures (h + U32 * k) % U32 == h
  {
  }

  lemma Times33Undone(h: nat)
    requires h < U32
    ensures Over33(Times33(h)) == h && Times33(Over33(h)) == h
  {
    var q, p := h * 33 / U32, h * INVERSE_OF_33 / U32;
    assert Times33(h) * INVERSE_OF_33 == h + U32 * (8 * h - q * INVERSE_OF_33);
    ModMultiple(h, 8 * h - q * INVERSE_OF_33);
    assert Over33(h) * 32 + Over33(h) == h + U32 * (8 * h - p * 33);
    ModMultiple(h, 8 * h - p * 33);
  }

  /** One step of the hash. */
  function HashStep(h: nat, b: byte): (r: nat)
    ensures r < U32
  {
    WordBits();
    Xor(Times33(h), b as nat, 32)
  }

  function UndoStep(x: nat, b: byte): (r: nat)
    ensures r < U32
  {
    Over33(Xor(x, b as nat, 32))
  }

  /** For a fixed byte, one hash step is a bijection on 32-bit words: 33 is odd. */
  lemma HashStepBijective(h: nat, b: byte)
    requires h < U32
    ensures UndoStep(HashStep(h, b), b) == h && HashStep(UndoStep(h, b), b) == h
  {
    hide Times33, Over33, Xor;
    WordBits();
    XorTwice(Times33(h), b as nat, 32);
    Times33Undone(h);
    Times33Undone(Xor(h, b as nat, 32));
    XorTwice(h, b as nat, 32);
  }

  /** From one hash value, different bytes lead to different ones. */
  lemma HashStepByByte(h: nat, a: byte, b: byte)
    requires HashStep(h, a) == HashStep(h, b)
    ensures a == b
  {
    hide Xor, Times33;
    WordBits();
    var x := Times33(h);
    XorCommutes(x, a as nat, 32);
    XorCommutes(x, b as nat, 32);
    XorTwice(a as nat, x, 32);
    XorTwice(b as nat, x, 32);
  }

  /** The hash takes a key's bytes from last to first. */
  function HashOf(key: Buffer): (h: nat)
    ensures h < U32
  {
    if key == [] then HASH_SEED else HashStep(HashOf(key[1..]), key[0])
  }

  method Hash32(data: array<byte>, key: nat, len: nat) returns (hash: nat)
    requires key + len <= data.Length
    ensures hash == HashOf(data[key..key + len])
  {
    hash := HASH_SEED;
    var rp, n := key + len, len;
    while n > 0
      invariant 0 <= n <= len && rp == key + n
      invariant hash == HashOf(data[rp..key + len])
    {
      n := n - 1;
      rp := rp - 1;
      assert data[rp..key + len][1..] == data[rp + 1..key + len];
      hash := HashStep(hash, data[rp]);
    }
  }

  function Reversed(s: Buffer): (r: Buffer)
    ensures |r| == |s|
  {
    if s == [] then [] else Reversed(s[1..]) + [s[0]]
  }

  lemma {:induction false} ReversedAt(s: Buffer, k: nat)
    requires k < |s|
    ensures Reversed(s)[k] == s[|s| - 1 - k]
  {
    if k < |s| - 1 {
      ReversedAt(s[1..], k);
    }
  }

  /** Multiply by 33 in 32 bits and exclusive-or the next byte, from a first value on, left to right. */
  function HashFold(h: nat, s: Buffer): nat
    decreases |s|
  {
    if s == [] then h else HashFold(Xor(h * 33 % 0x1_0000_0000, s[0] as nat, 32), s[1..])
  }

  lemma {:induction false} HashFoldLast(h: nat, s: Buffer, b: byte)
    ensures HashFold(h, s + [b]) == Xor(HashFold(h, s) * 33 % 0x1_0000_0000, b as nat, 32)
    decreases |s|
  {
    hide Xor;
    var t := s + [b];
    if s == [] {
      assert t[0] == b && t[1..] == [];
    } else {
      assert t[0] == s[0] && t[1..] == s[1..] + [b];
      HashFoldLast(Xor(h * 33 % 0x1_0000_0000, s[0] as nat, 32), s[1..], b);
    }
  }

  /** The hash is the fold over the key's bytes in reverse, from 5381. */
  lemma {:induction false} HashIsFold(key: Buffer)
    ensures HashOf(key) == HashFold(5381, Reversed(key))
  {
    hide Xor, HashFold;
    if key == [] {
      assert HashFold(5381, []) == 5381 by { EmptyFold(5381); }
    } else {
      HashIsFold(key[1..]);
      HashFoldLast(5381, Reversed(key[1..]), key[0]);
    }
  }

  lemma EmptyFold(h: nat)
    ensures HashFold(h, []) == h
  {
  }

  /** Two keys of equal length that differ in exactly one byte never collide. */
  lemma {:induction false} OneByteNeverCollides(a: Buffer, b: Buffer, p: nat)
    requires |a| == |b| && p < |a| && a[p] != b[p]
    requires forall i :: 0 <= i < |a| && i != p ==> a[i] == b[i]
    ensures HashOf(a) != HashOf(b)
  {
    hide HashStep, UndoStep;
    if p == 0 {
      assert a[1..] == b[1..];
      if HashOf(a) == HashOf(b) {
        HashStepByByte(HashOf(a[1..]), a[0], b[0]);
      }
    } else {
      OneByteNeverCollides(a[1..], b[1..], p - 1);
      HashStepBijective(HashOf(a[1..]), a[0]);
      HashStepBijective(HashOf(b[1..]), b[0]);
    }
  }

  // ---------------------------------------------------------------------------------------------
  // Routing

  /** The octet that routes a key to one of the server's cores. */
  function RoutedOctet(key: Buffer): (o: byte)
    ensures 0x80 <= o <= 0x8B
  {
    (INTERNAL_IP_OCT3 + HashOf(key) % USECORE_COUNT) as byte
  }

  datatype UdpVerdict = Send | Drop | ToServer

  function BodyLength(s: Buffer, h: nat): nat
    requires h + HEADER <= |s|
  {
    DecodedHeader(s[h..]).bodylen
  }

  function KeyLength(s: Buffer, h: nat): nat
    requires h + HEADER <= |s|
  {
    DecodedHeader(s[h..]).keylen
  }

  /** When OnUdp routes: an external destination, and a frame whose whole length is the length of the message
      that its payload announces. */
  predicate Routable(s: Buffer, ip: nat, payload: nat, len: int)
    requires ip + IP_HEADER <= |s| && payload + HEADER <= |s|
  {
    && s[ip + 17] == EXTERNAL_IP_OCT3 && len > HEADER
    && BodyLength(s, payload) + HEADER == len
  }

  /** The message announced at the payload fills the rest of the frame. */
  predicate WellFramed(s: Buffer, payload: nat, len: int)
    requires payload + HEADER <= |s|
  {
    len == payload + HEADER + BodyLength(s, payload)
  }

  predicate KeyInside(s: Buffer, h: nat)
    requires h + HEADER <= |s|
  {
    h + HEADER + KeyLength(s, h) <= |s|
  }

  function KeyBytes(s: Buffer, h: nat): Buffer
    requires h + HEADER <= |s| && KeyInside(s, h)
  {
    s[h + HEADER..h + HEADER + KeyLength(s, h)]
  }

  predicate UdpLayout(s: Buffer, ip: nat, payload: nat, len: int)
  {
    && 2 * ETHER_ADDR_LEN <= ip && 2 * ETHER_ADDR_LEN <= payload
    && ip + IP_HEADER <= |s| && payload + HEADER <= |s|
    && (Routable(s, ip, payload, len) ==> KeyInside(s, payload))
  }

  /** What OnUdp decides and leaves in the frame. */
  function UdpHandled(s: Buffer, ip: nat, payload: nat, len: int): (UdpVerdict, Buffer)
    requires UdpLayout(s, ip, payload, len)
  {
    if Routable(s, ip, payload, len) then
      (Send, SwappedMac(s)[ip + 17 := RoutedOctet(KeyBytes(s, payload))])
    else
      (if s[ip + 17] as nat == INTERNAL_IP_OCT3 then ToServer else Drop, SwappedMac(s))
  }

  /** OnUdp. Bits 8 to 15 of the destination address word, held in network order on a little-endian
      host, are its second octet. */
  method OnUdp(pkt: Packet) returns (v: UdpVerdict)
    requires UdpLayout(pkt.data[..], pkt.ip, pkt.payload, pkt.len)
    modifies pkt.data
    ensures (v, pkt.data[..]) == UdpHandled(old(pkt.data[..]), pkt.ip, pkt.payload, pkt.len)
  {
    hide HashOf, Be16;
    var data, ip, h := pkt.data, pkt.ip, pkt.payload;
    ghost var s := data[..];
    SwapMac(data);
    assert data[..] == SwappedMac(s);
    assert forall i :: 12 <= i < data.Length ==> data[i] == s[i];
    var oct3 := data[ip + 17];
    if EXTERNAL_IP_OCT3 == oct3 {
      if pkt.len > HEADER {
        var bodylen := Be16(data[h + 8], data[h + 9]) * U16 + Be16(data[h + 10], data[h + 11]);
        if bodylen + HEADER == pkt.len {
          assert Routable(s, ip, h, pkt.len);
          var keylen := Be16(data[h + 2], data[h + 3]);
          var hash := Hash32(data, h + HEADER, keylen);
          assert data[h + HEADER..h + HEADER + keylen] == KeyBytes(s, h);
          data[ip + 17] := (INTERNAL_IP_OCT3 + hash % USECORE_COUNT) as byte;
          return Send;
        }
      }
    } else if oct3 as nat == INTERNAL_IP_OCT3 {
      return ToServer;
    }
    return Drop;
  }

  /** Of any two requests that are routed, the same key goes to the same core, whatever else the frames hold:
      the octet is 0x80 to 0x8B by the key's hash. Routing changes that octet and the MAC addresses only. */
  lemma RoutedByKeyAlone(s: Buffer, ip: nat, h: nat, len: int, s': Buffer, ip': nat, h': nat, len': int)
    requires UdpLayout(s, ip, h, len) && UdpLayout(s', ip', h', len')
    requires Routable(s, ip, h, len) && Routable(s', ip', h', len')
    ensures var (v, r), (v', r') := UdpHandled(s, ip, h, len), UdpHandled(s', ip', h', len');
      && v == v' == Send && |r| == |s| && |r'| == |s'|
      && r[ip + 17] as nat == 0x80 + HashOf(KeyBytes(s, h)) % 12 && 0x80 <= r[ip + 17] <= 0x8B
      && (r[ip + 17] == r'[ip' + 17] <==>
            HashOf(KeyBytes(s, h)) % 12 == HashOf(KeyBytes(s', h')) % 12)
      && (KeyBytes(s, h) == KeyBytes(s', h') ==> r[ip + 17] == r'[ip' + 17])
      && (forall i :: 12 <= i < |s| && i != ip + 17 ==> r[i] == s[i])
  {
    hide HashOf;
  }

  /** A frame is routed exactly when the body its message announces exceeds the bytes that follow the message
      header in the frame by the length of the headers in front of the message. So no frame that its message
      fills is ever routed: it is handed to the server or dropped. */
  lemma RoutedIff(s: Buffer, len: int)
    requires |s| >= BUFFER_SIZE
    ensures var ip := ETHER_HEADER + LenVlan(s); var payload := ip + LenIp(s) + UDP_HEADER;
      && ip + IP_HEADER <= |s| && payload + HEADER <= |s| && payload > 0
      && (Routable(s, ip, payload, len) <==>
            && s[ip + 17] == EXTERNAL_IP_OCT3 && len > HEADER
            && BodyLength(s, payload) - (len - payload - HEADER) == payload)
      && (WellFramed(s, payload, len) ==>
            && UdpLayout(s, ip, payload, len)
            && UdpHandled(s, ip, payload, len) ==
                 (if s[ip + 17] as nat == INTERNAL_IP_OCT3 then ToServer else Drop, SwappedMac(s)))
  {
    hide Be16, SwappedMac;
  }
}
