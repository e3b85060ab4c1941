/** The echo reply built in place from an ICMP request over IPv4. */
module IcmpReply {
  import opened Bytes
  import opened Checksum
  import opened Packets

  const ETHER_ADDR_LEN: nat := 6
  const IP_HEADER: nat := 20
  const ICMP_ECHOREPLY: byte := 0

  /** A 20-byte IPv4 header with source and destination exchanged. */
  function SwappedAddresses(h: Buffer): (r: Buffer)
    requires |h| == IP_HEADER
    ensures |r| == IP_HEADER
  {
    h[..12] + h[16..] + h[12..16]
  }

  function Cleared(s: Buffer, off: nat): Buffer
    requires off + 2 <= |s|
  {
    s[off := 0][off + 1 := 0]
  }

  /** Exchanging the addresses permutes the summed words. */
  lemma SwapKeepsSum(h: Buffer)
    requires |h| == IP_HEADER
    ensures WordSum(SwappedAddresses(h), 0) == WordSum(h, 0)
  {
    hide WordSum;
    var a, b, c := h[..12], h[12..16], h[16..];
    assert h == a + b + c && SwappedAddresses(h) == a + c + b;
    WordSumAppend(a + b, c, 0);
    WordSumAppend(a, b, 0);
    WordSumAppend(a + c, b, 0);
    WordSumAppend(a, c, 0);
  }

  lemma ClearedIsStored(s: Buffer, off: nat)
    requires off + 2 <= |s|
    ensures Cleared(s, off) == Stored(s, off, 0) && WordAt(Cleared(s, off), off) == 0
  {
  }

  /** The header checksum of a reply: recomputed over the swapped, otherwise unchanged header, it equals a
      valid old one modulo 65535, and is the very same word unless that was all ones. */
  lemma ReplyHeaderChecksum(h: Buffer, off: nat)
    requires |h| == IP_HEADER && off == 10
    ensures var z := Cleared(SwappedAddresses(h), off); var c := Checksum16(z);
      && Valid(Stored(z, off, c))
      && (Valid(h) ==> c % MOD == WordAt(h, off) % MOD && (WordAt(h, off) != MOD ==> c == WordAt(h, off)))
  {
    hide WordSum, Fold;
    var g := SwappedAddresses(h);
    var z := Cleared(g, off);
    ClearedIsStored(g, off);
    StoredChecksumIsValid(z, off);
    SwapKeepsSum(h);
    assert WordAt(g, off) == WordAt(h, off);
    if Valid(h) {
      assert Stored(z, off, WordAt(h, off)) == g by { StoreBack(g, off); }
      ValidFieldIff(z, off, WordAt(h, off));
    }
  }

  lemma StoreBack(g: Buffer, off: nat)
    requires off + 2 <= |g|
    ensures Stored(Cleared(g, off), off, WordAt(g, off)) == g
  {
  }

  method Store16(data: array<byte>, off: nat, w: nat)
    requires off + 2 <= data.Length && w < U16
    modifies data
    ensures data[..] == Stored(old(data[..]), off, w)
  {
    data[off] := Hi(w);
    data[off + 1] := Lo(w);
  }

  /** CheckSum followed by Wrapsum over a region, stored at a field. */
  method StoreChecksum(data: array<byte>, from: nat, len: nat, off: nat)
    requires from + off + 2 <= data.Length && Readable(data[from..], len)
    modifies data
    ensures data[..] == Stored(old(data[..]), from + off,
                               PaddedChecksum(old(data[from..][..len]), Pad(old(data[from..]), len)))
  {
    hide Fold, WordSum, Be16;
    ghost var s := data[from..][..len];
    var sum := CheckSum(data, from, len, 0);
    NoOverflow(s, Pad(data[from..], len));
    Store16(data, from + off, Wrapsum(sum));
  }

  /** A frame with its MAC addresses exchanged. */
  function SwappedMac(s: Buffer): Buffer
    requires |s| >= 2 * ETHER_ADDR_LEN
  {
    s[6..12] + s[..6] + s[12..]
  }

  lemma SwappedMacTail(s: Buffer, from: nat)
    requires 2 * ETHER_ADDR_LEN <= from <= |s|
    ensures SwappedMac(s)[from..] == s[from..]
  {
  }

  method SwapMac(data: array<byte>)
    requires data.Length >= 2 * ETHER_ADDR_LEN
    modifies data
    ensures data[..] == SwappedMac(old(data[..]))
  {
    forall i | 0 <= i < 2 * ETHER_ADDR_LEN {
      data[i] := data[if i < ETHER_ADDR_LEN then i + ETHER_ADDR_LEN else i - ETHER_ADDR_LEN];
    }
  }

  method SwapAddresses(data: array<byte>, ip: nat)
    requires ip + IP_HEADER <= data.Length
    modifies data
    ensures data[ip..ip + IP_HEADER] == SwappedAddresses(old(data[ip..ip + IP_HEADER]))
    ensures data[..ip] == old(data[..ip]) && data[ip + IP_HEADER..] == old(data[ip + IP_HEADER..])
  {
    ghost var h := data[ip..ip + IP_HEADER];
    forall i | 0 <= i < 8 {
      data[ip + 12 + i] := data[ip + 12 + if i < 4 then i + 4 else i - 4];
    }
    forall i | 0 <= i < IP_HEADER ensures data[ip..ip + IP_HEADER][i] == SwappedAddresses(h)[i] {
      assert data[ip..ip + IP_HEADER][i] == data[ip + i];
    }
  }

  // ---------------------------------------------------------------------------------------------
  // The whole reply

  /** s with the checksum of its first len bytes stored at off, in place of what was there. */
  function WithChecksum(s: Buffer, off: nat, len: nat): (r: Buffer)
    requires off + 2 <= |s| && Readable(s, len)
    ensures |r| == |s|
  {
    var z := Cleared(s, off);
    Stored(z, off, PaddedChecksum(z[..len], Pad(z, len)))
  }

  /** Where the parts of a request are: IP header at ip, ICMP message from icmp up to len. */
  predicate Layout(s: Buffer, ip: nat, icmp: nat, len: nat)
  {
    && 2 * ETHER_ADDR_LEN <= ip && ip + IP_HEADER <= icmp <= len < U16 && icmp + 4 <= |s|
    && Readable(s[icmp..], len - icmp)
  }

  /** The reply: MAC and IP addresses exchanged, ICMP type 0, both checksums recomputed, nothing else
      changed. */
  function EchoReply(s: Buffer, ip: nat, icmp: nat, len: nat): Buffer
    requires Layout(s, ip, icmp, len)
  {
    SwappedMac(s)[..ip]
    + WithChecksum(SwappedAddresses(s[ip..ip + IP_HEADER]), 10, IP_HEADER)
    + s[ip + IP_HEADER..icmp]
    + WithChecksum(s[icmp..][0 := ICMP_ECHOREPLY], 2, len - icmp)
  }

  lemma EchoReplyParts(s: Buffer, ip: nat, icmp: nat, len: nat)
    requires Layout(s, ip, icmp, len)
    ensures var r := EchoReply(s, ip, icmp, len);
      && |r| == |s| && r[..ip] == SwappedMac(s)[..ip]
      && r[ip..ip + 20] == WithChecksum(SwappedAddresses(s[ip..ip + 20]), 10, 20)
      && r[ip + 20..icmp] == s[ip + 20..icmp]
      && r[icmp..] == WithChecksum(s[icmp..][0 := ICMP_ECHOREPLY], 2, len - icmp)
  {
    hide WithChecksum, SwappedAddresses;
    var a, b := SwappedMac(s)[..ip], WithChecksum(SwappedAddresses(s[ip..ip + 20]), 10, 20);
    var c, d := s[ip + 20..icmp], WithChecksum(s[icmp..][0 := ICMP_ECHOREPLY], 2, len - icmp);
    var r := EchoReply(s, ip, icmp, len);
    assert |a| == ip && |b| == 20;
    assert r == a + b + c + d;
    assert r[..ip] == a;
    assert r[icmp..] == d;
  }

  lemma SubSlice(s: Buffer, from: nat, to: nat, i: nat, j: nat)
    requires from <= to <= |s| && i <= j <= to - from
    ensures s[from..to][i..j] == s[from + i..from + j]
  {
    forall k | 0 <= k < j - i ensures s[from..to][i..j][k] == s[from + i..from + j][k] {
      assert s[from..to][i + k] == s[from + i + k];
    }
  }

  lemma SwappedMacBytes(s: Buffer, r: Buffer, ip: nat)
    requires 12 <= ip <= |s| == |r| && r[..ip] == SwappedMac(s)[..ip]
    ensures r[..6] == s[6..12] && r[6..12] == s[..6] && r[12..ip] == s[12..ip]
  {
    SubSlice(r, 0, ip, 0, 6);
    SubSlice(r, 0, ip, 6, 12);
    SubSlice(r, 0, ip, 12, ip);
    var m := SwappedMac(s);
    assert r[0..ip] == m[0..ip];
    SubSlice(m, 0, ip, 0, 6);
    SubSlice(m, 0, ip, 6, 12);
    SubSlice(m, 0, ip, 12, ip);
    assert m[0..6] == s[6..12] && m[6..12] == s[0..6] && m[12..ip] == s[12..ip];
  }

  lemma SwappedAddressBytes(s: Buffer, r: Buffer, ip: nat)
    requires ip + 20 <= |s| == |r|
    requires r[ip..ip + 20] == WithChecksum(SwappedAddresses(s[ip..ip + 20]), 10, 20)
    ensures r[ip + 12..ip + 16] == s[ip + 16..ip + 20] && r[ip + 16..ip + 20] == s[ip + 12..ip + 16]
    ensures r[ip..ip + 10] == s[ip..ip + 10]
  {
    var h, g := s[ip..ip + 20], SwappedAddresses(s[ip..ip + 20]);
    StoredOnly(g, 10, 20);
    hide WithChecksum;
    var t := r[ip..ip + 20];
    assert t[12..16] == g[12..16] == h[16..20] && t[16..20] == g[16..20] == h[12..16];
    assert t[0..10] == g[0..10] == h[0..10];
    SubSlice(r, ip, ip + 20, 12, 16);
    SubSlice(r, ip, ip + 20, 16, 20);
    SubSlice(r, ip, ip + 20, 0, 10);
    SubSlice(s, ip, ip + 20, 12, 16);
    SubSlice(s, ip, ip + 20, 16, 20);
    SubSlice(s, ip, ip + 20, 0, 10);
  }

  lemma MessageBytes(s: Buffer, r: Buffer, icmp: nat, n: nat)
    requires icmp + 4 <= |s| == |r| && Readable(s[icmp..], n)
    requires r[icmp..] == WithChecksum(s[icmp..][0 := ICMP_ECHOREPLY], 2, n)
    ensures r[icmp] == 0 && r[icmp + 1] == s[icmp + 1] && r[icmp + 4..] == s[icmp + 4..]
  {
    var m := s[icmp..][0 := ICMP_ECHOREPLY];
    StoredOnly(m, 2, n);
    hide WithChecksum;
    var t := r[icmp..];
    assert t[0] == m[0] && t[1] == m[1] && t[4..] == m[4..];
    assert t[4..] == r[icmp + 4..] && m[4..] == s[icmp + 4..];
  }

  /** The reply byte by byte: MAC and IP addresses are exchanged, the ICMP type is 0, and outside the two checksum
      fields every other byte is the request's. */
  lemma EchoReplyBytes(s: Buffer, ip: nat, icmp: nat, len: nat)
    requires Layout(s, ip, icmp, len)
    ensures var r := EchoReply(s, ip, icmp, len);
      && |r| == |s| && r[..6] == s[6..12] && r[6..12] == s[..6] && r[12..ip + 10] == s[12..ip + 10]
      && r[ip + 12..ip + 16] == s[ip + 16..ip + 20] && r[ip + 16..ip + 20] == s[ip + 12..ip + 16]
      && r[ip + 20..icmp] == s[ip + 20..icmp]
      && r[icmp] == 0 && r[icmp + 1] == s[icmp + 1] && r[icmp + 4..] == s[icmp + 4..]
  {
    EchoReplyParts(s, ip, icmp, len);
    hide EchoReply, WithChecksum, SwappedAddresses, SwappedMac;
    var r := EchoReply(s, ip, icmp, len);
    SwappedMacBytes(s, r, ip);
    SwappedAddressBytes(s, r, ip);
    MessageBytes(s, r, icmp, len - icmp);
    assert r[12..ip + 10] == r[12..ip] + r[ip..ip + 10] && s[12..ip + 10] == s[12..ip] + s[ip..ip + 10];
  }

  /** Recomputing a checksum writes its two bytes only. */
  lemma StoredOnly(s: Buffer, off: nat, len: nat)
    requires off + 2 <= |s| && Readable(s, len)
    ensures var r := WithChecksum(s, off, len);
      forall i :: 0 <= i < |s| && i != off && i != off + 1 ==> r[i] == s[i]
  {
    hide PaddedChecksum, Hi, Lo, Pad;
  }

  lemma WithChecksumWhole(s: Buffer, off: nat)
    requires off + 2 <= |s| && Readable(s, |s|) && |s| % 2 == 0
    ensures WithChecksum(s, off, |s|) == Stored(Cleared(s, off), off, Checksum16(Cleared(s, off)))
  {
    var z := Cleared(s, off);
    assert z[..|s|] == z;
  }

  lemma WithChecksumPart(s: Buffer, off: nat, len: nat)
    requires off + 2 <= len && Readable(s, len)
    ensures WithChecksum(s, off, len)[..len] ==
      Stored(Cleared(s[..len], off), off, PaddedChecksum(Cleared(s[..len], off), Pad(s, len)))
    ensures WithChecksum(s, off, len)[len..] == s[len..]
  {
    hide PaddedChecksum, Hi, Lo;
    assert Cleared(s, off)[..len] == Cleared(s[..len], off);
  }

  /** The reply's IP header checksum is valid and, if the request's was, the same modulo 65535; its ICMP
      checksum is valid for every even ICMP length, and for an odd one exactly when the byte after the
      message, which is summed too, is zero. */
  lemma ReplyIsValid(s: Buffer, ip: nat, icmp: nat, len: nat)
    requires Layout(s, ip, icmp, len)
    ensures var r := EchoReply(s, ip, icmp, len);
      && |r| == |s| && Valid(r[ip..ip + IP_HEADER])
      && (Valid(s[ip..ip + IP_HEADER]) ==> WordAt(r, ip + 10) % MOD == WordAt(s, ip + 10) % MOD)
      && (icmp + 4 <= len ==>
            && ((len - icmp) % 2 == 0 ==> Valid(r[icmp..len]))
            && ((len - icmp) % 2 == 1 ==> (Valid(r[icmp..len]) <==> s[len] == 0)))
  {
    HeaderIsValid(s, ip, icmp, len);
    if icmp + 4 <= len {
      MessageIsValid(s, ip, icmp, len);
    }
  }

  lemma HeaderIsValid(s: Buffer, ip: nat, icmp: nat, len: nat)
    requires Layout(s, ip, icmp, len)
    ensures var r := EchoReply(s, ip, icmp, len);
      && |r| == |s| && Valid(r[ip..ip + IP_HEADER])
      && (Valid(s[ip..ip + IP_HEADER]) ==> WordAt(r, ip + 10) % MOD == WordAt(s, ip + 10) % MOD)
  {
    EchoReplyParts(s, ip, icmp, len);
    hide EchoReply, WithChecksum, Valid, Be16, Checksum16, PaddedChecksum, SwappedAddresses, SwappedMac;
    var r, h := EchoReply(s, ip, icmp, len), s[ip..ip + IP_HEADER];
    var g := SwappedAddresses(h);
    WithChecksumWhole(g, 10);
    ReplyHeaderChecksum(h, 10);
    assert WordAt(r, ip + 10) == WordAt(r[ip..ip + IP_HEADER], 10);
    assert WordAt(s, ip + 10) == WordAt(h, 10);
    WordAtStored(Cleared(g, 10), 10, Checksum16(Cleared(g, 10)));
  }

  lemma MessageIsValid(s: Buffer, ip: nat, icmp: nat, len: nat)
    requires Layout(s, ip, icmp, len) && icmp + 4 <= len
    ensures var r := EchoReply(s, ip, icmp, len);
      && |r| == |s|
      && ((len - icmp) % 2 == 0 ==> Valid(r[icmp..len]))
      && ((len - icmp) % 2 == 1 ==> (Valid(r[icmp..len]) <==> s[len] == 0))
  {
    EchoReplyParts(s, ip, icmp, len);
    hide EchoReply, WithChecksum, Valid, SwappedAddresses, SwappedMac;
    var r, m, n := EchoReply(s, ip, icmp, len), s[icmp..][0 := ICMP_ECHOREPLY], len - icmp;
    SubSlice(r, icmp, |r|, 0, n);
    assert r[icmp..] == r[icmp..|r|] && r[icmp..][0..n] == WithChecksum(m, 2, n)[..n];
    PartIsValid(m, 2, n);
    if n % 2 == 1 {
      assert m[n] == s[icmp + n];
    }
  }

  lemma PartIsValid(m: Buffer, off: nat, n: nat)
    requires off == 2 && 4 <= n && Readable(m, n)
    ensures n % 2 == 0 ==> Valid(WithChecksum(m, off, n)[..n])
    ensures n % 2 == 1 ==> (Valid(WithChecksum(m, off, n)[..n]) <==> m[n] == 0)
  {
    hide Valid, PaddedChecksum, Stored, WithChecksum;
    var z := Cleared(m[..n], off);
    WithChecksumPart(m, off, n);
    ClearedIsStored(m[..n], off);
    hide Cleared;
    if n % 2 == 0 {
      StoredChecksumIsValid(z, off);
    } else {
      OddChecksumIff(z, m[n]);
    }
  }

  lemma WordAtStored(s: Buffer, off: nat, w: nat)
    requires off + 2 <= |s| && w < U16
    ensures WordAt(Stored(s, off, w), off) == w
  {
    Be16RoundTrip(w);
  }

  lemma OddChecksumIff(z: Buffer, next: byte)
    requires |z| % 2 == 1 && |z| >= 4 && WordAt(z, 2) == 0
    ensures Valid(Stored(z, 2, PaddedChecksum(z, next))) <==> next == 0
  {
    hide WordSum;
    OddLengthIff(z, next);
    PadAdds(z, next);
    ValidFieldIff(z, 2, PaddedChecksum(z, next));
    FoldIsResidue(WordSum(z, next));
    hide Fold;
  }

  /** The IP half: exchange the addresses, recompute the header checksum. */
  method ReplyHeader(data: array<byte>, ip: nat)
    requires ip + IP_HEADER <= data.Length
    modifies data
    ensures data[ip..ip + IP_HEADER] ==
      WithChecksum(SwappedAddresses(old(data[ip..ip + IP_HEADER])), 10, IP_HEADER)
    ensures data[..ip] == old(data[..ip]) && data[ip + IP_HEADER..] == old(data[ip + IP_HEADER..])
  {
    hide PaddedChecksum;
    SwapAddresses(data, ip);
    ghost var h := data[ip..ip + IP_HEADER];
    Store16(data, ip + 10, 0);
    assert data[ip..][..IP_HEADER] == Cleared(h, 10)[..IP_HEADER];
    StoreChecksum(data, ip, IP_HEADER, 10);
  }

  /** The ICMP half: turn the request into a reply, recompute the message checksum. */
  method ReplyMessage(data: array<byte>, icmp: nat, len: nat)
    requires icmp <= len < U16 && icmp + 4 <= data.Length && Readable(data[icmp..], len - icmp)
    modifies data
    ensures data[icmp..] == WithChecksum(old(data[icmp..])[0 := ICMP_ECHOREPLY], 2, len - icmp)
    ensures data[..icmp] == old(data[..icmp])
  {
    hide PaddedChecksum;
    data[icmp] := ICMP_ECHOREPLY;
    ghost var m := data[icmp..];
    Store16(data, icmp + 2, 0);
    assert data[icmp..] == Cleared(m, 2);
    StoreChecksum(data, icmp, len - icmp, 2);
  }

  lemma SameTail(a: Buffer, b: Buffer, from: nat, i: nat)
    requires |a| == |b| && from <= i <= |a| && a[from..] == b[from..]
    ensures a[from..i] == b[from..i] && a[i..] == b[i..]
  {
    assert a[from..i] == a[from..][..i - from] && a[i..] == a[from..][i - from..];
    assert b[from..i] == b[from..][..i - from] && b[i..] == b[from..][i - from..];
  }

  /** The three rewrites, one after the other, make up the reply. */
  lemma ReplyAssembled(s: Buffer, t: Buffer, u: Buffer, r: Buffer, ip: nat, icmp: nat, len: nat)
    requires Layout(s, ip, icmp, len) && |s| == |t| == |u| == |r|
    requires t == SwappedMac(s)
    requires u[..ip] == t[..ip] && u[ip + IP_HEADER..] == t[ip + IP_HEADER..]
    requires u[ip..ip + IP_HEADER] == WithChecksum(SwappedAddresses(t[ip..ip + IP_HEADER]), 10, IP_HEADER)
    requires Readable(u[icmp..], len - icmp)
    requires r[..icmp] == u[..icmp]
    requires r[icmp..] == WithChecksum(u[icmp..][0 := ICMP_ECHOREPLY], 2, len - icmp)
    ensures r == EchoReply(s, ip, icmp, len)
  {
    var h := ip + IP_HEADER;
    hide WithChecksum, SwappedAddresses, Readable;
    SwappedMacTail(s, ip);
    hide SwappedMac;
    SameTail(t, s, ip, h);
    SameTail(u, s, h, icmp);
    assert u[..icmp] == u[..ip] + u[ip..h] + u[h..icmp];
    assert r == r[..icmp] + r[icmp..];
  }

  /** The IPv4 half of OnIcmp. */
  method OnIcmp(pkt: Packet)
    requires 0 <= pkt.len && Layout(pkt.data[..], pkt.ip, pkt.icmp, pkt.len)
    modifies pkt.data
    ensures pkt.data[..] == EchoReply(old(pkt.data[..]), pkt.ip, pkt.icmp, pkt.len)
  {
    hide WithChecksum, SwappedAddresses;
    var data, ip, icmp, len := pkt.data, pkt.ip, pkt.icmp, pkt.len;
    ghost var s := data[..];
    SwapMac(data);
    ghost var t := data[..];
    ReplyHeader(data, ip);
    ghost var u := data[..];
    assert u[ip + IP_HEADER..] == t[ip + IP_HEADER..];
    assert u[icmp..] == u[ip + IP_HEADER..][icmp - ip - IP_HEADER..] == s[icmp..];
    ReplyMessage(data, icmp, len);
    ReplyAssembled(s, t, u, data[..], ip, icmp, len);
  }
}
