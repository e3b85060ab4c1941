/** Bytes and the network byte order. */
module Bytes {
  const U16: nat := 0x1_0000
  const U32: nat := 0x1_0000_0000

  newtype byte = x: int | 0 <= x < 256

  type Buffer = seq<byte>

  function Be16(hi: byte, lo: byte): (w: nat)
    ensures w < U16
  {
    hi as nat * 256 + lo as nat
  }

  /** The number that bytes in network order write, most significant byte first. */
  function BigEndian(s: Buffer): nat
  {
    if s == [] then 0 else BigEndian(s[..|s| - 1]) * 256 + s[|s| - 1] as nat
  }

  lemma BigEndianTwo(s: Buffer)
    requires |s| == 2
    ensures BigEndian(s) == Be16(s[0], s[1])
  {
    assert s[..1][..0] == [] && BigEndian(s[..1][..0]) == 0;
    assert BigEndian(s[..1]) == s[0] as nat;
  }

  function Hi(w: nat): byte
    requires w < U16
  {
    (w / 256) as byte
  }

  function Lo(w: nat): byte
  {
    (w % 256) as byte
  }

  lemma Be16RoundTrip(w: nat)
    requires w < U16
    ensures Be16(Hi(w), Lo(w)) == w
  {
  }
}
