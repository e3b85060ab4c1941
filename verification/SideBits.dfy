/** The packed 64-bit words of the lookup table: bit k mod 64 of word k / 64 belongs to key k. */
module SideBits {
  const ALL_ONES: bv64 := 0xFFFF_FFFF_FFFF_FFFF

  /** The position of key k inside its word. */
  function Position(k: nat): bv6
  {
    (k - k / 64 * 64) as bv6
  }

  function MaskAt(s: bv6): bv64
  {
    1 << s
  }

  function Mask(k: nat): bv64
  {
    MaskAt(Position(k))
  }

  predicate BitAt(w: bv64, s: bv6)
  {
    w & MaskAt(s) != 0
  }

  predicate Bit(w: bv64, k: nat)
  {
    BitAt(w, Position(k))
  }

  lemma FlipAt(w: bv64, s: bv6, t: bv6)
    ensures BitAt(w ^ MaskAt(s), t) <==> (BitAt(w, t) != (s == t))
  {
  }

  lemma FlipAllAt(w: bv64, t: bv6)
    ensures BitAt(w ^ ALL_ONES, t) <==> !BitAt(w, t)
  {
  }

  lemma ClearAt(t: bv6)
    ensures !BitAt(0, t)
  {
  }

  function ToNat(s: bv6): nat
  {
    s as nat
  }

  lemma PositionRoundTrip(i: nat)
    requires i < 64
    ensures ToNat(i as bv6) == i
  {
  }

  lemma PositionsOfWord(k: nat, j: nat)
    requires k / 64 == j / 64
    ensures Position(k) == Position(j) <==> k == j
  {
    hide ToNat;
    PositionRoundTrip(k - k / 64 * 64);
    PositionRoundTrip(j - j / 64 * 64);
  }

  /** XOR-ing a word with key k's mask flips k's bit and no other key's bit of the same word. */
  lemma FlipOne(w: bv64, k: nat, j: nat)
    requires k / 64 == j / 64
    ensures Bit(w ^ Mask(k), j) <==> (Bit(w, j) != (j == k))
  {
    hide BitAt, MaskAt, Position;
    PositionsOfWord(k, j);
    FlipAt(w, Position(k), Position(j));
  }

  /** In a whole bitmap, flipping key k changes the bit of key k and of no other key. */
  lemma FlipInBitmap(bmp: seq<bv64>, k: nat, j: nat)
    requires k / 64 < |bmp| && j / 64 < |bmp|
    ensures Bit(bmp[k / 64 := bmp[k / 64] ^ Mask(k)][j / 64], j) == (Bit(bmp[j / 64], j) != (j == k))
  {
    hide Mask, Bit;
    if k / 64 == j / 64 {
      FlipOne(bmp[k / 64], k, j);
    }
  }

  /** XOR-ing a word with all ones flips every key's bit. */
  lemma FlipEvery(w: bv64, k: nat)
    ensures Bit(w ^ ALL_ONES, k) <==> !Bit(w, k)
  {
    FlipAllAt(w, Position(k));
  }

  lemma ClearedWord(k: nat)
    ensures !Bit(0, k)
  {
    ClearAt(Position(k));
  }
}
