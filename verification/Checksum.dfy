/**
 The Internet checksum: the 16-bit ones' complement sum of RFC 1071, sections 1 and 2, computed with
 an unsigned 32-bit accumulator that is folded at the end.
 */
module Checksum {
  import opened Bytes

  const MOD: nat := 0xFFFF

  /** The unbounded sum of the big-endian 16-bit words of s; an odd last byte is padded with `pad`. */
  function WordSum(s: Buffer, pad: byte): nat
  {
    if |s| == 0 then 0
    else if |s| == 1 then Be16(s[0], pad)
    else Be16(s[0], s[1]) + WordSum(s[2..], pad)
  }

  /** Fold the carries back in until 16 bits are left. */
  function Fold(x: nat): (r: nat)
    ensures r < U16
  {
    if x / U16 == 0 then x else Fold(x % U16 + x / U16)
  }

  /** Folding keeps the value modulo 65535, and gives 0 only for 0: it is the residue in 1..65535. */
  lemma {:induction false} FoldIsResidue(x: nat)
    ensures Fold(x) == if x == 0 then 0 else 1 + (x - 1) % MOD
    ensures Fold(x) % MOD == x % MOD
  {
    if x / U16 != 0 {
      var y := x % U16 + x / U16;
      FoldIsResidue(y);
      assert x - 1 == (y - 1) + MOD * (x / U16);
      ModAddMultiple(y - 1, x / U16);
      ModAddMultiple(y, x / U16);
    }
  }

  lemma {:induction false} ModAddMultiple(a: nat, k: nat)
    ensures (a + MOD * k) % MOD == a % MOD
  {
    if k > 0 {
      ModAddMultiple(a, k - 1);
      assert a + MOD * k == (a + MOD * (k - 1)) + MOD;
      assert (a + MOD * (k - 1) + MOD) % MOD == (a + MOD * (k - 1)) % MOD;
    }
  }

  lemma {:induction false} WordSumBound(s: Buffer, pad: byte)
    ensures WordSum(s, pad) <= MOD * ((|s| + 1) / 2)
  {
    if |s| >= 2 {
      WordSumBound(s[2..], pad);
    }
  }

  /** The sum of a concatenation, when the first part has even length. */
  lemma {:induction false} WordSumAppend(a: Buffer, b: Buffer, pad: byte)
    requires |a| % 2 == 0
    ensures WordSum(a + b, pad) == WordSum(a, pad) + WordSum(b, pad)
  {
    if a == [] {
      assert a + b == b;
    } else {
      assert (a + b)[2..] == a[2..] + b;
      WordSumAppend(a[2..], b, pad);
    }
  }

  /** Modulo 65535 the sum of the words of a region is the number that its bytes write. */
  lemma {:induction false} WordSumIsNumber(s: Buffer)
    requires |s| % 2 == 0
    ensures (WordSum(s, 0) - BigEndian(s)) % MOD == 0 && (WordSum(s, 0) == 0 <==> BigEndian(s) == 0)
  {
    if s != [] {
      var n := |s| - 2;
      var t, w := s[..n], s[n..];
      assert s == t + w && w == [s[n], s[n + 1]];
      WordSumIsNumber(t);
      WordSumAppend(t, w, 0);
      OneWord(s[n], s[n + 1], 0);
      assert s[..n + 1][..n] == t;
      assert BigEndian(s) == BigEndian(s[..n + 1]) * 256 + s[n + 1] as nat;
      assert BigEndian(s[..n + 1]) == BigEndian(t) * 256 + s[n] as nat;
      hide WordSum, BigEndian;
      assert WordSum(s, 0) - BigEndian(s) == WordSum(t, 0) - BigEndian(t) - MOD * BigEndian(t);
      MultipleOff(WordSum(t, 0) - BigEndian(t), BigEndian(t));
    }
  }

  lemma {:induction false} MultipleOff(x: int, k: nat)
    requires x % MOD == 0
    ensures (x - MOD * k) % MOD == 0
  {
    if k > 0 {
      MultipleOff(x, k - 1);
      assert x - MOD * k == (x - MOD * (k - 1)) - MOD;
    }
  }

  /** A region of even length is valid exactly when the number its bytes write is a positive multiple of 65535. */
  lemma ValidIffMultiple(s: Buffer)
    requires |s| % 2 == 0
    ensures Valid(s) <==> BigEndian(s) > 0 && BigEndian(s) % MOD == 0
  {
    WordSumIsNumber(s);
    FoldIsResidue(WordSum(s, 0));
    hide WordSum, BigEndian, Fold;
    SameResidue(WordSum(s, 0), BigEndian(s));
    ResidueOfOneLess(WordSum(s, 0));
  }

  lemma SameResidue(a: nat, b: nat)
    requires (a - b) % MOD == 0
    ensures a % MOD == b % MOD
  {
    var q := (a - b) / MOD;
    assert a == b + MOD * q;
  }

  lemma ResidueOfOneLess(x: nat)
    ensures x > 0 ==> ((x - 1) % MOD == MOD - 1 <==> x % MOD == 0)
  {
  }

  /** The bytes that a checksum over len bytes of data reads: an odd length reads one byte more. */
  predicate Readable(data: Buffer, len: nat)
  {
    len + len % 2 <= |data| && len < U16
  }

  function Pad(data: Buffer, len: nat): byte
    requires Readable(data, len)
  {
    if len % 2 == 1 then data[len] else 0
  }

  /** Unsigned 32-bit wrap-around. */
  function Wrap(x: nat): (r: nat)
    ensures r < U32
    ensures x < U32 ==> r == x
  {
    x % U32
  }

  lemma AddWraps(x: nat, y: nat)
    ensures Wrap(Wrap(x) + y) == Wrap(x + y)
  {
    assert x + y == (x % U32 + y) + U32 * (x / U32);
  }

  /** The sum of the first n + 2 bytes of a region from that of its first n. */
  lemma NextWord(s: Buffer, n: nat, pad: byte)
    requires n % 2 == 0 && n + 2 <= |s|
    ensures WordSum(s[..n + 2], pad) == WordSum(s[..n], pad) + Be16(s[n], s[n + 1])
  {
    assert s[..n + 2] == s[..n] + [s[n], s[n + 1]];
    WordSumAppend(s[..n], [s[n], s[n + 1]], pad);
    OneWord(s[n], s[n + 1], pad);
  }

  lemma LastByte(s: Buffer, n: nat, pad: byte)
    requires n % 2 == 0 && n < |s|
    ensures WordSum(s[..n + 1], pad) == WordSum(s[..n], pad) + Be16(s[n], pad)
  {
    assert s[..n + 1] == s[..n] + [s[n]];
    WordSumAppend(s[..n], [s[n]], pad);
  }

  /** CheckSum: the complement, in 32 bits, of the folded sum. */
  method CheckSum(data: array<byte>, from: nat, len: nat, sum: nat) returns (r: nat)
    requires from <= data.Length && Readable(data[from..], len) && sum < U32
    ensures r == U32 - 1 - Fold(Wrap(sum + WordSum(data[from..][..len], Pad(data[from..], len))))
  {
    hide WordSum, Be16, Fold, Wrap;
    ghost var s, pad := data[from..], Pad(data[from..], len);
    var acc, count, addr := sum, len, from;
    EmptySum(s, pad);
    while count > 1
      invariant 0 <= count <= len && addr == from + len - count && (len - count) % 2 == 0
      invariant acc == Wrap(sum + WordSum(s[..len - count], pad))
    {
      NextWord(s, len - count, pad);
      AddWraps(sum + WordSum(s[..len - count], pad), Be16(data[addr], data[addr + 1]));
      acc := Wrap(acc + Be16(data[addr], data[addr + 1]));
      addr := addr + 2;
      count := count - 2;
    }
    if count > 0 {
      LastByte(s, len - 1, pad);
      AddWraps(sum + WordSum(s[..len - 1], pad), Be16(data[addr], data[addr + 1]));
      acc := Wrap(acc + Be16(data[addr], data[addr + 1]));
    }
    assert acc == Wrap(sum + WordSum(s[..len], pad));
    r := FoldedComplement(acc);
  }

  /** The folding loop and the final complement. */
  method FoldedComplement(sum: nat) returns (r: nat)
    requires sum < U32
    ensures r == U32 - 1 - Fold(sum)
  {
    var acc: nat := sum;
    while acc / U16 != 0
      invariant Fold(acc) == Fold(sum) && acc < U32
      decreases acc
    {
      acc := acc % U16 + acc / U16;
    }
    return U32 - 1 - acc;
  }

  lemma EmptySum(s: Buffer, pad: byte)
    ensures WordSum(s[..0], pad) == 0
  {
  }

  lemma OneWord(a: byte, b: byte, pad: byte)
    ensures WordSum([a, b], pad) == Be16(a, b)
  {
    assert [a, b][2..] == [];
  }

  /** Wrapsum: the low 16 bits, to be stored in network order. */
  function Wrapsum(sum: nat): (w: nat)
    ensures w < U16
  {
    sum % U16
  }

  /** The checksum to store for a region whose checksum field is zero. */
  function PaddedChecksum(s: Buffer, pad: byte): (w: nat)
    ensures w < U16
  {
    MOD - Fold(WordSum(s, pad))
  }

  function Checksum16(s: Buffer): (w: nat)
    ensures w < U16
  {
    PaddedChecksum(s, 0)
  }

  /** With a starting sum of 0 the 32-bit accumulator never overflows, for any length up to 2^16 - 1, and
      the stored checksum is the complement of the folded sum. */
  lemma NoOverflow(s: Buffer, pad: byte)
    requires |s| < U16
    ensures WordSum(s, pad) < U32
    ensures Wrapsum(U32 - 1 - Fold(Wrap(WordSum(s, pad)))) == PaddedChecksum(s, pad)
  {
    hide WordSum, Fold, Wrap, Wrapsum;
    WordSumBound(s, pad);
    LowHalf(Fold(WordSum(s, pad)));
  }

  lemma LowHalf(f: nat)
    requires f < U16
    ensures Wrapsum(U32 - 1 - f) == MOD - f
  {
    assert U32 - 1 - f == MOD * U16 + (MOD - f);
  }

  /** A region whose sum, checksum field included, is all ones. */
  predicate Valid(s: Buffer)
  {
    Fold(WordSum(s, 0)) == MOD
  }

  function Stored(s: Buffer, off: nat, w: nat): Buffer
    requires off + 2 <= |s| && w < U16
  {
    s[off := Hi(w)][off + 1 := Lo(w)]
  }

  function WordAt(s: Buffer, off: nat): nat
    requires off + 2 <= |s|
  {
    Be16(s[off], s[off + 1])
  }

  lemma WordSumAround(a: Buffer, x: byte, y: byte, b: Buffer)
    requires |a| % 2 == 0
    ensures WordSum(a + [x, y] + b, 0) == WordSum(a, 0) + Be16(x, y) + WordSum(b, 0)
  {
    WordSumAppend(a + [x, y], b, 0);
    WordSumAppend(a, [x, y], 0);
    OneWord(x, y, 0);
  }

  /** Replacing an aligned word changes the sum by the difference of the words. */
  lemma WordSumStored(s: Buffer, off: nat, w: nat)
    requires off % 2 == 0 && off + 2 <= |s| && w < U16
    ensures WordSum(Stored(s, off, w), 0) == WordSum(s, 0) - WordAt(s, off) + w
  {
    hide WordSum, Be16;
    var a, b := s[..off], s[off + 2..];
    assert s == a + [s[off], s[off + 1]] + b;
    assert Stored(s, off, w) == a + [Hi(w), Lo(w)] + b;
    WordSumAround(a, s[off], s[off + 1], b);
    WordSumAround(a, Hi(w), Lo(w), b);
    Be16RoundTrip(w);
  }

  /** A valid region is one over which the checksum comes out as zero. */
  lemma ValidChecksToZero(s: Buffer)
    ensures Valid(s) <==> Checksum16(s) == 0
  {
    hide Fold, WordSum;
  }

  /** Storing the checksum into an aligned, zeroed field makes the whole region valid. */
  lemma StoredChecksumIsValid(s: Buffer, off: nat)
    requires off % 2 == 0 && off + 2 <= |s| && WordAt(s, off) == 0
    ensures Valid(Stored(s, off, Checksum16(s)))
  {
    hide WordSum, Fold;
    WordSumStored(s, off, Checksum16(s));
    CompletesIff(WordSum(s, 0), Checksum16(s));
  }

  /** Which checksum field values make a region valid: exactly the stored checksum, or all ones where that
      is zero. */
  lemma ValidFieldIff(s: Buffer, off: nat, w: nat)
    requires off % 2 == 0 && off + 2 <= |s| && WordAt(s, off) == 0 && w < U16
    ensures Valid(Stored(s, off, w)) <==>
      w == Checksum16(s) || (w == MOD && Checksum16(s) == 0)
  {
    hide WordSum, Fold;
    WordSumStored(s, off, w);
    CompletesIff(WordSum(s, 0), w);
  }

  /** Adding w to x makes the folded sum all ones. */
  lemma CompletesIff(x: nat, w: nat)
    requires w < U16
    ensures Fold(x + w) == MOD <==> w == MOD - Fold(x) || (w == MOD && Fold(x) == MOD)
  {
    hide Fold;
    FoldOfSum(x, w);
    if x > 0 {
      ResidueCompletes(Fold(x) - 1, w);
    }
  }

  lemma ResidueCompletes(m: nat, w: nat)
    requires m < MOD && w < U16
    ensures (m + w) % MOD == MOD - 1 <==> w == MOD - 1 - m || (w == MOD && m == MOD - 1)
  {
  }

  lemma PadAdds(s: Buffer, next: byte)
    requires |s| % 2 == 1
    ensures WordSum(s, next) == WordSum(s, 0) + next as nat
  {
    var n := |s| - 1;
    assert s[..n + 1] == s;
    LastByte(s, n, next);
    LastByte(s, n, 0);
    PadIrrelevant(s[..n], next);
  }

  /** For an odd length the result is RFC 1071's, which pads with a zero byte, exactly when the byte after
      the region happens to be zero. */
  lemma OddLengthIff(s: Buffer, next: byte)
    requires |s| % 2 == 1
    ensures PaddedChecksum(s, next) == Checksum16(s) <==> next == 0
  {
    PadAdds(s, next);
    FoldChanges(WordSum(s, 0), next as nat);
  }

  lemma FoldChanges(x: nat, d: nat)
    requires d < MOD
    ensures Fold(x + d) == Fold(x) <==> d == 0
  {
    hide Fold;
    FoldOfSum(x, d);
    if x > 0 {
      ResidueChanges(Fold(x) - 1, d);
    }
  }

  /** Folding a sum, from the folded first summand. */
  lemma FoldOfSum(x: nat, d: nat)
    ensures x == 0 ==> Fold(x) == 0 && Fold(x + d) == if d == 0 then 0 else 1 + (d - 1) % MOD
    ensures x > 0 ==> 1 <= Fold(x) <= MOD && Fold(x + d) == 1 + (Fold(x) - 1 + d) % MOD
  {
    FoldIsResidue(x);
    FoldIsResidue(x + d);
    hide Fold;
    if x > 0 {
      ShiftedResidue(x - 1, d);
    }
  }

  lemma ShiftedResidue(x: nat, d: nat)
    ensures (x + d) % MOD == (x % MOD + d) % MOD
  {
    assert x + d == (x % MOD + d) + MOD * (x / MOD);
    ModAddMultiple(x % MOD + d, x / MOD);
  }

  lemma ResidueChanges(m: nat, d: nat)
    requires m < MOD && d < MOD
    ensures (m + d) % MOD == m <==> d == 0
  {
  }

  lemma {:induction false} PadIrrelevant(s: Buffer, pad: byte)
    requires |s| % 2 == 0
    ensures WordSum(s, pad) == WordSum(s, 0)
  {
    if s != [] {
      PadIrrelevant(s[2..], pad);
    }
  }
}
