/** The hexadecimal text of a value and its reading as a hex literal of the database. */
module HexText {
  import opened Bytes

  const DIGITS: string := "0123456789abcdef"

  function HexDigit(n: nat): (c: char)
    requires n < 16
  {
    DIGITS[n]
  }

  function DigitValue(c: char): (n: nat)
    ensures n < 16
  {
    if '0' <= c <= '9' then c as nat - '0' as nat
    else if 'a' <= c <= 'f' then c as nat - 'a' as nat + 10
    else 0
  }

  lemma DigitRoundTrip(n: nat)
    requires n < 16
    ensures DigitValue(HexDigit(n)) == n
  {
  }

  /** A byte printed in hex without a leading zero. */
  function ByteHex(b: byte): (t: string)
    ensures |t| == if b < 16 then 1 else 2
  {
    if b < 16 then [HexDigit(b as nat)] else [HexDigit(b as nat / 16), HexDigit(b as nat % 16)]
  }

  function HexOf(v: Buffer): string
  {
    if v == [] then "" else HexOf(v[..|v| - 1]) + ByteHex(v[|v| - 1])
  }

  method Bin2Hex(v: array<byte>, from: nat, l: int) returns (ret: string)
    requires from + (if l < 0 then 0 else l) <= v.Length
    ensures ret == HexOf(v[from..from + if l < 0 then 0 else l])
  {
    ret := "";
    var n := 0;
    while n < l
      invariant 0 <= n && (n <= l || (n == 0 && l < 0))
      invariant ret == HexOf(v[from..from + n])
    {
      assert v[from..from + n + 1][..n] == v[from..from + n];
      ret := ret + ByteHex(v[from + n]);
      n := n + 1;
    }
  }

  /** Digit pairs as bytes. */
  function Unhex(d: string): (v: Buffer)
    requires |d| % 2 == 0
    ensures |v| == |d| / 2
  {
    if d == "" then []
    else Unhex(d[..|d| - 2]) + [(DigitValue(d[|d| - 2]) * 16 + DigitValue(d[|d| - 1])) as byte]
  }

  /** A hex literal: an odd number of digits is padded on the left with a zero (section 9.1.4 of the MySQL
      5.7 Reference Manual). */
  function HexLiteral(d: string): (v: Buffer)
    ensures |v| == (|d| + 1) / 2
  {
    if |d| % 2 == 0 then Unhex(d) else Unhex("0" + d)
  }

  function LowBytes(v: Buffer): nat
  {
    if v == [] then 0 else LowBytes(v[..|v| - 1]) + if v[|v| - 1] < 16 then 1 else 0
  }

  /** The text has two digits per byte, less one for each byte below 0x10. */
  lemma {:induction false} HexLength(v: Buffer)
    ensures |HexOf(v)| == 2 * |v| - LowBytes(v) && LowBytes(v) <= |v|
  {
    if v != [] {
      HexLength(v[..|v| - 1]);
    }
  }

  lemma {:induction false} UnhexAppend(d: string, hi: char, lo: char)
    ensures HexLiteral(d + [hi, lo]) == HexLiteral(d) + [(DigitValue(hi) * 16 + DigitValue(lo)) as byte]
  {
    var e := d + [hi, lo];
    if |d| % 2 == 0 {
      assert e[..|e| - 2] == d;
    } else {
      assert ("0" + e)[..|e| - 1] == "0" + d;
    }
  }

  predicate HighAfterFirst(v: Buffer)
  {
    forall i :: 1 <= i < |v| ==> v[i] >= 16
  }

  lemma PairOfByte(b: byte)
    ensures (DigitValue(HexDigit(b as nat / 16)) * 16 + DigitValue(HexDigit(b as nat % 16))) as byte == b
  {
    DigitRoundTrip(b as nat / 16);
    DigitRoundTrip(b as nat % 16);
  }

  lemma {:induction false} HighReadsBack(v: Buffer)
    requires HighAfterFirst(v)
    ensures HexLiteral(HexOf(v)) == v
  {
    hide DigitValue, HexDigit, HexLiteral;
    if |v| == 0 {
      assert HexLiteral("") == [];
    } else if |v| == 1 {
      assert v == [v[0]];
      OneByte(v[0]);
    } else {
      var m := |v| - 1;
      assert v == v[..m] + [v[m]];
      HighReadsBack(v[..m]);
      UnhexAppend(HexOf(v[..m]), HexDigit(v[m] as nat / 16), HexDigit(v[m] as nat % 16));
      PairOfByte(v[m]);
    }
  }

  lemma OneByte(b: byte)
    ensures HexOf([b]) == ByteHex(b) && HexLiteral(ByteHex(b)) == [b]
  {
    assert [b][..0] == [] && HexOf([b][..0]) == "";
    var hi, lo := HexDigit(b as nat / 16), HexDigit(b as nat % 16);
    PairOfByte(b);
    UnhexAppend("", hi, lo);
    assert "" + [hi, lo] == [hi, lo];
    if b < 16 {
      assert hi == '0' && "0" + [lo] == [hi, lo];
    }
  }

  lemma {:induction false} FirstDigit(v: Buffer)
    requires v != [] && v[0] >= 16
    ensures |HexOf(v)| > 0 && HexOf(v)[0] == HexDigit(v[0] as nat / 16)
  {
    if |v| > 1 {
      FirstDigit(v[..|v| - 1]);
    }
  }

  lemma {:induction false} FirstByte(d: string)
    requires |d| % 2 == 0 && d != ""
    ensures Unhex(d)[0] as nat == DigitValue(d[0]) * 16 + DigitValue(d[1])
  {
    if |d| > 2 {
      FirstByte(d[..|d| - 2]);
    }
  }

  lemma {:induction false} LowCount(v: Buffer, i: nat)
    requires i < |v| && v[i] < 16
    ensures LowBytes(v) >= 1
    ensures i > 0 && v[0] < 16 ==> LowBytes(v) >= 2
  {
    if i < |v| - 1 {
      LowCount(v[..|v| - 1], i);
    } else if i > 0 && v[0] < 16 {
      LowCount(v[..|v| - 1], 0);
    }
  }

  /** The first byte read from an odd number of digits is the first digit alone. */
  lemma OddFirstByte(d: string)
    requires |d| % 2 == 1
    ensures HexLiteral(d)[0] as nat == DigitValue(d[0])
  {
    FirstByte("0" + d);
  }

  lemma LowLosesBytes(v: Buffer, i: nat)
    requires 1 <= i < |v| && v[i] < 16
    ensures HexLiteral(HexOf(v)) != v
  {
    hide HexOf, HexLiteral, LowBytes, DigitValue, HexDigit;
    var d := HexOf(v);
    LowCount(v, i);
    HexLength(v);
    if LowBytes(v) >= 2 {
      assert |HexLiteral(d)| < |v|;
    } else {
      FirstDigit(v);
      DigitRoundTrip(v[0] as nat / 16);
      OddFirstByte(d);
    }
  }

  /** The text reads back as the original bytes exactly when every byte after the first is at least 0x10. */
  lemma HexReadsBackIff(v: Buffer)
    ensures HexLiteral(HexOf(v)) == v <==> HighAfterFirst(v)
  {
    hide HexOf, HexLiteral;
    if HighAfterFirst(v) {
      HighReadsBack(v);
    } else {
      var i :| 1 <= i < |v| && v[i] < 16;
      LowLosesBytes(v, i);
    }
  }
}
