/**
 Port names of netmap: the parser of nm_open, a six-state machine over the suffix of the name, the
 choice of rings it leads to, and the name that the server prints for it.
 */
module PortName {
  import opened Bytes
  import opened Decimals
  import opened Text
  import opened Wrappers

  const IFNAMSIZ: nat := 16
  const RING_MASK: nat := 0x0FFF
  const LONG_MAX: int := 0x7FFF_FFFF_FFFF_FFFF
  const PRINT_ROOM: nat := 62

  const NR_REG_ALL_NIC: bv16 := 1
  const NR_REG_SW: bv16 := 2
  const NR_REG_NIC_SW: bv16 := 3
  const NR_REG_ONE_NIC: bv16 := 4
  const NR_REG_PIPE_MASTER: bv16 := 5
  const NR_REG_PIPE_SLAVE: bv16 := 6
  const NR_REG_MASK: bv16 := 0xF
  const NR_MONITOR_TX: bv16 := 0x100
  const NR_MONITOR_RX: bv16 := 0x200
  const NR_ZCOPY_MON: bv16 := 0x400
  const NR_EXCLUSIVE: bv16 := 0x800
  const NR_RX_RINGS_ONLY: bv16 := 0x2000
  const NR_TX_RINGS_ONLY: bv16 := 0x4000

  datatype Error =
    | NotRecognised | MissingColon | InvalidBridgeName | InvalidBridgePort | NameTooLong | UnknownModifier
    | UnexpectedCharacter | RingOutOfRange | UnrecognizedFlag | DoubleMemid | InvalidMemid | UnexpectedEnd

  datatype Request = Request(name: string, ringid: nat, flags: bv16, arg2: nat)

  datatype State = Start | RingSuffixOk | GetNum | Flags | FlagsOk | MemId

  /** What the suffix determines. */
  datatype Suffix = Suffix(ringid: nat, flags: bv16, arg2: nat)

  // ---------------------------------------------------------------------------------------------
  // Reading numbers

  /** The white space of the C locale. */
  lemma SpaceCharacters(c: char)
    ensures IsSpace(c) <==> c in " \t\n\U{0B}\U{0C}\r"
  {
  }

  /** strtol in base 10: the value, clamped to a 64-bit long, and how many characters were consumed: none
      without digits. */
  function StrToL(s: string): (r: (int, nat))
    ensures r.1 <= |s|
    ensures r.1 == 0 ==> r.0 == 0
  {
    var i := Span(Space, s);
    var neg := i < |s| && s[i] == '-';
    var j := if i < |s| && (s[i] == '-' || s[i] == '+') then i + 1 else i;
    var n := Span(Digit, s[j..]);
    if n == 0 then (0, 0)
    else
      var v: int := NumberOf(s[j..j + n]);
      (Clamp(if neg then -v else v), j + n)
  }

  /** The range of a 64-bit long. */
  function Clamp(v: int): int
  {
    if v > LONG_MAX then LONG_MAX else if v < -LONG_MAX - 1 then -LONG_MAX - 1 else v
  }

  // ---------------------------------------------------------------------------------------------
  // The suffix

  function FlagBit(c: char): Option<bv16>
  {
    match c
    case 'x' => Some(NR_EXCLUSIVE)
    case 'z' => Some(NR_ZCOPY_MON)
    case 't' => Some(NR_MONITOR_TX)
    case 'r' => Some(NR_MONITOR_RX)
    case 'R' => Some(NR_RX_RINGS_ONLY)
    case 'T' => Some(NR_TX_RINGS_ONLY)
    case _ => None
  }

  /** The first character of the suffix: the ring kind it selects, if any, and the state it leads to. */
  function Opening(c: char): Option<(Option<bv16>, State)>
  {
    match c
    case '^' => Some((Some(NR_REG_SW), RingSuffixOk))
    case '*' => Some((Some(NR_REG_NIC_SW), RingSuffixOk))
    case '-' => Some((Some(NR_REG_ONE_NIC), GetNum))
    case '{' => Some((Some(NR_REG_PIPE_MASTER), GetNum))
    case '}' => Some((Some(NR_REG_PIPE_SLAVE), GetNum))
    case '/' => Some((None, Flags))
    case '@' => Some((None, MemId))
    case _ => None
  }

  function With(flags: bv16, bit: bv16): bv16
  {
    flags | bit
  }

  /** One round of the parser at the nonempty rest s: the characters consumed, the next state and what is
      determined by then. */
  function Turn(s: string, st: State, x: Suffix): (r: Result<(nat, State, Suffix), Error>)
    requires s != ""
    ensures r.Ok? ==> r.value.0 <= |s| && (r.value.0 == 0 ==> st == GetNum && r.value.1 != GetNum)
  {
    match st
    case Start =>
      (match Opening(s[0])
       case None => Fail(UnknownModifier)
       case Some((reg, st')) => Ok((1, st', if reg.Some? then x.(flags := reg.value) else x)))
    case RingSuffixOk =>
      if s[0] == '/' then Ok((1, Flags, x))
      else if s[0] == '@' then Ok((1, MemId, x))
      else Fail(UnexpectedCharacter)
    case GetNum =>
      var (num, n) := StrToL(s);
      if num < 0 || num >= RING_MASK then Fail(RingOutOfRange) else Ok((n, RingSuffixOk, x.(ringid := num)))
    case MemId =>
      if x.arg2 != 0 then Fail(DoubleMemid)
      else
        var (num, n) := StrToL(s);
        if num <= 0 then Fail(InvalidMemid) else Ok((n, RingSuffixOk, x.(arg2 := num % U16)))
    case _ =>
      if s[0] == '@' then Ok((1, MemId, x))
      else
        match FlagBit(s[0])
        case None => Fail(UnrecognizedFlag)
        case Some(bit) => Ok((1, FlagsOk, x.(flags := With(x.flags, bit))))
  }

  predicate MayEnd(st: State)
  {
    st == Start || st == RingSuffixOk || st == FlagsOk
  }

  /** The suffix s, read from state st with x determined so far. It ends for every string, although number
      scanning may consume nothing: then the state changes. */
  function ParseSuffix(s: string, st: State, x: Suffix): Result<Suffix, Error>
    decreases |s|, if st == GetNum then 1 else 0
  {
    if s == "" then
      if MayEnd(st) then Ok(x) else Fail(UnexpectedEnd)
    else
      match Turn(s, st, x)
      case Fail(e) => Fail(e)
      case Ok((n, st', x')) => ParseSuffix(s[n..], st', x')
  }

  /** The switch of the parser's loop, moving `port` in the whole string. */
  method ScanTurn(s: string, port: nat, st: State, x: Suffix) returns (r: Result<(nat, State, Suffix), Error>)
    requires port < |s|
    ensures r == match Turn(s[port..], st, x)
      case Fail(e) => Fail(e)
      case Ok((n, st', x')) => Ok((port + n, st', x'))
  {
    hide StrToL, FlagBit, Opening, With;
    var c := s[port];
    var x' := x;
    match st {
      case Start =>
        match Opening(c) {
          case None => return Fail(UnknownModifier);
          case Some((reg, next)) =>
            if reg.Some? {
              x' := x'.(flags := reg.value);
            }
            return Ok((port + 1, next, x'));
        }
      case RingSuffixOk =>
        if c == '/' {
          return Ok((port + 1, Flags, x));
        } else if c == '@' {
          return Ok((port + 1, MemId, x));
        }
        return Fail(UnexpectedCharacter);
      case GetNum =>
        var (num, n) := StrToL(s[port..]);
        if num < 0 || num >= RING_MASK {
          return Fail(RingOutOfRange);
        }
        return Ok((port + n, RingSuffixOk, x.(ringid := num)));
      case MemId =>
        if x.arg2 != 0 {
          return Fail(DoubleMemid);
        }
        var (num, n) := StrToL(s[port..]);
        if num <= 0 {
          return Fail(InvalidMemid);
        }
        return Ok((port + n, RingSuffixOk, x.(arg2 := num % U16)));
      case _ =>
        if c == '@' {
          return Ok((port + 1, MemId, x));
        }
        match FlagBit(c) {
          case None => return Fail(UnrecognizedFlag);
          case Some(bit) => x' := x'.(flags := With(x'.flags, bit));
        }
        return Ok((port + 1, FlagsOk, x'));
    }
  }

  method ScanSuffix(s: string, from: nat) returns (r: Result<Suffix, Error>)
    requires from <= |s|
    ensures r == ParseSuffix(s[from..], Start, Suffix(0, NR_REG_ALL_NIC, 0))
  {
    hide Turn;
    var port, pState, x := from, Start, Suffix(0, NR_REG_ALL_NIC, 0);
    while port < |s|
      invariant from <= port <= |s|
      invariant ParseSuffix(s[port..], pState, x) == ParseSuffix(s[from..], Start, Suffix(0, NR_REG_ALL_NIC, 0))
      decreases |s| - port, if pState == GetNum then 1 else 0
    {
      var t := ScanTurn(s, port, pState, x);
      match t {
        case Fail(e) => return Fail(e);
        case Ok((next, st', x')) =>
          assert s[port..][next - port..] == s[next..];
          port, pState, x := next, st', x';
      }
    }
    assert s[port..] == "";
    if !MayEnd(pState) {
      return Fail(UnexpectedEnd);
    }
    return Ok(x);
  }

  // ---------------------------------------------------------------------------------------------
  // The whole name

  predicate IsIdentifier(s: string)
  {
    forall c :: c in s ==> IsDigit(c) || 'a' <= c <= 'z' || 'A' <= c <= 'Z' || c == '_'
  }

  /** The length of the part of s before the first separator. */
  function NameLength(s: string): (n: nat)
    ensures n <= |s|
  {
    Span(NotSeparator, s)
  }

  /** The position of the first colon, or the length. */
  function ColonAt(s: string): (n: nat)
    ensures n <= |s| && (n < |s| ==> s[n] == ':')
  {
    SpanIsLongest(NotColon, s);
    Span(NotColon, s)
  }

  predicate StartsWith(s: string, p: string)
  {
    |p| <= |s| && s[..|p|] == p
  }

  function WithName(name: string, rest: string): Result<Request, Error>
  {
    if |name| >= IFNAMSIZ then Fail(NameTooLong)
    else
      match ParseSuffix(rest, Start, Suffix(0, NR_REG_ALL_NIC, 0))
      case Fail(e) => Fail(e)
      case Ok(x) => Ok(Request(name, x.ringid, x.flags, x.arg2))
  }

  /** The parsing part of nm_open. For a VALE port the name keeps its prefix. */
  function ParseName(ifname: string): Result<Request, Error>
  {
    if StartsWith(ifname, "netmap:") then
      var s := ifname[7..];
      WithName(s[..NameLength(s)], s[NameLength(s)..])
    else if StartsWith(ifname, "vale") then
      var colon := ColonAt(ifname);
      if colon == |ifname| then Fail(MissingColon)
      else if !IsIdentifier(ifname[4..colon]) then Fail(InvalidBridgeName)
      else
        var n := NameLength(ifname[colon + 1..]);
        if !IsIdentifier(ifname[colon + 1..colon + 1 + n]) then Fail(InvalidBridgePort)
        else WithName(ifname[..colon + 1 + n], ifname[colon + 1 + n..])
    else Fail(NotRecognised)
  }

  /** nm_is_identifier. */
  method NmIsIdentifier(s: string, from: nat, to: nat) returns (b: bool)
    requires from <= to <= |s|
    ensures b == IsIdentifier(s[from..to])
  {
    for i := from to to
      invariant IsIdentifier(s[from..i])
    {
      var c := s[i];
      assert c == s[from..to][i - from];
      if !(IsDigit(c) || 'a' <= c <= 'z' || 'A' <= c <= 'Z') && c != '_' {
        return false;
      }
    }
    return true;
  }

  /** The scan for a separator, from `from` on. */
  method ScanName(s: string, from: nat) returns (port: nat)
    requires from <= |s|
    ensures port == from + NameLength(s[from..])
  {
    port := from;
    while port < |s| && !IsSeparator(s[port])
      invariant from <= port <= |s|
      invariant port + NameLength(s[port..]) == from + NameLength(s[from..])
    {
      assert s[port..][1..] == s[port + 1..];
      port := port + 1;
    }
  }

  /** nm_open from the length check on; the port's name is ifname[name..port]. */
  method NmOpenSuffix(ifname: string, name: nat, port: nat) returns (r: Result<Request, Error>)
    requires name <= port <= |ifname|
    ensures r == WithName(ifname[name..port], ifname[port..])
  {
    var namelen := port - name;
    if namelen >= IFNAMSIZ {
      return Fail(NameTooLong);
    }
    var x := ScanSuffix(ifname, port);
    match x {
      case Fail(e) => return Fail(e);
      case Ok(v) => return Ok(Request(ifname[name..port], v.ringid, v.flags, v.arg2));
    }
  }

  method NmOpenName(ifname: string) returns (r: Result<Request, Error>)
    ensures r == ParseName(ifname)
  {
    if !StartsWith(ifname, "netmap:") && !StartsWith(ifname, "vale") {
      return Fail(NotRecognised);
    }
    var isVale := ifname[0] == 'v';
    if isVale {
      NotNetmap(ifname);
    }
    hide StartsWith, NameLength, ColonAt, IsIdentifier, WithName, IsSeparator;
    if isVale {
      var colon := ColonAt(ifname);
      if colon == |ifname| {
        return Fail(MissingColon);
      }
      var ok := NmIsIdentifier(ifname, 4, colon);
      if !ok {
        return Fail(InvalidBridgeName);
      }
      var port := ScanName(ifname, colon + 1);
      ok := NmIsIdentifier(ifname, colon + 1, port);
      if !ok {
        return Fail(InvalidBridgePort);
      }
      assert ifname[0..port] == ifname[..port];
      r := NmOpenSuffix(ifname, 0, port);
    } else {
      var port := ScanName(ifname, 7);
      var s := ifname[7..];
      assert ifname[7..port] == s[..port - 7] && ifname[port..] == s[port - 7..];
      r := NmOpenSuffix(ifname, 7, port);
    }
  }

  // ---------------------------------------------------------------------------------------------
  // Rings

  datatype RingRange = RingRange(firstTx: nat, lastTx: nat, firstRx: nat, lastRx: nat)

  /** The range names rings that exist, the hardware rings and the host ring behind them. */
  predicate RangeExists(r: RingRange, tx: nat, rx: nat)
  {
    r.firstTx <= r.lastTx <= tx && r.firstRx <= r.lastRx <= rx
  }

  /** The ring range of an opened port with tx and rx hardware rings; unsigned 16-bit fields. Rings that do
      not exist are named exactly for all hardware rings of a direction without any, where the last index
      wraps, and for a single ring id beyond the rings. */
  function RingsOf(flags: bv16, ringid: nat, tx: nat, rx: nat): (r: RingRange)
    requires tx < U16 && rx < U16
    ensures RangeExists(r, tx, rx) <==>
      && (flags & NR_REG_MASK == NR_REG_ALL_NIC ==> tx > 0 && rx > 0)
      && (flags & NR_REG_MASK == NR_REG_ONE_NIC ==> ringid % (RING_MASK + 1) <= tx && ringid % (RING_MASK + 1) <= rx)
  {
    var reg := flags & NR_REG_MASK;
    if reg == NR_REG_SW then RingRange(tx, tx, rx, rx)
    else if reg == NR_REG_ALL_NIC then RingRange(0, (tx + U16 - 1) % U16, 0, (rx + U16 - 1) % U16)
    else if reg == NR_REG_NIC_SW then RingRange(0, tx, 0, rx)
    else if reg == NR_REG_ONE_NIC then
      var i := ringid % (RING_MASK + 1);
      RingRange(i, i, i, i)
    else RingRange(0, 0, 0, 0)
  }

  /** Which rings a port opens, by the kind of its name: 1 all hardware rings, 2 the host ring, 3 both, 4 the one
      with the ring id's low twelve bits, any other only the first. */
  lemma RingsSelected(flags: bv16, ringid: nat, tx: nat, rx: nat, i: nat)
    requires 0 < tx < U16 && 0 < rx < U16
    ensures var r, kind := RingsOf(flags, ringid, tx, rx), flags & 0xF;
      && (r.firstTx <= i <= r.lastTx <==>
            if kind == 1 then i < tx else if kind == 2 then i == tx else if kind == 3 then i <= tx
            else if kind == 4 then i == ringid % 0x1000 else i == 0)
      && (r.firstRx <= i <= r.lastRx <==>
            if kind == 1 then i < rx else if kind == 2 then i == rx else if kind == 3 then i <= rx
            else if kind == 4 then i == ringid % 0x1000 else i == 0)
  {
  }

  // ---------------------------------------------------------------------------------------------
  // The printed name

  function PrintedInt(i: int): string
  {
    if i < 0 then "-" + Decimal(-i) else Decimal(i)
  }

  /** The name that Netmap::Open formats, cut to the room of its buffer. */
  function PrintedName(ifnm: string, affinity: int): string
  {
    var full := "netmap:" + ifnm + "-" + PrintedInt(affinity);
    if |full| <= PRINT_ROOM then full else full[..PRINT_ROOM]
  }

  predicate PlainName(s: string)
  {
    All(NotSeparator, s)
  }

  datatype Sign = Unsigned | Plus | Minus

  function SignText(sign: Sign): string
  {
    match sign
    case Unsigned => ""
    case Plus => "+"
    case Minus => "-"
  }

  function Spelled(spaces: string, sign: Sign, d: string, rest: string): string
  {
    spaces + SignText(sign) + d + rest
  }

  function DigitsAt(spaces: string, sign: Sign): nat
  {
    |spaces| + if sign.Unsigned? then 0 else 1
  }

  /** strtol skips white space, takes a sign, and reads a printed number back, clamped to a long, up to whatever
      follows it. */
  lemma ReadNumber(spaces: string, sign: Sign, n: nat, rest: string)
    requires All(Space, spaces) && (rest == "" || !IsDigit(rest[0]))
    ensures StrToL(Spelled(spaces, sign, Decimal(n), rest)) ==
      (Clamp(if sign.Minus? then -(n as int) else n), DigitsAt(spaces, sign) + |Decimal(n)|)
  {
    hide Decimal, NumberOf, StrToL, Clamp, All, Span, Spelled, IsSpace, IsDigit;
    var d := Decimal(n);
    FirstDigit(n);
    SpacesSpan(spaces, sign, d, rest);
    DigitsSpan(spaces, sign, d, rest);
    NumberOfDecimal(n);
    hide SignText;
    NumberAt(Spelled(spaces, sign, d, rest), |spaces|, DigitsAt(spaces, sign), |d|, sign.Minus?, n);
  }

  lemma FirstDigit(n: nat)
    ensures var d := Decimal(n); All(Digit, d) && d != "" && !IsSpace(d[0]) && d[0] != '-' && d[0] != '+'
  {
    hide Decimal;
    assert Decimal(n)[0] in Decimal(n);
  }

  lemma SpacesSpan(spaces: string, sign: Sign, d: string, rest: string)
    requires All(Space, spaces) && d != "" && !IsSpace(d[0])
    ensures var s := Spelled(spaces, sign, d, rest);
      && Span(Space, s) == |spaces| < |s|
      && s[|spaces|] == match sign case Unsigned => d[0] case Plus => '+' case Minus => '-'
  {
    hide All, Span;
    var t := SignText(sign) + d + rest;
    assert Spelled(spaces, sign, d, rest) == spaces + t;
    SpanIs(Space, spaces, t);
  }

  lemma DigitsSpan(spaces: string, sign: Sign, d: string, rest: string)
    requires All(Digit, d) && (rest == "" || !IsDigit(rest[0]))
    ensures var s, j := Spelled(spaces, sign, d, rest), DigitsAt(spaces, sign);
      j + |d| <= |s| && s[j..j + |d|] == d && Span(Digit, s[j..]) == |d|
  {
    hide All, Span;
    var s, j := Spelled(spaces, sign, d, rest), DigitsAt(spaces, sign);
    assert s[j..] == d + rest && s[j..j + |d|] == d;
    SpanIs(Digit, d, rest);
  }

  lemma NumberAt(s: string, i: nat, j: nat, k: nat, negative: bool, v: int)
    requires i == Span(Space, s) < |s| && 0 < k && negative == (s[i] == '-')
    requires j == (if s[i] == '-' || s[i] == '+' then i + 1 else i) && j + k <= |s| && k == Span(Digit, s[j..])
    requires v == NumberOf(s[j..j + k])
    ensures StrToL(s) == (Clamp(if negative then -v else v), j + k)
  {
    hide NumberOf, Span, IsSpace, Clamp;
  }

  /** Without digits behind white space and a sign, strtol consumes nothing. */
  lemma ReadNothing(spaces: string, sign: Sign, rest: string)
    requires All(Space, spaces)
    requires rest == "" || (!IsDigit(rest[0]) && (sign.Unsigned? ==> !IsSpace(rest[0]) && rest[0] !in "+-"))
    ensures StrToL(Spelled(spaces, sign, "", rest)) == (0, 0)
  {
    hide NumberOf, Span, All;
    var s, t := Spelled(spaces, sign, "", rest), SignText(sign) + rest;
    assert s == spaces + t;
    SpanIs(Space, spaces, t);
    assert t != "" ==> s[|spaces|] == t[0];
    assert s[DigitsAt(spaces, sign)..] == rest && "" + rest == rest;
    assert All(Digit, "") by { NoCharacters(); }
    SpanIs(Digit, "", rest);
  }

  lemma NoCharacters()
    ensures All(Digit, "") && All(Space, "")
  {
  }

  lemma ReadDecimal(n: nat, rest: string)
    requires rest == "" || !IsDigit(rest[0])
    ensures StrToL(Decimal(n) + rest) == (if n > LONG_MAX then LONG_MAX else n, |Decimal(n)|)
  {
    hide StrToL, Decimal, All;
    NoCharacters();
    ReadNumber("", Unsigned, n, rest);
    assert Spelled("", Unsigned, Decimal(n), rest) == Decimal(n) + rest;
  }

  lemma ReadNegative(n: nat)
    requires n > 0
    ensures StrToL("-" + Decimal(n)).0 < 0
  {
    hide StrToL, Decimal, All;
    NoCharacters();
    ReadNumber("", Minus, n, "");
    assert Spelled("", Minus, Decimal(n), "") == "-" + Decimal(n);
  }

  lemma NameLengthIs(name: string, rest: string)
    requires PlainName(name) && (rest == "" || IsSeparator(rest[0]))
    ensures NameLength(name + rest) == |name|
  {
    hide IsSeparator;
    SpanIs(NotSeparator, name, rest);
  }

  /** The suffix "-<number>" selects one NIC ring pair, for numbers in range; it is refused otherwise. */
  lemma RingSuffix(affinity: int)
    ensures ParseSuffix("-" + PrintedInt(affinity), Start, Suffix(0, NR_REG_ALL_NIC, 0)) ==
      if 0 <= affinity < RING_MASK then Ok(Suffix(affinity, NR_REG_ONE_NIC, 0)) else Fail(RingOutOfRange)
  {
    hide StrToL, Decimal;
    var t := PrintedInt(affinity);
    var s := "-" + t;
    var x := Suffix(0, NR_REG_ONE_NIC, 0);
    assert s[1..] == t;
    assert Turn(s, Start, Suffix(0, NR_REG_ALL_NIC, 0)) == Ok((1, GetNum, x));
    assert ParseSuffix(s, Start, Suffix(0, NR_REG_ALL_NIC, 0)) == ParseSuffix(t, GetNum, x);
    if affinity < 0 {
      ReadNegative(-affinity);
      assert Turn(t, GetNum, x) == Fail(RingOutOfRange);
      assert ParseSuffix(t, GetNum, x) == Fail(RingOutOfRange);
    } else {
      assert t + "" == t;
      ReadDecimal(affinity, "");
      if affinity < RING_MASK {
        assert t[|t|..] == "";
        assert Turn(t, GetNum, x) == Ok((|t|, RingSuffixOk, x.(ringid := affinity)));
        assert ParseSuffix(t, GetNum, x) == ParseSuffix("", RingSuffixOk, x.(ringid := affinity));
      } else {
        assert Turn(t, GetNum, x) == Fail(RingOutOfRange);
        assert ParseSuffix(t, GetNum, x) == Fail(RingOutOfRange);
      }
    }
  }

  lemma {:induction false} DecimalLength(n: nat, k: nat, bound: nat)
    requires n < bound && bound == Pow10(k) && k > 0
    ensures |Decimal(n)| <= k
  {
    if n >= 10 {
      DecimalLength(n / 10, k - 1, bound / 10);
    }
  }

  /** A 32-bit affinity prints in at most eleven characters. */
  lemma PrintedIntShort(i: int)
    requires -0x8000_0000 <= i < 0x8000_0000
    ensures |PrintedInt(i)| <= 11
  {
    assert Pow10(5) == 10_0000;
    assert Pow10(10) == 100_0000_0000;
    DecimalLength(if i < 0 then -i else i, 10, 100_0000_0000);
  }

  lemma ParsePrinted(s: string, name: string, rest: string)
    requires s == "netmap:" + name + rest && PlainName(name) && (rest == "" || IsSeparator(rest[0]))
    ensures ParseName(s) == WithName(name, rest)
  {
    assert s[7..] == name + rest;
    NameLengthIs(name, rest);
    assert (name + rest)[..|name|] == name && (name + rest)[|name|..] == rest;
  }

  /** Printing then parsing a port name: for every interface name without separators and every 32-bit
      affinity, nm_open accepts the name that Netmap::Open prints exactly when the interface name is shorter
      than 16 characters and the affinity is in 0..4094. It then yields that interface, one NIC ring pair,
      that ring id, and that ring as the only one in range for both directions. */
  lemma PrintThenParse(ifnm: string, affinity: int, tx: nat, rx: nat)
    requires PlainName(ifnm) && -0x8000_0000 <= affinity < 0x8000_0000 && tx < U16 && rx < U16
    ensures var r := ParseName(PrintedName(ifnm, affinity));
      && (r.Ok? <==> |ifnm| < IFNAMSIZ && 0 <= affinity < RING_MASK)
      && (r.Ok? ==> r.value == Request(ifnm, affinity, NR_REG_ONE_NIC, 0)
                    && RingsOf(r.value.flags, r.value.ringid, tx, rx) ==
                         RingRange(affinity, affinity, affinity, affinity))
  {
    var t := PrintedInt(affinity);
    var full := "netmap:" + ifnm + "-" + t;
    hide PrintedInt, ParseSuffix, RingsOf;
    PrintedIntShort(affinity);
    if 0 <= affinity < RING_MASK {
      OneRingRange(affinity, tx, rx);
    }
    if |ifnm| < IFNAMSIZ {
      assert full == "netmap:" + ifnm + ("-" + t);
      ParsePrinted(full, ifnm, "-" + t);
      RingSuffix(affinity);
    } else {
      LongNameRefused(ifnm, "-" + t);
    }
  }

  lemma OneRingRange(i: nat, tx: nat, rx: nat)
    requires i < RING_MASK && tx < U16 && rx < U16
    ensures RingsOf(NR_REG_ONE_NIC, i, tx, rx) == RingRange(i, i, i, i)
  {
  }

  /** However the buffer cuts it, a name of 16 or more characters is refused. */
  lemma LongNameRefused(ifnm: string, rest: string)
    requires PlainName(ifnm) && |ifnm| >= IFNAMSIZ && rest != "" && IsSeparator(rest[0])
    ensures var full := "netmap:" + ifnm + rest;
      ParseName(if |full| <= PRINT_ROOM then full else full[..PRINT_ROOM]) == Fail(NameTooLong)
  {
    hide ParseSuffix, ParseName;
    var full := "netmap:" + ifnm + rest;
    var s := if |full| <= PRINT_ROOM then full else full[..PRINT_ROOM];
    var n := if 7 + |ifnm| <= |s| then |ifnm| else |s| - 7;
    assert s == "netmap:" + ifnm[..n] + rest[..|s| - 7 - n];
    assert forall c :: c in ifnm[..n] ==> c in ifnm;
    ParsePrinted(s, ifnm[..n], rest[..|s| - 7 - n]);
  }

  // ---------------------------------------------------------------------------------------------
  // Flags in any order

  predicate FlagLetters(s: string)
  {
    forall c :: c in s ==> c in "xztrRT"
  }

  function BitIf(b: bool, w: bv16): bv16
  {
    if b then w else 0
  }

  function FlagBits(x: bool, z: bool, t: bool, r: bool, rx: bool, tx: bool): bv16
  {
    BitIf(x, NR_EXCLUSIVE) | BitIf(z, NR_ZCOPY_MON) | BitIf(t, NR_MONITOR_TX)
    | BitIf(r, NR_MONITOR_RX) | BitIf(rx, NR_RX_RINGS_ONLY) | BitIf(tx, NR_TX_RINGS_ONLY)
  }

  lemma OneMoreFlag(c: char, x: bool, z: bool, t: bool, r: bool, rx: bool, tx: bool)
    requires c in "xztrRT"
    ensures FlagBit(c).Some?
    ensures FlagBits(c == 'x' || x, c == 'z' || z, c == 't' || t, c == 'r' || r, c == 'R' || rx, c == 'T' || tx)
         == With(FlagBit(c).value, FlagBits(x, z, t, r, rx, tx))
  {
  }

  /** The bits of the flag letters that occur in s. */
  function FlagSet(s: string): bv16
  {
    FlagBits('x' in s, 'z' in s, 't' in s, 'r' in s, 'R' in s, 'T' in s)
  }

  lemma FlagSetStep(s: string)
    requires s != "" && s[0] in "xztrRT"
    ensures FlagBit(s[0]).Some? && FlagSet(s) == With(FlagBit(s[0]).value, FlagSet(s[1..]))
  {
    hide FlagBits, With, FlagBit;
    var c, t := s[0], s[1..];
    OneMoreFlag(c, 'x' in t, 'z' in t, 't' in t, 'r' in t, 'R' in t, 'T' in t);
    assert s == [c] + t;
    assert 'x' in s <==> c == 'x' || 'x' in t;
    assert 'z' in s <==> c == 'z' || 'z' in t;
    assert 't' in s <==> c == 't' || 't' in t;
    assert 'r' in s <==> c == 'r' || 'r' in t;
    assert 'R' in s <==> c == 'R' || 'R' in t;
    assert 'T' in s <==> c == 'T' || 'T' in t;
  }

  lemma WithAssociates(a: bv16, b: bv16, c: bv16)
    ensures With(With(a, b), c) == With(a, With(b, c))
    ensures With(a, 0) == a
  {
  }

  lemma FlagTurn(s: string, st: State, x: Suffix)
    requires s != "" && s[0] in "xztrRT" && (st == FlagsOk || st == Flags)
    ensures FlagBit(s[0]).Some? && Turn(s, st, x) == Ok((1, FlagsOk, x.(flags := With(x.flags, FlagBit(s[0]).value))))
  {
    hide With;
  }

  lemma {:induction false} FlagsAddUp(s: string, rest: string, st: State, x: Suffix)
    requires FlagLetters(s) && (st == FlagsOk || (st == Flags && s != ""))
    ensures ParseSuffix(s + rest, st, x) == ParseSuffix(rest, FlagsOk, x.(flags := With(x.flags, FlagSet(s))))
  {
    hide FlagSet, FlagBit, With, Turn;
    if s == "" {
      NoFlags();
      WithAssociates(x.flags, 0, 0);
      assert s + rest == rest;
    } else {
      var t := s + rest;
      assert t[0] == s[0] && t[1..] == s[1..] + rest;
      assert s[0] in s && forall c :: c in s[1..] ==> c in s;
      FlagSetStep(s);
      FlagTurn(t, st, x);
      var bit := FlagBit(s[0]).value;
      FlagsAddUp(s[1..], rest, FlagsOk, x.(flags := With(x.flags, bit)));
      WithAssociates(x.flags, bit, FlagSet(s[1..]));
    }
  }

  lemma NoFlags()
    ensures FlagSet("") == 0
  {
  }

  lemma SameLettersSameSet(f: string, g: string)
    requires forall c :: c in f <==> c in g
    ensures FlagSet(f) == FlagSet(g)
  {
  }

  /** Two flag lists with the same letters, in any order and with any repetition, give the same request,
      whatever ring suffix precedes them. */
  lemma FlagOrderIrrelevant(f: string, g: string, st: State, x: Suffix)
    requires f != "" && g != "" && FlagLetters(f) && FlagLetters(g) && (forall c :: c in f <==> c in g)
    requires st == Start || st == RingSuffixOk
    ensures ParseSuffix("/" + f, st, x) == ParseSuffix("/" + g, st, x) == Ok(x.(flags := With(x.flags, FlagSet(f))))
  {
    hide FlagBit, FlagSet, With;
    assert ("/" + f)[1..] == f && ("/" + g)[1..] == g;
    SameLettersSameSet(f, g);
    assert Turn("/" + f, st, x) == Ok((1, Flags, x)) && Turn("/" + g, st, x) == Ok((1, Flags, x));
    hide Turn;
    FlagsAddUp(f, "", Flags, x);
    FlagsAddUp(g, "", Flags, x);
    assert f + "" == f && g + "" == g;
  }

  // ---------------------------------------------------------------------------------------------
  // Memory ids

  /** "@a@b" is refused as a double setting exactly when the first id, kept in 16 bits, is not zero; an id
      that is a multiple of 65536 is forgotten. */
  lemma DoubleMemidIff(a: nat, b: nat, x: Suffix)
    requires 0 < a < LONG_MAX && 0 < b < LONG_MAX && x.arg2 == 0
    ensures ParseSuffix("@" + Decimal(a) + "@" + Decimal(b), RingSuffixOk, x) ==
      if a % U16 != 0 then Fail(DoubleMemid) else Ok(x.(arg2 := b % U16))
  {
    hide StrToL, Decimal;
    var second := "@" + Decimal(b);
    var s := "@" + Decimal(a) + second;
    assert s == "@" + Decimal(a) + "@" + Decimal(b);
    assert s[1..] == Decimal(a) + second;
    ReadDecimal(a, second);
    assert (Decimal(a) + second)[|Decimal(a)|..] == second;
    var y := x.(arg2 := a % U16);
    assert Turn(s, RingSuffixOk, x) == Ok((1, MemId, x));
    assert Turn(Decimal(a) + second, MemId, x) == Ok((|Decimal(a)|, RingSuffixOk, y));
    assert ParseSuffix(s, RingSuffixOk, x) == ParseSuffix(second, RingSuffixOk, y);
    assert second[1..] == Decimal(b) && Decimal(b) + "" == Decimal(b);
    assert Turn(second, RingSuffixOk, y) == Ok((1, MemId, y));
    assert ParseSuffix(second, RingSuffixOk, y) == ParseSuffix(Decimal(b), MemId, y);
    if a % U16 != 0 {
      assert Turn(Decimal(b), MemId, y) == Fail(DoubleMemid);
      assert ParseSuffix(Decimal(b), MemId, y) == Fail(DoubleMemid);
    } else {
      ReadDecimal(b, "");
      assert Turn(Decimal(b), MemId, y) == Ok((|Decimal(b)|, RingSuffixOk, y.(arg2 := b % U16)));
      assert Decimal(b)[|Decimal(b)|..] == "";
      assert ParseSuffix(Decimal(b), MemId, y) == ParseSuffix("", RingSuffixOk, y.(arg2 := b % U16));
    }
  }

  // ---------------------------------------------------------------------------------------------
  // The suffix as a notation

  /** The part of a suffix that selects rings. */
  datatype RingPart = NoRing | HostRing | BothRings | OneRing(n: nat) | PipeMaster(n: nat) | PipeSlave(n: nat)

  function RingText(p: RingPart): string
  {
    match p
    case NoRing => ""
    case HostRing => "^"
    case BothRings => "*"
    case OneRing(n) => "-" + Decimal(n)
    case PipeMaster(n) => "{" + Decimal(n)
    case PipeSlave(n) => "}" + Decimal(n)
  }

  /** The ring id and the kind: 1 to 6, in this order. */
  function RingMeaning(p: RingPart): (nat, bv16)
  {
    match p
    case NoRing => (0, 1)
    case HostRing => (0, 2)
    case BothRings => (0, 3)
    case OneRing(n) => (n, 4)
    case PipeMaster(n) => (n, 5)
    case PipeSlave(n) => (n, 6)
  }

  function TailText(flags: string, memid: Option<nat>): string
  {
    (if flags == "" then "" else "/" + flags) + (if memid.Some? then "@" + Decimal(memid.value) else "")
  }

  lemma RingPartRead(p: RingPart, tail: string)
    requires RingMeaning(p).0 < 4095 && (tail == "" || tail[0] == '/' || tail[0] == '@')
    ensures ParseSuffix(RingText(p) + tail, Start, Suffix(0, NR_REG_ALL_NIC, 0)) ==
      ParseSuffix(tail, if p == NoRing then Start else RingSuffixOk, Suffix(RingMeaning(p).0, RingMeaning(p).1, 0))
  {
    hide StrToL, Decimal;
    var x, s := Suffix(0, NR_REG_ALL_NIC, 0), RingText(p) + tail;
    if p.NoRing? {
      assert s == tail;
    } else if p.HostRing? || p.BothRings? {
      assert s[1..] == tail;
    } else {
      var c := if p.OneRing? then '-' else if p.PipeMaster? then '{' else '}';
      assert s == [c] + (Decimal(p.n) + tail);
      NumberedRead(c, RingMeaning(p).1, p.n, tail);
    }
  }

  lemma NumberedRead(c: char, kind: bv16, n: nat, tail: string)
    requires n < 4095 && (tail == "" || tail[0] == '/' || tail[0] == '@')
    requires Opening(c) == Some((Some(kind), GetNum))
    ensures ParseSuffix([c] + (Decimal(n) + tail), Start, Suffix(0, NR_REG_ALL_NIC, 0)) ==
      ParseSuffix(tail, RingSuffixOk, Suffix(n, kind, 0))
  {
    hide StrToL, Decimal, Opening;
    var x, y := Suffix(0, NR_REG_ALL_NIC, 0), Suffix(0, kind, 0);
    var t := Decimal(n) + tail;
    var s := [c] + t;
    assert s[1..] == t && t[|Decimal(n)|..] == tail;
    ReadDecimal(n, tail);
    assert Turn(s, Start, x) == Ok((1, GetNum, y));
    assert Turn(t, GetNum, y) == Ok((|Decimal(n)|, RingSuffixOk, y.(ringid := n)));
  }

  lemma MemIdRead(memid: Option<nat>, st: State, x: Suffix)
    requires MayEnd(st) && x.arg2 == 0 && (memid.Some? ==> 0 < memid.value < LONG_MAX)
    ensures ParseSuffix(TailText("", memid), st, x) ==
      Ok(if memid.Some? then x.(arg2 := memid.value % 0x1_0000) else x)
  {
    hide StrToL, Decimal;
    if memid.Some? {
      var m := memid.value;
      var s, y := TailText("", memid), x.(arg2 := m % U16);
      assert s == "@" + Decimal(m) && s[1..] == Decimal(m);
      assert Decimal(m) + "" == Decimal(m) && Decimal(m)[|Decimal(m)|..] == "";
      ReadDecimal(m, "");
      assert Turn(s, st, x) == Ok((1, MemId, x));
      assert Turn(Decimal(m), MemId, x) == Ok((|Decimal(m)|, RingSuffixOk, y));
      assert ParseSuffix("", RingSuffixOk, y) == Ok(y);
    }
  }

  /** Every suffix made of an optional ring part, optional flag letters and an optional memory id is accepted, and
      means what its parts say. */
  lemma SuffixMeans(p: RingPart, flags: string, memid: Option<nat>)
    requires RingMeaning(p).0 < 4095 && FlagLetters(flags) && (memid.Some? ==> 0 < memid.value < LONG_MAX)
    ensures ParseSuffix(RingText(p) + TailText(flags, memid), Start, Suffix(0, NR_REG_ALL_NIC, 0)) ==
      Ok(Suffix(RingMeaning(p).0, With(RingMeaning(p).1, FlagSet(flags)),
                if memid.Some? then memid.value % 0x1_0000 else 0))
  {
    hide FlagSet, With, ParseSuffix, RingText;
    var tail, rest := TailText(flags, memid), TailText("", memid);
    var st, x := if p == NoRing then Start else RingSuffixOk, Suffix(RingMeaning(p).0, RingMeaning(p).1, 0);
    RingPartRead(p, tail);
    if flags == "" {
      assert tail == rest;
      NoFlags();
      WithAssociates(x.flags, 0, 0);
      MemIdRead(memid, st, x);
    } else {
      assert tail == "/" + (flags + rest);
      FlagsOpened(flags + rest, st, x);
      FlagsAddUp(flags, rest, Flags, x);
      MemIdRead(memid, FlagsOk, x.(flags := With(x.flags, FlagSet(flags))));
    }
  }

  lemma FlagsOpened(s: string, st: State, x: Suffix)
    requires st == Start || st == RingSuffixOk
    ensures ParseSuffix("/" + s, st, x) == ParseSuffix(s, Flags, x)
  {
    assert ("/" + s)[1..] == s;
  }

  /** What is refused at each point, and how. */
  lemma SuffixRefused(s: string, st: State, x: Suffix)
    ensures s != "" && st == Start && s[0] !in "-*^{}/@" ==> ParseSuffix(s, st, x) == Fail(UnknownModifier)
    ensures s != "" && st == RingSuffixOk && s[0] !in "/@" ==> ParseSuffix(s, st, x) == Fail(UnexpectedCharacter)
    ensures s != "" && (st == Flags || st == FlagsOk) && s[0] !in "@xztrRT" ==>
      ParseSuffix(s, st, x) == Fail(UnrecognizedFlag)
    ensures s != "" && st == MemId && x.arg2 == 0 && StrToL(s).0 <= 0 ==> ParseSuffix(s, st, x) == Fail(InvalidMemid)
    ensures s != "" && st == GetNum && !(0 <= StrToL(s).0 < 4095) ==> ParseSuffix(s, st, x) == Fail(RingOutOfRange)
    ensures s == "" && (st == GetNum || st == Flags || st == MemId) ==> ParseSuffix(s, st, x) == Fail(UnexpectedEnd)
  {
    hide StrToL, With;
  }

  // ---------------------------------------------------------------------------------------------
  // VALE names

  /** A VALE name is "vale", a bridge, a colon and a port; both parts must be identifiers, and the request's name
      keeps the prefix. Without a colon it is refused. */
  lemma ValeName(bridge: string, port: string, rest: string)
    requires All(NotColon, bridge) && PlainName(port) && (rest == "" || IsSeparator(rest[0]))
    ensures ParseName("vale" + bridge) == Fail(MissingColon)
    ensures ParseName("vale" + bridge + ":" + port + rest) ==
      if !IsIdentifier(bridge) then Fail(InvalidBridgeName)
      else if !IsIdentifier(port) then Fail(InvalidBridgePort)
      else WithName("vale" + bridge + ":" + port, rest)
  {
    hide WithName, IsIdentifier, PlainName, IsSeparator, NameLength;
    var front, colon := "vale" + bridge, ":" + port + rest;
    var n, s := |front|, front + colon;
    NotNetmap(front);
    assert front + "" == front && StartsWith(front, "vale");
    SpanIs(NotColon, front, "");
    assert ColonAt(front) == |front|;
    assert s == "vale" + bridge + ":" + port + rest && colon[0] == ':';
    SpanIs(NotColon, front, colon);
    assert ColonAt(s) == n < |s|;
    ValeParts(bridge, port, rest);
    NameLengthIs(port, rest);
    NotNetmap(s);
    assert StartsWith(s, "vale");
    hide ColonAt, StartsWith;
  }

  lemma NotNetmap(s: string)
    requires s != "" && s[0] == 'v'
    ensures !StartsWith(s, "netmap:")
  {
    if |s| >= 7 {
      assert s[..7][0] == s[0];
    }
  }

  lemma ValeParts(bridge: string, port: string, rest: string)
    ensures var s, n := "vale" + bridge + ":" + port + rest, 4 + |bridge|;
      && s[4..n] == bridge && s[n + 1..] == port + rest && s[n + 1..n + 1 + |port|] == port
      && s[n + 1 + |port|..] == rest && s[..n + 1 + |port|] == "vale" + bridge + ":" + port
  {
  }

  /** Any other name is not netmap's. */
  lemma ForeignName(s: string)
    requires !("netmap:" <= s) && !("vale" <= s)
    ensures ParseName(s) == Fail(NotRecognised)
  {
  }
}
