/** The statement that a SET sends to the master database, and how the database reads it. */
module SetStatement {
  import opened Bytes
  import opened Decimals
  import opened HexText
  import opened Text
  import opened Wrappers

  /** The text of the statement. */
  function InsertStatement(key: nat, val: Buffer): string
  {
    "INSERT INTO kvs(`key`,`val`)VALUES(" + Decimal(key) + ",0x" + HexOf(val)
    + ")ON DUPLICATE KEY UPDATE val = 0x" + HexOf(val)
  }

  /** What a statement asks for: a row with a key and a value, and the value for the row that already has the key. */
  datatype Statement = Statement(key: nat, inserted: Buffer, updated: Buffer)

  /** The hex literal at the start of s, and what follows it; a literal has at least one digit. */
  function ReadLiteral(s: string): Option<(Buffer, string)>
  {
    match After(s, "0x")
    case None => None
    case Some(t) =>
      var n := Span(Hex, t);
      if n == 0 then None else Some((HexLiteral(t[..n]), t[n..]))
  }

  /** Read an insert into the table kvs, left to right: the key's digits, the literal of the inserted value, the
      literal of the update clause. */
  function ReadStatement(s: string): Option<Statement>
  {
    match After(s, "INSERT INTO kvs(`key`,`val`)VALUES(")
    case None => None
    case Some(a) =>
      var n := Span(Digit, a);
      match After(a[n..], ",")
      case None => None
      case Some(b) =>
        match ReadLiteral(b)
        case None => None
        case Some((inserted, c)) =>
          match After(c, ")ON DUPLICATE KEY UPDATE val = ")
          case None => None
          case Some(d) =>
            match ReadLiteral(d)
            case None => None
            case Some((updated, rest)) =>
              if n == 0 || rest != "" then None else Some(Statement(NumberOf(a[..n]), inserted, updated))
  }

  lemma ByteHexDigits(b: byte)
    ensures All(Hex, ByteHex(b))
  {
  }

  lemma AllConcat(a: string, b: string)
    requires All(Hex, a) && All(Hex, b)
    ensures All(Hex, a + b)
  {
    hide Is;
  }

  lemma {:induction false} HexOfDigits(v: Buffer)
    ensures All(Hex, HexOf(v))
    ensures v != [] ==> HexOf(v) != ""
  {
    hide All, ByteHex;
    if v == [] {
      assert All(Hex, "") by { AllEmpty(); }
    } else {
      HexOfDigits(v[..|v| - 1]);
      ByteHexDigits(v[|v| - 1]);
      AllConcat(HexOf(v[..|v| - 1]), ByteHex(v[|v| - 1]));
    }
  }

  lemma AllEmpty()
    ensures All(Hex, "")
  {
  }

  lemma LiteralRead(v: Buffer, rest: string)
    requires rest == "" || !IsHexDigit(rest[0])
    ensures ReadLiteral("0x" + (HexOf(v) + rest)) == if v == [] then None else Some((HexLiteral(HexOf(v)), rest))
  {
    hide HexOf, HexLiteral;
    HexOfDigits(v);
    var d := HexOf(v);
    AfterIs("0x", d + rest);
    SpanIs(Hex, d, rest);
    assert (d + rest)[..|d|] == d && (d + rest)[|d|..] == rest;
    if v == [] {
      assert d == "" by { EmptyHex(); }
    }
  }

  lemma EmptyHex()
    ensures HexOf([]) == ""
  {
  }

  /** Read back, the statement of any key and nonempty value asks for that key, and for the value's digits as a
      literal in both places; the statement of an empty value has no literal and is refused. */
  lemma StatementReads(key: nat, val: Buffer)
    ensures ReadStatement(InsertStatement(key, val)) ==
      if val == [] then None else Some(Statement(key, HexLiteral(HexOf(val)), HexLiteral(HexOf(val))))
  {
    hide Decimal, NumberOf, HexOf, HexLiteral, ReadLiteral, After;
    var d, h := Decimal(key), HexOf(val);
    var update := "0x" + (h + "");
    var tail := ")ON DUPLICATE KEY UPDATE val = " + update;
    var values := "0x" + (h + tail);
    var a := d + ("," + values);
    assert InsertStatement(key, val) == "INSERT INTO kvs(`key`,`val`)VALUES(" + a;
    AfterIs("INSERT INTO kvs(`key`,`val`)VALUES(", a);
    SpanIs(Digit, d, "," + values);
    assert a[..|d|] == d && a[|d|..] == "," + values;
    AfterIs(",", values);
    LiteralRead(val, tail);
    AfterIs(")ON DUPLICATE KEY UPDATE val = ", update);
    LiteralRead(val, "");
    NumberOfDecimal(key);
  }
}
