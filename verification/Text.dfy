/** Scanning text from the left. */
module Text {
  import opened Decimals
  import opened Wrappers

  /** The kinds of characters that are scanned for. */
  datatype CharKind = Digit | Hex | Space | NotSeparator | NotColon

  predicate IsHexDigit(c: char)
  {
    '0' <= c <= '9' || 'a' <= c <= 'f' || 'A' <= c <= 'F'
  }

  /** The white space of the C locale. */
  predicate IsSpace(c: char)
  {
    c == ' ' || '\t' <= c <= '\r'
  }

  /** The characters that end the name part of a port name. */
  predicate IsSeparator(c: char)
  {
    c in "-*^{}/@"
  }

  predicate Is(k: CharKind, c: char)
  {
    match k
    case Digit => IsDigit(c)
    case Hex => IsHexDigit(c)
    case Space => IsSpace(c)
    case NotSeparator => !IsSeparator(c)
    case NotColon => c != ':'
  }

  predicate All(k: CharKind, s: string)
  {
    forall c :: c in s ==> Is(k, c)
  }

  /** The length of the longest beginning of s whose characters are all of kind k. */
  function Span(k: CharKind, s: string): (n: nat)
    ensures n <= |s|
  {
    if s != "" && Is(k, s[0]) then 1 + Span(k, s[1..]) else 0
  }

  lemma {:induction false} SpanIsLongest(k: CharKind, s: string)
    ensures All(k, s[..Span(k, s)]) && (Span(k, s) < |s| ==> !Is(k, s[Span(k, s)]))
  {
    hide Is;
    if s != "" && Is(k, s[0]) {
      SpanIsLongest(k, s[1..]);
      assert s[..Span(k, s)] == [s[0]] + s[1..][..Span(k, s[1..])];
    }
  }

  /** A beginning all of kind k, followed by a character that is not, is what Span finds. */
  lemma {:induction false} SpanIs(k: CharKind, d: string, rest: string)
    requires All(k, d) && (rest == "" || !Is(k, rest[0]))
    ensures Span(k, d + rest) == |d|
  {
    hide Is;
    if d == "" {
      assert d + rest == rest;
    } else {
      assert (d + rest)[1..] == d[1..] + rest && d[0] in d;
      assert forall c :: c in d[1..] ==> c in d;
      SpanIs(k, d[1..], rest);
    }
  }

  /** What follows the beginning p of s. */
  function After(s: string, p: string): Option<string>
  {
    if p <= s then Some(s[|p|..]) else None
  }

  lemma AfterIs(p: string, rest: string)
    ensures After(p + rest, p) == Some(rest)
  {
  }
}
