/** The characters that matter to JSON, and the tables built on them. */
module Ascii {
  import opened Bytes

  const NUL: byte := 0
  const TAB: byte := 9
  const LF: byte := 10
  const CR: byte := 13
  const SPACE: byte := 0x20
  const QUOTE: byte := 0x22
  const APOSTROPHE: byte := 0x27
  const PLUS: byte := 0x2B
  const COMMA: byte := 0x2C
  const MINUS: byte := 0x2D
  const DOT: byte := 0x2E
  const SOLIDUS: byte := 0x2F
  const COLON: byte := 0x3A
  const BACKSLASH: byte := 0x5C
  const OPEN_ARRAY: byte := 0x5B
  const CLOSE_ARRAY: byte := 0x5D
  const OPEN_OBJECT: byte := 0x7B
  const CLOSE_OBJECT: byte := 0x7D

  const TRUE: bytes := [0x74, 0x72, 0x75, 0x65]
  const FALSE: bytes := [0x66, 0x61, 0x6C, 0x73, 0x65]
  const NULL: bytes := [0x6E, 0x75, 0x6C, 0x6C]

  predicate IsDigit(c: byte) { 0x30 <= c <= 0x39 }

  predicate IsSpace(c: byte) { c == SPACE || c == TAB || c == CR || c == LF }

  predicate IsQuote(c: byte) { c == QUOTE || c == APOSTROPHE }

  /** With ARDUINOJSON_ENABLE_NAN and _INFINITY off. */
  predicate CanBeInNumber(c: byte) {
    IsDigit(c) || c == PLUS || c == MINUS || c == DOT || c == 0x65 || c == 0x45
  }

  predicate CanBeInNonQuotedString(c: byte) {
    IsDigit(c) || 0x5F <= c <= 0x7A || 0x41 <= c <= 0x5A
  }

  /** The value of decodeHex, as an 8-bit number; above 15 means no digit.
      The characters from ':' to '?' and '`' pass for digits as well. */
  function DecodeHex(c: byte): byte {
    if c < 0x41 then (c - 0x30) % 256
    else (if c / 0x20 % 2 == 1 then c - 0x20 else c) - 0x41 + 10
  }

  predicate IsHexDigit(c: byte) {
    IsDigit(c) || 0x41 <= c <= 0x46 || 0x61 <= c <= 0x66
  }

  /** Which characters pass, and which digits are read right: none of the others. */
  lemma LaxHex(c: byte)
    ensures DecodeHex(c) <= 15 <==> IsHexDigit(c) || 0x3A <= c <= 0x3F || c == 0x60
    ensures IsHexDigit(c) ==>
              DecodeHex(c) == if IsDigit(c) then c - 0x30 else if c <= 0x46 then c - 0x37 else c - 0x57
  {
  }

  /** Escaped letter and the character it stands for. */
  const ESCAPES: seq<(byte, byte)> :=
    [(SOLIDUS, SOLIDUS), (QUOTE, QUOTE), (BACKSLASH, BACKSLASH),
     (0x62, 0x08), (0x66, 0x0C), (0x6E, LF), (0x72, CR), (0x74, TAB)]

  /** The letter written for c behind a backslash; zero if c is written raw. */
  function EscapeChar(c: byte): byte {
    if c == QUOTE then QUOTE
    else if c == BACKSLASH then BACKSLASH
    else if c == 0x08 then 0x62
    else if c == 0x0C then 0x66
    else if c == LF then 0x6E
    else if c == CR then 0x72
    else if c == TAB then 0x74
    else 0
  }

  /** The character the letter c stands for; zero if it stands for none. */
  function UnescapeChar(c: byte): byte {
    if c == SOLIDUS then SOLIDUS
    else if c == QUOTE then QUOTE
    else if c == BACKSLASH then BACKSLASH
    else if c == 0x62 then 0x08
    else if c == 0x66 then 0x0C
    else if c == 0x6E then LF
    else if c == 0x72 then CR
    else if c == 0x74 then TAB
    else 0
  }

  /** The search of escapeChar: the solidus is left out, the table ends in NUL. */
  method FindEscape(c: byte) returns (letter: byte)
    ensures letter == EscapeChar(c)
  {
    var p := 1;
    while p < |ESCAPES| && ESCAPES[p].1 != c
      invariant 1 <= p <= |ESCAPES|
      invariant forall i :: 1 <= i < p ==> ESCAPES[i].1 != c
    {
      p := p + 1;
    }
    letter := if p < |ESCAPES| then ESCAPES[p].0 else 0;
    assert p == |ESCAPES| ==>
      ESCAPES[1].1 != c && ESCAPES[2].1 != c && ESCAPES[3].1 != c && ESCAPES[4].1 != c &&
      ESCAPES[5].1 != c && ESCAPES[6].1 != c && ESCAPES[7].1 != c;
  }

  method FindUnescape(c: byte) returns (r: byte)
    ensures r == UnescapeChar(c)
  {
    var p := 0;
    while p < |ESCAPES|
      invariant 0 <= p <= |ESCAPES|
      invariant forall i :: 0 <= i < p ==> ESCAPES[i].0 != c
    {
      if ESCAPES[p].0 == c { return ESCAPES[p].1; }
      p := p + 1;
    }
    r := 0;
    assert
      ESCAPES[0].0 != c && ESCAPES[1].0 != c && ESCAPES[2].0 != c && ESCAPES[3].0 != c &&
      ESCAPES[4].0 != c && ESCAPES[5].0 != c && ESCAPES[6].0 != c && ESCAPES[7].0 != c;
  }

  function Digits(n: nat): (s: bytes)
    ensures s != [] && forall c <- s :: IsDigit(c)
  {
    if n < 10 then [0x30 + n] else Digits(n / 10) + [0x30 + n % 10]
  }
}
