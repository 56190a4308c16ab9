/** The strings and numbers that are written, and when the text of a string is
    one that section 7 of RFC 8259 allows. */
module StringTheorems {
  import opened Bytes
  import opened Ascii
  import opened Printer
  import Numbers
  import NumberTheorems

  /** The letter behind the backslash, for the bytes that have one. */
  const LETTERS: map<byte, byte> :=
    map[0x08 := 0x62, 0x09 := 0x74, 0x0A := 0x6E, 0x0C := 0x66, 0x0D := 0x72, 0x22 := 0x22, 0x5C := 0x5C]

  /** A byte is written as it is, but for these seven and zero. */
  lemma CharsWritten(c: byte)
    ensures CharText(c) == if c in LETTERS then [0x5C, LETTERS[c]]
                           else if c == 0 then [0x5C, 0x75, 0x30, 0x30, 0x30, 0x30]
                           else [c]
  {
  }

  /** Integers have no zeros in front, and their digits are those of the number. */
  lemma {:induction false} DigitsWritten(n: nat)
    ensures NumberTheorems.AllDigits(Digits(n)) && NumberTheorems.Number(Digits(n)) == n
    ensures Digits(n) != [] && (Digits(n)[0] == 0x30 <==> n == 0)
  {
    if n < 10 {
      assert Digits(n)[..0] == [];
    } else {
      DigitsWritten(n / 10);
      NumberTheorems.OneMore(Digits(n / 10), 0x30 + n % 10);
    }
  }

  lemma IntegerWritten(i: int)
    ensures var s := Numbers.IntegerText(i);
            var d := if i < 0 then s[1..] else s;
            && (i < 0 ==> s[0] == 0x2D)
            && NumberTheorems.AllDigits(d) && NumberTheorems.Number(d) == (if i < 0 then -i else i)
            && d != [] && (d[0] == 0x30 <==> i == 0)
  {
    DigitsWritten(if i < 0 then -i else i);
    if i < 0 { assert Numbers.IntegerText(i)[1..] == Digits(-i); }
  }

  // Section 7 of RFC 8259.

  predicate IsHexDigit4(s: bytes, i: nat) {
    i < |s| && (0x30 <= s[i] <= 0x39 || 0x41 <= s[i] <= 0x46 || 0x61 <= s[i] <= 0x66)
  }

  /** Characters: no control characters, and a backslash only before a letter that
      makes an escape, or u and four digits. */
  predicate IsJsonText(s: bytes)
    decreases |s|
  {
    if s == [] then true
    else if s[0] != 0x5C then s[0] >= 0x20 && s[0] != 0x22 && IsJsonText(s[1..])
    else if |s| > 1 && s[1] in {0x22, 0x5C, 0x2F, 0x62, 0x66, 0x6E, 0x72, 0x74} then IsJsonText(s[2..])
    else
      |s| > 1 && s[1] == 0x75 && IsHexDigit4(s, 2) && IsHexDigit4(s, 3) && IsHexDigit4(s, 4) && IsHexDigit4(s, 5)
      && IsJsonText(s[6..])
  }

  /** The control characters that are written as they are. */
  predicate LeftRaw(c: byte) {
    1 <= c <= 7 || c == 0x0B || 0x0E <= c <= 0x1F
  }

  lemma CharIsJson(c: byte, t: bytes)
    ensures IsJsonText(CharText(c) + t) <==> !LeftRaw(c) && IsJsonText(t)
  {
    CharsWritten(c);
    var s := CharText(c) + t;
    if c in LETTERS {
      assert s[2..] == t;
    } else if c == 0 {
      assert s[6..] == t;
    } else {
      assert s[1..] == t;
    }
  }

  /** What is written between the quotes is a JSON string exactly when none of these
      control characters is in the text. */
  lemma {:induction false} WrittenIsJson(s: bytes)
    ensures IsJsonText(Escaped(s)) <==> forall i | 0 <= i < |s| :: !LeftRaw(s[i])
  {
    if s != [] {
      WrittenIsJson(s[1..]);
      CharIsJson(s[0], Escaped(s[1..]));
      assert forall i | 1 <= i < |s| :: s[i] == s[1..][i - 1];
    }
  }

  /** A unit separator in a text. */
  lemma NotJson()
    ensures Escaped([0x1F]) == [0x1F] && !IsJsonText(Escaped([0x1F]))
  {
    assert [0x1F][1..] == [];
  }
}
