/** Characters, strings and integers as JSON text. */
module TextFormatters {
  import opened Bytes
  import opened Ascii
  import opened Document
  import opened Numbers
  import opened Printer

  class TextFormatter {
    // what writer_ has received
    var out: bytes

    constructor ()
      ensures out == []
    {
      out := [];
    }

    method WriteRaw(s: bytes)
      modifies this
      ensures out == old(out) + s
    {
      out := out + s;
    }

    method WriteBoolean(value: bool)
      modifies this
      ensures out == old(out) + if value then TRUE else FALSE
    {
      if value {
        WriteRaw(TRUE);
      } else {
        WriteRaw(FALSE);
      }
    }

    method WriteChar(c: byte)
      modifies this
      ensures out == old(out) + CharText(c)
    {
      var specialChar := FindEscape(c);
      if specialChar != 0 {
        WriteRaw([BACKSLASH]);
        WriteRaw([specialChar]);
      } else if c != NUL {
        WriteRaw([c]);
      } else {
        WriteRaw(NUL_TEXT);
      }
    }

    method WriteString(value: bytes)
      modifies this
      ensures out == old(out) + Quoted(value)
    {
      WriteRaw([QUOTE]);
      ghost var start := out;
      var s := value;
      while s != []
        invariant out + Escaped(s) == start + Escaped(value)
      {
        ghost var before := out;
        WriteChar(s[0]);
        Associates(before, CharText(s[0]), Escaped(s[1..]));
        s := s[1..];
      }
      assert out + [] == out;
      WriteRaw([QUOTE]);
      assert old(out) + [QUOTE] + Escaped(value) + [QUOTE] == old(out) + Quoted(value);
    }

    method WriteUnsigned(value: nat)
      requires value <= UINT_MAX
      modifies this
      ensures out == old(out) + Digits(value)
    {
      var buffer := new byte[22];
      var begin: nat := 21;
      var v := value;
      DigitsFit(value);
      // the last digit first, from the end of the buffer down
      buffer[begin] := v % 10 + 0x30;
      v := v / 10;
      while v != 0
        invariant 0 < begin < 22 && out == old(out)
        invariant v != 0 ==> |Digits(v)| < begin
        invariant Digits(value) == (if v == 0 then [] else Digits(v)) + buffer[begin..]
      {
        ghost var done := buffer[begin..];
        begin := begin - 1;
        buffer[begin] := v % 10 + 0x30;
        DigitsStep(v, buffer[begin], done);
        assert buffer[begin..] == [buffer[begin]] + done;
        v := v / 10;
      }
      // what was filled, from its first digit on
      assert [] + buffer[begin..] == buffer[begin..];
      WriteRaw(buffer[begin..]);
    }

    method WriteInteger(value: int)
      requires INT_MIN <= value <= UINT_MAX
      modifies this
      ensures out == old(out) + IntegerText(value)
    {
      if value < 0 {
        WriteRaw([MINUS]);
        WriteUnsigned(-value);
      } else {
        WriteUnsigned(value);
      }
    }
  }

  lemma DigitsStep(v: nat, digit: byte, done: bytes)
    requires v != 0 && digit == v % 10 + 0x30
    ensures Digits(v) + done == (if v / 10 == 0 then [] else Digits(v / 10)) + ([digit] + done)
    ensures v / 10 != 0 ==> |Digits(v / 10)| == |Digits(v)| - 1
  {
  }

  lemma DigitsFit(n: nat)
    requires n <= UINT_MAX
    ensures |Digits(n)| <= 20
  {
    assert PowerOf10(10) == 10_000_000_000;
    assert PowerOf10(15) == 1_000_000_000_000_000;
    assert PowerOf10(20) == 100_000_000_000_000_000_000;
    DigitsLength(n, 20, 100_000_000_000_000_000_000);
  }
}
