/** UTF-16 escapes in, UTF-8 bytes out. */
module Unicode {
  import opened Bytes
  import opened StringBuilders

  predicate IsHighSurrogate(u: nat) { 0xD800 <= u < 0xDC00 }

  predicate IsLowSurrogate(u: nat) { 0xDC00 <= u < 0xE000 }

  /** The octets of a character number, by the table of RFC 3629 section 3. */
  function Utf8(cp: nat): bytes
    requires cp < 0x20_0000
  {
    if cp < 0x80 then [cp]
    else if cp < 0x800 then [0xC0 + cp / 0x40, 0x80 + cp % 0x40]
    else if cp < 0x1_0000 then [0xE0 + cp / 0x1000, 0x80 + cp / 0x40 % 0x40, 0x80 + cp % 0x40]
    else [0xF0 + cp / 0x4_0000, 0x80 + cp / 0x1000 % 0x40, 0x80 + cp / 0x40 % 0x40, 0x80 + cp % 0x40]
  }

  /** x | p and x & ~p, for a power of two p. */
  function SetBit(x: nat, p: nat): nat
    requires p > 0
  {
    if x / p % 2 == 1 then x else x + p
  }

  function ClearBit(x: nat, p: nat): int
    requires p > 0
  {
    if x / p % 2 == 1 then x - p else x
  }

  /** char((x | 0x80) & 0xBF) */
  function Continuation(x: nat): (c: byte)
    ensures c == 0x80 + x % 0x40
  {
    ClearBit(SetBit(x % 0x100, 0x80), 0x40)
  }

  /** A code point in the making: the last high surrogate waits for its pair. */
  class Codepoint {
    var highSurrogate: nat
    var codepoint: nat

    constructor ()
      ensures highSurrogate == 0
    {
      highSurrogate, codepoint := 0, 0;
    }

    /** True once a code point is complete. */
    method Append(codeunit: nat) returns (complete: bool)
      requires codeunit < 0x1_0000 && highSurrogate < 0x400
      modifies this
      ensures highSurrogate < 0x400
      ensures complete <==> !IsHighSurrogate(codeunit)
      ensures highSurrogate == if complete then old(highSurrogate) else codeunit - 0xD800
      ensures complete && IsLowSurrogate(codeunit) ==>
        codepoint == 0x1_0000 + old(highSurrogate) * 0x400 + (codeunit - 0xDC00)
      ensures complete && !IsLowSurrogate(codeunit) ==> codepoint == codeunit
    {
      if IsHighSurrogate(codeunit) {
        highSurrogate := codeunit % 0x400;
        return false;
      }
      if IsLowSurrogate(codeunit) {
        codepoint := 0x1_0000 + (highSurrogate * 0x400 + codeunit % 0x400);
        return true;
      }
      codepoint := codeunit;
      return true;
    }
  }

  /** The marker bits of a leading byte are above the bits of x. */
  function Leading(x: nat, mark: byte): (c: byte)
    requires (mark == 0xC0 && x < 0x20) || ((mark == 0xE0 || mark == 0xF0) && x < 0x10)
    ensures c == mark + x
  {
    SetBit(SetBit(if mark == 0xC0 then x else SetBit(if mark == 0xE0 then x else SetBit(x, 0x10), 0x20), 0x40), 0x80)
  }

  lemma Shifts(x: nat)
    ensures x / 0x40 / 0x40 == x / 0x1000 && x / 0x40 / 0x40 / 0x40 == x / 0x4_0000
  {
  }

  /** The buffer of encodeCodepoint, filled backwards behind a NUL. */
  method FillBuffer(codepoint32: nat) returns (buf: bytes)
    requires 0x80 <= codepoint32 < 0x20_0000
    ensures |buf| == |Utf8(codepoint32)| + 1 && buf[0] == 0
    ensures forall i :: 1 <= i < |buf| ==> buf[i] == Utf8(codepoint32)[|buf| - 1 - i] && buf[i] != 0
  {
    buf := [0];
    buf := buf + [Continuation(codepoint32)];
    var codepoint16 := codepoint32 / 0x40;
    if codepoint16 < 0x20 {
      buf := buf + [Leading(codepoint16, 0xC0)];
    } else {
      buf := buf + [Continuation(codepoint16)];
      codepoint16 := codepoint16 / 0x40;
      if codepoint16 < 0x10 {
        buf := buf + [Leading(codepoint16, 0xE0)];
      } else {
        buf := buf + [Continuation(codepoint16)];
        codepoint16 := codepoint16 / 0x40;
        buf := buf + [Leading(codepoint16, 0xF0)];
      }
    }
    Shifts(codepoint32);
  }

  /** The buffer is emptied from its end down to the NUL. */
  method EncodeCodepoint(codepoint32: nat, str: StringBuilder)
    requires codepoint32 < 0x20_0000 && str.Valid()
    modifies str
    ensures str.Valid()
    ensures str.Content() == Extended(old(str.Content()), Utf8(codepoint32), str.maxString)
  {
    if codepoint32 < 0x80 {
      str.Append(codepoint32);
    } else {
      hide Utf8;
      var buf := FillBuffer(codepoint32);
      str.NotExtended();
      var p := |buf| - 1;
      while buf[p] != 0
        invariant 0 <= p < |buf|
        invariant str.Valid()
        invariant str.Content() == Extended(old(str.Content()), Utf8(codepoint32)[..|buf| - 1 - p], str.maxString)
        decreases p
      {
        assert Utf8(codepoint32)[..|buf| - p] == Utf8(codepoint32)[..|buf| - 1 - p] + [buf[p]];
        ExtendedTwice(old(str.Content()), Utf8(codepoint32)[..|buf| - 1 - p], [buf[p]], str.maxString);
        str.Append(buf[p]);
        p := p - 1;
      }
      assert p == 0 && Utf8(codepoint32)[..|buf| - 1] == Utf8(codepoint32);
    }
  }
}
