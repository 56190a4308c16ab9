/** A string written in \u escapes is read as its UTF-8 encoding. */
module UnicodeTheorems {
  import opened Bytes
  import opened Document
  import opened Ascii
  import opened Unicode
  import opened Json

  /** A Unicode scalar value: any code point but a surrogate. */
  predicate Scalar(cp: nat) {
    cp < 0xD800 || 0xE000 <= cp < 0x11_0000
  }

  predicate Scalars(cps: seq<nat>) {
    forall i :: 0 <= i < |cps| ==> Scalar(cps[i])
  }

  /** The code units of a scalar value, section 2.1 of RFC 2781. */
  function Utf16(cp: nat): (us: seq<nat>)
    requires Scalar(cp)
    ensures forall i :: 0 <= i < |us| ==> us[i] < 0x1_0000
  {
    if cp < 0x1_0000 then [cp] else [0xD800 + (cp - 0x1_0000) / 0x400, 0xDC00 + (cp - 0x1_0000) % 0x400]
  }

  function HexDigit(n: nat, upper: bool): (c: byte)
    requires n < 0x10
    ensures DecodeHex(c) == n && c != NUL
  {
    if n < 10 then 0x30 + n else if upper then 0x41 + n - 10 else 0x61 + n - 10
  }

  /** An escape; digit number k of all has its own case. */
  function UnitText(u: nat, cases: nat -> bool, k: nat): bytes
    requires u < 0x1_0000
  {
    [BACKSLASH, 0x75] + [HexDigit(u / 0x1000, cases(k)), HexDigit(u / 0x100 % 0x10, cases(k + 1)),
                         HexDigit(u / 0x10 % 0x10, cases(k + 2)), HexDigit(u % 0x10, cases(k + 3))]
  }

  function EscapedScalar(cp: nat, cases: nat -> bool, k: nat): bytes
    requires Scalar(cp)
  {
    var us := Utf16(cp);
    if |us| == 1 then UnitText(us[0], cases, k) else UnitText(us[0], cases, k) + UnitText(us[1], cases, k + 4)
  }

  function EscapedScalars(cps: seq<nat>, cases: nat -> bool, k: nat): bytes
    requires Scalars(cps)
  {
    if cps == [] then [] else EscapedScalar(cps[0], cases, k) + EscapedScalars(cps[1..], cases, k + 4 * |Utf16(cps[0])|)
  }

  function Utf8All(cps: seq<nat>): bytes
    requires Scalars(cps)
  {
    if cps == [] then [] else Utf8(cps[0]) + Utf8All(cps[1..])
  }

  lemma HexStep(n: nat, upper: bool, rest: bytes, count: nat, value: nat)
    requires n < 0x10 && value * 0x10 + n < 0x1_0000
    ensures ParseHex([HexDigit(n, upper)] + rest, count + 1, value) == ParseHex(rest, count, value * 0x10 + n)
  {
    assert ([HexDigit(n, upper)] + rest)[1..] == rest;
  }

  lemma FourDigits(u: nat)
    requires u < 0x1_0000
    ensures u / 0x1000 < 0x10
    ensures u / 0x1000 * 0x10 + u / 0x100 % 0x10 == u / 0x100
    ensures u / 0x100 * 0x10 + u / 0x10 % 0x10 == u / 0x10
    ensures u / 0x10 * 0x10 + u % 0x10 == u
  {
  }

  lemma HexRead(u: nat, cases: nat -> bool, k: nat, tail: bytes)
    requires u < 0x1_0000
    ensures ParseHex(UnitText(u, cases, k)[2..] + tail, 4, 0) == Ok(u, tail)
  {
    FourDigits(u);
    DigitsRead(u / 0x1000, u / 0x100 % 0x10, u / 0x10 % 0x10, u % 0x10, cases(k), cases(k + 1), cases(k + 2),
               cases(k + 3), tail);
  }

  lemma DigitsRead(a: nat, b: nat, c: nat, d: nat, ua: bool, ub: bool, uc: bool, ud: bool, tail: bytes)
    requires a < 0x10 && b < 0x10 && c < 0x10 && d < 0x10
    ensures ParseHex([HexDigit(a, ua), HexDigit(b, ub), HexDigit(c, uc), HexDigit(d, ud)] + tail, 4, 0)
            == Ok(((a * 0x10 + b) * 0x10 + c) * 0x10 + d, tail)
  {
    hide HexDigit;
    var s3 := [HexDigit(d, ud)] + tail;
    var s2 := [HexDigit(c, uc)] + s3;
    var s1 := [HexDigit(b, ub)] + s2;
    HexStep(a, ua, s1, 3, 0);
    HexStep(b, ub, s2, 2, a);
    HexStep(c, uc, s3, 1, a * 0x10 + b);
    HexStep(d, ud, tail, 0, (a * 0x10 + b) * 0x10 + c);
    assert [HexDigit(a, ua), HexDigit(b, ub), HexDigit(c, uc), HexDigit(d, ud)] + tail == [HexDigit(a, ua)] + s1;
  }

  lemma UnitRead(u: nat, cases: nat -> bool, k: nat, s: bytes, high: nat, before: bytes)
    requires u < 0x1_0000 && high < 0x400
    ensures StringText(UnitText(u, cases, k) + s, QUOTE, high, before)
            == StringText(s, QUOTE, NextHigh(u, high), before + Unit(u, high))
  {
    HexRead(u, cases, k, s);
    var t := UnitText(u, cases, k) + s;
    assert t[1..][1..] == UnitText(u, cases, k)[2..] + s;
  }

  /** The last high surrogate is never cleared, so the state varies. */
  lemma ScalarRead(cp: nat, cases: nat -> bool, k: nat, s: bytes, high: nat, before: bytes) returns (next: nat)
    requires Scalar(cp) && high < 0x400
    ensures next < 0x400
    ensures StringText(EscapedScalar(cp, cases, k) + s, QUOTE, high, before)
            == StringText(s, QUOTE, next, before + Utf8(cp))
  {
    if cp < 0x1_0000 {
      UnitRead(cp, cases, k, s, high, before);
      next := high;
    } else {
      next := PairRead(cp, cases, k, s, high, before);
    }
  }

  lemma Surrogates(cp: nat)
    requires 0x1_0000 <= cp < 0x11_0000
    ensures
      var x := cp - 0x1_0000;
      var u, l := 0xD800 + x / 0x400, 0xDC00 + x % 0x400;
      && IsHighSurrogate(u) && IsLowSurrogate(l)
      && u % 0x400 == x / 0x400 && l % 0x400 == x % 0x400
      && 0x1_0000 + x / 0x400 * 0x400 + x % 0x400 == cp
  {
  }

  lemma PairRead(cp: nat, cases: nat -> bool, k: nat, s: bytes, high: nat, before: bytes) returns (next: nat)
    requires 0x1_0000 <= cp < 0x11_0000 && high < 0x400
    ensures next < 0x400
    ensures StringText(EscapedScalar(cp, cases, k) + s, QUOTE, high, before)
            == StringText(s, QUOTE, next, before + Utf8(cp))
  {
    hide StringText, UnitText;
    Surrogates(cp);
    var u, l := Utf16(cp)[0], Utf16(cp)[1];
    next := u % 0x400;
    UnitRead(u, cases, k, UnitText(l, cases, k + 4) + s, high, before);
    assert before + [] == before;
    UnitRead(l, cases, k + 4, s, next, before);
    Associates(UnitText(u, cases, k), UnitText(l, cases, k + 4), s);
    assert Unit(l, next) == Utf8(cp);
  }

  lemma TextEnds(tail: bytes, high: nat, before: bytes)
    requires high < 0x400
    ensures StringText([QUOTE] + tail, QUOTE, high, before) == Ok(before, tail)
  {
    assert ([QUOTE] + tail)[1..] == tail;
  }

  lemma {:induction false} ScalarsRead(cps: seq<nat>, cases: nat -> bool, k: nat, tail: bytes, high: nat, before: bytes)
    requires Scalars(cps) && high < 0x400
    ensures StringText(EscapedScalars(cps, cases, k) + ([QUOTE] + tail), QUOTE, high, before)
            == Ok(before + Utf8All(cps), tail)
    decreases cps
  {
    hide StringText, EscapedScalar, Utf8, Utf16;
    var end := [QUOTE] + tail;
    if cps == [] {
      TextEnds(tail, high, before);
      assert EscapedScalars(cps, cases, k) + end == end && before + Utf8All(cps) == before;
    } else {
      var more := k + 4 * |Utf16(cps[0])|;
      Associates(EscapedScalar(cps[0], cases, k), EscapedScalars(cps[1..], cases, more), end);
      var next := ScalarRead(cps[0], cases, k, EscapedScalars(cps[1..], cases, more) + end, high, before);
      ScalarsRead(cps[1..], cases, more, tail, next, before + Utf8(cps[0]));
      Associates(before, Utf8(cps[0]), Utf8All(cps[1..]));
    }
  }

  /** A quoted string of escapes, each hexadecimal digit in either case. */
  lemma EscapesAreUtf8(cps: seq<nat>, cases: nat -> bool, tail: bytes, maxString: nat)
    requires Scalars(cps)
    ensures ParseString([QUOTE] + EscapedScalars(cps, cases, 0) + [QUOTE] + tail, maxString)
            == if |Utf8All(cps)| <= maxString then Ok(Str(Utf8All(cps)), tail) else Err(NoMemory)
  {
    var text := EscapedScalars(cps, cases, 0);
    var s := [QUOTE] + text + [QUOTE] + tail;
    assert s == [QUOTE] + (text + ([QUOTE] + tail));
    assert s[0] == QUOTE && s[1..] == text + ([QUOTE] + tail);
    ScalarsRead(cps, cases, 0, tail, 0, []);
    assert [] + Utf8All(cps) == Utf8All(cps);
  }
}
