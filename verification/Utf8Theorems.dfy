/** The UTF-8 that the parser writes, read back by the rules of section 3 of
    RFC 3629. */
module Utf8Theorems {
  import opened Bytes
  import opened Options
  import opened Document
  import opened Ascii
  import opened Unicode
  import opened Json
  import opened UnicodeTheorems

  predicate IsContinuation(s: bytes, i: nat) {
    i < |s| && 0x80 <= s[i] <= 0xBF
  }

  /** The character at the front of s: how many octets it has is told by the
      first, and none may be written longer than it has to. */
  function FromUtf8(s: bytes): Option<(nat, bytes)> {
    if s == [] then None
    else if s[0] <= 0x7F then Some((s[0], s[1..]))
    else if 0xC0 <= s[0] <= 0xDF && IsContinuation(s, 1) then
      var cp := (s[0] - 0xC0) as int * 64 + (s[1] - 0x80) as int;
      if cp < 0x80 then None else Some((cp, s[2..]))
    else if 0xE0 <= s[0] <= 0xEF && IsContinuation(s, 1) && IsContinuation(s, 2) then
      var cp := (s[0] - 0xE0) as int * 4096 + (s[1] - 0x80) as int * 64 + (s[2] - 0x80) as int;
      if cp < 0x800 || 0xD800 <= cp <= 0xDFFF then None else Some((cp, s[3..]))
    else if 0xF0 <= s[0] <= 0xF7 && IsContinuation(s, 1) && IsContinuation(s, 2) && IsContinuation(s, 3) then
      var cp := (s[0] - 0xF0) as int * 262144 + (s[1] - 0x80) as int * 4096 + (s[2] - 0x80) as int * 64
                + (s[3] - 0x80) as int;
      if cp < 0x1_0000 || cp > 0x10_FFFF then None else Some((cp, s[4..]))
    else None
  }

  lemma Octets(cp: nat)
    requires cp < 0x11_0000
    ensures |Utf8(cp)| == if cp <= 0x7F then 1 else if cp <= 0x7FF then 2 else if cp <= 0xFFFF then 3 else 4
  {
  }

  /** Every character is read back, whatever follows it. */
  lemma Utf8Read(cp: nat, tail: bytes)
    requires Scalar(cp)
    ensures FromUtf8(Utf8(cp) + tail) == Some((cp, tail))
  {
    var s := Utf8(cp) + tail;
    Octets(cp);
    assert s[|Utf8(cp)|..] == tail;
    if cp >= 0x1_0000 {
      FourOctets(cp);
    } else if cp >= 0x800 {
      ThreeOctets(cp);
    }
  }

  lemma ThreeOctets(cp: nat)
    requires cp < 0x1_0000
    ensures cp / 0x1000 * 4096 + cp / 0x40 % 0x40 * 64 + cp % 0x40 == cp
  {
    assert cp / 0x40 / 0x40 == cp / 0x1000;
  }

  lemma FourOctets(cp: nat)
    requires cp < 0x20_0000
    ensures cp / 0x4_0000 * 262144 + cp / 0x1000 % 0x40 * 4096 + cp / 0x40 % 0x40 * 64 + cp % 0x40 == cp
  {
    Shifts(cp);
  }

  /** Only scalar values are read, and only as the parser writes them. */
  lemma OnlyUtf8Read(s: bytes)
    ensures match FromUtf8(s)
            case None => forall cp: nat, tail: bytes | Scalar(cp) :: s != Utf8(cp) + tail
            case Some((cp, tail)) => Scalar(cp) && s == Utf8(cp) + tail
  {
    match FromUtf8(s) {
      case None =>
        forall cp: nat, tail: bytes | Scalar(cp) ensures s != Utf8(cp) + tail {
          Utf8Read(cp, tail);
        }
      case Some(read) =>
        Rewritten(s, read.0, read.1);
    }
  }

  lemma Rewritten(s: bytes, cp: nat, tail: bytes)
    requires FromUtf8(s) == Some((cp, tail))
    ensures Scalar(cp) && s == Utf8(cp) + tail
  {
    if s[0] <= 0x7F {
    } else if s[0] <= 0xDF {
      TwoBack(s[0] - 0xC0, s[1] - 0x80, cp);
    } else if s[0] <= 0xEF {
      ThreeBack(s[0] - 0xE0, s[1] - 0x80, s[2] - 0x80, cp);
    } else {
      FourBack(s[0] - 0xF0, s[1] - 0x80, s[2] - 0x80, s[3] - 0x80, cp);
    }
  }

  lemma TwoBack(a: nat, b: nat, cp: nat)
    requires a < 0x20 && b < 0x40 && cp == a * 64 + b && cp >= 0x80
    ensures Utf8(cp) == [0xC0 + a, 0x80 + b]
  {
  }

  lemma ThreeBack(a: nat, b: nat, c: nat, cp: nat)
    requires a < 0x10 && b < 0x40 && c < 0x40 && cp == a * 4096 + b * 64 + c && cp >= 0x800
    ensures Utf8(cp) == [0xE0 + a, 0x80 + b, 0x80 + c]
  {
    assert cp / 0x40 == a * 64 + b;
  }

  lemma FourBack(a: nat, b: nat, c: nat, d: nat, cp: nat)
    requires a < 8 && b < 0x40 && c < 0x40 && d < 0x40
    requires cp == a * 262144 + b * 4096 + c * 64 + d && cp >= 0x1_0000
    ensures Utf8(cp) == [0xF0 + a, 0x80 + b, 0x80 + c, 0x80 + d]
  {
    assert cp / 0x40 == a * 4096 + b * 64 + c;
    assert cp / 0x1000 == a * 64 + b;
  }

  /** The characters of a text; none if it is not UTF-8 throughout. */
  function FromUtf8All(s: bytes): Option<seq<nat>>
    decreases |s|
  {
    if s == [] then Some([])
    else
      match FromUtf8(s)
      case None => None
      case Some((cp, rest)) =>
        match FromUtf8All(rest)
        case None => None
        case Some(cps) => Some([cp] + cps)
  }

  lemma {:induction false} Utf8AllRead(cps: seq<nat>)
    requires Scalars(cps)
    ensures FromUtf8All(Utf8All(cps)) == Some(cps)
  {
    if cps != [] {
      Utf8Read(cps[0], Utf8All(cps[1..]));
      Octets(cps[0]);
      Utf8AllRead(cps[1..]);
      assert [cps[0]] + cps[1..] == cps;
    }
  }

  /** What the parser makes of a string written in escapes is UTF-8, and says
      these characters. */
  lemma EscapesSay(cps: seq<nat>, cases: nat -> bool, tail: bytes, maxString: nat)
    requires Scalars(cps)
    ensures var r := ParseString([QUOTE] + EscapedScalars(cps, cases, 0) + [QUOTE] + tail, maxString);
            if r.Ok? then r.value.Str? && FromUtf8All(r.value.s) == Some(cps) && r.rest == tail
            else r == Err(NoMemory) && |Utf8All(cps)| > maxString
  {
    EscapesAreUtf8(cps, cases, tail, maxString);
    Utf8AllRead(cps);
  }
}
