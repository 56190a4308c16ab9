/** Bytes, fixed-width integers and their big-endian form. */
module Bytes {

  type byte = i: int | 0 <= i < 256
  type bytes = seq<byte>

  lemma Associates<T>(a: seq<T>, b: seq<T>, c: seq<T>)
    ensures a + b + c == a + (b + c)
  {
  }

  lemma Regroups<T>(a: seq<T>, b: seq<T>, c: seq<T>, d: seq<T>, e: seq<T>)
    ensures a + b + c + d + e == a + (b + (c + (d + e)))
  {
  }

  /** 256 to the power k: the number of values k bytes can hold. */
  function Span(k: nat): (p: int)
    ensures p >= 1
  {
    if k == 0 then 1 else 256 * Span(k - 1)
  }

  function BigEndian(n: nat, k: nat): (s: bytes)
    ensures |s| == k
  {
    if k == 0 then [] else BigEndian(n / 256, k - 1) + [n % 256]
  }

  function LittleEndian(n: nat, k: nat): (s: bytes)
    ensures |s| == k
  {
    if k == 0 then [] else [n % 256] + LittleEndian(n / 256, k - 1)
  }

  function FromBigEndian(s: bytes): (n: nat)
    ensures n < Span(|s|)
  {
    if s == [] then 0 else 256 * FromBigEndian(s[..|s| - 1]) + s[|s| - 1]
  }

  lemma {:induction false} BigEndianRoundTrip(n: nat, k: nat)
    requires n < Span(k)
    ensures FromBigEndian(BigEndian(n, k)) == n
  {
    if k > 0 {
      BigEndianRoundTrip(n / 256, k - 1);
      assert BigEndian(n, k)[..k - 1] == BigEndian(n / 256, k - 1);
    }
  }

  function Reversed(s: bytes): (r: bytes)
    ensures |r| == |s|
    ensures forall i :: 0 <= i < |s| ==> r[i] == s[|s| - 1 - i]
  {
    if s == [] then [] else Reversed(s[1..]) + [s[0]]
  }

  function FromLittleEndian(s: bytes): (n: nat) {
    if s == [] then 0 else s[0] + 256 * FromLittleEndian(s[1..])
  }

  lemma {:induction false} SwappedReadsBigEndian(s: bytes)
    ensures FromLittleEndian(Reversed(s)) == FromBigEndian(s)
  {
    if s != [] {
      var last := |s| - 1;
      assert Reversed(s)[1..] == Reversed(s[..last]);
      SwappedReadsBigEndian(s[..last]);
    }
  }

  /** A little-endian host stores n reversed: swapping gives network order. */
  lemma {:induction false} SwappedIsBigEndian(n: nat, k: nat)
    ensures Reversed(LittleEndian(n, k)) == BigEndian(n, k)
  {
    if k > 0 {
      SwappedIsBigEndian(n / 256, k - 1);
      assert LittleEndian(n, k)[1..] == LittleEndian(n / 256, k - 1);
    }
  }

  // The places of a number, written out.

  lemma Unfold(s: bytes, k: nat)
    requires k < |s|
    ensures FromBigEndian(s[..k + 1]) == 0x100 * FromBigEndian(s[..k]) + s[k]
  {
    assert s[..k + 1][..k] == s[..k];
  }

  lemma OneByteRead(s: bytes)
    requires |s| == 1
    ensures FromBigEndian(s) == s[0]
  {
    assert s[..0] == [];
  }

  lemma TwoBytesRead(s: bytes)
    requires |s| == 2
    ensures FromBigEndian(s) == 0x100 * (s[0] as int) + s[1]
  {
    OneByteRead(s[..1]);
    Unfold(s, 1);
    assert s[..2] == s;
  }

  lemma FourBytesRead(s: bytes)
    requires |s| == 4
    ensures FromBigEndian(s)
            == 0x100_0000 * (s[0] as int) + 0x1_0000 * (s[1] as int) + 0x100 * (s[2] as int) + s[3]
  {
    TwoBytesRead(s[..2]);
    Unfold(s, 2);
    Unfold(s, 3);
    assert s[..4] == s;
  }

  lemma EightBytesRead(s: bytes)
    requires |s| == 8
    ensures FromBigEndian(s)
            == 0x100_0000_0000_0000 * (s[0] as int) + 0x1_0000_0000_0000 * (s[1] as int)
               + 0x100_0000_0000 * (s[2] as int) + 0x1_0000_0000 * (s[3] as int)
               + 0x100_0000 * (s[4] as int) + 0x1_0000 * (s[5] as int) + 0x100 * (s[6] as int) + s[7]
  {
    FourBytesRead(s[..4]);
    assert s[..4][0] == s[0] && s[..4][1] == s[1] && s[..4][2] == s[2] && s[..4][3] == s[3];
    Unfold(s, 4);
    Unfold(s, 5);
    Unfold(s, 6);
    Unfold(s, 7);
    assert s[..8] == s;
  }

  lemma {:induction false} Unwritten(n: nat, k: nat)
    ensures BigEndian(n, k + 1) == BigEndian(n / 0x100, k) + [n % 0x100]
    ensures BigEndian(n, 0) == []
  {
  }

  lemma TwoBytesWritten(n: nat)
    ensures BigEndian(n, 1) == [n % 0x100]
    ensures BigEndian(n, 2) == [n / 0x100 % 0x100, n % 0x100]
  {
    Unwritten(n, 0);
    Unwritten(n, 1);
    Unwritten(n / 0x100, 0);
    Unwritten(n / 0x100 / 0x100, 0);
  }

  lemma FourBytesWritten(n: nat)
    ensures BigEndian(n, 4) == [n / 0x100_0000 % 0x100, n / 0x1_0000 % 0x100, n / 0x100 % 0x100, n % 0x100]
  {
    Unwritten(n, 3);
    Unwritten(n / 0x100, 2);
    TwoBytesWritten(n / 0x100 / 0x100);
    assert n / 0x100 / 0x100 == n / 0x1_0000 && n / 0x1_0000 / 0x100 == n / 0x100_0000;
  }

  lemma EightBytesWritten(n: nat)
    ensures BigEndian(n, 8)
            == [n / 0x100_0000_0000_0000 % 0x100, n / 0x1_0000_0000_0000 % 0x100, n / 0x100_0000_0000 % 0x100,
                n / 0x1_0000_0000 % 0x100] + BigEndian(n, 4)
  {
    hide BigEndian;
    var m := n / 0x1_0000_0000;
    FourBytesWritten(m);
    assert BigEndian(n, 8) == BigEndian(m, 4) + BigEndian(n, 4) by { HalvesWritten(n); }
    assert m / 0x100 == n / 0x100_0000_0000 && m / 0x1_0000 == n / 0x1_0000_0000_0000;
    assert m / 0x100_0000 == n / 0x100_0000_0000_0000;
  }

  lemma HalvesWritten(n: nat)
    ensures BigEndian(n, 8) == BigEndian(n / 0x1_0000_0000, 4) + BigEndian(n, 4)
  {
    hide BigEndian;
    var a, b, c := n / 0x100, n / 0x1_0000, n / 0x100_0000;
    assert a / 0x100 == b && b / 0x100 == c && c / 0x100 == n / 0x1_0000_0000;
    Unwritten(n, 7);
    Unwritten(a, 6);
    Unwritten(b, 5);
    Unwritten(c, 4);
    FourBytesWritten(n);
    assert c % 0x100 == n / 0x100_0000 % 0x100;
  }

  /** Two's complement of width 8 * k bits. */
  function ToUnsigned(i: int, k: nat): (n: nat)
    requires -Span(k) <= i < Span(k)
    ensures n < Span(k)
  {
    if i < 0 then i + Span(k) else i
  }

  function ToSigned(n: nat, k: nat): (i: int)
    requires n < Span(k)
  {
    if 2 * n >= Span(k) then n - Span(k) else n
  }

  /** The text of a C string stops at the first NUL. */
  function CString(s: bytes): (r: bytes)
    ensures 0 !in r && r <= s
    ensures 0 !in s ==> r == s
    ensures |r| < |s| ==> s[|r|] == 0
  {
    if s == [] || s[0] == 0 then [] else [s[0]] + CString(s[1..])
  }
}
