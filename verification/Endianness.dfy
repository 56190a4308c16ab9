/** Byte order of integers in memory, on a little-endian host. */
module Endianness {
  import opened Bytes

  method SwapBytes(p: array<byte>, i: nat, j: nat)
    requires i < p.Length && j < p.Length
    modifies p
    ensures p[..] == old(p[..])[i := old(p[j])][j := old(p[i])]
  {
    var t := p[i];
    p[i] := p[j];
    p[j] := t;
  }

  method FixEndianness(p: array<byte>)
    requires p.Length in {1, 2, 4, 8}
    modifies p
    ensures p[..] == Reversed(old(p[..]))
  {
    if p.Length == 8 {
      SwapBytes(p, 0, 7);
      SwapBytes(p, 1, 6);
      SwapBytes(p, 2, 5);
      SwapBytes(p, 3, 4);
    } else if p.Length == 4 {
      SwapBytes(p, 0, 3);
      SwapBytes(p, 1, 2);
    } else if p.Length == 2 {
      SwapBytes(p, 0, 1);
    }
  }

  /** The object representation of an unsigned integer, put in network order. */
  method ToNetwork(n: nat, k: nat) returns (s: bytes)
    requires k in {1, 2, 4, 8}
    ensures s == BigEndian(n, k)
  {
    var value := LittleEndian(n, k);
    var p := new byte[k](i requires 0 <= i < k => value[i]);
    assert p[..] == value;
    FixEndianness(p);
    SwappedIsBigEndian(n, k);
    s := p[..];
  }

  /** The integer whose network order is s. */
  method FromNetwork(s: bytes) returns (n: nat)
    requires |s| in {1, 2, 4, 8}
    ensures n == FromBigEndian(s)
  {
    var p := new byte[|s|](i requires 0 <= i < |s| => s[i]);
    assert p[..] == s;
    FixEndianness(p);
    SwappedReadsBigEndian(s);
    n := FromLittleEndian(p[..]);
  }
}
