/** WebSocket frames as bytes (section 5.2 of RFC 6455), and masking
    (section 5.3). */
module WebSocketFrames {
  import opened Bytes

  /** Exclusive or of the lowest k bits. */
  function XorBits(a: nat, b: nat, k: nat): (r: nat)
    ensures r < Power2(k)
  {
    if k == 0 then 0 else (a % 2 + b % 2) % 2 + 2 * XorBits(a / 2, b / 2, k - 1)
  }

  function Power2(k: nat): (p: nat)
    ensures p >= 1
  {
    if k == 0 then 1 else 2 * Power2(k - 1)
  }

  lemma XorBitsStep(a: nat, b: nat, k: nat)
    requires k > 0
    ensures XorBits(a, b, k) % 2 == (a % 2 + b % 2) % 2 && XorBits(a, b, k) / 2 == XorBits(a / 2, b / 2, k - 1)
  {
    var low, high := (a % 2 + b % 2) % 2, XorBits(a / 2, b / 2, k - 1);
    assert XorBits(a, b, k) == low + 2 * high;
  }

  lemma Parity(a: nat, b: nat)
    ensures ((a % 2 + b % 2) % 2 + b % 2) % 2 == a % 2
  {
  }

  lemma {:induction false} XorBitsTwice(a: nat, b: nat, k: nat)
    requires a < Power2(k)
    ensures XorBits(XorBits(a, b, k), b, k) == a
  {
    if k > 0 {
      XorBitsTwice(a / 2, b / 2, k - 1);
      XorBitsStep(a, b, k);
      Parity(a, b);
    }
  }

  function Xor(a: byte, b: byte): byte {
    assert Power2(8) == 256;
    XorBits(a, b, 8)
  }

  lemma XorTwice(a: byte, b: byte)
    ensures Xor(Xor(a, b), b) == a
  {
    assert Power2(8) == 256;
    XorBitsTwice(a, b, 8);
  }

  /** Data that starts index bytes into its frame, under the frame's mask. */
  function Masked(data: bytes, mask: bytes, index: nat): (r: bytes)
    requires |mask| == 4
    ensures |r| == |data|
  {
    seq(|data|, i requires 0 <= i < |data| => Xor(data[i], mask[(index + i) % 4]))
  }

  lemma MaskedTwice(data: bytes, mask: bytes, index: nat)
    requires |mask| == 4
    ensures Masked(Masked(data, mask, index), mask, index) == data
  {
    forall i | 0 <= i < |data| ensures Masked(Masked(data, mask, index), mask, index)[i] == data[i] {
      XorTwice(data[i], mask[(index + i) % 4]);
    }
  }

  /** A mask of four bytes, or none. */
  datatype FrameData = FrameData(final: bool, opcode: nat, payload: bytes, mask: bytes)

  predicate WellFormed(f: FrameData) {
    f.opcode < 16 && (f.mask == [] || |f.mask| == 4)
  }

  type Frame = f: FrameData | WellFormed(f) witness FrameData(false, 0, [], [])

  function Payload(f: Frame): bytes
  {
    if f.mask == [] then f.payload else Masked(f.payload, f.mask, 0)
  }

  function FirstByte(f: Frame): byte
  {
    f.opcode + if f.final then 0x80 else 0
  }

  function MaskBit(f: Frame): nat {
    if f.mask == [] then 0 else 0x80
  }

  /** The length as the standard encodes it: in 7, 16 or 64 bits. */
  function Head(f: Frame): bytes
    requires |f.payload| < Span(8)
  {
    var n := |f.payload|;
    if n < 126 then [FirstByte(f), n + MaskBit(f)]
    else if n < 0x1_0000 then [FirstByte(f), 126 + MaskBit(f)] + BigEndian(n, 2)
    else [FirstByte(f), 127 + MaskBit(f)] + BigEndian(n, 8)
  }

  function Encode(f: Frame): bytes
    requires |f.payload| < Span(8)
  {
    Head(f) + f.mask + Payload(f)
  }

  /** The length as the sender writes it: never in 64 bits. */
  function ShortHead(f: Frame): bytes
  {
    var n := |f.payload|;
    if n < 126 then [FirstByte(f), n + MaskBit(f)]
    else [FirstByte(f), 126 + MaskBit(f), n / 256 % 256, n % 256]
  }

  function ShortEncode(f: Frame): bytes
  {
    ShortHead(f) + f.mask + Payload(f)
  }

  /** What the sender writes is the frame it means exactly when the length fits
      sixteen bits. */
  lemma ShortIsRight(f: Frame)
    requires |f.payload| < Span(8)
    ensures ShortEncode(f) == Encode(f) <==> |f.payload| < 0x1_0000
  {
    var n := |f.payload|;
    if 126 <= n < 0x1_0000 {
      assert BigEndian(n / 256, 1) == BigEndian(n / 256 / 256, 0) + [n / 256 % 256];
      assert BigEndian(n, 2) == [n / 256 % 256, n % 256];
    } else if n >= 0x1_0000 {
      assert ShortEncode(f)[1] == 126 + MaskBit(f);
      assert Encode(f)[1] == 127 + MaskBit(f);
    }
  }
}
