/** What the bytes of a frame mean, bit by bit as the figures of section 5.2 and the
    formula of section 5.3 of RFC 6455 have it, and the examples of section 5.7. */
module WebSocketBits {
  import opened Bytes
  import opened WebSocketFrames
  import opened WebSocketParsers
  import opened WebSocketTheorems

  /** The value of each bit of a byte, the lowest first. */
  const WEIGHTS: seq<nat> := [1, 2, 4, 8, 16, 32, 64, 128]

  predicate IsSet(b: byte, k: nat)
    requires k < 8
  {
    b / WEIGHTS[k] % 2 == 1
  }

  // Masking.

  function BitAt(a: nat, k: nat): nat {
    if k == 0 then a % 2 else BitAt(a / 2, k - 1)
  }

  lemma {:induction false} XorBitAt(a: nat, b: nat, n: nat, k: nat)
    requires k < n
    ensures BitAt(XorBits(a, b, n), k) == (BitAt(a, k) + BitAt(b, k)) % 2
  {
    XorBitsStep(a, b, n);
    if k > 0 { XorBitAt(a / 2, b / 2, n - 1, k - 1); }
  }

  lemma {:induction false} BitIsBitAt(a: byte, k: nat)
    requires k < 8
    ensures IsSet(a, k) <==> BitAt(a, k) == 1
  {
    if k > 0 {
      BitIsBitAt(a / 2, k - 1);
      Halved(a, k);
    }
  }

  lemma Halved(a: byte, k: nat)
    requires 0 < k < 8
    ensures a / 2 / WEIGHTS[k - 1] == a / WEIGHTS[k]
  {
    if k == 1 { } else if k == 2 { } else if k == 3 { } else if k == 4 { } else if k == 5 { } else if k == 6 { }
  }

  /** A bit of the exclusive or is set where exactly one of the two has it. */
  lemma XorIsBitwise(a: byte, b: byte, k: nat)
    requires k < 8
    ensures IsSet(Xor(a, b), k) <==> IsSet(a, k) != IsSet(b, k)
  {
    hide IsSet, XorBits;
    BitIsBitAt(a, k);
    BitIsBitAt(b, k);
    BitIsBitAt(Xor(a, b), k);
    XorBitAt(a, b, 8, k);
    hide BitAt;
    BitIsSmall(a, k);
    BitIsSmall(b, k);
  }

  lemma {:induction false} BitIsSmall(a: nat, k: nat)
    ensures BitAt(a, k) < 2
  {
    if k > 0 { BitIsSmall(a / 2, k - 1); }
  }

  /** Every byte told of a frame is the byte that came, with the bits turned that
      the key byte of its place in the frame has set; without a mask it is the
      byte that came. */
  lemma PayloadBits(p: Parser, data: bytes, e: Event, j: nat, k: nat)
    requires Sound(p) && HeadIsWhole(p, data) && e in Once(p, data).events && j < |e.payload| && k < 8
    ensures var i, from := InfoAt(p, data), Skip(p, data);
            && from + |e.payload| <= |data|
            && if i.masked then
                 |i.mask| == 4
                 && (IsSet(e.payload[j], k) <==> IsSet(data[from + j], k) != IsSet(i.mask[(i.index + j) % 4], k))
               else e.payload[j] == data[from + j]
  {
    hide IsSet, Xor, Once, InfoAt, Skip;
    var i, from := InfoAt(p, data), Skip(p, data);
    var n := PartTold(p, data, e);
    if i.masked {
      XorIsBitwise(data[from + j], i.mask[(i.index + j) % 4], k);
    }
  }

  lemma PartTold(p: Parser, data: bytes, e: Event) returns (n: nat)
    requires Sound(p) && HeadIsWhole(p, data) && e in Once(p, data).events
    ensures n <= |data| - Skip(p, data)
    ensures e.payload == Unmasked(InfoAt(p, data), data[Skip(p, data)..Skip(p, data) + n])
  {
    hide InfoAt, Skip, Unmasked, Taken, HeadIsWhole;
    var i, from := InfoAt(p, data), Skip(p, data);
    var rest := data[from..];
    n := if i.len - i.index <= |rest| then i.len - i.index else |rest|;
    assert rest[..n] == data[from..from + n];
    TakenTells(i, Unmasked(i, rest[..n]), e);
  }

  lemma TakenTells(i: Info, payload: bytes, e: Event)
    requires i.index + |payload| <= i.len && (i.masked ==> |i.mask| == 4) && e in Taken(i, payload).events
    ensures e.payload == payload
  {
  }

  // The header.

  /** The header as a receiver reads it, by its bits. */
  lemma HeaderBits(p: Parser, data: bytes)
    requires Sound(p) && !p.inFrame && |data| >= 2
    ensures var low := data[1] % 128;
            var more := if low == 126 then 2 else if low == 127 then 8 else 0;
            var size := 2 + more + if IsSet(data[1], 7) then 4 else 0;
            && (HeadIsWhole(p, data) <==> |data| >= size)
            && (|data| >= size ==>
                  var i := InfoAt(p, data);
                  && Skip(p, data) == size && i.index == 0
                  && (i.final <==> IsSet(data[0], 7))
                  && i.opcode == data[0] % 16
                  && (i.masked <==> IsSet(data[1], 7))
                  && (i.masked ==> i.mask == data[size - 4..size])
                  && (low < 126 ==> i.len == low)
                  && (low == 126 ==> i.len == 0x100 * (data[2] as int) + data[3])
                  && (low == 127 ==>
                        i.len == 0x100_0000_0000_0000 * (data[2] as int) + 0x1_0000_0000_0000 * (data[3] as int)
                                 + 0x100_0000_0000 * (data[4] as int) + 0x1_0000_0000 * (data[5] as int)
                                 + 0x100_0000 * (data[6] as int) + 0x1_0000 * (data[7] as int)
                                 + 0x100 * (data[8] as int) + data[9]))
  {
    var n := LengthBytes(data[1]);
    if 2 + n <= |data| {
      if n == 2 {
        TwoBytesRead(data[2..4]);
      } else if n == 8 {
        EightBytesRead(data[2..10]);
      }
    }
  }

  lemma KeepAliveIsItsText()
    ensures |KEEP_ALIVE| == |"ESPAsyncWebServer-PING"|
    ensures forall i :: 0 <= i < |KEEP_ALIVE| ==> KEEP_ALIVE[i] == "ESPAsyncWebServer-PING"[i] as int
  {
  }

  /** What is told of a frame that arrives as a whole, by its opcode. */
  lemma OpcodesSay(i: Info, payload: bytes)
    ensures var es := WholeEvents(i, payload);
            && (i.opcode <= 7 ==> es == [Data(i, payload)])
            && (i.opcode == 8 ==> es == [Control(8, payload)])
            && (i.opcode == 9 ==> es == [Control(9, payload)])
            && (i.opcode == 10 && payload != KEEP_ALIVE ==> es == [Control(10, payload)])
            && (i.opcode == 10 && payload == KEEP_ALIVE ==> es == [])
            && (i.opcode > 10 ==> es == [])
  {
  }

  // Section 5.7 of RFC 6455.

  const HELLO: bytes := [0x48, 0x65, 0x6c, 0x6c, 0x6f]
  const KEY: bytes := [0x37, 0xfa, 0x21, 0x3d]

  function Fresh(): (p: Parser)
    ensures Sound(p)
  {
    Parser(false, Info(false, 0, false, 0, [], 0, 0, 0))
  }

  function Bit(b: bool): nat {
    if b then 1 else 0
  }

  function Half(a: bool, b: bool, c: bool, d: bool): (n: nat)
    ensures n < 16
  {
    8 * Bit(a) + 4 * Bit(b) + 2 * Bit(c) + Bit(d)
  }

  lemma XorOfOne(a: nat, p: bool, b: nat, q: bool, n: nat)
    ensures XorBits(2 * a + Bit(p), 2 * b + Bit(q), n + 1) == 2 * XorBits(a, b, n) + Bit(p != q)
    ensures XorBits(a, b, 0) == 0
  {
    assert (2 * a + Bit(p)) / 2 == a && (2 * b + Bit(q)) / 2 == b;
  }

  lemma {:induction false} XorOfTwo(x: nat, a: bool, b: bool, y: nat, c: bool, d: bool, n: nat)
    ensures XorBits(4 * x + 2 * Bit(a) + Bit(b), 4 * y + 2 * Bit(c) + Bit(d), n + 2)
            == 4 * XorBits(x, y, n) + 2 * Bit(a != c) + Bit(b != d)
  {
    hide XorBits, Bit;
    XorOfOne(x, a, y, c, n);
    XorOfOne(2 * x + Bit(a), b, 2 * y + Bit(c), d, n + 1);
  }

  lemma {:induction false} XorOfFour(x: nat, a: bool, b: bool, c: bool, d: bool, y: nat, e: bool, f: bool, g: bool,
                                     h: bool, n: nat)
    ensures XorBits(16 * x + Half(a, b, c, d), 16 * y + Half(e, f, g, h), n + 4)
            == 16 * XorBits(x, y, n) + Half(a != e, b != f, c != g, d != h)
  {
    hide XorBits, Bit;
    XorOfTwo(x, a, b, y, e, f, n);
    XorOfTwo(4 * x + 2 * Bit(a) + Bit(b), c, d, 4 * y + 2 * Bit(e) + Bit(f), g, h, n + 2);
  }

  const F := false
  const T := true

  lemma HelloMasked(wire: bytes)
    requires wire == [0x7f, 0x9f, 0x4d, 0x51, 0x58]
    ensures Masked(wire, KEY, 0) == HELLO
  {
    hide XorBits;
    XorOfFour(7, T, T, T, T, 3, F, T, T, T, 4);
    XorOfFour(0, F, T, T, T, 0, F, F, T, T, 0);
    XorOfFour(9, T, T, T, T, 15, T, F, T, F, 4);
    XorOfFour(0, T, F, F, T, 0, T, T, T, T, 0);
    XorOfFour(4, T, T, F, T, 2, F, F, F, T, 4);
    XorOfFour(0, F, T, F, F, 0, F, F, T, F, 0);
    XorOfFour(5, F, F, F, T, 3, T, T, F, T, 4);
    XorOfFour(0, F, T, F, T, 0, F, F, T, T, 0);
    XorOfFour(5, T, F, F, F, 3, F, T, T, T, 4);
    XorOfFour(0, F, T, F, T, 0, F, F, T, T, 0);
    XorOfOne(0, F, 0, F, 0);
  }

  const WIRE: bytes := [0x7f, 0x9f, 0x4d, 0x51, 0x58]

  lemma PlainHello(first: byte, data: bytes)
    requires data == [first, 0x05] + HELLO
    ensures Receive(Fresh(), data).events
            == WholeEvents(Info(first >= 0x80, first % 0x10, false, 5, [], 0, 0, 0), HELLO)
  {
    hide Receive, Once, WholeEvents;
    assert data[2..] == HELLO;
    WholeFrame(data, Info(first >= 0x80, first % 0x10, false, 5, [], 0, 0, 0), HELLO);
  }

  lemma MaskedHello(first: byte, data: bytes)
    requires data == [first, 0x85] + KEY + WIRE
    ensures Receive(Fresh(), data).events
            == WholeEvents(Info(first >= 0x80, first % 0x10, true, 5, KEY, 0, 0, 0), HELLO)
  {
    hide Receive, Once, WholeEvents, Masked;
    HelloMasked(WIRE);
    assert data[2..6] == KEY && data[6..] == WIRE;
    WholeFrame(data, Info(first >= 0x80, first % 0x10, true, 5, KEY, 0, 0, 0), HELLO);
  }

  /** A single-frame text message, unmasked and masked. */
  lemma TextExamples(plain: bytes, masked: bytes)
    requires plain == [0x81, 0x05, 0x48, 0x65, 0x6c, 0x6c, 0x6f]
    requires masked == [0x81, 0x85, 0x37, 0xfa, 0x21, 0x3d, 0x7f, 0x9f, 0x4d, 0x51, 0x58]
    ensures Receive(Fresh(), plain).events == [Data(Info(true, 1, false, 5, [], 0, 0, 0), HELLO)]
    ensures Receive(Fresh(), masked).events == [Data(Info(true, 1, true, 5, KEY, 0, 0, 0), HELLO)]
  {
    hide Receive;
    PlainHello(0x81, plain);
    MaskedHello(0x81, masked);
  }

  /** One whole frame alone in a buffer. */
  lemma WholeFrame(data: bytes, i: Info, payload: bytes)
    requires |data| >= 2 && HeadIsWhole(Fresh(), data) && HeadInfo(data, Fresh().info) == i
    requires |data| == HeadSize(data[1]) + i.len && Unmasked(i, data[HeadSize(data[1])..]) == payload
    ensures Receive(Fresh(), data).events == WholeEvents(i, payload) && Receive(Fresh(), data).headsAreWhole
  {
    WholeOnce(data, i, payload);
    hide Receive, Once, WholeEvents;
    var q := ReceivesOne(Fresh(), data);
  }

  lemma WholeOnce(data: bytes, i: Info, payload: bytes)
    requires |data| >= 2 && HeadIsWhole(Fresh(), data) && HeadInfo(data, Fresh().info) == i
    requires |data| == HeadSize(data[1]) + i.len && Unmasked(i, data[HeadSize(data[1])..]) == payload
    ensures Once(Fresh(), data).events == WholeEvents(i, payload)
    ensures Once(Fresh(), data).used + Skip(Fresh(), data) == |data|
  {
    hide HeadInfo, HeadSize, Unmasked, WholeEvents;
    var rest := data[HeadSize(data[1])..];
    assert rest[..i.len] == rest;
  }

  /** An unmasked ping and the masked answer to it. */
  lemma PingExamples(ping: bytes, pong: bytes)
    requires ping == [0x89, 0x05, 0x48, 0x65, 0x6c, 0x6c, 0x6f]
    requires pong == [0x8a, 0x85, 0x37, 0xfa, 0x21, 0x3d, 0x7f, 0x9f, 0x4d, 0x51, 0x58]
    ensures Receive(Fresh(), ping).events == [Control(9, HELLO)]
    ensures Receive(Fresh(), pong).events == [Control(10, HELLO)]
  {
    hide Receive;
    PlainHello(0x89, ping);
    MaskedHello(0x8a, pong);
  }

  lemma BinaryHead(data: bytes, len: nat)
    requires (|data| >= 4 && data[..4] == [0x82, 0x7e, 0x01, 0x00] && len == 256)
             || (|data| >= 10 && data[..10] == [0x82, 0x7f, 0, 0, 0, 0, 0, 1, 0, 0] && len == 65536)
    ensures HeadIsWhole(Fresh(), data) && HeadSize(data[1]) == (if len == 256 then 4 else 10)
    ensures HeadInfo(data, Fresh().info) == Info(true, 2, false, len, [], 0, 0, 0)
  {
    if len == 256 {
      assert data[0] == data[..4][0] && data[1] == data[..4][1];
      assert data[2] == data[..4][2] && data[3] == data[..4][3];
      TwoBytesRead(data[2..4]);
    } else {
      assert data[0] == data[..10][0] && data[1] == data[..10][1];
      assert data[2..10] == data[..10][2..];
      EightBytesRead(data[2..10]);
    }
  }

  /** Binary messages of 256 bytes and of 65536 bytes, each in a single frame. */
  lemma BinaryExamples(payload: bytes)
    ensures |payload| == 256 ==>
      Receive(Fresh(), [0x82, 0x7e, 0x01, 0x00] + payload).events
      == [Data(Info(true, 2, false, 256, [], 0, 0, 0), payload)]
    ensures |payload| == 65536 ==>
      Receive(Fresh(), [0x82, 0x7f, 0x00, 0x00, 0x00, 0x00, 0x00, 0x01, 0x00, 0x00] + payload).events
      == [Data(Info(true, 2, false, 65536, [], 0, 0, 0), payload)]
  {
    hide Receive, HeadIsWhole, HeadInfo, HeadSize;
    if |payload| == 256 {
      var data := [0x82, 0x7e, 0x01, 0x00] + payload;
      BinaryHead(data, 256);
      assert data[4..] == payload;
      WholeFrame(data, Info(true, 2, false, 256, [], 0, 0, 0), payload);
    } else if |payload| == 65536 {
      var data := [0x82, 0x7f, 0x00, 0x00, 0x00, 0x00, 0x00, 0x01, 0x00, 0x00] + payload;
      BinaryHead(data, 65536);
      assert data[10..] == payload;
      WholeFrame(data, Info(true, 2, false, 65536, [], 0, 0, 0), payload);
    }
  }
}
