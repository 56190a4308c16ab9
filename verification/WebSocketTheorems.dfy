/** Frames arrive as they were meant, however the stream is cut into buffers,
    and a fragmented message arrives whole. */
module WebSocketTheorems {
  import opened Bytes
  import opened Options
  import opened WebSocketFrames
  import opened WebSocketParsers
  import Messages = WebSocketMessages

  /** Frames a parser can take: data frames whose length has an encoding. */
  ghost predicate Sendable(fs: seq<Frame>) {
    forall f <- fs :: |f.payload| < Span(8) && f.opcode < 8
  }

  function EncodeAll(fs: seq<Frame>): bytes
    requires Sendable(fs)
  {
    if fs == [] then [] else Encode(fs[0]) + EncodeAll(fs[1..])
  }

  /** The header fields of a frame, as far as its data goes. */
  predicate Describes(info: Info, f: Frame) {
    && info.final == f.final && info.opcode == f.opcode && info.len == |f.payload|
    && info.masked == (f.mask != []) && (info.masked ==> info.mask == f.mask)
  }

  predicate Follows(p: Parser, fs: seq<Frame>) {
    Sound(p) && (p.inFrame ==> fs != [] && Describes(p.info, fs[0]))
  }

  function IndexOf(p: Parser): nat {
    if p.inFrame then p.info.index else 0
  }

  /** The bytes still to come from inside the first frame on. */
  function Tail(fs: seq<Frame>, index: nat): bytes
    requires fs != [] && Sendable(fs) && index <= |fs[0].payload|
  {
    Payload(fs[0])[index..] + EncodeAll(fs[1..])
  }

  /** The bytes still to come when a parser has got so far. */
  function Left(p: Parser, fs: seq<Frame>): bytes
    requires Follows(p, fs) && Sendable(fs)
  {
    if p.inFrame then Tail(fs, p.info.index) else EncodeAll(fs)
  }

  // One buffer.

  lemma LengthIsRead(f: Frame, data: bytes, k: nat)
    requires |f.payload| < Span(8) && 126 <= |f.payload|
    requires k == if |f.payload| < 0x1_0000 then 2 else 8
    requires Head(f) <= data
    ensures LengthBytes(data[1]) == k && 2 + k <= |data| && FromBigEndian(data[2..2 + k]) == |f.payload|
  {
    var h := Head(f);
    assert Span(2) == 0x1_0000;
    BigEndianRoundTrip(|f.payload|, k);
    assert h[2..2 + k] == BigEndian(|f.payload|, k);
    assert data[..|h|] == h && data[..|h|][2..2 + k] == data[2..2 + k];
    assert data[1] == h[1];
  }

  lemma MaskIsRead(f: Frame, data: bytes)
    requires |f.payload| < Span(8) && Head(f) + f.mask <= data && f.mask != []
    ensures data[1] >= 0x80 && 2 + LengthBytes(data[1]) == |Head(f)| && data[|Head(f)|..|Head(f)| + 4] == f.mask
  {
    var h := Head(f) + f.mask;
    assert data[..|h|] == h && data[1] == h[1];
    assert h[|Head(f)|..|Head(f)| + 4] == f.mask;
    assert data[|Head(f)|..|Head(f)| + 4] == data[..|h|][|Head(f)|..|Head(f)| + 4];
  }

  lemma HeadIsRead(f: Frame, data: bytes, before: Info)
    requires |f.payload| < Span(8) && Head(f) + f.mask <= data
    ensures HeadSize(data[1]) == |Head(f) + f.mask|
    ensures Describes(HeadInfo(data, before), f)
  {
    var h := Head(f);
    assert data[0] == (h + f.mask)[0] == h[0] && data[1] == (h + f.mask)[1] == h[1];
    assert h <= data by { assert data[..|h|] == (h + f.mask)[..|h|]; }
    if 126 <= |f.payload| {
      LengthIsRead(f, data, if |f.payload| < 0x1_0000 then 2 else 8);
    }
    if f.mask != [] {
      MaskIsRead(f, data);
    }
  }

  lemma SixteenBits(n: nat)
    ensures FromBigEndian([n / 256 % 256, n % 256]) == n % 0x1_0000
  {
    var s: bytes := [n / 256 % 256, n % 256];
    assert s[..1] == [n / 256 % 256] && s[..1][..0] == [];
    assert FromBigEndian(s[..1]) == n / 256 % 256;
  }

  /** The length a receiver reads in what the sender writes: right exactly when
      it fits sixteen bits. */
  lemma ShortLengthRead(f: Frame, more: bytes, before: Info)
    ensures var data := ShortEncode(f) + more;
            |data| >= HeadSize(data[1])
            && HeadInfo(data, before).len == |f.payload| % 0x1_0000
            && (HeadInfo(data, before).len == |f.payload| <==> |f.payload| < 0x1_0000)
  {
    var data := ShortEncode(f) + more;
    ShortHeadOf(f, more, data);
    if |f.payload| >= 126 {
      SixteenBits(|f.payload|);
    }
    hide ShortEncode, FromBigEndian;
  }

  lemma ShortHeadOf(f: Frame, more: bytes, data: bytes)
    requires data == ShortEncode(f) + more
    ensures var n := |f.payload|;
            && |data| >= 2 && |data| >= HeadSize(data[1])
            && (n < 126 ==> LengthBytes(data[1]) == 0 && data[1] % 0x80 == n)
            && (n >= 126 ==> LengthBytes(data[1]) == 2 && data[2..4] == [n / 256 % 256, n % 256])
  {
    hide Payload;
    var n, h := |f.payload|, ShortHead(f);
    assert data == h + (f.mask + Payload(f) + more);
    assert data[..|h|] == h && data[1] == h[1];
    if n >= 126 {
      assert data[2] == h[2] && data[3] == h[3];
      assert data[2..4] == [n / 256 % 256, n % 256];
    }
  }

  /** The second byte tells how long the header is. */
  lemma SizeIsTold(f: Frame, data: bytes, more: bytes)
    requires |f.payload| < Span(8) && |data| >= 2 && data <= Head(f) + f.mask + more
    ensures HeadSize(data[1]) == |Head(f) + f.mask|
  {
    assert data[1] == (Head(f) + f.mask + more)[1] == Head(f)[1];
  }

  /** Which opcode an event gives for its message: that of a first frame exactly
      when the frame arrives in parts, or when the message before had it too. */
  lemma OpcodeIsTold(p: Parser, data: bytes)
    requires Sound(p) && HeadIsWhole(p, data) && InfoAt(p, data).opcode < 8
    ensures var i, s := InfoAt(p, data), Once(p, data);
            && |s.events| == 1 && s.events[0].Data?
            && s.events[0].info.messageOpcode == s.parser.info.messageOpcode
            && s.events[0].info.messageOpcode
               == (if s.parser.inFrame && i.index == 0 && i.opcode != 0 then i.opcode else p.info.messageOpcode)
            && (i.index == 0 && i.opcode != 0 ==>
                  (s.events[0].info.messageOpcode == i.opcode <==> s.parser.inFrame
                                                                   || p.info.messageOpcode == i.opcode))
  {
  }

  /** Which number an event gives its fragment: only first parts are counted. */
  lemma FragmentIsTold(p: Parser, data: bytes)
    requires Sound(p) && HeadIsWhole(p, data) && InfoAt(p, data).opcode < 8
    ensures var i, s := InfoAt(p, data), Once(p, data);
            && |s.events| == 1 && s.events[0].info.num == s.parser.info.num
            && s.events[0].info.num
               == if !s.parser.inFrame || i.index != 0 then p.info.num
                  else if i.opcode != 0 then 0
                  else (p.info.num + 1) % 0x1_0000_0000
  {
  }

  /** Where the delivery of frames has got to. */
  datatype Place = Place(frames: seq<Frame>, index: nat)

  function Further(place: Place, n: nat): Place
    requires place.frames != []
  {
    if place.index + n >= |place.frames[0].payload| then Place(place.frames[1..], 0)
    else Place(place.frames, place.index + n)
  }

  /** The event hands over the next bytes of the frame, described as they are. */
  ghost predicate Tells(e: Event, place: Place) {
    && e.Data? && place.frames != [] && Describes(e.info, place.frames[0]) && e.info.index == place.index
    && place.index + |e.payload| <= |place.frames[0].payload|
    && e.payload == place.frames[0].payload[place.index..place.index + |e.payload|]
  }

  /** Where the delivery stands after some events, unless one told otherwise. */
  ghost function Delivered(events: seq<Event>, from: Place): Option<Place>
    decreases |events|
  {
    if events == [] then Some(from)
    else if Tells(events[0], from) then Delivered(events[1..], Further(from, |events[0].payload|))
    else None
  }

  lemma {:induction false} DeliveredOn(a: seq<Event>, b: seq<Event>, from: Place, mid: Place)
    requires Delivered(a, from) == Some(mid)
    ensures Delivered(a + b, from) == Delivered(b, mid)
    decreases |a|
  {
    if a == [] {
      assert a + b == b;
    } else {
      DeliveredOn(a[1..], b, Further(from, |a[0].payload|), mid);
      assert (a + b)[1..] == a[1..] + b;
    }
  }

  lemma UnmaskedPart(info: Info, f: Frame, n: nat)
    requires Describes(info, f) && info.index + n <= info.len
    ensures Unmasked(info, Payload(f)[info.index..info.index + n]) == f.payload[info.index..info.index + n]
  {
    if f.mask != [] {
      var part := f.payload[info.index..info.index + n];
      assert Payload(f)[info.index..info.index + n] == Masked(part, f.mask, info.index);
      MaskedTwice(part, f.mask, info.index);
    }
  }

  /** One event that hands over the next n bytes of a frame. */
  lemma Handed(info: Info, f: Frame, n: nat, fs: seq<Frame>)
    requires fs != [] && fs[0] == f && f.opcode < 8 && Describes(info, f) && info.index + n <= info.len
    ensures var s := Taken(info, f.payload[info.index..info.index + n]);
            && Delivered(s.events, Place(fs, info.index)) == Some(Further(Place(fs, info.index), n))
            && s.used == n && s.parser.inFrame == (info.index + n < info.len)
            && (s.parser.inFrame ==> Describes(s.parser.info, f) && s.parser.info.index == info.index + n)
  {
    var s := Taken(info, f.payload[info.index..info.index + n]);
    assert |s.events| == 1 && s.events[1..] == [];
    assert Tells(s.events[0], Place(fs, info.index));
  }

  lemma Consumed(data: bytes, rest: bytes, payload: bytes, after: bytes, n: nat)
    requires data + rest == payload + after && n <= |data| && n <= |payload|
    ensures data[..n] == payload[..n] && data[n..] + rest == payload[n..] + after
  {
    var all := data + rest;
    assert data[..n] == all[..n] == payload[..n];
    assert data[n..] + rest == all[n..] == payload[n..] + after;
  }

  /** The next n bytes of the stream are the next n of the first frame. */
  lemma TailRead(fs: seq<Frame>, index: nat, n: nat, data: bytes, rest: bytes)
    requires fs != [] && Sendable(fs) && index + n <= |fs[0].payload| && n <= |data|
    requires data + rest == Tail(fs, index)
    ensures data[..n] == Payload(fs[0])[index..index + n]
    ensures data[n..] + rest == Tail(fs, index + n)
  {
    var wire := Payload(fs[0]);
    Consumed(data, rest, wire[index..], EncodeAll(fs[1..]), n);
    assert wire[index..][n..] == wire[index + n..] && wire[index..][..n] == wire[index..index + n];
  }

  lemma TailEnds(fs: seq<Frame>)
    requires fs != [] && Sendable(fs)
    ensures Tail(fs, |fs[0].payload|) == EncodeAll(fs[1..])
  {
    assert Payload(fs[0])[|fs[0].payload|..] == [];
  }

  lemma TailStarts(fs: seq<Frame>)
    requires fs != [] && Sendable(fs)
    ensures EncodeAll(fs) == Head(fs[0]) + fs[0].mask + Tail(fs, 0)
  {
    assert Payload(fs[0])[0..] == Payload(fs[0]);
    Associates(Head(fs[0]) + fs[0].mask, Payload(fs[0]), EncodeAll(fs[1..]));
  }

  lemma PartRead(info: Info, fs: seq<Frame>, data: bytes, rest: bytes) returns (n: nat)
    requires Sendable(fs) && fs != [] && Describes(info, fs[0]) && info.index <= info.len
    requires data + rest == Tail(fs, info.index)
    ensures n <= |data| && info.index + n <= info.len
    ensures Part(info, data) == Taken(info, fs[0].payload[info.index..info.index + n])
    ensures data[n..] + rest == Tail(fs, info.index + n)
  {
    hide Payload, Tail, EncodeAll, Unmasked, Taken, Sendable;
    n := if info.len - info.index <= |data| then info.len - info.index else |data|;
    TailRead(fs, info.index, n, data, rest);
    UnmaskedPart(info, fs[0], n);
  }

  /** What a buffer holds of the first frame is handed over, and the parser
      stands at the byte after it. */
  lemma PartDelivers(info: Info, data: bytes, fs: seq<Frame>, rest: bytes) returns (left: seq<Frame>)
    requires Sendable(fs) && fs != [] && Describes(info, fs[0]) && info.index <= info.len
    requires data + rest == Tail(fs, info.index)
    ensures var s := Part(info, data);
            Follows(s.parser, left) && Sendable(left) && Left(s.parser, left) == data[s.used..] + rest
            && Delivered(s.events, Place(fs, info.index)) == Some(Place(left, IndexOf(s.parser)))
  {
    hide EncodeAll, Payload, Unmasked, WholeEvents, Part;
    var n := PartRead(info, fs, data, rest);
    var s := Taken(info, fs[0].payload[info.index..info.index + n]);
    Handed(info, fs[0], n, fs);
    if info.index + n < info.len {
      left := fs;
      assert Further(Place(fs, info.index), n) == Place(fs, info.index + n);
      assert Left(s.parser, fs) == Tail(fs, info.index + n);
    } else {
      left := fs[1..];
      TailEnds(fs);
      assert Further(Place(fs, info.index), n) == Place(left, 0);
    }
  }

  /** The header of the first frame, when a frame begins here. */
  lemma HeadArrives(p: Parser, data: bytes, fs: seq<Frame>, rest: bytes)
    requires Sound(p) && Sendable(fs) && !p.inFrame && data != [] && HeadIsWhole(p, data)
    requires data + rest == EncodeAll(fs)
    ensures fs != [] && Describes(InfoAt(p, data), fs[0]) && InfoAt(p, data).index == 0
    ensures data[Skip(p, data)..] + rest == Tail(fs, 0)
  {
    TailStarts(fs);
    HeadParsed(p, data, fs[0], Tail(fs, 0), rest);
  }

  lemma HeadParsed(p: Parser, data: bytes, f: Frame, more: bytes, rest: bytes)
    requires Sound(p) && !p.inFrame && HeadIsWhole(p, data) && |f.payload| < Span(8)
    requires data + rest == Head(f) + f.mask + more
    ensures Describes(InfoAt(p, data), f) && InfoAt(p, data).index == 0
    ensures data[Skip(p, data)..] + rest == more
  {
    var h := Head(f) + f.mask;
    PrefixOf(data, rest, h, more);
    SizeIsTold(f, data, more);
    HeadIsRead(f, data, p.info);
    assert data[|h|..] + rest == (data + rest)[|h|..] == more;
  }

  lemma PrefixOf(a: bytes, b: bytes, c: bytes, d: bytes)
    requires a + b == c + d
    ensures a <= c + d && (|c| <= |a| ==> c <= a)
  {
    assert (a + b)[..|a|] == a;
    if |c| <= |a| {
      assert (c + d)[..|c|] == c && (a + b)[..|c|] == a[..|c|];
    }
  }

  lemma OnceDelivers(p: Parser, data: bytes, fs: seq<Frame>, rest: bytes, s: Step, more: bytes)
    returns (left: seq<Frame>)
    requires Follows(p, fs) && Sendable(fs) && data != [] && HeadIsWhole(p, data)
    requires data + rest == Left(p, fs)
    requires s == Once(p, data) && more == data[s.used + Skip(p, data)..]
    ensures Follows(s.parser, left) && Sendable(left) && Left(s.parser, left) == more + rest
    ensures Delivered(s.events, Place(fs, IndexOf(p))) == Some(Place(left, IndexOf(s.parser)))
  {
    if !p.inFrame {
      HeadArrives(p, data, fs, rest);
    } else {
      assert data[0..] == data;
    }
    var part := data[Skip(p, data)..];
    assert part[s.used..] == more;
    left := PartDelivers(InfoAt(p, data), part, fs, rest);
  }

  lemma OnceAndMore(p: Parser, data: bytes) returns (s: Step, more: bytes)
    requires Sound(p) && data != [] && Receive(p, data).headsAreWhole
    ensures HeadIsWhole(p, data) && s == Once(p, data) && more == data[s.used + Skip(p, data)..] && |more| < |data|
    ensures Receive(p, data) == After(s.events, Receive(s.parser, more))
  {
    s := Once(p, data);
    more := data[s.used + Skip(p, data)..];
  }

  lemma {:induction false} BufferDelivers(p: Parser, data: bytes, fs: seq<Frame>, rest: bytes, r: Result)
    returns (left: seq<Frame>)
    requires Follows(p, fs) && Sendable(fs) && r == Receive(p, data) && r.headsAreWhole
    requires data + rest == Left(p, fs)
    ensures Follows(r.parser, left) && Sendable(left) && Left(r.parser, left) == rest
    ensures Delivered(r.events, Place(fs, IndexOf(p))) == Some(Place(left, IndexOf(r.parser)))
    decreases |data|
  {
    if data == [] {
      left := fs;
      assert data + rest == rest;
    } else {
      var s, more := OnceAndMore(p, data);
      var mid := OnceDelivers(p, data, fs, rest, s, more);
      var r1 := Receive(s.parser, more);
      left := BufferDelivers(s.parser, more, mid, rest, r1);
      DeliveredOn(s.events, r1.events, Place(fs, IndexOf(p)), Place(mid, IndexOf(s.parser)));
    }
  }

  // A whole stream.

  function Concat(buffers: seq<bytes>): bytes {
    if buffers == [] then [] else buffers[0] + Concat(buffers[1..])
  }

  /** The buffers one after the other. */
  function ReceiveAll(p: Parser, buffers: seq<bytes>): (r: Result)
    requires Sound(p)
    decreases |buffers|
  {
    if buffers == [] then Result(p, [], true)
    else
      var r := Receive(p, buffers[0]);
      if r.headsAreWhole then After(r.events, ReceiveAll(r.parser, buffers[1..])) else r
  }

  /** A text of two bytes cut in the middle, then a binary frame in one buffer: its
      event has the opcode of the text for its message. */
  lemma StaleOpcode()
    ensures var p := Parser(false, Info(false, 0, false, 0, [], 0, 0, 0));
            var events := ReceiveAll(p, [[0x81, 0x02, 0x41], [0x42], [0x82, 0x01, 0x43]]).events;
            && |events| == 3 && events[2].Data? && events[2].payload == [0x43]
            && events[2].info.opcode == 2 && events[2].info.messageOpcode == 1
  {
    var p := Parser(false, Info(false, 0, false, 0, [], 0, 0, 0));
    var a: bytes, b: bytes, c: bytes := [0x81, 0x02, 0x41], [0x42], [0x82, 0x01, 0x43];
    TextBegins(p, a);
    TextGoesOn(p.(inFrame := true, info := Info(true, 1, false, 2, [], 1, 1, 0)), b);
    BinaryComes(Parser(false, Info(true, 1, false, 2, [], 1, 1, 0)), c);
    hide Receive;
    assert [a, b, c][1..] == [b, c] && [b, c][1..] == [c] && [c][1..] == [];
    assert forall q: Parser | Sound(q) :: ReceiveAll(q, []) == Result(q, [], true);
  }

  lemma TextBegins(p: Parser, a: bytes)
    requires p == Parser(false, Info(false, 0, false, 0, [], 0, 0, 0)) && a == [0x81, 0x02, 0x41]
    ensures Receive(p, a)
            == Result(Parser(true, Info(true, 1, false, 2, [], 1, 1, 0)),
                      [Data(Info(true, 1, false, 2, [], 0, 1, 0), [0x41])], true)
  {
    assert a[2..] == [0x41] && a[2..][..1] == [0x41];
    var q := ReceivesOne(p, a);
  }

  lemma TextGoesOn(p: Parser, b: bytes)
    requires p == Parser(true, Info(true, 1, false, 2, [], 1, 1, 0)) && b == [0x42]
    ensures Receive(p, b) == Result(Parser(false, p.info), [Data(p.info, [0x42])], true)
  {
    assert b[0..] == [0x42] && b[0..][..1] == [0x42];
    var q := ReceivesOne(p, b);
  }

  lemma BinaryComes(p: Parser, c: bytes)
    requires p == Parser(false, Info(true, 1, false, 2, [], 1, 1, 0)) && c == [0x82, 0x01, 0x43]
    ensures var info := Info(true, 2, false, 1, [], 0, 1, 0);
            Receive(p, c) == Result(Parser(false, info), [Data(info, [0x43])], true)
  {
    assert c[2..] == [0x43] && c[2..][..1] == [0x43];
    var q := ReceivesOne(p, c);
  }

  /** What is told of a ping or a close that ends in a buffer, or does not: only one
      that arrives whole is told as it is, and its other parts are told as data. */
  lemma ControlIsTold(p: Parser, data: bytes)
    requires Sound(p) && HeadIsWhole(p, data) && InfoAt(p, data).opcode in {WS_PING, WS_DISCONNECT}
    ensures var i, s := InfoAt(p, data), Once(p, data);
            && |s.events| == 1 && (s.events[0].Control? <==> !s.parser.inFrame)
            && (s.events[0].Control? ==> (|s.events[0].payload| == i.len <==> i.index == 0))
  {
  }

  /** A ping of two bytes, cut in the middle: one byte as data, one in the ping. */
  lemma CutPing()
    ensures var p := Parser(false, Info(false, 0, false, 0, [], 0, 0, 0));
            var events := ReceiveAll(p, [[0x89, 0x02, 0x41], [0x42]]).events;
            |events| == 2 && events[0].Data? && events[0].payload == [0x41] && events[1] == Control(WS_PING, [0x42])
  {
    var p := Parser(false, Info(false, 0, false, 0, [], 0, 0, 0));
    var a: bytes, b: bytes := [0x89, 0x02, 0x41], [0x42];
    PingBegins(p, a);
    PingEnds(Parser(true, Info(true, 9, false, 2, [], 1, 9, 0)), b);
    hide Receive;
    assert [a, b][1..] == [b] && [b][1..] == [];
    assert forall q: Parser | Sound(q) :: ReceiveAll(q, []) == Result(q, [], true);
  }

  lemma PingBegins(p: Parser, a: bytes)
    requires p == Parser(false, Info(false, 0, false, 0, [], 0, 0, 0)) && a == [0x89, 0x02, 0x41]
    ensures Receive(p, a)
            == Result(Parser(true, Info(true, 9, false, 2, [], 1, 9, 0)),
                      [Data(Info(true, 9, false, 2, [], 0, 9, 0), [0x41])], true)
  {
    assert a[2..] == [0x41] && a[2..][..1] == [0x41];
    var q := ReceivesOne(p, a);
  }

  lemma PingEnds(p: Parser, b: bytes)
    requires p == Parser(true, Info(true, 9, false, 2, [], 1, 9, 0)) && b == [0x42]
    ensures Receive(p, b) == Result(Parser(false, p.info), [Control(WS_PING, [0x42])], true)
  {
    assert b[0..] == [0x42] && b[0..][..1] == [0x42];
    var q := ReceivesOne(p, b);
  }

  /** A buffer that is used up by one part of a frame. */
  lemma ReceivesOne(p: Parser, data: bytes) returns (q: Parser)
    requires Sound(p) && data != [] && HeadIsWhole(p, data)
    requires Once(p, data).used + Skip(p, data) == |data|
    ensures q == Once(p, data).parser && Receive(p, data) == Result(q, Once(p, data).events, true)
  {
    q := Once(p, data).parser;
    assert data[|data|..] == [];
    hide Once;
    assert Once(p, data).events + [] == Once(p, data).events;
  }


  lemma {:induction false} StreamDelivers(p: Parser, buffers: seq<bytes>, fs: seq<Frame>, r: Result)
    returns (left: seq<Frame>)
    requires Follows(p, fs) && Sendable(fs) && r == ReceiveAll(p, buffers) && r.headsAreWhole
    requires Concat(buffers) == Left(p, fs)
    ensures Follows(r.parser, left) && Sendable(left) && Left(r.parser, left) == []
    ensures Delivered(r.events, Place(fs, IndexOf(p))) == Some(Place(left, IndexOf(r.parser)))
    decreases |buffers|
  {
    if buffers == [] {
      left := fs;
    } else {
      var a := Receive(p, buffers[0]);
      var mid := BufferDelivers(p, buffers[0], fs, Concat(buffers[1..]), a);
      var b := ReceiveAll(a.parser, buffers[1..]);
      left := StreamDelivers(a.parser, buffers[1..], mid, b);
      DeliveredOn(a.events, b.events, Place(fs, IndexOf(p)), Place(mid, IndexOf(a.parser)));
    }
  }

  lemma SomethingLeft(p: Parser, fs: seq<Frame>)
    requires Follows(p, fs) && Sendable(fs) && (p.inFrame || fs != [])
    ensures Left(p, fs) != []
  {
    if p.inFrame {
      assert |Tail(fs, p.info.index)| > 0;
    } else {
      assert |Encode(fs[0])| > 0;
    }
  }

  /** However the encodings of some data frames are cut, as long as no header is:
      the events hand over exactly these frames, and the parser is done. */
  lemma FramesArrive(p: Parser, buffers: seq<bytes>, fs: seq<Frame>)
    requires Sound(p) && !p.inFrame && Sendable(fs) && ReceiveAll(p, buffers).headsAreWhole
    requires Concat(buffers) == EncodeAll(fs)
    ensures !ReceiveAll(p, buffers).parser.inFrame
    ensures Delivered(ReceiveAll(p, buffers).events, Place(fs, 0)) == Some(Place([], 0))
  {
    var r := ReceiveAll(p, buffers);
    var left := StreamDelivers(p, buffers, fs, r);
    if r.parser.inFrame || left != [] {
      SomethingLeft(r.parser, left);
    }
  }

  // The message.

  function Payloads(events: seq<Event>): bytes {
    if events == [] then [] else events[0].payload + Payloads(events[1..])
  }

  function Rest(place: Place): bytes
    requires place.frames == [] || place.index <= |place.frames[0].payload|
  {
    if place.frames == [] then []
    else place.frames[0].payload[place.index..] + PayloadsOf(place.frames[1..])
  }

  function PayloadsOf(fs: seq<Frame>): bytes {
    if fs == [] then [] else fs[0].payload + PayloadsOf(fs[1..])
  }

  lemma {:induction false} DeliveredBytes(events: seq<Event>, from: Place)
    requires Delivered(events, from) == Some(Place([], 0))
    requires from.frames == [] || from.index <= |from.frames[0].payload|
    ensures Payloads(events) == Rest(from)
    decreases |events|
  {
    if events != [] {
      var e := events[0];
      var f := from.frames[0];
      var next := Further(from, |e.payload|);
      DeliveredBytes(events[1..], next);
      RestOf(next.frames);
      assert f.payload[from.index..] == e.payload + f.payload[from.index + |e.payload|..];
      Associates(e.payload, f.payload[from.index + |e.payload|..], PayloadsOf(from.frames[1..]));
    }
  }

  lemma RestOf(fs: seq<Frame>)
    ensures Rest(Place(fs, 0)) == PayloadsOf(fs)
  {
    if fs != [] { assert fs[0].payload[0..] == fs[0].payload; }
  }

  lemma {:induction false} FramesAppend(fs: seq<Frame>, f: Frame)
    requires Sendable(fs + [f])
    ensures Sendable(fs) && EncodeAll(fs + [f]) == EncodeAll(fs) + Encode(f)
    ensures PayloadsOf(fs + [f]) == PayloadsOf(fs) + f.payload
  {
    assert forall g <- fs :: g in fs + [f];
    if fs == [] {
      assert ([] + [f])[1..] == [];
      assert Encode(f) + [] == Encode(f) && f.payload + [] == f.payload;
    } else {
      assert (fs + [f])[1..] == fs[1..] + [f];
      FramesAppend(fs[1..], f);
      Associates(Encode(fs[0]), EncodeAll(fs[1..]), Encode(f));
      Associates(fs[0].payload, PayloadsOf(fs[1..]), f.payload);
    }
  }

  /** What the sender writes is the standard encoding of its frames. */
  lemma {:induction false} StreamIsEncoded(run: Messages.Run)
    requires forall f <- Messages.Frames(run) :: |f.payload| < 0x1_0000 && f.opcode < 8
    ensures Sendable(Messages.Frames(run))
    ensures Messages.Stream(run) == EncodeAll(Messages.Frames(run))
    ensures Messages.Joined(run) == PayloadsOf(Messages.Frames(run))
  {
    assert 0x1_0000 < Span(8) by { assert Span(4) == 0x1_0000_0000; assert Span(8) >= Span(4); }
    if run.Then? {
      assert run.last in Messages.Frames(run);
      assert forall f <- Messages.Frames(run.earlier) :: f in Messages.Frames(run);
      StreamIsEncoded(run.earlier);
      FramesAppend(Messages.Frames(run.earlier), run.last);
      ShortIsRight(run.last);
    }
  }

  /** A message of any length, sent through any sequence of windows, cut into any
      buffers that leave the headers whole: its bytes arrive, in fragments of
      which the first has the opcode and the last has FIN. */
  lemma MessageArrives(run: Messages.Run, message: bytes, opcode: nat, p: Parser, buffers: seq<bytes>)
    requires message != [] && opcode < 8 && Messages.Covers(run, message, opcode) == |message|
    requires forall f <- Messages.Frames(run) :: |f.payload| < 0x1_0000
    requires Sound(p) && !p.inFrame && ReceiveAll(p, buffers).headsAreWhole
    requires Concat(buffers) == Messages.Stream(run)
    ensures var r := ReceiveAll(p, buffers);
            var fs := Messages.Frames(run);
            && Payloads(r.events) == message && !r.parser.inFrame
            && Delivered(r.events, Place(fs, 0)) == Some(Place([], 0))
            && fs != []
            && forall i :: 0 <= i < |fs| ==>
                 fs[i].opcode == (if i == 0 then opcode else 0) && fs[i].final == (i == |fs| - 1)
  {
    var fs := Messages.Frames(run);
    Messages.FragmentsSay(run, message, opcode);
    StreamIsEncoded(run);
    FramesArrive(p, buffers, fs);
    DeliveredBytes(ReceiveAll(p, buffers).events, Place(fs, 0));
    RestOf(fs);
    assert message[..|message|] == message;
  }
}
