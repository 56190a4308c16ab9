/** What a WebSocket client makes of the bytes it receives, buffer by buffer. */
module WebSocketParsers {
  import opened Bytes
  import opened WebSocketFrames

  /** The frame being received, as shown to the event handler. */
  datatype Info = Info(final: bool, opcode: nat, masked: bool, len: nat, mask: bytes, index: nat,
                       messageOpcode: nat, num: nat)

  datatype Parser = Parser(inFrame: bool, info: Info)

  const WS_DISCONNECT := 8
  const WS_PING := 9
  const WS_PONG := 10

  /** Data goes to the handler; a control frame is handled when it is whole. */
  datatype Event = Data(info: Info, payload: bytes) | Control(opcode: nat, payload: bytes)

  const KEEP_ALIVE: bytes := [
    0x45, 0x53, 0x50, 0x41, 0x73, 0x79, 0x6E, 0x63, 0x57, 0x65, 0x62,
    0x53, 0x65, 0x72, 0x76, 0x65, 0x72, 0x2D, 0x50, 0x49, 0x4E, 0x47]

  function LengthBytes(b: byte): (n: nat)
    ensures n <= 8
  {
    if b % 0x80 == 126 then 2 else if b % 0x80 == 127 then 8 else 0
  }

  function HeadSize(second: byte): (n: nat)
    ensures 2 <= n <= 14
  {
    2 + LengthBytes(second) + if second >= 0x80 then 4 else 0
  }

  function HeadInfo(data: bytes, before: Info): (info: Info)
    requires |data| >= 2 && |data| >= HeadSize(data[1])
    ensures info.index == 0
    ensures info.masked ==> |info.mask| == 4
  {
    var n := LengthBytes(data[1]);
    var masked := data[1] >= 0x80;
    before.(final := data[0] >= 0x80, opcode := data[0] % 0x10, masked := masked, index := 0,
            len := if n == 0 then data[1] % 0x80 else FromBigEndian(data[2..2 + n]),
            mask := if masked then data[2 + n..6 + n] else before.mask)
  }

  function Unmasked(info: Info, data: bytes): (r: bytes)
    requires info.masked ==> |info.mask| == 4
    ensures |r| == |data|
  {
    if info.masked then Masked(data, info.mask, info.index) else data
  }

  /** A first part of a frame that is not whole starts or continues a message. */
  function Counted(info: Info): Info {
    if info.index != 0 then info
    else if info.opcode != 0 then info.(messageOpcode := info.opcode, num := 0)
    else info.(num := (info.num + 1) % 0x1_0000_0000)
  }

  function WholeEvents(info: Info, payload: bytes): seq<Event> {
    if info.opcode == WS_PONG then
      if payload == KEEP_ALIVE then [] else [Control(WS_PONG, payload)]
    else if info.opcode == WS_DISCONNECT || info.opcode == WS_PING then [Control(info.opcode, payload)]
    else if info.opcode < 8 then [Data(info, payload)]
    else []
  }

  datatype Step = Step(parser: Parser, events: seq<Event>, used: nat)

  predicate Sound(p: Parser) {
    && (p.info.masked ==> |p.info.mask| == 4)
    && (p.inFrame ==> p.info.index < p.info.len)
  }

  /** A part of a frame's payload and what it leaves to come. */
  function Taken(info: Info, payload: bytes): (s: Step)
    requires info.index + |payload| <= info.len && (info.masked ==> |info.mask| == 4)
    ensures Sound(s.parser) && s.used == |payload|
    ensures s.parser.inFrame <==> info.index + |payload| < info.len
  {
    if info.index + |payload| < info.len then
      Step(Parser(true, Counted(info).(index := info.index + |payload|)), [Data(Counted(info), payload)], |payload|)
    else
      Step(Parser(false, info), WholeEvents(info, payload), |payload|)
  }

  /** The part of one frame that a buffer holds, after its header. */
  function Part(info: Info, data: bytes): (s: Step)
    requires info.index <= info.len && (info.masked ==> |info.mask| == 4)
    ensures s.used <= |data| && Sound(s.parser)
    ensures s.parser.inFrame ==> s.used == |data|
  {
    var n := if info.len - info.index <= |data| then info.len - info.index else |data|;
    Taken(info, Unmasked(info, data[..n]))
  }

  /** The next frame's header is in the buffer as a whole. */
  predicate HeadIsWhole(p: Parser, data: bytes) {
    p.inFrame || (|data| >= 2 && |data| >= HeadSize(data[1]))
  }

  function Skip(p: Parser, data: bytes): (n: nat)
    requires HeadIsWhole(p, data)
    ensures n <= |data|
  {
    if p.inFrame then 0 else HeadSize(data[1])
  }

  function InfoAt(p: Parser, data: bytes): (info: Info)
    requires Sound(p) && HeadIsWhole(p, data)
    ensures info.index <= info.len && (info.masked ==> |info.mask| == 4)
  {
    if p.inFrame then p.info else HeadInfo(data, p.info)
  }

  function Once(p: Parser, data: bytes): (s: Step)
    requires Sound(p) && HeadIsWhole(p, data)
    ensures s.used + Skip(p, data) <= |data| && Sound(s.parser)
    ensures data != [] ==> s.used + Skip(p, data) > 0
  {
    Part(InfoAt(p, data), data[Skip(p, data)..])
  }

  /** The parser's state and the events of a buffer, and whether all headers
      that begin in the buffer are in it as a whole. */
  datatype Result = Result(parser: Parser, events: seq<Event>, headsAreWhole: bool)

  function Receive(p: Parser, data: bytes): (r: Result)
    requires Sound(p)
    ensures Sound(r.parser)
    decreases |data|
  {
    if data == [] then Result(p, [], true)
    else if !HeadIsWhole(p, data) then Result(p, [], false)
    else
      var s := Once(p, data);
      After(s.events, Receive(s.parser, data[s.used + Skip(p, data)..]))
  }

  function After(events: seq<Event>, r: Result): Result {
    r.(events := events + r.events)
  }

  lemma AfterTwice(a: seq<Event>, b: seq<Event>, r: Result)
    ensures After(a, After(b, r)) == After(a + b, r)
  {
    Associates(a, b, r.events);
  }

  lemma ReceiveOnce(events: seq<Event>, p: Parser, data: bytes) returns (s: Step, more: bytes)
    requires Sound(p) && data != [] && Receive(p, data).headsAreWhole
    ensures HeadIsWhole(p, data) && s == Once(p, data) && more == data[s.used + Skip(p, data)..]
    ensures After(events, Receive(p, data)) == After(events + s.events, Receive(s.parser, more))
  {
    s := Once(p, data);
    more := data[s.used + Skip(p, data)..];
    AfterTwice(events, s.events, Receive(s.parser, more));
  }

  lemma RestIsLeft(now: bytes, before: bytes, from: nat, to: nat)
    requires |now| == |before| && from <= to <= |now| && forall j :: to <= j < |now| ==> now[j] == before[j]
    ensures now[to..] == before[from..][to - from..]
  {
  }

  class WebSocketClient {
    var pstate: bool
    var pinfo: Info
    // the calls of the event handler so far
    var events: seq<Event>

    ghost predicate Valid()
      reads this
    {
      Sound(Parser(pstate, pinfo))
    }

    /** A header has been read. */
    ghost predicate InFrame()
      reads this
    {
      pinfo.index <= pinfo.len && (pinfo.masked ==> |pinfo.mask| == 4)
    }

    constructor ()
      ensures Valid() && !pstate && events == [] && pinfo == Info(false, 0, false, 0, [], 0, 0, 0)
    {
      pstate := false;
      pinfo := Info(false, 0, false, 0, [], 0, 0, 0);
      events := [];
    }

    /** Reads a header, or goes on in the frame that has begun. */
    method ReadHead(data: array<byte>, from: nat, ghost p: Parser, ghost rest: bytes) returns (n: nat)
      requires Valid() && from <= data.Length && p == Parser(pstate, pinfo) && rest == data[from..]
               && HeadIsWhole(p, rest)
      modifies this`pinfo
      ensures n == Skip(p, rest) && pinfo == InfoAt(p, rest)
    {
      n := 0;
      if !pstate {
        var first, second := data[from], data[from + 1];
        var masked := second >= 0x80;
        var len: nat := second % 0x80;
        n := 2;
        if len == 126 {
          len := FromBigEndian(data[from + 2..from + 4]);
          assert rest[2..4] == data[from + 2..from + 4];
          n := n + 2;
        } else if len == 127 {
          len := FromBigEndian(data[from + 2..from + 10]);
          assert rest[2..10] == data[from + 2..from + 10];
          n := n + 8;
        }
        var mask := pinfo.mask;
        if masked {
          mask := data[from + n..from + n + 4];
          assert rest[n..n + 4] == mask;
          n := n + 4;
        }
        pinfo := pinfo.(index := 0, final := first >= 0x80, opcode := first % 0x10, masked := masked, len := len,
                        mask := mask);
      }
    }

    /** Unmasks a payload where it lies; nothing else in the buffer changes. */
    method Unmask(data: array<byte>, from: nat, datalen: nat, ghost part: bytes) returns (payload: bytes)
      requires from + datalen <= data.Length && (pinfo.masked ==> |pinfo.mask| == 4)
      requires part == data[from..from + datalen]
      modifies data
      ensures payload == data[from..from + datalen] && payload == Unmasked(pinfo, part)
      ensures forall j :: 0 <= j < data.Length && !(from <= j < from + datalen) ==> data[j] == old(data[j])
    {
      if pinfo.masked {
        var i := 0;
        while i < datalen
          invariant 0 <= i <= datalen && pinfo == old(pinfo)
          invariant forall j :: 0 <= j < data.Length ==>
            data[j] == if from <= j < from + i then Xor(old(data[j]),
                                                        pinfo.mask[(pinfo.index + j - from) % 4]) else old(data[j])
        {
          data[from + i] := Xor(data[from + i], pinfo.mask[(pinfo.index + i) % 4]);
          i := i + 1;
        }
      }
      payload := data[from..from + datalen];
    }

    /** Hands over the part of the frame that has arrived. */
    method Handle(data: bytes, ghost s: Step)
      requires pinfo.index + |data| <= pinfo.len && (pinfo.masked ==> |pinfo.mask| == 4)
      requires s == Taken(pinfo, data)
      modifies this
      ensures Parser(pstate, pinfo) == s.parser && events == old(events) + s.events
    {
      if |data| + pinfo.index < pinfo.len {
        pstate := true;
        if pinfo.index == 0 {
          if pinfo.opcode != 0 {
            pinfo := pinfo.(messageOpcode := pinfo.opcode, num := 0);
          } else {
            pinfo := pinfo.(num := (pinfo.num + 1) % 0x1_0000_0000);
          }
        }
        events := events + [Data(pinfo, data)];
        pinfo := pinfo.(index := pinfo.index + |data|);
      } else {
        pstate := false;
        if pinfo.opcode == WS_DISCONNECT {
          events := events + [Control(WS_DISCONNECT, data)];
        } else if pinfo.opcode == WS_PING {
          events := events + [Control(WS_PING, data)];
        } else if pinfo.opcode == WS_PONG {
          if data != KEEP_ALIVE {
            events := events + [Control(WS_PONG, data)];
          }
        } else if pinfo.opcode < 8 {
          // continuation or text or binary frame
          events := events + [Data(pinfo, data)];
        }
      }
    }

    /** Unmasks and hands over what the buffer holds of the frame. */
    method TakePart(data: array<byte>, start: nat, ghost whole: bytes) returns (datalen: nat)
      requires InFrame() && start <= data.Length && whole == data[..]
      modifies this, data
      ensures datalen == Part(old(pinfo), whole[start..]).used
      ensures Parser(pstate, pinfo) == Part(old(pinfo), whole[start..]).parser
      ensures events == old(events) + Part(old(pinfo), whole[start..]).events
      ensures forall j :: start + datalen <= j < data.Length ==> data[j] == whole[j]
    {
      datalen :=
        if pinfo.len - pinfo.index <= data.Length - start then pinfo.len - pinfo.index else data.Length - start;
      ghost var part := whole[start..start + datalen];
      assert part == whole[start..][..datalen];
      var payload := Unmask(data, start, datalen, part);
      Handle(payload, Part(pinfo, whole[start..]));
    }

    /** One turn of the loop: the rest of a frame, or a frame from its header on. */
    method Turn(data: array<byte>, from: nat, ghost p: Parser, ghost rest: bytes, ghost s: Step) returns (to: nat)
      requires Valid() && from < data.Length && p == Parser(pstate, pinfo) && rest == data[..][from..]
      requires HeadIsWhole(p, rest) && s == Once(p, rest)
      modifies this, data
      ensures to == from + Skip(p, rest) + s.used <= data.Length
      ensures Parser(pstate, pinfo) == s.parser && events == old(events) + s.events
      ensures data[to..] == rest[to - from..]
    {
      ghost var whole := data[..];
      var n := ReadHead(data, from, p, rest);
      assert data[..] == whole;
      assert rest[n..] == whole[from + n..];
      var datalen := TakePart(data, from + n, whole);
      to := from + n + datalen;
      RestIsLeft(data[..], whole, from, to);
    }

    method OnData(data: array<byte>)
      requires Valid() && Receive(Parser(pstate, pinfo), data[..]).headsAreWhole
      modifies this, data
      ensures Valid()
      ensures Result(Parser(pstate, pinfo), events, true)
              == After(old(events), Receive(old(Parser(pstate, pinfo)), old(data[..])))
    {
      ghost var goal := After(events, Receive(Parser(pstate, pinfo), data[..]));
      ghost var rest := data[..];
      var from := 0;
      while from < data.Length
        invariant Valid() && from <= data.Length && rest == data[from..] && goal.headsAreWhole
        invariant goal == After(events, Receive(Parser(pstate, pinfo), rest))
      {
        ghost var p, start := Parser(pstate, pinfo), from;
        ghost var s, more := ReceiveOnce(events, p, rest);
        from := Turn(data, from, p, rest, s);
        assert more == rest[from - start..];
        rest := more;
      }
      assert rest == [];
      assert events + [] == events;
    }
  }
}
