/** A message sent in fragments as large as the connection's window allows. */
module WebSocketMessages {
  import opened Bytes
  import opened WebSocketFrames

  /** The sending half of a TCP connection: what it has taken, and how much
      more it would take now. */
  class AsyncClient {
    var out: bytes
    var space: nat
    var canSend: bool

    constructor ()
      ensures out == [] && space == 0 && !canSend
    {
      out := [];
      space := 0;
      canSend := false;
    }

    method Add(data: bytes) returns (n: nat)
      modifies this
      ensures n == if |data| <= old(space) then |data| else old(space)
      ensures out == old(out) + data[..n] && space == old(space) - n && canSend == old(canSend)
      ensures n == |data| ==> out == old(out) + data
    {
      assert data[..|data|] == data;
      n := if |data| <= space then |data| else space;
      out := out + data[..n];
      space := space - n;
    }

    /** How much payload one frame can carry now. */
    function Window(): (w: nat)
      reads this
    {
      if !canSend || space < 9 then 0 else space - 8
    }
  }

  function HeadLength(mask: bool, asked: nat): (n: nat)
    ensures 2 <= n <= 8
  {
    2 + (if asked != 0 && mask then 4 else 0) + (if asked > 125 then 2 else 0)
  }

  /** How much of the payload asked for a frame takes. */
  function Taken(canSend: bool, space: nat, mask: bool, asked: nat): (n: nat)
    ensures n <= asked
  {
    if !canSend || space < HeadLength(mask, asked) then 0
    else if asked <= space - HeadLength(mask, asked) then asked
    else space - HeadLength(mask, asked)
  }

  lemma WindowIsTaken(client: AsyncClient, mask: bool, asked: nat)
    requires asked <= client.Window() && client.Window() > 0
    ensures client.canSend && client.space >= HeadLength(mask, asked)
    ensures Taken(client.canSend, client.space, mask, asked) == asked
  {
  }

  /** The bytes of the header buffer. Its size goes by the length asked for, what
      is written into it by the length taken; the rest is what malloc left. */
  function HeadBytes(scratch: bytes, final: bool, opcode: nat, mask: bool, key: bytes, asked: nat, len: nat): (r: bytes)
    requires |scratch| == 8 && |key| == 4 && len <= asked
    ensures |r| == HeadLength(mask, asked)
  {
    var bit: nat := if len != 0 && mask then 0x80 else 0;
    var long := if asked <= 125 then [] else if len < 126 then scratch[2..4] else [len / 256 % 256, len % 256];
    var last := if asked == 0 || !mask then [] else if len != 0 then key else scratch[2 + |long|..6 + |long|];
    [opcode % 16 + if final then 0x80 else 0, (if len < 126 then len else 126) + bit] + long + last
  }

  function Sent(final: bool, opcode: nat, mask: bool, key: bytes, payload: bytes): (f: Frame)
    requires |key| == 4
  {
    FrameData(final, opcode % 16, payload, if payload != [] && mask then key else [])
  }

  /** When all that was asked for is taken, the header is the frame's. */
  lemma HeadIsRight(scratch: bytes, final: bool, opcode: nat, mask: bool, key: bytes, payload: bytes)
    requires |scratch| == 8 && |key| == 4
    ensures var f := Sent(final, opcode, mask, key, payload);
            HeadBytes(scratch, final, opcode, mask, key, |payload|, |payload|) == ShortHead(f) + f.mask
  {
  }

  /** Cut short, it is the frame's exactly when the length needs as many bytes as the
      length asked for, and some payload is left under a mask. */
  lemma CutHeadIsRight(scratch: bytes, final: bool, opcode: nat, mask: bool, key: bytes, payload: bytes, asked: nat)
    requires |scratch| == 8 && |key| == 4 && |payload| <= asked
    ensures var f := Sent(final, opcode, mask, key, payload);
            HeadBytes(scratch, final, opcode, mask, key, asked, |payload|) == ShortHead(f) + f.mask
            <==> (asked > 125 <==> |payload| > 125) && (asked != 0 && mask ==> payload != [])
  {
    var f := Sent(final, opcode, mask, key, payload);
    var head := HeadBytes(scratch, final, opcode, mask, key, asked, |payload|);
    if head == ShortHead(f) + f.mask {
      assert |head| == |ShortHead(f)| + |f.mask|;
    }
  }

  /** The window is what fits behind the longest header, and nothing less. */
  lemma WindowSays(client: AsyncClient, n: nat)
    ensures n > 0 ==> (n <= client.Window() <==> client.canSend && n + 8 <= client.space)
  {
  }

  function Payloaded(payload: bytes, mask: bool, key: bytes): (r: bytes)
    requires |key| == 4
    ensures |r| == |payload|
  {
    if mask then Masked(payload, key, 0) else payload
  }

  lemma WholeFrame(scratch: bytes, final: bool, opcode: nat, mask: bool, key: bytes, payload: bytes)
    requires |scratch| == 8 && |key| == 4 && payload != []
    ensures var f := Sent(final, opcode, mask, key, payload);
            HeadBytes(scratch, final, opcode, mask, key, |payload|, |payload|) + Payloaded(payload, mask,
                key) == ShortEncode(f)
  {
    HeadIsRight(scratch, final, opcode, mask, key, payload);
  }

  /** What a frame puts on the connection: nothing unless its header fits. */
  function Written(canSend: bool, space: nat, scratch: bytes, final: bool, opcode: nat, mask: bool, key: bytes,
                   payload: bytes): bytes
    requires |key| == 4 && |scratch| == 8
  {
    if !canSend || space < HeadLength(mask, |payload|) then []
    else
      var len := Taken(canSend, space, mask, |payload|);
      HeadBytes(scratch, final, opcode, mask, key, |payload|, len) + Payloaded(payload[..len], mask, key)
  }

  /** Writes one frame; the payload is masked where it lies. */
  method SendFrame(client: AsyncClient, final: bool, opcode: nat, mask: bool, key: bytes, scratch: bytes,
                   data: array<byte>, from: nat, asked: nat, ghost payload: bytes) returns (len: nat)
    requires |key| == 4 && |scratch| == 8 && from + asked <= data.Length && payload == data[from..from + asked]
    modifies client, data
    ensures len == Taken(old(client.canSend), old(client.space), mask, asked)
    ensures client.out == old(client.out)
              + Written(old(client.canSend), old(client.space), scratch, final, opcode, mask, key, payload)
    ensures data[from..from + len] == Payloaded(payload[..len], mask, key)
    ensures forall i :: 0 <= i < data.Length && !(from <= i < from + len) ==> data[i] == old(data[i])
  {
    ghost var out := Written(client.canSend, client.space, scratch, final, opcode, mask, key, payload);
    var headLen := HeadLength(mask, asked);
    if !client.canSend || client.space < headLen {
      assert client.out + [] == client.out;
      return 0;
    }
    len := asked;
    if len > client.space - headLen {
      len := client.space - headLen;
    }
    ghost var taken := payload[..len];
    assert taken == data[from..from + len];
    var buf := HeadBytes(scratch, final, opcode, mask, key, asked, len);
    Associates(client.out, buf, Payloaded(taken, mask, key));
    assert out == buf + Payloaded(taken, mask, key);
    var added := client.Add(buf);
    SendPayload(client, mask, key, data, from, len, taken);
  }

  method SendPayload(client: AsyncClient, mask: bool, key: bytes, data: array<byte>, from: nat, len: nat,
                     ghost payload: bytes)
    requires |key| == 4 && from + len <= data.Length && len <= client.space && payload == data[from..from + len]
    modifies client, data
    ensures client.out == old(client.out) + Payloaded(payload, mask, key)
    ensures data[from..from + len] == Payloaded(payload, mask, key)
    ensures forall i :: 0 <= i < data.Length && !(from <= i < from + len) ==> data[i] == old(data[i])
  {
    if len != 0 {
      if mask {
        MaskInPlace(data, from, len, key);
      }
      var added := client.Add(data[from..from + len]);
    } else {
      assert client.out + [] == client.out;
    }
  }

  method MaskInPlace(data: array<byte>, from: nat, len: nat, key: bytes)
    requires |key| == 4 && from + len <= data.Length
    modifies data
    ensures data[from..from + len] == Masked(old(data[from..from + len]), key, 0)
    ensures forall i :: 0 <= i < data.Length && !(from <= i < from + len) ==> data[i] == old(data[i])
  {
    var i := 0;
    while i < len
      invariant 0 <= i <= len
      invariant forall j :: 0 <= j < data.Length ==>
        data[j] == if from <= j < from + i then Xor(old(data[j]), key[(j - from) % 4]) else old(data[j])
    {
      data[from + i] := Xor(data[from + i], key[i % 4]);
      i := i + 1;
    }
  }

  /** What has to be acknowledged before the next frame. */
  lemma FrameSize(final: bool, opcode: nat, mask: bool, key: bytes, payload: bytes)
    requires |key| == 4 && payload != []
    ensures |ShortEncode(Sent(final, opcode, mask, key, payload))|
            == |payload| + (if |payload| < 126 then 2 else 4) + (if mask then 4 else 0)
  {
  }

  /** Within the window a frame is taken as a whole. */
  method SendWhole(client: AsyncClient, final: bool, opcode: nat, mask: bool, key: bytes, scratch: bytes,
                   data: array<byte>, from: nat, len: nat, ghost payload: bytes) returns (n: nat)
    requires |key| == 4 && |scratch| == 8 && from + len <= data.Length && 0 < len <= client.Window()
    requires payload == data[from..from + len]
    modifies client, data
    ensures n == len
    ensures client.out == old(client.out) + ShortEncode(Sent(final, opcode, mask, key, payload))
    ensures forall i :: 0 <= i < data.Length && !(from <= i < from + len) ==> data[i] == old(data[i])
  {
    WindowIsTaken(client, mask, len);
    assert payload[..len] == payload;
    WholeFrame(scratch, final, opcode, mask, key, payload);
    n := SendFrame(client, final, opcode, mask, key, scratch, data, from, len, payload);
  }

  datatype Status = SENDING | SENT

  /** The frames of a message so far, the last one outermost. */
  datatype Run = Start | Then(earlier: Run, last: Frame)

  function Frames(run: Run): seq<Frame> {
    if run.Start? then [] else Frames(run.earlier) + [run.last]
  }

  function Stream(run: Run): bytes {
    if run.Start? then [] else Stream(run.earlier) + ShortEncode(run.last)
  }

  function Joined(run: Run): bytes {
    if run.Start? then [] else Joined(run.earlier) + run.last.payload
  }

  /** How much of the message these frames are: fragments that are not empty,
      the opcode on the first, FIN on the one that ends the message. Negative
      for anything else. */
  function Covers(run: Run, message: bytes, opcode: nat): (n: int)
    ensures n <= |message|
  {
    if run.Start? then 0
    else
      var n, f := Covers(run.earlier, message, opcode), run.last;
      if n >= 0 && f.payload != [] && n + |f.payload| <= |message| && f.payload == message[n..n + |f.payload|]
         && f.opcode == (if n == 0 then opcode else 0) && f.final == (n + |f.payload| == |message|)
      then n + |f.payload| else -1
  }

  /** The fragments together are the message, and how they are marked. */
  lemma {:induction false} FragmentsSay(run: Run, message: bytes, opcode: nat)
    requires Covers(run, message, opcode) >= 0
    ensures var n := Covers(run, message, opcode);
            Joined(run) == message[..n]
            && (n > 0 <==> Frames(run) != [])
            && forall i :: 0 <= i < |Frames(run)| ==>
                 && Frames(run)[i].payload != []
                 && Frames(run)[i].opcode == (if i == 0 then opcode else 0)
                 && Frames(run)[i].final == (i == |Frames(run)| - 1 && n == |message|)
  {
    if run.Then? {
      FragmentsSay(run.earlier, message, opcode);
      var n, k := Covers(run.earlier, message, opcode), Covers(run, message, opcode);
      assert message[..n] + message[n..k] == message[..k];
    }
  }

  /** The frame that is to carry the next n bytes. */
  function Next(message: bytes, sent: nat, opcode: nat, n: nat, mask: bool, key: bytes): (f: Frame)
    requires sent + n <= |message| && opcode < 8 && |key| == 4
  {
    Sent(sent + n == |message|, if sent == 0 then opcode else 0, mask, key, message[sent..sent + n])
  }

  lemma NextAdded(run: Run, message: bytes, sent: nat, opcode: nat, n: nat, mask: bool, key: bytes)
    requires 0 < n && sent + n <= |message| && opcode < 8 && |key| == 4
    requires Covers(run, message, opcode) == sent
    ensures Covers(Then(run, Next(message, sent, opcode, n, mask, key)), message, opcode) == sent + n
  {
  }

  lemma NextIsUnsent(message: bytes, data: bytes, sent: nat, n: nat)
    requires |data| == |message| && sent + n <= |message| && data[sent..] == message[sent..]
    ensures data[sent..sent + n] == message[sent..sent + n]
  {
    assert data[sent..sent + n] == data[sent..][..n] && message[sent..sent + n] == message[sent..][..n];
  }

  lemma RestUnsent(message: bytes, data: bytes, after: bytes, sent: nat, n: nat)
    requires |data| == |message| == |after| && sent + n <= |message| && data[sent..] == message[sent..]
    requires forall i :: sent + n <= i < |data| ==> after[i] == data[i]
    ensures after[sent + n..] == message[sent + n..]
  {
    forall i | sent + n <= i < |data| ensures after[i] == message[i] {
      assert data[sent..][i - sent] == message[sent..][i - sent];
    }
  }

  class BasicMessage {
    const data: array<byte>
    const opcode: nat
    const mask: bool
    var sent: nat
    // bytes that must be acknowledged before the next frame, and that have been
    var ack: nat
    var acked: nat
    var status: Status
    // the message as given, and what has become of it
    ghost const message: bytes
    ghost const before: bytes
    ghost var run: Run

    /** What is not sent yet still is as it was given. */
    ghost predicate Unsent()
      reads this, data
    {
      && opcode < 8 && data.Length == |message| && sent <= |message|
      && data[sent..] == message[sent..]
      && (status == SENT ==> sent == |message|)
    }

    ghost predicate Valid()
      reads this, data
    {
      Unsent() && Covers(run, message, opcode) == sent
    }

    /** What the connection has taken is what was there before and the frames. */
    ghost predicate SentOn(client: AsyncClient)
      requires Valid()
      reads this, data, client
    {
      client.out == before + Stream(run)
    }

    constructor (data: array<byte>, opcode: nat, mask: bool, ghost client: AsyncClient)
      ensures Valid() && SentOn(client) && sent == 0 && this.data == data && message == data[..] && status == SENDING
      ensures this.opcode == opcode % 8 && this.mask == mask && BetweenFrames()
    {
      this.data := data;
      this.opcode := opcode % 8;
      this.mask := mask;
      sent := 0;
      ack := 0;
      acked := 0;
      status := SENDING;
      message := data[..];
      before := client.out;
      run := Start;
      new;
      assert client.out + [] == client.out;
    }

    predicate BetweenFrames()
      reads this
    {
      acked == ack
    }

    method Ack(len: nat)
      requires Valid()
      modifies this
      ensures Valid() && run == old(run) && sent == old(sent)
      ensures acked == old(acked) + len && ack == old(ack)
      ensures status == if sent == |message| && acked == ack then SENT else old(status)
    {
      acked := acked + len;
      if sent == data.Length && acked == ack {
        status := SENT;
      }
    }

    method SendNext(client: AsyncClient, key: bytes, scratch: bytes, toSend: nat) returns (n: nat)
      requires Unsent() && 0 < toSend <= client.Window() && sent + toSend <= data.Length
      requires |key| == 4 && |scratch| == 8
      modifies this`sent, this`ack, data, client
      ensures Unsent()
      ensures n == toSend && sent == old(sent) + toSend
      ensures client.out == old(client.out) + ShortEncode(Next(message, old(sent), opcode, toSend, mask, key))
      ensures ack == old(ack) + (|client.out| - |old(client.out)|)
    {
      ghost var unsent := data[..];
      ghost var payload := message[sent..sent + toSend];
      ghost var f := Next(message, sent, opcode, toSend, mask, key);
      NextIsUnsent(message, unsent, sent, toSend);
      assert payload == data[sent..sent + toSend];
      var from := sent;
      sent := sent + toSend;
      ack := ack + toSend + (if toSend < 126 then 2 else 4) + (if mask then 4 else 0);
      var final := sent == data.Length;
      var op := if sent == toSend then opcode else 0;
      assert f == Sent(final, op, mask, key, payload);
      FrameSize(final, op, mask, key, payload);
      n := SendWhole(client, final, op, mask, key, scratch, data, from, toSend, payload);
      assert client.out == old(client.out) + ShortEncode(f);
      RestUnsent(message, unsent, data[..], from, toSend);
      assert data[..][sent..] == data[sent..];
    }

    method SendFragment(client: AsyncClient, key: bytes, scratch: bytes, toSend: nat) returns (n: nat)
      requires Valid() && SentOn(client) && 0 < toSend <= client.Window() && sent + toSend <= data.Length
      requires |key| == 4 && |scratch| == 8
      modifies this`sent, this`ack, this`run, data, client
      ensures Valid() && SentOn(client)
      ensures n == toSend && sent == old(sent) + toSend
      ensures run == Then(old(run), Next(message, old(sent), opcode, toSend, mask, key))
      ensures ack == old(ack) + (|client.out| - |old(client.out)|)
    {
      ghost var f := Next(message, sent, opcode, toSend, mask, key);
      Associates(before, Stream(run), ShortEncode(f));
      NextAdded(run, message, sent, opcode, toSend, mask, key);
      run := Then(run, f);
      n := SendNext(client, key, scratch, toSend);
    }

    /** The next frame: as much of the rest as the window allows. */
    method Send(client: AsyncClient, key: bytes, scratch: bytes) returns (n: nat)
      requires Valid() && SentOn(client) && client.Window() > 0
      requires |key| == 4 && |scratch| == 8
      modifies this, data, client
      ensures Valid() && SentOn(client)
      ensures n == if old(status) != SENDING || old(acked) < old(ack) then 0
                   else if |message| - old(sent) < old(client.Window()) then |message| - old(sent)
                   else old(client.Window())
      ensures sent == old(sent) + n && acked == old(acked)
      ensures n > 0 ==> run == Then(old(run), Next(message, old(sent), opcode, n, mask, key))
      ensures n > 0 ==> ack == old(ack) + (|client.out| - |old(client.out)|) && status == old(status)
      ensures n == 0 ==> run == old(run) && ack == old(ack) && client.out == old(client.out)
      ensures n == 0 ==> status == if sent == |message| && acked == ack then SENT else old(status)
    {
      if status != SENDING {
        return 0;
      }
      if acked < ack {
        return 0;
      }
      if sent == data.Length {
        if acked == ack {
          status := SENT;
        }
        return 0;
      }
      var toSend := data.Length - sent;
      var window := client.Window();
      if window < toSend {
        toSend := window;
      }
      n := SendFragment(client, key, scratch, toSend);
    }
  }

  /** With no control frame waiting, the message at the front goes on whenever
      its last frame has been acknowledged and there is a window at all. */
  method RunQueue(client: AsyncClient, front: BasicMessage, key: bytes, scratch: bytes)
    requires front.Valid() && front.SentOn(client) && |key| == 4 && |scratch| == 8
    modifies front, front.data, client
    ensures front.Valid() && front.SentOn(client)
    ensures old(front.BetweenFrames() && client.Window() > 0 && front.status == SENDING && front.sent < |front.message|)
            ==> front.sent > old(front.sent)
    ensures old(!front.BetweenFrames() || client.Window() == 0) ==> front.run == old(front.run)
                                                                    && client.out == old(client.out)
  {
    if front.BetweenFrames() && client.Window() != 0 {
      var n := front.Send(client, key, scratch);
    }
  }
}
