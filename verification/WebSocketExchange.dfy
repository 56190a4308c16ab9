/** A message from its sender, through windows and buffers, to its receiver. */
module WebSocketExchanges {
  import opened Bytes
  import opened Options
  import opened WebSocketFrames
  import Messages = WebSocketMessages
  import opened WebSocketParsers
  import opened WebSocketTheorems

  /** A connection that has room in every turn, and acknowledges all before the next:
      each turn sends something. */
  method SendAll(data: array<byte>, opcode: nat, mask: bool, spaces: nat -> nat, keys: nat -> bytes, scratch: bytes,
                 turns: nat)
    returns (client: Messages.AsyncClient, front: Messages.BasicMessage)
    requires |scratch| == 8 && forall i :: |keys(i)| == 4 && 9 <= spaces(i) < 0x1_0000
    modifies data
    ensures fresh(client) && fresh(front) && front.Valid() && front.message == old(data[..])
            && front.opcode == opcode % 8
    ensures client.out == Messages.Stream(front.run)
    ensures forall f <- Messages.Frames(front.run) :: |f.payload| < 0x1_0000
    ensures turns >= data.Length ==> front.sent == data.Length
  {
    client := new Messages.AsyncClient();
    front := new Messages.BasicMessage(data, opcode, mask, client);
    var i := 0;
    while i < turns
      invariant fresh(client) && fresh(front) && front.data == data && front.message == old(data[..])
                && front.opcode == opcode % 8
      invariant front.Valid() && front.SentOn(client) && front.before == []
      invariant front.BetweenFrames() && (front.sent < |front.message| ==> front.status == Messages.SENDING)
      invariant forall f <- Messages.Frames(front.run) :: |f.payload| < 0x1_0000
      invariant 0 <= i <= turns && (front.sent >= i || front.sent == |front.message|)
    {
      client.canSend, client.space := true, spaces(i);
      var n := front.Send(client, keys(i), scratch);
      front.Ack(front.ack - front.acked);
      i := i + 1;
    }
    assert [] + Messages.Stream(front.run) == Messages.Stream(front.run);
  }

  /** A parser that has not received anything yet. */
  function Quiet(): Parser {
    Parser(false, Info(false, 0, false, 0, [], 0, 0, 0))
  }

  method ReceiveBuffers(buffers: seq<bytes>) returns (receiver: WebSocketClient)
    requires ReceiveAll(Quiet(), buffers).headsAreWhole
    ensures fresh(receiver) && receiver.Valid()
    ensures Result(Parser(receiver.pstate, receiver.pinfo), receiver.events, true) == ReceiveAll(Quiet(), buffers)
  {
    hide Receive;
    receiver := new WebSocketClient();
    ghost var goal := ReceiveAll(Quiet(), buffers);
    var i := 0;
    assert buffers[0..] == buffers;
    assert After([], goal) == goal;
    while i < |buffers|
      invariant fresh(receiver) && receiver.Valid() && 0 <= i <= |buffers|
      invariant After(receiver.events, ReceiveAll(Parser(receiver.pstate, receiver.pinfo), buffers[i..])) == goal
    {
      ghost var p, before := Parser(receiver.pstate, receiver.pinfo), receiver.events;
      var buffer := new byte[|buffers[i]|](j requires 0 <= j < |buffers[i]| => buffers[i][j]);
      assert buffer[..] == buffers[i] && buffers[i..][1..] == buffers[i + 1..];
      receiver.OnData(buffer);
      AfterTwice(before, Receive(p, buffers[i]).events,
                 ReceiveAll(Parser(receiver.pstate, receiver.pinfo), buffers[i + 1..]));
      i := i + 1;
    }
    assert receiver.events + [] == receiver.events;
  }

  /** Whatever room there is, and however the stream is cut, as long as no header is:
      the message arrives. */
  method Exchange(data: array<byte>, opcode: nat, mask: bool, spaces: nat -> nat, keys: nat -> bytes, scratch: bytes,
                  cut: bytes -> seq<bytes>)
    returns (receiver: WebSocketClient, ghost front: Messages.BasicMessage)
    requires data.Length > 0 && |scratch| == 8 && forall i :: |keys(i)| == 4 && 9 <= spaces(i) < 0x1_0000
    requires forall run | Messages.Covers(run, data[..], opcode % 8) == data.Length ::
               var s := Messages.Stream(run); Concat(cut(s)) == s && ReceiveAll(Quiet(), cut(s)).headsAreWhole
    modifies data
    ensures receiver.Valid() && !receiver.pstate && Payloads(receiver.events) == old(data[..])
    ensures var fs := Messages.Frames(front.run);
            && Delivered(receiver.events, Place(fs, 0)) == Some(Place([], 0)) && fs != []
            && forall i :: 0 <= i < |fs| ==>
                 fs[i].opcode == (if i == 0 then opcode % 8 else 0) && fs[i].final == (i == |fs| - 1)
  {
    ghost var message := data[..];
    var client, sender := SendAll(data, opcode, mask, spaces, keys, scratch, data.Length);
    front := sender;
    var buffers := cut(client.out);
    receiver := ReceiveBuffers(buffers);
    MessageArrives(sender.run, message, opcode % 8, Quiet(), buffers);
  }
}
