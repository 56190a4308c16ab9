/** When the bytes of a file are handed over: in full buffers, and at the end of
    every packet whatever has come. */
module MultipartUploads {
  import opened Bytes
  import opened Options
  import opened Multipart
  import opened MultipartTheorems

  /** A buffer that is full is not kept. */
  predicate Fits(s: State) {
    s.itemBuffer.Some? ==> |s.itemBuffer.value| < 1460
  }

  /** What is told since s, apart from the end of a file, are full buffers. */
  predicate FullSince(s: State, t: State) {
    && s.events <= t.events
    && forall i | |s.events| <= i < |t.events| && t.events[i].Chunk? && !t.events[i].final :: |t.events[i].data| == 1460
  }

  lemma FullTwice(s: State, t: State, u: State)
    requires FullSince(s, t) && FullSince(t, u)
    ensures FullSince(s, u)
  {
    assert forall i | 0 <= i < |t.events| :: u.events[i] == t.events[i];
  }

  lemma WriteFills(s: State, b: byte, last: bool)
    requires Fits(s)
    ensures Fits(WriteByte(s, b, last))
    ensures !last ==> FullSince(s, WriteByte(s, b, last))
    ensures last && s.header.isFile && s.itemBuffer.Some? ==> WriteByte(s, b, last).itemBuffer == Some([])
  {
  }

  lemma {:induction false} WritesFill(s: State, bs: bytes, last: bool)
    requires Fits(s)
    ensures Fits(WriteAll(s, bs, last))
    ensures !last ==> FullSince(s, WriteAll(s, bs, last))
    decreases |bs|
  {
    if bs != [] {
      hide WriteByte;
      WriteFills(s, bs[0], last);
      var t := WriteByte(s, bs[0], last);
      WritesFill(t, bs[1..], last);
      if !last { FullTwice(s, t, WriteAll(t, bs[1..], last)); }
    }
  }

  lemma WaitingFills(s: State, data: byte, last: bool)
    requires Fits(s)
    ensures Fits(Waiting(s, data, last))
    ensures !last ==> FullSince(s, Waiting(s, data, last))
  {
    WriteFills(s, data, last);
  }

  lemma PushedBackFills(s: State, bs: bytes, data: byte, last: bool)
    requires Fits(s)
    ensures Fits(PushedBack(s, bs, data, last))
    ensures !last ==> FullSince(s, PushedBack(s, bs, data, last))
  {
    hide Waiting, WriteAll;
    var t := s.(phase := WAIT_FOR_RETURN1);
    WritesFill(t, bs, last);
    WaitingFills(WriteAll(t, bs, last), data, last);
    if !last { FullTwice(t, WriteAll(t, bs, last), PushedBack(s, bs, data, last)); }
  }

  lemma FinishedFills(s: State)
    requires Fits(s)
    ensures Fits(Finished(s)) && FullSince(s, Finished(s))
  {
  }

  lemma QuietFills(s: State, form: Form, data: byte)
    requires Fits(s)
    ensures var t := Opening(s, form.boundary, data); Fits(t) && FullSince(s, t)
    ensures var t := HeaderByte(s, form, data); Fits(t) && FullSince(s, t)
  {
  }

  lemma DelimiterFills(s: State, boundary: bytes, data: byte, last: bool)
    requires Fits(s) && boundary != []
    ensures var t := BoundaryByte(s, boundary, data, last); Fits(t) && (!last ==> FullSince(s, t))
    ensures var t := AfterDelimiter(s, boundary, data, last); Fits(t) && (!last ==> FullSince(s, t))
  {
    hide PushedBack, Finished;
    var n := s.boundaryPosition;
    if n < |boundary| { PushedBackFills(s, [CR, LF, DASH, DASH] + boundary[..n], data, last); }
    FinishedFills(s.(phase := DASH3_OR_RETURN2));
    var c := if data == DASH then s.(contentLength := s.parsedLength + 4) else s;
    PushedBackFills(c, [CR, LF, DASH, DASH] + boundary, data, last);
  }

  lemma FedFills(s: State, form: Form, data: byte, last: bool)
    requires Fits(s)
    ensures var t := Fed(s, form, data, last); Fits(t) && (!last ==> FullSince(s, t))
  {
    hide Waiting, PushedBack, Opening, HeaderByte, BoundaryByte, AfterDelimiter;
    match s.phase {
      case WAIT_FOR_RETURN1 => WaitingFills(s, data, last);
      case EXPECT_BOUNDARY => QuietFills(s, form, data);
      case PARSE_HEADERS => QuietFills(s, form, data);
      case EXPECT_FEED1 => PushedBackFills(s, [CR], data, last);
      case EXPECT_DASH1 => PushedBackFills(s, [CR, LF], data, last);
      case EXPECT_DASH2 => PushedBackFills(s, [CR, LF, DASH], data, last);
      case BOUNDARY_OR_DATA => DelimiterFills(s, form.boundary, data, last);
      case DASH3_OR_RETURN2 => DelimiterFills(s, form.boundary, data, last);
      case EXPECT_FEED2 => PushedBackFills(s, [CR, LF, DASH, DASH] + form.boundary + [CR], data, last);
      case PARSING_FINISHED =>
      case PARSE_ERROR =>
    }
  }

  lemma StepFills(s: State, form: Form, data: byte, last: bool)
    requires Fits(s)
    ensures Fits(Step(s, form, data, last))
    ensures !last ==> FullSince(s, Step(s, form, data, last))
  {
    hide Fed;
    FedFills(Begun(s), form, data, last);
  }

  /** The bytes of a packet but the last only hand over full buffers. */
  lemma {:induction false} PacketFills(s: State, form: Form, data: bytes) returns (before: State)
    requires Fits(s) && data != []
    ensures Fits(before) && FullSince(s, before)
    ensures Content(s, form, data) == Step(before, form, data[|data| - 1], true)
    decreases |data|
  {
    hide Step;
    if |data| == 1 {
      before := s;
    } else {
      StepFills(s, form, data[0], false);
      var t := Step(s, form, data[0], false);
      assert data[1..][|data| - 2] == data[|data| - 1];
      before := PacketFills(t, form, data[1..]);
      FullTwice(s, t, before);
    }
  }

  /** Inside a file, where no delimiter can have begun, the buffer is empty. */
  predicate NothingHeld(t: State) {
    t.phase == WAIT_FOR_RETURN1 && t.header.isFile && t.itemBuffer.Some? ==> t.itemBuffer == Some([])
  }

  /** A packet that ends inside a file, where no delimiter can have begun, leaves
      nothing in the buffer: all that was written of the file has been handed over. */
  lemma {:induction false} PacketHandsOver(s: State, form: Form, data: bytes)
    requires Fits(s) && data != []
    ensures NothingHeld(Content(s, form, data))
  {
    hide Step;
    var before := PacketFills(s, form, data);
    LastHandsOver(before, form, data[|data| - 1]);
  }

  lemma LastHandsOver(s: State, form: Form, data: byte)
    requires Fits(s)
    ensures NothingHeld(Step(s, form, data, true))
  {
    hide PushedBack, WriteByte, Finished;
    var b := Begun(s);
    var n := b.boundaryPosition;
    if b.phase == WAIT_FOR_RETURN1 { WaitingHandsOver(b, data); }
    PushedBackHandsOver(b, [CR], data);
    PushedBackHandsOver(b, [CR, LF], data);
    PushedBackHandsOver(b, [CR, LF, DASH], data);
    if n < |form.boundary| { PushedBackHandsOver(b, [CR, LF, DASH, DASH] + form.boundary[..n], data); }
    PushedBackHandsOver(b, [CR, LF, DASH, DASH] + form.boundary, data);
    PushedBackHandsOver(b, [CR, LF, DASH, DASH] + form.boundary + [CR], data);
    PushedBackHandsOver(b.(contentLength := b.parsedLength + 4), [CR, LF, DASH, DASH] + form.boundary, data);
    FinishedStays(b.(phase := DASH3_OR_RETURN2));
  }

  lemma FinishedStays(s: State)
    ensures Finished(s).phase == s.phase
  {
  }

  lemma WaitingHandsOver(s: State, data: byte)
    requires s.phase == WAIT_FOR_RETURN1
    ensures NothingHeld(Waiting(s, data, true))
  {
  }

  lemma PushedBackHandsOver(s: State, bs: bytes, data: byte)
    ensures NothingHeld(PushedBack(s, bs, data, true))
  {
    hide WriteAll;
    var t := WriteAll(s.(phase := WAIT_FOR_RETURN1), bs, true);
    PhaseStays(s.(phase := WAIT_FOR_RETURN1), bs);
    WaitingHandsOver(t, data);
  }

  lemma {:induction false} PhaseStays(s: State, bs: bytes)
    ensures WriteAll(s, bs, true).phase == s.phase
    decreases |bs|
  {
    if bs != [] { PhaseStays(WriteByte(s, bs[0], true), bs[1..]); }
  }

  /** So it is between all packets of a request. */
  lemma {:induction false} HandedOverBetweenPackets(form: Form, contentLength: nat, packets: seq<bytes>)
    ensures var t := Packets(Opened(contentLength), form, packets); Fits(t) && NothingHeld(t)
  {
    PacketsHandOver(Opened(contentLength), form, packets);
  }

  lemma NoContent(s: State, form: Form)
    ensures Content(s, form, []) == s
  {
  }

  lemma {:induction false} PacketsHandOver(s: State, form: Form, packets: seq<bytes>)
    requires Fits(s) && NothingHeld(s)
    ensures var t := Packets(s, form, packets); Fits(t) && NothingHeld(t)
    decreases |packets|
  {
    hide Content;
    if packets != [] {
      if packets[0] != [] {
        PacketHandsOver(s, form, packets[0]);
        var before := PacketFills(s, form, packets[0]);
        StepFills(before, form, packets[0][|packets[0]| - 1], true);
      } else {
        NoContent(s, form);
      }
      PacketsHandOver(Packet(s, form, packets[0]), form, packets[1..]);
    }
  }
}
