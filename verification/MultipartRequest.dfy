/** The parser over its own fields and upload buffer. */
module MultipartRequests {
  import opened Bytes
  import opened Options
  import opened Multipart

  lemma {:induction false} WrittenKeepsPosition(s: State, bs: bytes, last: bool)
    ensures WriteAll(s, bs, last).parsedLength == s.parsedLength
    decreases |bs|
  {
    if bs == [] {
    } else {
      WrittenKeepsPosition(WriteByte(s, bs[0], last), bs[1..], last);
    }
  }

  lemma PushedBackKeepsPosition(s: State, bs: bytes, data: byte, last: bool)
    ensures PushedBack(s, bs, data, last).parsedLength == s.parsedLength
  {
    WrittenKeepsPosition(s.(phase := WAIT_FOR_RETURN1), bs, last);
  }

  lemma FedKeepsPosition(s: State, form: Form, data: byte, last: bool)
    ensures Fed(s, form, data, last).parsedLength == s.parsedLength
  {
    match s.phase {
      case EXPECT_FEED1 => PushedBackKeepsPosition(s, [CR], data, last);
      case EXPECT_DASH1 => PushedBackKeepsPosition(s, [CR, LF], data, last);
      case EXPECT_DASH2 => PushedBackKeepsPosition(s, [CR, LF, DASH], data, last);
      case BOUNDARY_OR_DATA =>
        if s.boundaryPosition <= |form.boundary| {
          PushedBackKeepsPosition(s, [CR, LF, DASH, DASH] + form.boundary[..s.boundaryPosition], data, last);
        }
      case DASH3_OR_RETURN2 => PushedBackKeepsPosition(s, [CR, LF, DASH, DASH] + form.boundary, data, last);
      case EXPECT_FEED2 => PushedBackKeepsPosition(s, [CR, LF, DASH, DASH] + form.boundary + [CR], data, last);
      case _ =>
    }
  }

  class MultipartRequest {
    const form: Form
    const itemBuffer: array<byte>

    var parseState: ParseState
    var multiParseState: Phase
    var boundaryPosition: nat
    var temp: bytes
    var header: Header
    var itemSize: nat
    var itemValue: bytes
    // whether the upload buffer is allocated, and how much of it is filled
    var hasBuffer: bool
    var itemBufferIndex: nat
    var broken: bool
    var contentLength: nat
    var parsedLength: nat
    // the parameters added and the calls to the handler
    var events: seq<Event>

    ghost predicate Valid()
      reads this
    {
      itemBuffer.Length == UPLOAD_BUFFER && itemBufferIndex < UPLOAD_BUFFER
    }

    ghost function Buffer(): Option<bytes>
      requires Valid()
      reads this, itemBuffer
    {
      if hasBuffer then Some(itemBuffer[..itemBufferIndex]) else None
    }

    ghost function View(): State
      requires Valid()
      reads this, itemBuffer
    {
      State(parseState, multiParseState, boundaryPosition, temp, header, itemSize, itemValue, Buffer(), broken,
            contentLength, parsedLength, events)
    }

    /** A request whose headers are read; without a body it is handled at once. */
    constructor (form: Form, contentLength: nat)
      ensures Valid() && this.form == form && fresh(itemBuffer) && View() == Opened(contentLength)
    {
      this.form := form;
      this.contentLength := contentLength;
      itemBuffer := new byte[UPLOAD_BUFFER];
      parseState := if contentLength > 0 then PARSE_REQ_BODY else PARSE_REQ_END;
      multiParseState := EXPECT_BOUNDARY;
      boundaryPosition := 0;
      temp := [];
      header := Header([], [], [], false);
      itemSize := 0;
      itemValue := [];
      hasBuffer := false;
      itemBufferIndex := 0;
      broken := false;
      parsedLength := 0;
      events := if contentLength > 0 then [] else [Handled];
    }

    method HandleUploadByte(data: byte, last: bool)
      requires Valid()
      modifies this, itemBuffer
      ensures Valid() && View() == UploadByte(old(View()), data, last)
    {
      if !hasBuffer {
        broken := true;
        return;
      }
      ghost var before := itemBuffer[..itemBufferIndex];
      itemBuffer[itemBufferIndex] := data;
      itemBufferIndex := itemBufferIndex + 1;
      assert itemBuffer[..itemBufferIndex] == before + [data];
      if last || itemBufferIndex == UPLOAD_BUFFER {
        var offset := if itemSize < itemBufferIndex then 0 else itemSize - itemBufferIndex;
        events := events + [Chunk(header.filename, offset, itemBuffer[..itemBufferIndex], false)];
        itemBufferIndex := 0;
        assert itemBuffer[..0] == [];
      }
    }

    method ItemWriteByte(b: byte, last: bool)
      requires Valid()
      modifies this, itemBuffer
      ensures Valid() && View() == WriteByte(old(View()), b, last)
    {
      itemSize := itemSize + 1;
      if header.isFile {
        HandleUploadByte(b, last);
      } else {
        itemValue := itemValue + [b];
      }
    }

    method ItemWriteBytes(bs: bytes, last: bool)
      requires Valid()
      modifies this, itemBuffer
      ensures Valid() && View() == WriteAll(old(View()), bs, last)
    {
      ghost var goal := WriteAll(View(), bs, last);
      var i := 0;
      assert bs[0..] == bs;
      while i < |bs|
        invariant Valid() && i <= |bs| && WriteAll(View(), bs[i..], last) == goal
      {
        assert bs[i..][1..] == bs[i + 1..];
        ItemWriteByte(bs[i], last);
        i := i + 1;
      }
      assert bs[i..] == [];
    }

    method WaitForReturn(data: byte, last: bool)
      requires Valid()
      modifies this, itemBuffer
      ensures Valid() && View() == Waiting(old(View()), data, last)
    {
      if data != CR {
        ItemWriteByte(data, last);
      } else {
        multiParseState := EXPECT_FEED1;
      }
    }

    method PushBack(bs: bytes, data: byte, last: bool)
      requires Valid()
      modifies this, itemBuffer
      ensures Valid() && View() == PushedBack(old(View()), bs, data, last)
    {
      multiParseState := WAIT_FOR_RETURN1;
      ItemWriteBytes(bs, last);
      WaitForReturn(data, last);
    }

    method ParseOpening(data: byte)
      requires Valid()
      modifies this
      ensures Valid() && View() == Opening(old(View()), form.boundary, data)
    {
      if parsedLength < 2 {
        if data != DASH {
          multiParseState := PARSE_ERROR;
        }
      } else if parsedLength - 2 < |form.boundary| {
        if form.boundary[parsedLength - 2] != data {
          multiParseState := PARSE_ERROR;
        }
      } else if parsedLength - 2 == |form.boundary| {
        if data != CR {
          multiParseState := PARSE_ERROR;
        }
      } else if parsedLength - 3 == |form.boundary| {
        if data != LF {
          multiParseState := PARSE_ERROR;
          return;
        }
        multiParseState := PARSE_HEADERS;
        header := header.(isFile := false);
      }
    }

    method ParseHeaderByte(data: byte)
      requires Valid()
      modifies this
      ensures Valid() && View() == HeaderByte(old(View()), form, data)
    {
      if data != CR && data != LF {
        temp := temp + [data];
      }
      if data == LF {
        if temp != [] {
          header := form.parse(temp, header);
          temp := [];
        } else {
          multiParseState := WAIT_FOR_RETURN1;
          // the value starts from here
          itemSize := 0;
          itemValue := [];
          if header.isFile {
            hasBuffer := form.memory(parsedLength);
            if !hasBuffer {
              multiParseState := PARSE_ERROR;
              return;
            }
            itemBufferIndex := 0;
            assert itemBuffer[..0] == [];
          }
        }
      }
    }

    method FinishItem()
      requires Valid()
      modifies this
      ensures Valid() && View() == Finished(old(View()))
    {
      if !header.isFile {
        events := events + [Field(header.name, itemValue)];
      } else {
        if itemSize != 0 {
          if !hasBuffer {
            broken := true;
          } else {
            var offset := if itemSize < itemBufferIndex then 0 else itemSize - itemBufferIndex;
            events := events + [Chunk(header.filename, offset, itemBuffer[..itemBufferIndex], true)];
            itemBufferIndex := 0;
            events := events + [File(header.name, header.filename, itemSize)];
          }
        }
        hasBuffer := false;
      }
    }

    method ParseBoundaryByte(data: byte, last: bool)
      requires Valid()
      modifies this, itemBuffer
      ensures Valid() && View() == BoundaryByte(old(View()), form.boundary, data, last)
    {
      if boundaryPosition < |form.boundary| && form.boundary[boundaryPosition] != data {
        PushBack([CR, LF, DASH, DASH] + form.boundary[..boundaryPosition], data, last);
      } else if boundaryPosition == |form.boundary| - 1 {
        multiParseState := DASH3_OR_RETURN2;
        FinishItem();
      } else {
        // uint8_t
        boundaryPosition := (boundaryPosition + 1) % 0x100;
      }
    }

    method ParseAfterDelimiter(data: byte, last: bool)
      requires Valid()
      modifies this, itemBuffer
      ensures Valid() && View() == AfterDelimiter(old(View()), form.boundary, data, last)
    {
      if data == DASH && contentLength - parsedLength - 4 != 0 {
        // closes the request gracefully
        contentLength := parsedLength + 4;
      }
      if data == CR {
        multiParseState := EXPECT_FEED2;
      } else if data == DASH && contentLength == parsedLength + 4 {
        multiParseState := PARSING_FINISHED;
      } else {
        PushBack([CR, LF, DASH, DASH] + form.boundary, data, last);
      }
    }

    method ParseContentByte(data: byte, last: bool)
      requires Valid() && multiParseState in {EXPECT_FEED1, EXPECT_DASH1, EXPECT_DASH2, EXPECT_FEED2}
      modifies this, itemBuffer
      ensures Valid() && View() == Fed(old(View()), form, data, last)
    {
      if multiParseState == EXPECT_FEED1 {
        if data != LF {
          PushBack([CR], data, last);
        } else {
          multiParseState := EXPECT_DASH1;
        }
      } else if multiParseState == EXPECT_DASH1 {
        if data != DASH {
          PushBack([CR, LF], data, last);
        } else {
          multiParseState := EXPECT_DASH2;
        }
      } else if multiParseState == EXPECT_DASH2 {
        if data != DASH {
          PushBack([CR, LF, DASH], data, last);
        } else {
          multiParseState := BOUNDARY_OR_DATA;
          boundaryPosition := 0;
        }
      } else {
        if data == LF {
          multiParseState := PARSE_HEADERS;
          header := header.(isFile := false);
        } else {
          PushBack([CR, LF, DASH, DASH] + form.boundary + [CR], data, last);
        }
      }
    }

    method ParseMultipartPostByte(data: byte, last: bool)
      requires Valid()
      modifies this, itemBuffer
      ensures Valid() && View() == Fed(Begun(old(View())), form, data, last)
    {
      if parsedLength == 0 {
        multiParseState := EXPECT_BOUNDARY;
        temp := [];
        header := Header([], [], [], header.isFile);
      }
      match multiParseState {
        case WAIT_FOR_RETURN1 => WaitForReturn(data, last);
        case EXPECT_BOUNDARY => ParseOpening(data);
        case PARSE_HEADERS => ParseHeaderByte(data);
        case BOUNDARY_OR_DATA => ParseBoundaryByte(data, last);
        case DASH3_OR_RETURN2 => ParseAfterDelimiter(data, last);
        case PARSING_FINISHED =>
        case PARSE_ERROR =>
        case _ => ParseContentByte(data, last);
      }
    }

    /** One packet of the body. */
    method OnData(buf: bytes)
      requires Valid()
      modifies this, itemBuffer
      ensures Valid() && View() == Packet(old(View()), form, buf)
    {
      if parseState == PARSE_REQ_BODY {
        ParseContent(buf);
        if parsedLength == contentLength {
          parseState := PARSE_REQ_END;
          events := events + [Handled];
        }
      }
    }

    method ParseContent(buf: bytes)
      requires Valid()
      modifies this, itemBuffer
      ensures Valid() && View() == Content(old(View()), form, buf)
    {
      hide Fed, Begun, Content;
      ghost var goal := Content(View(), form, buf);
      var i := 0;
      assert buf[0..] == buf;
      while i < |buf|
        invariant Valid() && i <= |buf| && Content(View(), form, buf[i..]) == goal
      {
        ContentGoesOn(View(), form, buf, i);
        ParseMultipartPostByte(buf[i], i == |buf| - 1);
        parsedLength := parsedLength + 1;
        i := i + 1;
      }
      ContentEnds(View(), form, buf);
    }
  }

  lemma ContentGoesOn(s: State, form: Form, buf: bytes, i: nat)
    requires i < |buf|
    ensures var t := Fed(Begun(s), form, buf[i], i == |buf| - 1);
            && t.parsedLength == s.parsedLength
            && Content(s, form, buf[i..]) == Content(t.(parsedLength := s.parsedLength + 1), form, buf[i + 1..])
  {
    assert buf[i..][1..] == buf[i + 1..];
    FedKeepsPosition(Begun(s), form, buf[i], i == |buf| - 1);
    hide Fed;
  }

  lemma ContentEnds(s: State, form: Form, buf: bytes)
    ensures Content(s, form, buf[|buf|..]) == s
  {
  }
}
