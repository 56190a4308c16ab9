/** The body of a multipart/form-data request, one byte at a time. */
module Multipart {
  import opened Bytes
  import opened Options

  const CR: byte := 0x0D
  const LF: byte := 0x0A
  const DASH: byte := 0x2D

  const UPLOAD_BUFFER := 1460

  /** What the header lines of a part have said so far. */
  datatype Header = Header(name: bytes, filename: bytes, contentType: bytes, isFile: bool)

  /** How one header line changes that. */
  type LineParser = (bytes, Header) -> Header

  /** The boundary, what header lines mean, and whether there is memory for an
      upload buffer at a position of the body. */
  datatype FormData = FormData(boundary: bytes, parse: LineParser, memory: nat -> bool)

  type Form = f: FormData | f.boundary != []
    witness FormData([DASH], (line, header) => header, position => true)

  /** What the request is told, in order: parameters, chunks of an upload, and
      that the request is to be handled. */
  datatype Event =
    | Field(name: bytes, value: bytes)
    | File(name: bytes, filename: bytes, size: nat)
    | Chunk(filename: bytes, offset: nat, data: bytes, final: bool)
    | Handled

  datatype ParseState = PARSE_REQ_BODY | PARSE_REQ_END

  datatype Phase =
    | EXPECT_BOUNDARY | PARSE_HEADERS | WAIT_FOR_RETURN1 | EXPECT_FEED1 | EXPECT_DASH1 | EXPECT_DASH2
    | BOUNDARY_OR_DATA | DASH3_OR_RETURN2 | EXPECT_FEED2 | PARSING_FINISHED | PARSE_ERROR

  /** The request's fields that the parser uses. A file's bytes collect in a
      buffer that is freed at the end of the file; a byte written after that goes
      through a null pointer, and the request is broken. */
  datatype State = State(
    parseState: ParseState, phase: Phase, boundaryPosition: nat, temp: bytes, header: Header,
    itemSize: nat, itemValue: bytes, itemBuffer: Option<bytes>, broken: bool,
    contentLength: nat, parsedLength: nat, events: seq<Event>)

  function UploadByte(s: State, b: byte, last: bool): State {
    match s.itemBuffer
    case None => s.(broken := true)
    case Some(buffer) =>
      var more := buffer + [b];
      if last || |more| == UPLOAD_BUFFER then
        var offset := s.itemSize - |more|;
        s.(events := s.events + [Chunk(s.header.filename, if offset < 0 then 0 else offset, more, false)],
           itemBuffer := Some([]))
      else
        s.(itemBuffer := Some(more))
  }

  function WriteByte(s: State, b: byte, last: bool): State {
    var t := s.(itemSize := s.itemSize + 1);
    if s.header.isFile then UploadByte(t, b, last) else t.(itemValue := s.itemValue + [b])
  }

  function WriteAll(s: State, bs: bytes, last: bool): State
    decreases |bs|
  {
    if bs == [] then s else WriteAll(WriteByte(s, bs[0], last), bs[1..], last)
  }

  function Waiting(s: State, data: byte, last: bool): State {
    if data != CR then WriteByte(s, data, last) else s.(phase := EXPECT_FEED1)
  }

  /** What looked like a delimiter was content: it is written, and the byte that
      told is looked at again. */
  function PushedBack(s: State, bs: bytes, data: byte, last: bool): State {
    Waiting(WriteAll(s.(phase := WAIT_FOR_RETURN1), bs, last), data, last)
  }

  /** The line behind the first delimiter must be it, to the byte. */
  function Opening(s: State, boundary: bytes, data: byte): State {
    var n := s.parsedLength;
    if n < 2 then
      if data != DASH then s.(phase := PARSE_ERROR) else s
    else if n - 2 < |boundary| then
      if boundary[n - 2] != data then s.(phase := PARSE_ERROR) else s
    else if n - 2 == |boundary| then
      if data != CR then s.(phase := PARSE_ERROR) else s
    else if n - 3 == |boundary| then
      if data != LF then s.(phase := PARSE_ERROR)
      else s.(phase := PARSE_HEADERS, header := s.header.(isFile := false))
    else s
  }

  /** The content of a part starts; for a file an upload buffer is needed. */
  function Started(s: State, form: Form): State {
    var t := s.(phase := WAIT_FOR_RETURN1, itemSize := 0, itemValue := []);
    if !s.header.isFile then t
    else if form.memory(s.parsedLength) then t.(itemBuffer := Some([]))
    else t.(phase := PARSE_ERROR, itemBuffer := None)
  }

  function HeaderByte(s: State, form: Form, data: byte): State {
    var temp := if data != CR && data != LF then s.temp + [data] else s.temp;
    if data != LF then s.(temp := temp)
    else if temp != [] then s.(header := form.parse(temp, s.header), temp := [])
    else Started(s.(temp := temp), form)
  }

  /** The end of a part's content. Of an empty file nothing is told. */
  function Finished(s: State): State {
    if !s.header.isFile then s.(events := s.events + [Field(s.header.name, s.itemValue)])
    else
      var t :=
        if s.itemSize == 0 then s
        else
          match s.itemBuffer
          case None => s.(broken := true)
          case Some(buffer) =>
            var offset := s.itemSize - |buffer|;
            s.(events := s.events
                 + [Chunk(s.header.filename, if offset < 0 then 0 else offset, buffer, true)]
                 + [File(s.header.name, s.header.filename, s.itemSize)]);
      t.(itemBuffer := None)
  }

  function BoundaryByte(s: State, boundary: bytes, data: byte, last: bool): State
    requires boundary != []
  {
    var n := s.boundaryPosition;
    if n < |boundary| && boundary[n] != data then
      PushedBack(s, [CR, LF, DASH, DASH] + boundary[..n], data, last)
    else if n == |boundary| - 1 then Finished(s.(phase := DASH3_OR_RETURN2))
    else s.(boundaryPosition := (n + 1) % 0x100)
  }

  /** A dash ends the body here, whatever length was announced. */
  function AfterDelimiter(s: State, boundary: bytes, data: byte, last: bool): State {
    var t := if data == DASH then s.(contentLength := s.parsedLength + 4) else s;
    if data == CR then t.(phase := EXPECT_FEED2)
    else if data == DASH then t.(phase := PARSING_FINISHED)
    else PushedBack(t, [CR, LF, DASH, DASH] + boundary, data, last)
  }

  function Fed(s: State, form: Form, data: byte, last: bool): State {
    match s.phase
    case WAIT_FOR_RETURN1 => Waiting(s, data, last)
    case EXPECT_BOUNDARY => Opening(s, form.boundary, data)
    case PARSE_HEADERS => HeaderByte(s, form, data)
    case EXPECT_FEED1 =>
      if data != LF then PushedBack(s, [CR], data, last) else s.(phase := EXPECT_DASH1)
    case EXPECT_DASH1 =>
      if data != DASH then PushedBack(s, [CR, LF], data, last) else s.(phase := EXPECT_DASH2)
    case EXPECT_DASH2 =>
      if data != DASH then PushedBack(s, [CR, LF, DASH], data, last)
      else s.(phase := BOUNDARY_OR_DATA, boundaryPosition := 0)
    case BOUNDARY_OR_DATA => BoundaryByte(s, form.boundary, data, last)
    case DASH3_OR_RETURN2 => AfterDelimiter(s, form.boundary, data, last)
    case EXPECT_FEED2 =>
      if data == LF then s.(phase := PARSE_HEADERS, header := s.header.(isFile := false))
      else PushedBack(s, [CR, LF, DASH, DASH] + form.boundary + [CR], data, last)
    case PARSING_FINISHED => s
    case PARSE_ERROR => s
  }

  function Begun(s: State): State {
    if s.parsedLength != 0 then s
    else s.(phase := EXPECT_BOUNDARY, temp := [], header := Header([], [], [], s.header.isFile))
  }

  function Step(s: State, form: Form, data: byte, last: bool): (t: State) {
    Fed(Begun(s), form, data, last).(parsedLength := s.parsedLength + 1)
  }

  /** The bytes of a packet; the last one is fed as such. */
  function Content(s: State, form: Form, data: bytes): State
    decreases |data|
  {
    if data == [] then s else Content(Step(s, form, data[0], |data| == 1), form, data[1..])
  }

  /** When all is there, the request is handled and parsed no further. */
  function Checked(s: State): State {
    if s.parsedLength == s.contentLength then s.(parseState := PARSE_REQ_END, events := s.events + [Handled]) else s
  }

  function Packet(s: State, form: Form, data: bytes): State {
    if s.parseState == PARSE_REQ_END then s else Checked(Content(s, form, data))
  }

  /** The request once its headers are read. */
  function Opened(contentLength: nat): State {
    State(if contentLength > 0 then PARSE_REQ_BODY else PARSE_REQ_END, EXPECT_BOUNDARY, 0, [],
          Header([], [], [], false),
          0, [], None, false, contentLength, 0, if contentLength > 0 then [] else [Handled])
  }

  /** Bytes, each with its own mark. */
  function Run(s: State, form: Form, data: bytes, lasts: seq<bool>): State
    requires |lasts| == |data|
    decreases |data|
  {
    if data == [] then s else Run(Step(s, form, data[0], lasts[0]), form, data[1..], lasts[1..])
  }
}
