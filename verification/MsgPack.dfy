/** The MessagePack encoding of a document and its decoder, as functions.
    MsgPackSerializer and MsgPackDeserializer are proved against them. */
module MsgPack {
  import opened Bytes
  import opened Document

  function EncodeUnsigned(n: nat): bytes
    requires n < Span(8)
  {
    if n <= 0x7F then BigEndian(n, 1)
    else if n <= 0xFF then [0xCC] + BigEndian(n, 1)
    else if n <= 0xFFFF then [0xCD] + BigEndian(n, 2)
    else if n <= 0xFFFF_FFFF then [0xCE] + BigEndian(n, 4)
    else [0xCF] + BigEndian(n, 8)
  }

  function EncodeInteger(i: int): bytes
    requires INT_MIN <= i <= UINT_MAX
  {
    if i > 0 then EncodeUnsigned(i)
    else if i >= -0x20 then BigEndian(ToUnsigned(i, 1), 1)
    else if i >= -0x80 then [0xD0] + BigEndian(ToUnsigned(i, 1), 1)
    else if i >= -0x8000 then [0xD1] + BigEndian(ToUnsigned(i, 2), 2)
    else if i >= -0x8000_0000 then [0xD2] + BigEndian(ToUnsigned(i, 4), 4)
    else [0xD3] + BigEndian(ToUnsigned(i, 8), 8)
  }

  function StringHeader(n: nat): bytes
    requires n < Span(4)
  {
    if n < 0x20 then [0xA0 + n]
    else if n < 0x100 then [0xD9] + BigEndian(n, 1)
    else if n < 0x10000 then [0xDA] + BigEndian(n, 2)
    else [0xDB] + BigEndian(n, 4)
  }

  /** fix is 0x90 for arrays and 0x80 for objects; code is the 16-bit form. */
  function CollectionHeader(n: nat, fix: byte, code: byte): bytes
    requires n < Span(4) && fix <= 0x90 && code < 0xFF
  {
    if n < 0x10 then [fix + n]
    else if n < 0x10000 then [code] + BigEndian(n, 2)
    else [code + 1] + BigEndian(n, 4)
  }

  function Encode(v: Value, maxString: nat): bytes
    requires maxString < Span(4)
    requires Storable(v, maxString)
    decreases v, 1
  {
    match v
    case Null => [0xC0]
    case Bool(b) => [if b then 0xC3 else 0xC2]
    case Int(i) => EncodeInteger(i)
    case Str(s) => StringHeader(|s|) + s
    case Arr(elems) => CollectionHeader(|elems|, 0x90, 0xDC) + EncodeElems(elems, maxString)
    case Obj(members) => CollectionHeader(|members|, 0x80, 0xDE) + EncodeMembers(members, maxString)
  }

  function EncodeElems(vs: seq<Value>, maxString: nat): bytes
    requires maxString < Span(4)
    requires StorableElems(vs, maxString)
    decreases vs, 0
  {
    if vs == [] then [] else Encode(vs[0], maxString) + EncodeElems(vs[1..], maxString)
  }

  function EncodeMembers(ms: seq<Member>, maxString: nat): bytes
    requires maxString < Span(4)
    requires StorableMembers(ms, maxString)
    decreases ms, 0
  {
    if ms == [] then []
    else EncodeMember(ms[0], maxString) + EncodeMembers(ms[1..], maxString)
  }

  function EncodeMember(m: Member, maxString: nat): bytes
    requires maxString < Span(4)
    requires StorableMember(m, maxString)
    decreases m, 2
  {
    StringHeader(|m.key|) + m.key + Encode(m.value, maxString)
  }

  // ----- decoding -----

  function ReadUnsigned(s: bytes, k: nat): (r: Result<nat>)
    ensures r.Ok? ==> r.value < Span(k) && |r.rest| <= |s|
    ensures r.Err? ==> r.code == IncompleteInput
  {
    if |s| < k then Err(IncompleteInput) else Ok(FromBigEndian(s[..k]), s[k..])
  }

  function ReadInt(s: bytes, k: nat, signed: bool): (r: Result<Value>)
    ensures r.Ok? ==> |r.rest| <= |s|
  {
    match ReadUnsigned(s, k)
    case Err(e) => Err(e)
    case Ok(n, rest) => Ok(Int(if signed then ToSigned(n, k) else n), rest)
  }

  function ReadFloat(s: bytes, k: nat): (r: Result<Value>)
    ensures r.Ok? ==> |r.rest| <= |s|
  {
    if |s| < k then Err(IncompleteInput) else Ok(Real(Ieee(s[..k])), s[k..])
  }

  function AsString(r: Result<bytes>): Result<Value> {
    match r
    case Err(e) => Err(e)
    case Ok(t, rest) => Ok(Str(t), rest)
  }

  /** One, two, four or eight bytes, for the four codes of a size family. */
  function Width(c: nat): (k: nat)
    requires c <= 3
  {
    if c == 0 then 1 else if c == 1 then 2 else if c == 2 then 4 else 8
  }

  /** The formats of the MessagePack specification, section "Formats". A size
      is given either in the code itself or in the next bytes. */
  datatype Size = Given(n: nat) | Follows(width: nat)

  datatype Format =
    | Constant(v: Value)
    | NeverUsed
    | Ignored(size: Size, extra: nat)
    | Floating(width: nat)
    | Integer(width: nat, signed: bool)
    | Text(size: Size)
    | Array(size: Size)
    | Map(size: Size)

  function FormatOf(code: byte): Format {
    if code < 0x80 then Constant(Int(code))
    else if code < 0x90 then Map(Given(code - 0x80))
    else if code < 0xA0 then Array(Given(code - 0x90))
    else if code < 0xC0 then Text(Given(code - 0xA0))
    else if code == 0xC0 then Constant(Null)
    else if code == 0xC1 then NeverUsed
    else if code <= 0xC3 then Constant(Bool(code == 0xC3))
    else if code <= 0xC6 then Ignored(Follows(Width(code - 0xC4)), 0)
    else if code <= 0xC9 then Ignored(Follows(Width(code - 0xC7)), 1)
    else if code <= 0xCB then Floating(if code == 0xCA then 4 else 8)
    else if code <= 0xCF then Integer(Width(code - 0xCC), false)
    else if code <= 0xD3 then Integer(Width(code - 0xD0), true)
    else if code <= 0xD6 then Ignored(Given(Width(code - 0xD4)), 1)
    else if code <= 0xD8 then Ignored(Given(if code == 0xD7 then 8 else 16), 1)
    else if code <= 0xDB then Text(Follows(Width(code - 0xD9)))
    else if code <= 0xDD then Array(Follows(Width(code - 0xDB)))
    else if code <= 0xDF then Map(Follows(Width(code - 0xDD)))
    else Constant(Int(ToSigned(code, 1)))
  }

  function ReadSize(s: bytes, size: Size): (r: Result<nat>)
    ensures r.Ok? ==> |r.rest| <= |s|
  {
    match size
    case Given(n) => Ok(n, s)
    case Follows(width) => ReadUnsigned(s, width)
  }

  /** Extension and binary payloads are stepped over; the value stays null.
      The length of an extension is a 32-bit sum, so it can wrap to zero. */
  function Skip(s: bytes, size: Size, extra: nat): (r: Result<Value>)
    ensures r.Ok? ==> |r.rest| <= |s|
  {
    match ReadSize(s, size)
    case Err(e) => Err(e)
    case Ok(n, t) =>
      var skipped := (n + extra) % Span(4);
      if |t| < skipped then Err(IncompleteInput) else Ok(Null, t[skipped..])
  }

  function ReadText(size: Result<nat>, maxString: nat): (r: Result<bytes>)
    ensures r.Ok? ==> size.Ok? && |r.rest| <= |size.rest|
  {
    match size
    case Err(e) => Err(e)
    case Ok(n, t) =>
      if |t| < n then Err(IncompleteInput)
      else if n > maxString then Err(NoMemory)
      else Ok(t[..n], t[n..])
  }

  function ReadKey(s: bytes, maxString: nat): (r: Result<bytes>)
    ensures r.Ok? ==> |r.rest| < |s|
  {
    if s == [] then Err(IncompleteInput)
    else
      match FormatOf(s[0])
      case Text(size) => ReadText(ReadSize(s[1..], size), maxString)
      case _ => Err(InvalidInput)
  }

  function Decode(s: bytes, limit: nat, maxString: nat): (r: Result<Value>)
    ensures r.Ok? ==> |r.rest| < |s|
    decreases |s|, 0, 0
  {
    if s == [] then Err(IncompleteInput)
    else
      var t := s[1..];
      match FormatOf(s[0])
      case Constant(v) => Ok(v, t)
      case NeverUsed => Err(InvalidInput)
      case Ignored(size, extra) => Skip(t, size, extra)
      case Floating(width) => ReadFloat(t, width)
      case Integer(width, signed) => ReadInt(t, width, signed)
      case Text(size) => AsString(ReadText(ReadSize(t, size), maxString))
      case Array(size) => DecodeArray(ReadSize(t, size), limit, maxString)
      case Map(size) => DecodeObject(ReadSize(t, size), limit, maxString)
  }

  function DecodeArray(size: Result<nat>, limit: nat, maxString: nat): (r: Result<Value>)
    ensures r.Ok? ==> size.Ok? && |r.rest| <= |size.rest|
    decreases if size.Ok? then |size.rest| else 0, 2, 0
  {
    match size
    case Err(e) => Err(e)
    case Ok(n, t) =>
      if limit == 0 then Err(TooDeep)
      else
        match DecodeElems(t, n, limit - 1, maxString)
        case Err(e) => Err(e)
        case Ok(vs, rest) => Ok(Arr(vs), rest)
  }

  function DecodeElems(s: bytes, n: nat, limit: nat, maxString: nat): (r: Result<seq<Value>>)
    ensures r.Ok? ==> |r.value| == n && |r.rest| <= |s|
    decreases |s|, 1, n
  {
    if n == 0 then Ok([], s)
    else
      match Decode(s, limit, maxString)
      case Err(e) => Err(e)
      case Ok(v, t) =>
        Prepend([v], DecodeElems(t, n - 1, limit, maxString))
  }

  function DecodeObject(size: Result<nat>, limit: nat, maxString: nat): (r: Result<Value>)
    ensures r.Ok? ==> size.Ok? && |r.rest| <= |size.rest|
    decreases if size.Ok? then |size.rest| else 0, 2, 0
  {
    match size
    case Err(e) => Err(e)
    case Ok(n, t) =>
      if limit == 0 then Err(TooDeep)
      else
        match DecodeMembers(t, n, limit - 1, maxString)
        case Err(e) => Err(e)
        case Ok(ms, rest) => Ok(Obj(ms), rest)
  }

  /** A repeated key is kept twice. */
  function DecodeMembers(s: bytes, n: nat, limit: nat, maxString: nat): (r: Result<seq<Member>>)
    ensures r.Ok? ==> |r.value| == n && |r.rest| <= |s|
    decreases |s|, 1, n
  {
    if n == 0 then Ok([], s)
    else
      match DecodeMember(s, limit, maxString)
      case Err(e) => Err(e)
      case Ok(m, t) =>
        Prepend([m], DecodeMembers(t, n - 1, limit, maxString))
  }

  /** A key is read back up to its first NUL. */
  function DecodeMember(s: bytes, limit: nat, maxString: nat): (r: Result<Member>)
    ensures r.Ok? ==> |r.rest| < |s|
    decreases |s|, 0, 0
  {
    match ReadKey(s, maxString)
    case Err(e) => Err(e)
    case Ok(key, t) =>
      match Decode(t, limit, maxString)
      case Err(e) => Err(e)
      case Ok(v, rest) => Ok(Member(CString(key), v), rest)
  }

  /** What deserializeMsgPack reports: an empty input has its own code. */
  function Parse(s: bytes, limit: nat, maxString: nat): Result<Value> {
    if s == [] then Err(EmptyInput) else Decode(s, limit, maxString)
  }
}
