/** The JSON parser as functions: the parse family with a filter, and the skip
    family that follows input whose value is not kept. JsonDeserializer is
    proved against them. */
module Json {
  import opened Bytes
  import opened Document
  import opened Ascii
  import opened Unicode
  import opened Numbers
  import opened Filters

  function SkipSpaces(s: bytes, found: bool): (r: Result<()>)
    ensures r.Ok? ==> r.value == ()
    ensures r.Ok? ==> |r.rest| <= |s| && Head(r.rest) != NUL && !IsSpace(Head(r.rest))
  {
    if Head(s) == NUL then Err(if found then IncompleteInput else EmptyInput)
    else if IsSpace(s[0]) then SkipSpaces(s[1..], found)
    else Ok((), s)
  }

  function Keyword(s: bytes, word: bytes): (r: Result<()>)
    ensures r.Ok? ==> r.value == ()
    ensures r.Ok? ==> |r.rest| <= |s|
  {
    if word == [] then Ok((), s)
    else if Head(s) == NUL then Err(IncompleteInput)
    else if s[0] != word[0] then Err(InvalidInput)
    else Keyword(s[1..], word[1..])
  }

  // ----- numbers -----

  const NUMBER_ROOM: nat := 63

  /** Adds the number characters at the front to the buffer while it has room. */
  function NumberText(s: bytes, buffer: bytes): (r: (bytes, bytes))
    ensures |r.1| <= |s|
    ensures |r.0| < NUMBER_ROOM ==> !CanBeInNumber(Head(r.1))
    decreases |s|
  {
    if |buffer| < NUMBER_ROOM && CanBeInNumber(Head(s)) then NumberText(s[1..], buffer + [s[0]])
    else (buffer, s)
  }

  function ParseNumeric(s: bytes): (r: Result<Value>)
    ensures r.Ok? ==> |r.rest| <= |s|
  {
    var (text, rest) := NumberText(s, []);
    match ParseNumber(text)
    case NotANumber => Err(InvalidInput)
    case Number(v) => Ok(v, rest)
  }

  function SkipNumeric(s: bytes): (r: bytes)
    ensures |r| <= |s| && !CanBeInNumber(Head(r))
  {
    if CanBeInNumber(Head(s)) then SkipNumeric(s[1..]) else s
  }

  // ----- strings -----

  function ParseHex(s: bytes, count: nat, value: nat): (r: Result<nat>)
    ensures r.Ok? ==> |r.rest| <= |s|
    ensures r.Ok? && value < 0x1_0000 ==> r.value < 0x1_0000
  {
    if count == 0 then Ok(value, s)
    else if Head(s) == NUL then Err(IncompleteInput)
    else if DecodeHex(s[0]) > 0x0F then Err(InvalidInput)
    else ParseHex(s[1..], count - 1, (value * 0x10 + DecodeHex(s[0])) % 0x1_0000)
  }

  /** What one code unit adds to the text; high is the last high surrogate. */
  function Unit(u: nat, high: nat): bytes
    requires u < 0x1_0000 && high < 0x400
  {
    if IsHighSurrogate(u) then []
    else if IsLowSurrogate(u) then Utf8(0x1_0000 + high * 0x400 + u % 0x400)
    else Utf8(u)
  }

  function NextHigh(u: nat, high: nat): nat {
    if IsHighSurrogate(u) then u % 0x400 else high
  }

  /** What stands behind a backslash: the bytes it adds and the high surrogate
      that is the last one afterwards. */
  function Escape(s: bytes, high: nat): (r: Result<(bytes, nat)>)
    requires high < 0x400
    ensures r.Ok? ==> |r.rest| < |s| && r.value.1 < 0x400
  {
    if Head(s) == NUL then Err(IncompleteInput)
    else if s[0] == 0x75 then
      match ParseHex(s[1..], 4, 0)
      case Err(e) => Err(e)
      case Ok(u, rest) => Ok((Unit(u, high), NextHigh(u, high)), rest)
    else if UnescapeChar(s[0]) == 0 then Err(InvalidInput)
    else Ok(([UnescapeChar(s[0])], high), s[1..])
  }

  /** The text of a string whose opening quote is behind the cursor, added to
      the text before the cursor. */
  function StringText(s: bytes, stop: byte, high: nat, text: bytes): (r: Result<bytes>)
    requires high < 0x400
    ensures r.Ok? ==> |r.rest| <= |s|
    decreases |s|
  {
    if Head(s) == stop then Ok(text, Tail(s))
    else if Head(s) == NUL then Err(IncompleteInput)
    else if s[0] != BACKSLASH then StringText(s[1..], stop, high, text + [s[0]])
    else
      match Escape(s[1..], high)
      case Err(e) => Err(e)
      case Ok(added, rest) => StringText(rest, stop, added.1, text + added.0)
  }

  /** The builder runs out of memory once a text outgrows its length type. */
  function Bounded(r: Result<bytes>, maxString: nat): Result<bytes> {
    if r.Ok? && |r.value| > maxString then Err(NoMemory) else r
  }

  function ParseQuoted(s: bytes, maxString: nat): (r: Result<bytes>)
    ensures r.Ok? ==> |r.rest| <= |s|
  {
    Bounded(StringText(Tail(s), Head(s), 0, []), maxString)
  }

  function NonQuotedText(s: bytes, text: bytes): (r: (bytes, bytes))
    ensures |r.1| <= |s|
    decreases |s|
  {
    if CanBeInNonQuotedString(Head(s)) then NonQuotedText(s[1..], text + [s[0]]) else (text, s)
  }

  function ParseNonQuoted(s: bytes, maxString: nat): (r: Result<bytes>)
    ensures r.Ok? ==> |r.rest| <= |s|
  {
    if !CanBeInNonQuotedString(Head(s)) then Err(InvalidInput)
    else
      var (text, rest) := NonQuotedText(s, []);
      Bounded(Ok(text, rest), maxString)
  }

  function ParseKey(s: bytes, maxString: nat): (r: Result<bytes>)
    ensures r.Ok? ==> |r.rest| <= |s|
  {
    if IsQuote(Head(s)) then ParseQuoted(s, maxString) else ParseNonQuoted(s, maxString)
  }

  function SkipString(s: bytes, stop: byte): (r: Result<()>)
    ensures r.Ok? ==> r.value == ()
    ensures r.Ok? ==> |r.rest| <= |s|
    decreases |s|
  {
    if Head(s) == stop then Ok((), Tail(s))
    else if Head(s) == NUL then Err(IncompleteInput)
    else if s[0] == BACKSLASH && Head(s[1..]) != NUL then SkipString(s[2..], stop)
    else SkipString(s[1..], stop)
  }

  function SkipQuoted(s: bytes): (r: Result<()>)
    ensures r.Ok? ==> r.value == ()
    ensures r.Ok? ==> |r.rest| <= |s|
  {
    SkipString(Tail(s), Head(s))
  }

  function SkipNonQuoted(s: bytes): (r: bytes)
    ensures |r| <= |s|
  {
    if CanBeInNonQuotedString(Head(s)) then SkipNonQuoted(s[1..]) else s
  }

  function SkipKey(s: bytes): (r: Result<()>)
    ensures r.Ok? ==> r.value == ()
    ensures r.Ok? ==> |r.rest| <= |s|
  {
    if IsQuote(Head(s)) then SkipQuoted(s) else Ok((), SkipNonQuoted(s))
  }

  // ----- punctuation -----

  /** Behind an element: whether the collection ends here or a comma follows. */
  function Separator(s: bytes, close: byte): (r: Result<bool>)
    ensures r.Ok? ==> |r.rest| < |s|
  {
    match SkipSpaces(s, true)
    case Err(e) => Err(e)
    case Ok(_, t) =>
      if t[0] == close then Ok(true, t[1..])
      else if t[0] == COMMA then Ok(false, t[1..])
      else Err(InvalidInput)
  }

  /** In an object the next key follows the comma and spaces. */
  function MemberSeparator(s: bytes): (r: Result<bool>)
    ensures r.Ok? ==> |r.rest| < |s|
  {
    match Separator(s, CLOSE_OBJECT)
    case Err(e) => Err(e)
    case Ok(done, t) => if done then Ok(true, t) else Then(SkipSpaces(t, true), false)
  }

  /** Behind a key: spaces and the colon. */
  function Colon(s: bytes): (r: Result<()>)
    ensures r.Ok? ==> r.value == ()
    ensures r.Ok? ==> |r.rest| < |s|
  {
    match SkipSpaces(s, true)
    case Err(e) => Err(e)
    case Ok(_, t) => if t[0] == COLON then Ok((), t[1..]) else Err(InvalidInput)
  }

  function Then<T>(r: Result<()>, v: T): Result<T> {
    match r
    case Err(e) => Err(e)
    case Ok(_, rest) => Ok(v, rest)
  }

  // ----- skipping -----

  function SkipVariant(s: bytes, found: bool, limit: nat): (r: Result<()>)
    ensures r.Ok? ==> r.value == ()
    ensures r.Ok? ==> |r.rest| <= |s|
    decreases |s|, 1
  {
    match SkipSpaces(s, found)
    case Err(e) => Err(e)
    case Ok(_, t) => SkipValue(t, limit)
  }

  function SkipValue(s: bytes, limit: nat): (r: Result<()>)
    ensures r.Ok? ==> r.value == ()
    ensures r.Ok? ==> |r.rest| <= |s|
    decreases |s|, 0
  {
    var c := Head(s);
    if c == OPEN_ARRAY then
      if limit == 0 then Err(TooDeep) else SkipElems(s[1..], limit - 1)
    else if c == OPEN_OBJECT then
      if limit == 0 then Err(TooDeep)
      else
        match SkipSpaces(s[1..], true)
        case Err(e) => Err(e)
        case Ok(_, t) => if t[0] == CLOSE_OBJECT then Ok((), t[1..]) else SkipMembers(t, limit - 1)
    else if IsQuote(c) then SkipQuoted(s)
    else if c == TRUE[0] then Keyword(s, TRUE)
    else if c == FALSE[0] then Keyword(s, FALSE)
    else if c == NULL[0] then Keyword(s, NULL)
    else Ok((), SkipNumeric(s))
  }

  /** No test for an empty array: skipping no number at all serves for it. */
  function SkipElems(s: bytes, limit: nat): (r: Result<()>)
    ensures r.Ok? ==> r.value == ()
    ensures r.Ok? ==> |r.rest| <= |s|
    decreases |s|, 2
  {
    match SkipVariant(s, true, limit)
    case Err(e) => Err(e)
    case Ok(_, t) =>
      match Separator(t, CLOSE_ARRAY)
      case Err(e) => Err(e)
      case Ok(done, u) => if done then Ok((), u) else SkipElems(u, limit)
  }

  function SkipMembers(s: bytes, limit: nat): (r: Result<()>)
    ensures r.Ok? ==> r.value == ()
    ensures r.Ok? ==> |r.rest| <= |s|
    decreases |s|, 2
  {
    match SkipKey(s)
    case Err(e) => Err(e)
    case Ok(_, t) =>
      match Colon(t)
      case Err(e) => Err(e)
      case Ok(_, u) =>
        match SkipVariant(u, true, limit)
        case Err(e) => Err(e)
        case Ok(_, w) =>
          match MemberSeparator(w)
          case Err(e) => Err(e)
          case Ok(done, x) => if done then Ok((), x) else SkipMembers(x, limit)
  }

  // ----- parsing -----

  function ParseVariant(s: bytes, found: bool, f: Filter, limit: nat, maxString: nat): (r: Result<Value>)
    ensures r.Ok? ==> |r.rest| <= |s|
    decreases |s|, 1
  {
    match SkipSpaces(s, found)
    case Err(e) => Err(e)
    case Ok(_, t) => ParseValue(t, f, limit, maxString)
  }

  function ParseValue(s: bytes, f: Filter, limit: nat, maxString: nat): (r: Result<Value>)
    ensures r.Ok? ==> |r.rest| <= |s|
    decreases |s|, 0
  {
    var c := Head(s);
    if c == OPEN_ARRAY then
      if f.AllowArray() then ParseArray(s, f, limit, maxString) else Then(SkipValue(s, limit), Null)
    else if c == OPEN_OBJECT then
      if f.AllowObject() then ParseObject(s, f, limit, maxString) else Then(SkipValue(s, limit), Null)
    else if IsQuote(c) then
      if f.AllowValue() then ParseString(s, maxString) else Then(SkipQuoted(s), Null)
    else if c == TRUE[0] then Then(Keyword(s, TRUE), if f.AllowValue() then Bool(true) else Null)
    else if c == FALSE[0] then Then(Keyword(s, FALSE), if f.AllowValue() then Bool(false) else Null)
    else if c == NULL[0] then Then(Keyword(s, NULL), Null)
    else if f.AllowValue() then ParseNumeric(s)
    else Ok(Null, SkipNumeric(s))
  }

  function ParseString(s: bytes, maxString: nat): (r: Result<Value>)
    ensures r.Ok? ==> |r.rest| <= |s|
  {
    match ParseQuoted(s, maxString)
    case Err(e) => Err(e)
    case Ok(t, rest) => Ok(Str(t), rest)
  }

  function ParseArray(s: bytes, f: Filter, limit: nat, maxString: nat): (r: Result<Value>)
    requires Head(s) == OPEN_ARRAY
    ensures r.Ok? ==> |r.rest| <= |s|
    decreases |s|, 0, 0
  {
    if limit == 0 then Err(TooDeep)
    else
      match SkipSpaces(s[1..], true)
      case Err(e) => Err(e)
      case Ok(_, t) =>
        if t[0] == CLOSE_ARRAY then Ok(Arr([]), t[1..])
        else
          match ParseElems(t, f.AtElement(), limit - 1, maxString)
          case Err(e) => Err(e)
          case Ok(vs, rest) => Ok(Arr(vs), rest)
  }

  /** One value; nothing is kept of it unless the filter allows it. */
  function ParseElem(s: bytes, f: Filter, limit: nat, maxString: nat): (r: Result<seq<Value>>)
    ensures r.Ok? ==> |r.rest| <= |s|
    decreases |s|, 2
  {
    if f.Allow() then
      match ParseVariant(s, true, f, limit, maxString)
      case Err(e) => Err(e)
      case Ok(v, rest) => Ok([v], rest)
    else Then(SkipVariant(s, true, limit), [])
  }

  function ParseElems(s: bytes, f: Filter, limit: nat, maxString: nat): (r: Result<seq<Value>>)
    ensures r.Ok? ==> |r.rest| <= |s|
    decreases |s|, 3
  {
    match ParseElem(s, f, limit, maxString)
    case Err(e) => Err(e)
    case Ok(kept, t) =>
      match Separator(t, CLOSE_ARRAY)
      case Err(e) => Err(e)
      case Ok(done, u) =>
        if done then Ok(kept, u) else Prepend(kept, ParseElems(u, f, limit, maxString))
  }

  function ParseObject(s: bytes, f: Filter, limit: nat, maxString: nat): (r: Result<Value>)
    requires Head(s) == OPEN_OBJECT
    ensures r.Ok? ==> |r.rest| <= |s|
    decreases |s|, 0, 0
  {
    if limit == 0 then Err(TooDeep)
    else
      match SkipSpaces(s[1..], true)
      case Err(e) => Err(e)
      case Ok(_, t) =>
        if t[0] == CLOSE_OBJECT then Ok(Obj([]), t[1..])
        else ObjectFrom(ParseMembers(t, f, limit - 1, maxString))
  }

  function ObjectFrom(r: Result<seq<Member>>): Result<Value> {
    match r
    case Err(e) => Err(e)
    case Ok(ms, rest) => Ok(Obj(PutAll([], ms)), rest)
  }

  /** A key, as the C string it is from here on, and the colon behind it. */
  function ParseKeyColon(s: bytes, maxString: nat): (r: Result<bytes>)
    ensures r.Ok? ==> |r.rest| < |s|
  {
    match ParseKey(s, maxString)
    case Err(e) => Err(e)
    case Ok(key, t) => Then(Colon(t), CString(key))
  }

  function ParseMember(s: bytes, f: Filter, limit: nat, maxString: nat): (r: Result<seq<Member>>)
    ensures r.Ok? ==> |r.rest| <= |s|
    decreases |s|, 2
  {
    match ParseKeyColon(s, maxString)
    case Err(e) => Err(e)
    case Ok(key, t) =>
      match ParseElem(t, f.AtKey(key), limit, maxString)
      case Err(e) => Err(e)
      case Ok(kept, rest) => Ok(if kept == [] then [] else [Member(key, kept[0])], rest)
  }

  /** The members in input order; a repeated key is still there twice. */
  function ParseMembers(s: bytes, f: Filter, limit: nat, maxString: nat): (r: Result<seq<Member>>)
    ensures r.Ok? ==> |r.rest| <= |s|
    decreases |s|, 3
  {
    match ParseMember(s, f, limit, maxString)
    case Err(e) => Err(e)
    case Ok(kept, t) =>
      match MemberSeparator(t)
      case Err(e) => Err(e)
      case Ok(done, u) =>
        if done then Ok(kept, u) else Prepend(kept, ParseMembers(u, f, limit, maxString))
  }

  predicate IsNumber(v: Value) { v.Int? || v.Real? }

  /** What deserializeJson reports: behind a number at the top the input must
      end, behind anything else whatever follows is ignored. */
  function Parse(s: bytes, f: Filter, limit: nat, maxString: nat): Result<Value> {
    var r := ParseVariant(s, false, f, limit, maxString);
    if r.Ok? && IsNumber(r.value) && Head(r.rest) != NUL then Err(InvalidInput) else r
  }
}
