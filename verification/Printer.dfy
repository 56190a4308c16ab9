/** The text of a document, minified or indented. The two serializers are
    proved against this one function. */
module Printer {
  import opened Bytes
  import opened Document
  import opened Ascii
  import opened Numbers

  datatype Style = Minified | Pretty

  const NEWLINE: bytes := [CR, LF]

  function Newline(style: Style): bytes {
    if style.Pretty? then NEWLINE else []
  }

  function Tabs(n: nat): bytes {
    if n == 0 then [] else [SPACE, SPACE] + Tabs(n - 1)
  }

  /** The depth is counted in eight bits. */
  function Indent(style: Style, depth: nat): bytes {
    if style.Pretty? then Tabs(depth % 0x100) else []
  }

  const NUL_TEXT: bytes := [BACKSLASH, 0x75, 0x30, 0x30, 0x30, 0x30]

  function CharText(c: byte): bytes {
    if EscapeChar(c) != 0 then [BACKSLASH, EscapeChar(c)]
    else if c != NUL then [c]
    else NUL_TEXT
  }

  function Escaped(s: bytes): bytes {
    if s == [] then [] else CharText(s[0]) + Escaped(s[1..])
  }

  function Quoted(s: bytes): bytes {
    [QUOTE] + Escaped(s) + [QUOTE]
  }

  /** No floats, 64-bit integers, and keys that are C strings. */
  ghost predicate Plain(v: Value)
    decreases v, 1
  {
    match v
    case Real(_) => false
    case Int(i) => INT_MIN <= i <= UINT_MAX
    case Arr(elems) => PlainElems(elems)
    case Obj(members) => PlainMembers(members)
    case _ => true
  }

  ghost predicate PlainElems(vs: seq<Value>)
    decreases vs, 0
  {
    vs == [] || (Plain(vs[0]) && PlainElems(vs[1..]))
  }

  ghost predicate PlainMembers(ms: seq<Member>)
    decreases ms, 0
  {
    ms == [] || (0 !in ms[0].key && Plain(ms[0].value) && PlainMembers(ms[1..]))
  }

  /** Strings fit their length type and no object has a key twice. */
  ghost predicate Parsable(v: Value, maxString: nat)
    decreases v, 1
  {
    match v
    case Str(s) => |s| <= maxString
    case Arr(elems) => ParsableElems(elems, maxString)
    case Obj(members) => UniqueKeys(members) && ParsableMembers(members, maxString)
    case _ => true
  }

  ghost predicate ParsableElems(vs: seq<Value>, maxString: nat)
    decreases vs, 0
  {
    vs == [] || (Parsable(vs[0], maxString) && ParsableElems(vs[1..], maxString))
  }

  ghost predicate ParsableMembers(ms: seq<Member>, maxString: nat)
    decreases ms, 0
  {
    ms == [] || (
      && |ms[0].key| <= maxString
      && Parsable(ms[0].value, maxString)
      && ParsableMembers(ms[1..], maxString))
  }

  ghost predicate UniqueKeys(ms: seq<Member>) {
    forall i, j :: 0 <= i < j < |ms| ==> ms[i].key != ms[j].key
  }

  function Render(v: Value, style: Style, depth: nat): (r: bytes)
    requires Plain(v)
    decreases v, 2
  {
    match v
    case Null => NULL
    case Bool(b) => if b then TRUE else FALSE
    case Int(i) => IntegerText(i)
    case Str(s) => Quoted(s)
    case Arr(elems) =>
      if elems == [] then [OPEN_ARRAY, CLOSE_ARRAY]
      else
        [OPEN_ARRAY] + Newline(style) + RenderElems(elems, style, depth + 1)
        + Indent(style, depth) + [CLOSE_ARRAY]
    case Obj(members) =>
      if members == [] then [OPEN_OBJECT, CLOSE_OBJECT]
      else
        [OPEN_OBJECT] + Newline(style) + RenderMembers(members, style, depth + 1)
        + Indent(style, depth) + [CLOSE_OBJECT]
  }

  /** Behind each element but the last comes a comma. */
  function Comma(last: bool): bytes {
    if last then [] else [COMMA]
  }

  function RenderElems(vs: seq<Value>, style: Style, depth: nat): bytes
    requires PlainElems(vs)
    decreases vs, 1
  {
    if vs == [] then [] else Indent(style, depth) + ElemsText(vs, style, depth)
  }

  /** Elements from the first one on, behind its indentation. */
  function ElemsText(vs: seq<Value>, style: Style, depth: nat): bytes
    requires vs != [] && PlainElems(vs)
    decreases vs, 0
  {
    Render(vs[0], style, depth) + Comma(|vs| == 1) + Newline(style) + RenderElems(vs[1..], style, depth)
  }

  function ColonText(style: Style): bytes {
    if style.Pretty? then [COLON, SPACE] else [COLON]
  }

  function RenderMembers(ms: seq<Member>, style: Style, depth: nat): bytes
    requires PlainMembers(ms)
    decreases ms, 1
  {
    if ms == [] then [] else Indent(style, depth) + MembersText(ms, style, depth)
  }

  function MembersText(ms: seq<Member>, style: Style, depth: nat): bytes
    requires ms != [] && PlainMembers(ms)
    decreases ms, 0
  {
    MemberText(ms[0], style, depth) + Comma(|ms| == 1) + Newline(style) + RenderMembers(ms[1..], style, depth)
  }

  function MemberText(m: Member, style: Style, depth: nat): bytes
    requires Plain(m.value)
    decreases m, 2
  {
    Quoted(m.key) + (ColonText(style) + Render(m.value, style, depth))
  }
}
