/** The value held by a JsonDocument, as seen through its public view. */
module Document {
  import opened Bytes

  /** What a number that is no integer is before it is rounded to a float:
      the text form of parseNumber, an overflow, or the bits of a message. */
  datatype Float =
    | Decimal(negative: bool, mantissa: nat, exponent: int)
    | Infinite(negative: bool)
    | Zero(negative: bool)
    | Ieee(bits: bytes)

  datatype Value =
    | Null
    | Bool(b: bool)
    | Int(i: int)
    | Real(x: Float)
    | Str(s: bytes)
    | Arr(elems: seq<Value>)
    | Obj(members: seq<Member>)

  datatype Member = Member(key: bytes, value: Value)

  const INT_MIN: int := -0x8000_0000_0000_0000
  const UINT_MAX: int := 0xFFFF_FFFF_FFFF_FFFF

  datatype Code = EmptyInput | IncompleteInput | InvalidInput | NoMemory | TooDeep

  datatype Result<+T> = Ok(value: T, rest: bytes) | Err(code: Code)

  /** What a method of a deserializer returns: nothing wrong, or an error. */
  datatype Status = Fine | Failed(code: Code)

  /** The method reports what the function says; its input stands at the rest. */
  ghost predicate Agrees<T>(status: Status, v: T, input: bytes, r: Result<T>) {
    match r
    case Ok(value, rest) => status == Fine && v == value && input == rest
    case Err(code) => status == Failed(code)
  }

  /** What was read before, put in front of what is read next. */
  function Prepend<T>(before: seq<T>, r: Result<seq<T>>): Result<seq<T>> {
    match r
    case Ok(vs, rest) => Ok(before + vs, rest)
    case Err(code) => Err(code)
  }

  lemma PrependNothing<T>(r: Result<seq<T>>)
    ensures Prepend([], r) == r
  {
    if r.Ok? { assert [] + r.value == r.value; }
  }

  lemma PrependMore<T>(before: seq<T>, more: seq<T>, r: Result<seq<T>>)
    ensures Prepend(before, Prepend(more, r)) == Prepend(before + more, r)
  {
    if r.Ok? { Associates(before, more, r.value); }
  }

  function Max(a: nat, b: nat): nat {
    if a > b then a else b
  }

  function Nesting(v: Value): nat
    decreases v, 1
  {
    match v
    case Arr(elems) => 1 + NestingOfElems(elems)
    case Obj(members) => 1 + NestingOfMembers(members)
    case _ => 0
  }

  function NestingOfElems(vs: seq<Value>): nat
    decreases vs, 0
  {
    if vs == [] then 0 else Max(Nesting(vs[0]), NestingOfElems(vs[1..]))
  }

  function NestingOfMembers(ms: seq<Member>): nat
    decreases ms, 0
  {
    if ms == [] then 0 else Max(Nesting(ms[0].value), NestingOfMembers(ms[1..]))
  }

  /** A document without floats that the configured widths can store: 64-bit
      integers, strings of at most maxString bytes, C-string keys. */
  ghost predicate Storable(v: Value, maxString: nat)
    decreases v, 1
  {
    match v
    case Real(_) => false
    case Int(i) => INT_MIN <= i <= UINT_MAX
    case Str(s) => |s| <= maxString
    case Arr(elems) => |elems| < Span(4) && StorableElems(elems, maxString)
    case Obj(members) => |members| < Span(4) && StorableMembers(members, maxString)
    case _ => true
  }

  ghost predicate StorableElems(vs: seq<Value>, maxString: nat)
    decreases vs, 0
  {
    vs == [] || (Storable(vs[0], maxString) && StorableElems(vs[1..], maxString))
  }

  ghost predicate StorableMembers(ms: seq<Member>, maxString: nat)
    decreases ms, 0
  {
    ms == [] || (StorableMember(ms[0], maxString) && StorableMembers(ms[1..], maxString))
  }

  ghost predicate StorableMember(m: Member, maxString: nat)
    decreases m, 2
  {
    |m.key| <= maxString && 0 !in m.key && Storable(m.value, maxString)
  }
}
