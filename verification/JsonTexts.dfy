/** The texts the parser takes, letter by letter, and the values they stand for:
    JSON as RFC 8259 has it, and what the parser takes beyond it. */
module JsonTexts {
  import opened Bytes
  import opened Document
  import opened Unicode
  import Numbers
  import Filters

  // White space, section 2 of RFC 8259.

  predicate AllSpaces(ws: bytes) {
    forall i | 0 <= i < |ws| :: ws[i] == 0x20 || ws[i] == 0x09 || ws[i] == 0x0A || ws[i] == 0x0D
  }

  // Strings.

  /** One byte as it is, an escape of two characters, or a code unit in four
      hexadecimal digits. */
  datatype Char = Raw(b: byte) | Short(letter: byte) | Unit(digits: bytes)

  /** Digits, and a few characters beside them that are taken for digits. */
  predicate IsHexChar(c: byte) {
    0x30 <= c <= 0x3F || 0x41 <= c <= 0x46 || 0x60 <= c <= 0x66
  }

  function HexValue(c: byte): (n: nat)
    requires IsHexChar(c)
    ensures n < 0x10
  {
    if c <= 0x3F then c - 0x30 else if c <= 0x46 then c - 0x41 + 10 else c - 0x61 + 10
  }

  predicate IsHex(digits: bytes) {
    |digits| == 4 && forall i | 0 <= i < 4 :: IsHexChar(digits[i])
  }

  type Unit16 = u: nat | u < 0x1_0000

  function CodeUnit(digits: bytes): Unit16 {
    if !IsHex(digits) then 0
    else
      4096 * HexValue(digits[0]) + 256 * HexValue(digits[1]) + 16 * HexValue(digits[2]) + HexValue(digits[3])
  }

  const LETTERS: map<byte, byte> :=
    map[0x22 := 0x22, 0x5C := 0x5C, 0x2F := 0x2F, 0x62 := 0x08, 0x66 := 0x0C, 0x6E := 0x0A, 0x72 := 0x0D, 0x74 := 0x09]

  predicate GoodChar(c: Char, quote: byte) {
    match c
    case Raw(b) => b != 0 && b != quote && b != 0x5C
    case Short(letter) => letter in LETTERS
    case Unit(digits) => IsHex(digits)
  }

  predicate GoodChars(cs: seq<Char>, quote: byte) {
    forall i | 0 <= i < |cs| :: GoodChar(cs[i], quote)
  }

  function WrittenChar(c: Char): bytes {
    match c
    case Raw(b) => [b]
    case Short(letter) => [0x5C, letter]
    case Unit(digits) => [0x5C, 0x75] + digits
  }

  function WrittenChars(cs: seq<Char>): bytes {
    if cs == [] then [] else WrittenChar(cs[0]) + WrittenChars(cs[1..])
  }

  type Half = h: nat | h < 0x400

  /** The last high surrogate waits for a low one. */
  function Waiting(c: Char, high: Half): Half {
    if c.Unit? && 0xD800 <= CodeUnit(c.digits) <= 0xDBFF then CodeUnit(c.digits) - 0xD800 else high
  }

  function SaidUnit(u: Unit16, high: Half): bytes {
    if 0xD800 <= u <= 0xDBFF then []
    else if 0xDC00 <= u <= 0xDFFF then Utf8(0x1_0000 + high * 0x400 + (u - 0xDC00))
    else Utf8(u)
  }

  function Said(c: Char, high: Half): bytes {
    match c
    case Raw(b) => [b]
    case Short(letter) => if letter in LETTERS then [LETTERS[letter]] else []
    case Unit(digits) => SaidUnit(CodeUnit(digits), high)
  }

  function SaidAll(cs: seq<Char>, high: Half): bytes {
    if cs == [] then [] else Said(cs[0], high) + SaidAll(cs[1..], Waiting(cs[0], high))
  }

  /** A string in double or single quotes; a key may stand without any. */
  datatype Text = Quoted(quote: byte, chars: seq<Char>) | Bare(letters: bytes)

  predicate GoodText(t: Text, maxString: nat) {
    match t
    case Quoted(quote, chars) =>
      (quote == 0x22 || quote == 0x27) && GoodChars(chars, quote) && |SaidAll(chars, 0)| <= maxString
    case Bare(letters) =>
      letters != [] && |letters| <= maxString
      && forall i | 0 <= i < |letters| ::
        0x30 <= letters[i] <= 0x39 || 0x41 <= letters[i] <= 0x5A || 0x5F <= letters[i] <= 0x7A
  }

  function WrittenText(t: Text): bytes {
    match t
    case Quoted(quote, chars) => [quote] + WrittenChars(chars) + [quote]
    case Bare(letters) => letters
  }

  function TextSaid(t: Text): bytes {
    match t
    case Quoted(_, chars) => SaidAll(chars, 0)
    case Bare(letters) => letters
  }

  // Values.

  datatype Tree =
    | NullWord
    | TrueWord
    | FalseWord
    | Numeral(text: bytes)
    | Words(words: Text)
    | Array(items: Items)
    | Object(pairs: Pairs)

  /** A value and the spaces around it. */
  datatype Item = Item(before: bytes, value: Tree, after: bytes)

  datatype Items = NoItem(inner: bytes) | OneItem(item: Item) | MoreItems(item: Item, rest: Items)

  /** A key and its value, and the spaces before, between and behind them. */
  datatype Pair = Pair(before: bytes, key: Text, near: bytes, item: Item)

  datatype Pairs = NoPair(inner: bytes) | OnePair(pair: Pair) | MorePairs(pair: Pair, rest: Pairs)

  function BeforeItems(items: Items): bytes {
    if items.NoItem? then items.inner else items.item.before
  }

  function BeforePairs(pairs: Pairs): bytes {
    if pairs.NoPair? then pairs.inner else pairs.pair.before
  }

  function Written(t: Tree): bytes {
    match t
    case NullWord => [0x6E, 0x75, 0x6C, 0x6C]
    case TrueWord => [0x74, 0x72, 0x75, 0x65]
    case FalseWord => [0x66, 0x61, 0x6C, 0x73, 0x65]
    case Numeral(text) => text
    case Words(words) => WrittenText(words)
    case Array(items) => [0x5B] + BeforeItems(items) + WrittenItems(items) + [0x5D]
    case Object(pairs) => [0x7B] + BeforePairs(pairs) + WrittenPairs(pairs) + [0x7D]
  }

  function WrittenItems(items: Items): bytes {
    match items
    case NoItem(_) => []
    case OneItem(item) => Written(item.value) + item.after
    case MoreItems(item, rest) => Written(item.value) + item.after + [0x2C] + BeforeItems(rest) + WrittenItems(rest)
  }

  function WrittenPair(pair: Pair): bytes {
    WrittenText(pair.key) + pair.near + [0x3A] + pair.item.before + Written(pair.item.value) + pair.item.after
  }

  function WrittenPairs(pairs: Pairs): bytes {
    match pairs
    case NoPair(_) => []
    case OnePair(pair) => WrittenPair(pair)
    case MorePairs(pair, rest) => WrittenPair(pair) + [0x2C] + BeforePairs(rest) + WrittenPairs(rest)
  }

  predicate IsNumeralChar(c: byte) {
    0x30 <= c <= 0x39 || c == 0x2B || c == 0x2D || c == 0x2E || c == 0x45 || c == 0x65
  }

  /** No more levels than the limit, no string longer than the longest, and a
      number of at most 63 characters that the number reader takes. */
  predicate Good(t: Tree, limit: nat, maxString: nat) {
    match t
    case Numeral(text) =>
      && |text| <= 63 && (forall i | 0 <= i < |text| :: IsNumeralChar(text[i]))
      && Numbers.ParseNumber(text).Number?
    case Words(words) => words.Quoted? && GoodText(words, maxString)
    case Array(items) => limit > 0 && GoodItems(items, limit - 1, maxString)
    case Object(pairs) => limit > 0 && GoodPairs(pairs, limit - 1, maxString)
    case _ => true
  }

  predicate GoodItem(item: Item, limit: nat, maxString: nat) {
    AllSpaces(item.before) && AllSpaces(item.after) && Good(item.value, limit, maxString)
  }

  predicate GoodItems(items: Items, limit: nat, maxString: nat) {
    match items
    case NoItem(inner) => AllSpaces(inner)
    case OneItem(item) => GoodItem(item, limit, maxString)
    case MoreItems(item, rest) =>
      GoodItem(item, limit, maxString) && !rest.NoItem? && GoodItems(rest, limit, maxString)
  }

  predicate GoodPair(pair: Pair, limit: nat, maxString: nat) {
    && AllSpaces(pair.before) && AllSpaces(pair.near) && GoodText(pair.key, maxString)
    && GoodItem(pair.item, limit, maxString)
  }

  predicate GoodPairs(pairs: Pairs, limit: nat, maxString: nat) {
    match pairs
    case NoPair(inner) => AllSpaces(inner)
    case OnePair(pair) => GoodPair(pair, limit, maxString)
    case MorePairs(pair, rest) =>
      GoodPair(pair, limit, maxString) && !rest.NoPair? && GoodPairs(rest, limit, maxString)
  }

  function Meaning(t: Tree): Value {
    match t
    case NullWord => Null
    case TrueWord => Bool(true)
    case FalseWord => Bool(false)
    case Numeral(text) => NumberOf(text)
    case Words(words) => Str(TextSaid(words))
    case Array(items) => Arr(Elements(items))
    case Object(pairs) => Obj(Filters.PutAll([], Members(pairs)))
  }

  function NumberOf(text: bytes): Value {
    match Numbers.ParseNumber(text)
    case NotANumber => Null
    case Number(v) => v
  }

  function Elements(items: Items): seq<Value> {
    match items
    case NoItem(_) => []
    case OneItem(item) => [Meaning(item.value)]
    case MoreItems(item, rest) => [Meaning(item.value)] + Elements(rest)
  }

  /** A key ends at its first NUL. */
  function MemberOf(pair: Pair): Member {
    Member(CString(TextSaid(pair.key)), Meaning(pair.item.value))
  }

  function Members(pairs: Pairs): seq<Member> {
    match pairs
    case NoPair(_) => []
    case OnePair(pair) => [MemberOf(pair)]
    case MorePairs(pair, rest) => [MemberOf(pair)] + Members(rest)
  }
}
