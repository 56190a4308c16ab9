/** Every text of a good tree is parsed as the value it stands for. */
module JsonAcceptance {
  import opened Bytes
  import opened Document
  import opened JsonTexts
  import Ascii
  import Unicode
  import Numbers
  import Filters
  import Json

  const All := Filters.AllowAll

  /** A byte that is neither a space nor the end. */
  predicate Solid(s: bytes) {
    s != [] && s[0] != 0 && !AllSpaces(s[..1])
  }

  lemma {:induction false} SpacesRead(ws: bytes, s: bytes, found: bool)
    requires AllSpaces(ws) && Solid(s)
    ensures Json.SkipSpaces(ws + s, found) == Ok((), s)
  {
    if ws == [] {
      assert ws + s == s;
      assert s[..1] == [s[0]];
    } else {
      assert (ws + s)[1..] == ws[1..] + s;
      assert forall i | 0 <= i < |ws[1..]| :: ws[1..][i] == ws[i + 1];
      SpacesRead(ws[1..], s, found);
    }
  }

  // Strings.

  lemma HexRead(digits: bytes, tail: bytes)
    requires IsHex(digits)
    ensures Json.ParseHex(digits + tail, 4, 0) == Ok(CodeUnit(digits), tail)
  {
    hide Json.ParseHex, HexValue, IsHexChar;
    var a, b, c, d := digits[0], digits[1], digits[2], digits[3];
    HexStep(a, [b, c, d] + tail, 3, 0);
    HexStep(b, [c, d] + tail, 2, HexValue(a));
    HexStep(c, [d] + tail, 1, HexValue(a) * 0x10 + HexValue(b));
    HexStep(d, tail, 0, (HexValue(a) * 0x10 + HexValue(b)) * 0x10 + HexValue(c));
    assert digits + tail == [a] + ([b, c, d] + tail);
    assert [b, c, d] + tail == [b] + ([c, d] + tail);
    assert [c, d] + tail == [c] + ([d] + tail);
  }

  lemma HexStep(c: byte, rest: bytes, count: nat, value: nat)
    requires IsHexChar(c) && value < 0x1000
    ensures Json.ParseHex(rest, 0, value) == Ok(value, rest)
    ensures count == 0 ==> Json.ParseHex([c] + rest, 1, value) == Ok(value * 0x10 + HexValue(c), rest)
    ensures Json.ParseHex([c] + rest, count + 1, value) == Json.ParseHex(rest, count, value * 0x10 + HexValue(c))
  {
    HexMeans(c);
    hide Ascii.DecodeHex, HexValue;
    assert ([c] + rest)[1..] == rest;
  }

  lemma HexMeans(c: byte)
    requires IsHexChar(c)
    ensures c != 0 && Ascii.DecodeHex(c) == HexValue(c)
  {
  }

  lemma UnitSaid(u: Unit16, high: Half)
    ensures Json.Unit(u, high) == SaidUnit(u, high)
    ensures Json.NextHigh(u, high) == if 0xD800 <= u <= 0xDBFF then u - 0xD800 else high
  {
    hide Unicode.Utf8;
    assert 0xD800 <= u < 0xDC00 ==> u % 0x400 == u - 0xD800;
    assert 0xDC00 <= u < 0xE000 ==> u % 0x400 == u - 0xDC00;
  }

  lemma CharRead(c: Char, s: bytes, quote: byte, high: Half, before: bytes)
    requires GoodChar(c, quote) && (quote == 0x22 || quote == 0x27)
    ensures Json.StringText(WrittenChar(c) + s, quote, high, before)
            == Json.StringText(s, quote, Waiting(c, high), before + Said(c, high))
  {
    hide Json.ParseHex;
    var all := WrittenChar(c) + s;
    match c {
      case Raw(b) => assert all[1..] == s;
      case Short(letter) => assert all[1..][1..] == s && all[1..][0] == letter;
      case Unit(digits) =>
        assert all[1..][1..] == digits + s && all[1..][0] == 0x75;
        HexRead(digits, s);
        UnitSaid(CodeUnit(digits), high);
    }
  }

  lemma {:induction false} CharsRead(cs: seq<Char>, quote: byte, tail: bytes, high: Half, before: bytes)
    requires GoodChars(cs, quote) && (quote == 0x22 || quote == 0x27)
    ensures Json.StringText(WrittenChars(cs) + ([quote] + tail), quote, high, before)
            == Ok(before + SaidAll(cs, high), tail)
  {
    var end := [quote] + tail;
    if cs == [] {
      assert WrittenChars(cs) + end == end && before + [] == before;
      assert end[1..] == tail;
    } else {
      Associates(WrittenChar(cs[0]), WrittenChars(cs[1..]), end);
      CharRead(cs[0], WrittenChars(cs[1..]) + end, quote, high, before);
      CharsRead(cs[1..], quote, tail, Waiting(cs[0], high), before + Said(cs[0], high));
      Associates(before, Said(cs[0], high), SaidAll(cs[1..], Waiting(cs[0], high)));
    }
  }

  lemma QuotedRead(t: Text, tail: bytes, maxString: nat)
    requires t.Quoted? && GoodText(t, maxString)
    ensures WrittenText(t) + tail != [] && (WrittenText(t) + tail)[0] == t.quote
    ensures Json.ParseQuoted(WrittenText(t) + tail, maxString) == Ok(TextSaid(t), tail)
  {
    hide Json.StringText, WrittenChars, SaidAll, GoodChars;
    var s := WrittenText(t) + tail;
    assert s[1..] == WrittenChars(t.chars) + ([t.quote] + tail);
    CharsRead(t.chars, t.quote, tail, 0, []);
    assert [] + SaidAll(t.chars, 0) == SaidAll(t.chars, 0);
  }

  predicate IsBare(letters: bytes) {
    forall i | 0 <= i < |letters| ::
      0x30 <= letters[i] <= 0x39 || 0x41 <= letters[i] <= 0x5A || 0x5F <= letters[i] <= 0x7A
  }

  lemma {:induction false} BareRead(letters: bytes, tail: bytes, before: bytes)
    requires IsBare(letters) && (tail == [] || !IsBare(tail[..1]))
    ensures Json.NonQuotedText(letters + tail, before) == (before + letters, tail)
    decreases |letters|
  {
    if letters == [] {
      assert letters + tail == tail && before + [] == before;
      assert tail != [] ==> tail[..1] == [tail[0]];
    } else {
      var more := letters[1..];
      assert (letters + tail)[1..] == more + tail;
      assert forall i | 0 <= i < |more| :: more[i] == letters[i + 1];
      BareRead(more, tail, before + [letters[0]]);
      assert before + [letters[0]] + more == before + letters;
    }
  }

  /** A key is read when no letter or digit follows it. */
  lemma KeyRead(key: Text, tail: bytes, maxString: nat)
    requires GoodText(key, maxString) && tail != [] && !IsBare(tail[..1])
    ensures Solid(WrittenText(key) + tail) && (WrittenText(key) + tail)[0] !in {0x2C, 0x7D}
    ensures Json.ParseKey(WrittenText(key) + tail, maxString) == Ok(TextSaid(key), tail)
  {
    hide Json.ParseQuoted, Json.NonQuotedText, WrittenText, TextSaid;
    var s := WrittenText(key) + tail;
    if key.Quoted? {
      QuotedRead(key, tail, maxString);
    } else {
      BareStarts(key, tail);
      BareRead(key.letters, tail, []);
      assert [] + key.letters == key.letters;
    }
    assert s[..1] == [s[0]];
  }

  lemma BareStarts(key: Text, tail: bytes)
    requires key.Bare? && key.letters != []
    ensures WrittenText(key) == key.letters == TextSaid(key)
    ensures (WrittenText(key) + tail)[0] == key.letters[0]
  {
  }

  lemma ColonRead(near: bytes, tail: bytes)
    requires AllSpaces(near)
    ensures Json.Colon(near + ([0x3A] + tail)) == Ok((), tail)
    ensures !IsBare((near + ([0x3A] + tail))[..1])
  {
    var s := [0x3A] + tail;
    assert s[..1] == [0x3A] && s[1..] == tail;
    SpacesRead(near, s, true);
    assert (near + s)[..1] == [(near + s)[0]];
    assert (near + s)[0] == if near == [] then 0x3A else near[0];
  }

  // Numbers.

  lemma {:induction false} NumeralRead(text: bytes, tail: bytes, before: bytes)
    requires |before| + |text| <= 63
    requires forall i | 0 <= i < |text| :: IsNumeralChar(text[i])
    requires |before| + |text| == 63 || tail == [] || !IsNumeralChar(tail[0])
    ensures Json.NumberText(text + tail, before) == (before + text, tail)
    decreases |text|
  {
    if text == [] {
      assert text + tail == tail && before + [] == before;
    } else {
      var more := text[1..];
      assert (text + tail)[1..] == more + tail;
      assert forall i | 0 <= i < |more| :: more[i] == text[i + 1];
      NumeralRead(more, tail, before + [text[0]]);
      assert before + [text[0]] + more == before + text;
    }
  }

  lemma NumberStarts(text: bytes)
    requires Numbers.ParseNumber(text).Number?
    ensures text != [] && (0x30 <= text[0] <= 0x39 || text[0] == 0x2B || text[0] == 0x2D || text[0] == 0x2E)
  {
  }

  // Values.

  /** What may stand behind a value: behind a number no more of its characters. */
  predicate MayFollow(t: Tree, tail: bytes) {
    t.Numeral? ==> |t.text| == 63 || tail == [] || !IsNumeralChar(tail[0])
  }

  lemma SpacesMayFollow(t: Tree, after: bytes, c: byte, tail: bytes)
    requires AllSpaces(after) && c in {0x2C, 0x5D, 0x7D}
    ensures MayFollow(t, after + ([c] + tail))
  {
    if after != [] { assert (after + ([c] + tail))[0] == after[0]; }
  }

  lemma ValueStarts(t: Tree, limit: nat, maxString: nat)
    requires Good(t, limit, maxString)
    ensures Written(t) != [] && Written(t)[0] !in {0, 0x09, 0x0A, 0x0D, 0x20, 0x2C, 0x5D, 0x7D}
  {
    if t.Numeral? { NumberStarts(t.text); }
  }

  /** The end of an item: a comma, or the end of the collection. */
  lemma SeparatorRead(after: bytes, tail: bytes, close: byte)
    requires AllSpaces(after) && close in {0x5D, 0x7D}
    ensures Json.Separator(after + ([close] + tail), close) == Ok(true, tail)
    ensures Json.Separator(after + ([0x2C] + tail), close) == Ok(false, tail)
  {
    var a, b := [close] + tail, [0x2C] + tail;
    assert a[..1] == [close] && b[..1] == [0x2C] && a[1..] == tail && b[1..] == tail;
    SpacesRead(after, a, true);
    SpacesRead(after, b, true);
  }

  lemma WordRead(word: bytes, tail: bytes)
    requires forall i | 0 <= i < |word| :: word[i] != 0
    ensures Json.Keyword(word + tail, word) == Ok((), tail)
  {
    if word == [] {
      assert word + tail == tail;
    } else {
      assert (word + tail)[1..] == word[1..] + tail;
      WordRead(word[1..], tail);
    }
  }

  lemma {:induction false} ValueRead(t: Tree, tail: bytes, limit: nat, maxString: nat)
    requires Good(t, limit, maxString) && MayFollow(t, tail)
    ensures Json.ParseValue(Written(t) + tail, All, limit, maxString) == Ok(Meaning(t), tail)
    decreases t, 0
  {
    hide Json.Keyword, Json.ParseNumeric, Json.ParseQuoted, Numbers.ParseNumber, Json.ParseArray, Json.ParseObject;
    hide GoodItems, GoodPairs, WrittenItems, WrittenPairs;
    var s := Written(t) + tail;
    match t {
      case NullWord => WordRead(Written(t), tail);
      case TrueWord => WordRead(Written(t), tail);
      case FalseWord => WordRead(Written(t), tail);
      case Numeral(text) => NumberRead(text, tail);
      case Words(words) => QuotedRead(words, tail, maxString);
      case Array(items) => ArrayRead(items, tail, limit, maxString);
      case Object(pairs) => ObjectRead(pairs, tail, limit, maxString);
    }
  }

  lemma NumberRead(text: bytes, tail: bytes)
    requires Good(Numeral(text), 0, 0) && MayFollow(Numeral(text), tail)
    ensures Json.ParseNumeric(text + tail) == Ok(NumberOf(text), tail)
    ensures text != [] && (0x30 <= text[0] <= 0x39 || text[0] == 0x2B || text[0] == 0x2D || text[0] == 0x2E)
  {
    NumberStarts(text);
    NumeralRead(text, tail, []);
    assert [] + text == text;
  }

  lemma {:induction false} ArrayRead(items: Items, tail: bytes, limit: nat, maxString: nat)
    requires limit > 0 && GoodItems(items, limit - 1, maxString)
    ensures var s := Written(Array(items)) + tail;
            && s != [] && s[0] == 0x5B
            && Json.ParseArray(s, All, limit, maxString) == Ok(Meaning(Array(items)), tail)
    decreases items, 1
  {
    hide Json.ParseElems, Json.SkipSpaces;
    var s, end := Written(Array(items)) + tail, [0x5D] + tail;
    var inside := WrittenItems(items) + end;
    assert s[1..] == BeforeItems(items) + inside;
    ItemsStart(items, end, limit - 1, maxString);
    assert end[..1] == [0x5D] && end[1..] == tail;
    assert items.NoItem? ==> inside == end;
    SpacesRead(BeforeItems(items), inside, true);
    if !items.NoItem? {
      ItemsRead([], items, tail, limit - 1, maxString);
      assert [] + inside == inside;
    }
  }

  lemma ItemsStart(items: Items, end: bytes, limit: nat, maxString: nat)
    requires GoodItems(items, limit, maxString)
    ensures AllSpaces(BeforeItems(items))
    ensures !items.NoItem? ==> Solid(WrittenItems(items) + end) && (WrittenItems(items) + end)[0] != 0x5D
  {
    if !items.NoItem? {
      ValueStarts(items.item.value, limit, maxString);
      var s := WrittenItems(items) + end;
      assert s[..1] == [s[0]] && s[0] == Written(items.item.value)[0];
    }
  }

  lemma {:induction false} ItemRead(ws: bytes, item: Item, tail: bytes, limit: nat, maxString: nat)
    requires AllSpaces(ws) && GoodItem(item, limit, maxString) && MayFollow(item.value, tail)
    ensures Json.ParseElem(ws + (Written(item.value) + tail), All, limit, maxString) == Ok([Meaning(item.value)], tail)
    decreases item, 1
  {
    hide Json.SkipSpaces, Json.ParseValue;
    ValueStarts(item.value, limit, maxString);
    var s := Written(item.value) + tail;
    assert s[..1] == [s[0]];
    SpacesRead(ws, s, true);
    ValueRead(item.value, tail, limit, maxString);
  }

  lemma {:induction false} ItemsRead(ws: bytes, items: Items, tail: bytes, limit: nat, maxString: nat)
    requires AllSpaces(ws) && GoodItems(items, limit, maxString) && !items.NoItem?
    ensures Json.ParseElems(ws + (WrittenItems(items) + ([0x5D] + tail)), All, limit, maxString)
            == Ok(Elements(items), tail)
    decreases items, 0
  {
    hide Json.ParseElem, Json.Separator, Written, Good;
    var item, end := items.item, [0x5D] + tail;
    var value := Written(item.value);
    if items.OneItem? {
      Associates(value, item.after, end);
      SpacesMayFollow(item.value, item.after, 0x5D, tail);
      ItemRead(ws, item, item.after + end, limit, maxString);
      SeparatorRead(item.after, tail, 0x5D);
    } else {
      var next := BeforeItems(items.rest) + (WrittenItems(items.rest) + end);
      Regroups(value, item.after, [0x2C], BeforeItems(items.rest), WrittenItems(items.rest));
      assert WrittenItems(items) + end == value + (item.after + ([0x2C] + next));
      SpacesMayFollow(item.value, item.after, 0x2C, next);
      ItemRead(ws, item, item.after + ([0x2C] + next), limit, maxString);
      SeparatorRead(item.after, next, 0x5D);
      ItemsStart(items.rest, end, limit, maxString);
      ItemsRead(BeforeItems(items.rest), items.rest, tail, limit, maxString);
    }
  }

  lemma {:induction false} ObjectRead(pairs: Pairs, tail: bytes, limit: nat, maxString: nat)
    requires limit > 0 && GoodPairs(pairs, limit - 1, maxString)
    ensures var s := Written(Object(pairs)) + tail;
            && s != [] && s[0] == 0x7B
            && Json.ParseObject(s, All, limit, maxString) == Ok(Meaning(Object(pairs)), tail)
    decreases pairs, 1
  {
    hide Json.ParseMembers, Json.SkipSpaces, Filters.PutAll;
    var s, end := Written(Object(pairs)) + tail, [0x7D] + tail;
    var inside := WrittenPairs(pairs) + end;
    assert s[1..] == BeforePairs(pairs) + inside;
    PairsStart(pairs, end, limit - 1, maxString);
    assert end[..1] == [0x7D] && end[1..] == tail;
    assert pairs.NoPair? ==> inside == end && Members(pairs) == [];
    SpacesRead(BeforePairs(pairs), inside, true);
    if pairs.NoPair? {
      NothingPut();
    } else {
      PairsRead(pairs, tail, limit - 1, maxString);
    }
  }

  lemma NothingPut()
    ensures Filters.PutAll([], []) == []
  {
  }

  lemma PairsStart(pairs: Pairs, end: bytes, limit: nat, maxString: nat)
    requires GoodPairs(pairs, limit, maxString)
    ensures AllSpaces(BeforePairs(pairs))
    ensures !pairs.NoPair? ==> Solid(WrittenPairs(pairs) + end) && (WrittenPairs(pairs) + end)[0] != 0x7D
  {
    if !pairs.NoPair? {
      var pair := pairs.pair;
      assert GoodPair(pair, limit, maxString);
      var key := WrittenText(pair.key);
      var s := WrittenPairs(pairs) + end;
      assert key != [] && key[0] !in {0, 0x09, 0x0A, 0x0D, 0x20, 0x7D};
      assert WrittenPair(pair)[0] == key[0];
      assert s[0] == WrittenPair(pair)[0];
      assert s[..1] == [s[0]];
    }
  }

  lemma {:induction false} PairRead(pair: Pair, tail: bytes, limit: nat, maxString: nat)
    requires GoodPair(pair, limit, maxString) && MayFollow(pair.item.value, pair.item.after + tail)
    ensures Json.ParseMember(WrittenPair(pair) + tail, All, limit, maxString)
            == Ok([MemberOf(pair)], pair.item.after + tail)
    decreases pair, 1
  {
    hide Json.ParseKey, Json.Colon, Json.ParseElem, Written, WrittenText, TextSaid, Meaning, Good, GoodText;
    var item := pair.item;
    var value := item.before + (Written(item.value) + (item.after + tail));
    var s := WrittenText(pair.key) + (pair.near + ([0x3A] + value));
    assert WrittenPair(pair) + tail == s by { Joined(pair, tail); }
    ColonRead(pair.near, value);
    KeyRead(pair.key, pair.near + ([0x3A] + value), maxString);
    ItemRead(item.before, item, item.after + tail, limit, maxString);
  }

  lemma Joined(pair: Pair, tail: bytes)
    ensures var item := pair.item;
            var value := item.before + (Written(item.value) + (item.after + tail));
            WrittenPair(pair) + tail == WrittenText(pair.key) + (pair.near + ([0x3A] + value))
  {
  }

  /** Between two members: a comma and the spaces before the next key. */
  lemma CommaRead(after: bytes, ws: bytes, s: bytes)
    requires AllSpaces(after) && AllSpaces(ws) && Solid(s)
    ensures Json.MemberSeparator(after + ([0x2C] + (ws + s))) == Ok(false, s)
  {
    SeparatorRead(after, ws + s, 0x7D);
    SpacesRead(ws, s, true);
  }

  lemma {:induction false} PairsRead(pairs: Pairs, tail: bytes, limit: nat, maxString: nat)
    requires GoodPairs(pairs, limit, maxString) && !pairs.NoPair?
    ensures Json.ParseMembers(WrittenPairs(pairs) + ([0x7D] + tail), All, limit, maxString) == Ok(Members(pairs), tail)
    decreases pairs, 0
  {
    hide Json.ParseMember, Json.MemberSeparator, WrittenPair, Good, MemberOf;
    var pair, end := pairs.pair, [0x7D] + tail;
    var after := pair.item.after;
    assert GoodPair(pair, limit, maxString) && GoodItem(pair.item, limit, maxString);
    if pairs.OnePair? {
      SpacesMayFollow(pair.item.value, after, 0x7D, tail);
      PairRead(pair, end, limit, maxString);
      LastRead(after, tail);
    } else {
      var more := WrittenPairs(pairs.rest) + end;
      var next := BeforePairs(pairs.rest) + more;
      assert WrittenPairs(pairs) + end == WrittenPair(pair) + ([0x2C] + next);
      SpacesMayFollow(pair.item.value, after, 0x2C, next);
      PairRead(pair, [0x2C] + next, limit, maxString);
      PairsStart(pairs.rest, end, limit, maxString);
      CommaRead(after, BeforePairs(pairs.rest), more);
      PairsRead(pairs.rest, tail, limit, maxString);
    }
  }

  lemma LastRead(after: bytes, tail: bytes)
    requires AllSpaces(after)
    ensures Json.MemberSeparator(after + ([0x7D] + tail)) == Ok(true, tail)
  {
    SeparatorRead(after, tail, 0x7D);
  }

  /** Whatever spaces stand in it, a text of at most limit levels is parsed as the
      value it stands for; behind a number at the top nothing may follow. */
  lemma TextIsParsed(before: bytes, t: Tree, tail: bytes, limit: nat, maxString: nat)
    requires AllSpaces(before) && Good(t, limit, maxString)
    requires t.Numeral? ==> tail == [] || tail[0] == 0
    ensures Json.Parse(before + (Written(t) + tail), All, limit, maxString) == Ok(Meaning(t), tail)
  {
    hide Json.SkipSpaces, Json.ParseValue;
    var s := Written(t) + tail;
    ValueStarts(t, limit, maxString);
    assert s[..1] == [s[0]];
    SpacesRead(before, s, false);
    ValueRead(t, tail, limit, maxString);
    OnlyNumerals(t, limit, maxString);
  }

  lemma OnlyNumerals(t: Tree, limit: nat, maxString: nat)
    requires Good(t, limit, maxString)
    ensures Json.IsNumber(Meaning(t)) <==> t.Numeral?
  {
  }
}
