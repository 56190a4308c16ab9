/** Whatever the parser takes is the text of a good tree, and no text stands for
    two values. */
module JsonSoundness {
  import opened Bytes
  import opened Document
  import opened JsonTexts
  import Ascii
  import Unicode
  import Numbers
  import Filters
  import Json
  import Accept = JsonAcceptance

  const All := Filters.AllowAll

  lemma {:induction false} SpacesFound(s: bytes, found: bool) returns (ws: bytes)
    requires Json.SkipSpaces(s, found).Ok?
    ensures AllSpaces(ws) && s == ws + Json.SkipSpaces(s, found).rest && Accept.Solid(Json.SkipSpaces(s, found).rest)
  {
    if Ascii.IsSpace(s[0]) {
      var more := SpacesFound(s[1..], found);
      ws := [s[0]] + more;
      assert s == [s[0]] + s[1..];
    } else {
      ws := [];
      assert s[..1][0] == s[0];
    }
  }

  // Strings.

  lemma HexFound(s: bytes)
    requires Json.ParseHex(s, 4, 0).Ok?
    ensures |s| >= 4 && IsHex(s[..4]) && Json.ParseHex(s, 4, 0) == Ok(CodeUnit(s[..4]), s[4..])
  {
    hide Json.ParseHex, CodeUnit, IsHexChar, IsHex;
    FourFound(s);
    FourAreHex(s[..4]);
    assert s[..4] + s[4..] == s;
    Accept.HexRead(s[..4], s[4..]);
  }

  lemma FourAreHex(digits: bytes)
    requires |digits| == 4
    requires IsHexChar(digits[0]) && IsHexChar(digits[1]) && IsHexChar(digits[2]) && IsHexChar(digits[3])
    ensures IsHex(digits)
  {
  }

  lemma FourFound(s: bytes)
    requires Json.ParseHex(s, 4, 0).Ok?
    ensures |s| >= 4 && IsHexChar(s[0]) && IsHexChar(s[1]) && IsHexChar(s[2]) && IsHexChar(s[3])
  {
    hide Json.ParseHex, HexValue, IsHexChar;
    HexDigitFound(s, 3, 0);
    var n := HexValue(s[0]);
    HexDigitFound(s[1..], 2, n);
    var m := n * 0x10 + HexValue(s[1..][0]);
    HexDigitFound(s[1..][1..], 1, m);
    HexDigitFound(s[1..][1..][1..], 0, m * 0x10 + HexValue(s[1..][1..][0]));
  }

  lemma HexDigitFound(s: bytes, count: nat, value: nat)
    requires value < 0x1000 && Json.ParseHex(s, count + 1, value).Ok?
    ensures s != [] && IsHexChar(s[0])
    ensures Json.ParseHex(s, count + 1, value) == Json.ParseHex(s[1..], count, value * 0x10 + HexValue(s[0]))
  {
    assert Ascii.DecodeHex(s[0]) <= 15;
    assert IsHexChar(s[0]) && Ascii.DecodeHex(s[0]) == HexValue(s[0]);
  }

  lemma CharFound(s: bytes, quote: byte, high: Half) returns (c: Char, rest: bytes)
    requires (quote == 0x22 || quote == 0x27) && s != [] && s[0] != quote
    requires Json.StringText(s, quote, high, []).Ok?
    ensures GoodChar(c, quote) && s == WrittenChar(c) + rest && |rest| < |s|
  {
    if s[0] != 0x5C {
      c, rest := Raw(s[0]), s[1..];
    } else {
      var t := s[1..];
      if t[0] == 0x75 {
        HexFound(t[1..]);
        c, rest := Unit(t[1..][..4]), t[1..][4..];
        assert s == [0x5C, 0x75] + t[1..];
      } else {
        c, rest := Short(t[0]), t[1..];
        assert s == [0x5C, t[0]] + t[1..];
      }
    }
  }

  lemma {:induction false} CharsFound(s: bytes, quote: byte, high: Half, before: bytes) returns (cs: seq<Char>)
    requires (quote == 0x22 || quote == 0x27) && Json.StringText(s, quote, high, before).Ok?
    ensures GoodChars(cs, quote)
    ensures var r := Json.StringText(s, quote, high, before);
            s == WrittenChars(cs) + ([quote] + r.rest) && r.value == before + SaidAll(cs, high)
    decreases |s|
  {
    hide WrittenChar, Said, Waiting, GoodChar;
    if s[0] == quote {
      cs := [];
      assert s == [quote] + s[1..] && before + [] == before;
    } else {
      Unread(s, quote, high, before);
      var c, rest := CharFound(s, quote, high);
      Accept.CharRead(c, rest, quote, high, before);
      var more := CharsFound(rest, quote, Waiting(c, high), before + Said(c, high));
      cs := [c] + more;
      assert cs[1..] == more;
      Associates(before, Said(c, high), SaidAll(more, Waiting(c, high)));
      Associates(WrittenChar(c), WrittenChars(more), [quote] + Json.StringText(s, quote, high, before).rest);
    }
  }

  /** Whether a string is taken does not depend on what was read before. */
  lemma {:induction false} Unread(s: bytes, quote: byte, high: Half, before: bytes)
    requires Json.StringText(s, quote, high, before).Ok?
    ensures Json.StringText(s, quote, high, []).Ok?
    decreases |s|
  {
    Prefixed(s, quote, high, before, []);
  }

  lemma {:induction false} Prefixed(s: bytes, quote: byte, high: Half, a: bytes, b: bytes)
    requires Json.StringText(s, quote, high, a).Ok?
    ensures Json.StringText(s, quote, high, b).Ok?
    decreases |s|
  {
    if Numbers.Head(s) != quote {
      if s[0] != 0x5C {
        Prefixed(s[1..], quote, high, a + [s[0]], b + [s[0]]);
      } else {
        var r := Json.Escape(s[1..], high);
        Prefixed(r.rest, quote, r.value.1, a + r.value.0, b + r.value.0);
      }
    }
  }

  lemma QuotedFound(s: bytes, maxString: nat) returns (t: Text)
    requires s != [] && (s[0] == 0x22 || s[0] == 0x27) && Json.ParseQuoted(s, maxString).Ok?
    ensures t.Quoted? && GoodText(t, maxString)
    ensures var r := Json.ParseQuoted(s, maxString); s == WrittenText(t) + r.rest && r.value == TextSaid(t)
  {
    hide Json.StringText, SaidAll, WrittenChars, GoodChars;
    var cs := CharsFound(s[1..], s[0], 0, []);
    t := Quoted(s[0], cs);
    assert [] + SaidAll(cs, 0) == SaidAll(cs, 0);
    assert s == [s[0]] + s[1..];
  }

  lemma {:induction false} BareFound(s: bytes, before: bytes) returns (letters: bytes)
    ensures Accept.IsBare(letters)
    ensures Json.NonQuotedText(s, before) == (before + letters, Json.NonQuotedText(s, before).1)
    ensures s == letters + Json.NonQuotedText(s, before).1
    ensures letters == [] <==> !Ascii.CanBeInNonQuotedString(Numbers.Head(s))
    decreases |s|
  {
    if Ascii.CanBeInNonQuotedString(Numbers.Head(s)) {
      var more := BareFound(s[1..], before + [s[0]]);
      letters := [s[0]] + more;
      assert before + [s[0]] + more == before + letters;
      assert s == [s[0]] + s[1..];
    } else {
      letters := [];
      assert before + [] == before;
    }
  }

  lemma KeyFound(s: bytes, maxString: nat) returns (key: Text)
    requires Json.ParseKey(s, maxString).Ok?
    ensures GoodText(key, maxString)
    ensures var r := Json.ParseKey(s, maxString); s == WrittenText(key) + r.rest && r.value == TextSaid(key)
  {
    hide Json.ParseQuoted, Json.NonQuotedText;
    if Ascii.IsQuote(Numbers.Head(s)) {
      key := QuotedFound(s, maxString);
    } else {
      var letters := BareFound(s, []);
      assert [] + letters == letters;
      key := Bare(letters);
    }
  }

  lemma {:induction false} NumeralFound(s: bytes, before: bytes) returns (text: bytes)
    requires |before| <= 63
    ensures |before| + |text| <= 63 && forall i | 0 <= i < |text| :: IsNumeralChar(text[i])
    ensures Json.NumberText(s, before).0 == before + text && s == text + Json.NumberText(s, before).1
    ensures var rest := Json.NumberText(s, before).1; |before| + |text| == 63 || rest == [] || !IsNumeralChar(rest[0])
    decreases |s|
  {
    if |before| < 63 && Ascii.CanBeInNumber(Numbers.Head(s)) {
      var more := NumeralFound(s[1..], before + [s[0]]);
      text := [s[0]] + more;
      assert before + [s[0]] + more == before + text;
      assert s == [s[0]] + s[1..];
    } else {
      text := [];
      assert before + [] == before;
    }
  }

  lemma {:induction false} WordFound(s: bytes, word: bytes)
    requires Json.Keyword(s, word).Ok?
    ensures s == word + Json.Keyword(s, word).rest
  {
    if word != [] {
      WordFound(s[1..], word[1..]);
      assert s == [s[0]] + s[1..] && word == [word[0]] + word[1..];
    }
  }

  lemma SeparatorFound(s: bytes, close: byte) returns (ws: bytes)
    requires Json.Separator(s, close).Ok? && close in {0x5D, 0x7D}
    ensures AllSpaces(ws)
    ensures var r := Json.Separator(s, close); s == ws + ([if r.value then close else 0x2C] + r.rest)
  {
    hide Json.SkipSpaces;
    ws := SpacesFound(s, true);
    var t := Json.SkipSpaces(s, true).rest;
    assert t == [t[0]] + t[1..];
  }

  lemma ColonFound(s: bytes) returns (ws: bytes)
    requires Json.Colon(s).Ok?
    ensures AllSpaces(ws) && s == ws + ([0x3A] + Json.Colon(s).rest)
  {
    hide Json.SkipSpaces;
    ws := SpacesFound(s, true);
    var t := Json.SkipSpaces(s, true).rest;
    assert t == [t[0]] + t[1..];
  }

  lemma CommaFound(s: bytes) returns (ws: bytes, next: bytes)
    requires Json.MemberSeparator(s).Ok?
    ensures AllSpaces(ws) && AllSpaces(next)
    ensures var r := Json.MemberSeparator(s);
            && s == ws + (if r.value then [0x7D] + r.rest else [0x2C] + (next + r.rest))
            && (!r.value ==> Accept.Solid(r.rest))
  {
    hide Json.SkipSpaces, Json.Separator;
    ws := SeparatorFound(s, 0x7D);
    next := [];
    var r := Json.Separator(s, 0x7D);
    if !r.value { next := SpacesFound(r.rest, true); }
  }

  // Values.

  lemma {:induction false} VariantFound(s: bytes, found: bool, limit: nat, maxString: nat)
    returns (before: bytes, t: Tree)
    requires Json.ParseVariant(s, found, All, limit, maxString).Ok?
    ensures AllSpaces(before) && Good(t, limit, maxString)
    ensures var r := Json.ParseVariant(s, found, All, limit, maxString);
            s == before + (Written(t) + r.rest) && r.value == Meaning(t) && Accept.MayFollow(t, r.rest)
    decreases |s|, 1
  {
    hide Json.SkipSpaces, Json.ParseValue;
    before := SpacesFound(s, found);
    t := ValueFound(Json.SkipSpaces(s, found).rest, limit, maxString);
  }

  lemma {:induction false} ValueFound(s: bytes, limit: nat, maxString: nat) returns (t: Tree)
    requires Json.ParseValue(s, All, limit, maxString).Ok?
    ensures Good(t, limit, maxString)
    ensures var r := Json.ParseValue(s, All, limit, maxString);
            s == Written(t) + r.rest && r.value == Meaning(t) && Accept.MayFollow(t, r.rest)
    decreases |s|, 0
  {
    hide Json.Keyword, Json.ParseQuoted, Json.ParseArray, Json.ParseObject, Json.ParseNumeric;
    var c := Numbers.Head(s);
    if c == 0x5B {
      t := ArrayFound(s, limit, maxString);
    } else if c == 0x7B {
      t := ObjectFound(s, limit, maxString);
    } else if c == 0x22 || c == 0x27 {
      var text := QuotedFound(s, maxString);
      t := Words(text);
    } else if c == 0x74 {
      WordFound(s, [0x74, 0x72, 0x75, 0x65]);
      t := TrueWord;
    } else if c == 0x66 {
      WordFound(s, [0x66, 0x61, 0x6C, 0x73, 0x65]);
      t := FalseWord;
    } else if c == 0x6E {
      WordFound(s, [0x6E, 0x75, 0x6C, 0x6C]);
      t := NullWord;
    } else {
      t := NumberFound(s, limit, maxString);
    }
  }

  lemma NumberFound(s: bytes, limit: nat, maxString: nat) returns (t: Tree)
    requires Json.ParseNumeric(s).Ok?
    ensures Good(t, limit, maxString)
    ensures s == Written(t) + Json.ParseNumeric(s).rest && Json.ParseNumeric(s).value == Meaning(t)
    ensures Accept.MayFollow(t, Json.ParseNumeric(s).rest)
  {
    hide Numbers.ParseNumber, Json.NumberText;
    var text := NumeralFound(s, []);
    assert [] + text == text;
    t := Numeral(text);
  }

  lemma NoItems(ws: bytes, limit: nat, maxString: nat)
    requires AllSpaces(ws) && limit > 0
    ensures Good(Array(NoItem(ws)), limit, maxString)
    ensures WrittenItems(NoItem(ws)) == [] && Elements(NoItem(ws)) == []
  {
  }

  lemma NoPairs(ws: bytes, limit: nat, maxString: nat)
    requires AllSpaces(ws) && limit > 0
    ensures Good(Object(NoPair(ws)), limit, maxString)
    ensures WrittenPairs(NoPair(ws)) == [] && Members(NoPair(ws)) == [] && Filters.PutAll([], []) == []
  {
  }

  lemma {:induction false} ArrayFound(s: bytes, limit: nat, maxString: nat) returns (t: Tree)
    requires s != [] && s[0] == 0x5B && Json.ParseArray(s, All, limit, maxString).Ok?
    ensures t.Array? && Good(t, limit, maxString)
    ensures var r := Json.ParseArray(s, All, limit, maxString); s == Written(t) + r.rest && r.value == Meaning(t)
    decreases |s|, 0, 0
  {
    hide Json.SkipSpaces, Json.ParseElems, GoodItems, WrittenItems, Elements;
    var ws := SpacesFound(s[1..], true);
    var inside := Json.SkipSpaces(s[1..], true).rest;
    assert s == [0x5B] + s[1..];
    if inside[0] == 0x5D {
      assert inside == [0x5D] + inside[1..];
      t := Array(NoItem(ws));
      NoItems(ws, limit, maxString);
    } else {
      var items := ItemsFound(ws, inside, limit - 1, maxString);
      t := Array(items);
    }
  }

  /** The elements behind some spaces. */
  lemma {:induction false} ItemsFound(ws: bytes, s: bytes, limit: nat, maxString: nat) returns (items: Items)
    requires AllSpaces(ws) && Json.ParseElems(s, All, limit, maxString).Ok?
    ensures !items.NoItem? && GoodItems(items, limit, maxString)
    ensures var r := Json.ParseElems(s, All, limit, maxString);
            ws + s == BeforeItems(items) + (WrittenItems(items) + ([0x5D] + r.rest)) && r.value == Elements(items)
    decreases |s|, 3
  {
    hide Json.ParseElem, Json.Separator, Written, Good, Meaning;
    var before, value := ElemFound(s, limit, maxString);
    var first := Json.ParseElem(s, All, limit, maxString);
    var after := SeparatorFound(first.rest, 0x5D);
    var sep := Json.Separator(first.rest, 0x5D);
    var item := Item(ws + before, value, after);
    if sep.value {
      items := OneItem(item);
      assert ws + s == ws + before + (Written(value) + after + ([0x5D] + sep.rest));
    } else {
      var rest := ItemsFound([], sep.rest, limit, maxString);
      items := MoreItems(item, rest);
      assert [] + sep.rest == sep.rest;
      ItemsJoined(ws, before, Written(value), after, sep.rest, items,
                  [0x5D] + Json.ParseElems(s, All, limit, maxString).rest);
    }
  }

  lemma {:induction false} ItemsJoined(ws: bytes, before: bytes, value: bytes, after: bytes, more: bytes, items: Items,
                                       end: bytes)
    requires items.MoreItems? && items.item.before == ws + before && Written(items.item.value) == value
    requires items.item.after == after && more == BeforeItems(items.rest) + (WrittenItems(items.rest) + end)
    ensures ws + (before + (value + (after + ([0x2C] + more)))) == BeforeItems(items) + (WrittenItems(items) + end)
  {
    hide Written;
  }

  lemma {:induction false} ElemFound(s: bytes, limit: nat, maxString: nat) returns (before: bytes, value: Tree)
    requires Json.ParseElem(s, All, limit, maxString).Ok?
    ensures AllSpaces(before) && Good(value, limit, maxString)
    ensures var r := Json.ParseElem(s, All, limit, maxString);
            s == before + (Written(value) + r.rest) && r.value == [Meaning(value)] && Accept.MayFollow(value, r.rest)
    decreases |s|, 2
  {
    hide Json.ParseVariant;
    before, value := VariantFound(s, true, limit, maxString);
  }

  lemma {:induction false} ObjectFound(s: bytes, limit: nat, maxString: nat) returns (t: Tree)
    requires s != [] && s[0] == 0x7B && Json.ParseObject(s, All, limit, maxString).Ok?
    ensures t.Object? && Good(t, limit, maxString)
    ensures var r := Json.ParseObject(s, All, limit, maxString); s == Written(t) + r.rest && r.value == Meaning(t)
    decreases |s|, 0, 0
  {
    hide Json.SkipSpaces, Json.ParseMembers, GoodPairs, WrittenPairs, Members, Filters.PutAll;
    var ws := SpacesFound(s[1..], true);
    var inside := Json.SkipSpaces(s[1..], true).rest;
    assert s == [0x7B] + s[1..];
    if inside[0] == 0x7D {
      assert inside == [0x7D] + inside[1..];
      t := Object(NoPair(ws));
      NoPairs(ws, limit, maxString);
    } else {
      var pairs := PairsFound(ws, inside, limit - 1, maxString);
      t := Object(pairs);
    }
  }

  lemma {:induction false} PairFound(ws: bytes, s: bytes, limit: nat, maxString: nat) returns (pair: Pair)
    requires AllSpaces(ws) && Json.ParseMember(s, All, limit, maxString).Ok?
    ensures GoodPair(pair, limit, maxString) && pair.before == ws && pair.item.after == []
    ensures var r := Json.ParseMember(s, All, limit, maxString);
            s == WrittenPair(pair) + r.rest && r.value == [MemberOf(pair)] && Accept.MayFollow(pair.item.value, r.rest)
    decreases |s|, 2
  {
    hide Json.ParseKey, Json.Colon, Json.ParseElem, Written, WrittenText, TextSaid, Meaning, Good, GoodText;
    var key := KeyFound(s, maxString);
    var t := Json.ParseKey(s, maxString).rest;
    var near := ColonFound(t);
    var u := Json.Colon(t).rest;
    var before, value := ElemFound(u, limit, maxString);
    pair := Pair(ws, key, near, Item(before, value, []));
    Accept.Joined(pair, Json.ParseElem(u, All, limit, maxString).rest);
    assert [] + Json.ParseElem(u, All, limit, maxString).rest == Json.ParseElem(u, All, limit, maxString).rest;
  }

  function WithAfter(pair: Pair, after: bytes): Pair {
    pair.(item := pair.item.(after := after))
  }

  lemma AfterAdded(pair: Pair, after: bytes, limit: nat, maxString: nat)
    requires GoodPair(pair, limit, maxString) && AllSpaces(after) && pair.item.after == []
    ensures GoodPair(WithAfter(pair, after), limit, maxString)
    ensures MemberOf(WithAfter(pair, after)) == MemberOf(pair)
    ensures WrittenPair(WithAfter(pair, after)) == WrittenPair(pair) + after
  {
    hide Written, Good, Meaning, WrittenText, TextSaid, GoodText;
    assert GoodItem(pair.item, limit, maxString);
  }

  lemma {:induction false} PairsFound(ws: bytes, s: bytes, limit: nat, maxString: nat) returns (pairs: Pairs)
    requires AllSpaces(ws) && Json.ParseMembers(s, All, limit, maxString).Ok?
    ensures !pairs.NoPair? && GoodPairs(pairs, limit, maxString) && BeforePairs(pairs) == ws
    ensures var r := Json.ParseMembers(s, All, limit, maxString);
            s == WrittenPairs(pairs) + ([0x7D] + r.rest) && r.value == Members(pairs)
    decreases |s|, 3
  {
    hide Json.ParseMember, Json.MemberSeparator, WrittenPair, Good, MemberOf;
    var bare := PairFound(ws, s, limit, maxString);
    var first := Json.ParseMember(s, All, limit, maxString);
    var after, next := CommaFound(first.rest);
    var sep := Json.MemberSeparator(first.rest);
    AfterAdded(bare, after, limit, maxString);
    var pair := WithAfter(bare, after);
    if sep.value {
      pairs := OnePair(pair);
      Associates(WrittenPair(bare), after, [0x7D] + sep.rest);
    } else {
      var rest := PairsFound(next, sep.rest, limit, maxString);
      pairs := MorePairs(pair, rest);
      assert s == WrittenPairs(pairs) + ([0x7D] + Json.ParseMembers(s, All, limit, maxString).rest);
    }
  }

  // The parser and the texts.

  ghost predicate IsTextOf(s: bytes, v: Value, rest: bytes, limit: nat, maxString: nat) {
    exists before: bytes, t: Tree ::
      && AllSpaces(before) && Good(t, limit, maxString) && s == before + (Written(t) + rest) && Meaning(t) == v
      && (t.Numeral? ==> rest == [] || rest[0] == 0)
  }

  /** The parser takes the texts of good trees and nothing else, and makes of each
      the value that it stands for. */
  lemma ParsedIsText(s: bytes, v: Value, rest: bytes, limit: nat, maxString: nat)
    ensures Json.Parse(s, All, limit, maxString) == Ok(v, rest) <==> IsTextOf(s, v, rest, limit, maxString)
  {
    if IsTextOf(s, v, rest, limit, maxString) {
      var before, t :| && AllSpaces(before) && Good(t, limit, maxString) && s == before + (Written(t) + rest)
                       && Meaning(t) == v && (t.Numeral? ==> rest == [] || rest[0] == 0);
      Accept.TextIsParsed(before, t, rest, limit, maxString);
    }
    if Json.Parse(s, All, limit, maxString) == Ok(v, rest) {
      var before, t := VariantFound(s, false, limit, maxString);
      Accept.OnlyNumerals(t, limit, maxString);
    }
  }
}
