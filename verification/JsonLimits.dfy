/** A text that would be taken with more levels or more room is refused for want of
    just these, by the parser and, as to levels, where it is skipped. */
module JsonLimits {
  import opened Bytes
  import opened Document
  import opened JsonTexts
  import Ascii
  import Numbers
  import Filters
  import Json
  import Theorems = JsonTheorems
  import Accept = JsonAcceptance
  import opened JsonExtension

  /** Why the text is not taken: too many levels, or too long a string. */
  predicate Blames(code: Code, deep: bool, long: bool) {
    (code == TooDeep && deep) || (code == NoMemory && long)
  }

  lemma LongText(t: Text, tail: bytes, wide: nat, room: nat)
    requires t.Quoted? && GoodText(t, wide) && !GoodText(t, room)
    ensures Json.ParseQuoted(WrittenText(t) + tail, room) == Err(NoMemory)
    ensures WrittenText(t) + tail != [] && (WrittenText(t) + tail)[0] == t.quote
  {
    hide Json.StringText, SaidAll, GoodChars, WrittenChars;
    Accept.QuotedRead(t, tail, wide);
  }

  lemma LongKey(key: Text, tail: bytes, wide: nat, room: nat)
    requires GoodText(key, wide) && !GoodText(key, room) && tail != [] && !Accept.IsBare(tail[..1])
    ensures Json.ParseKey(WrittenText(key) + tail, room) == Err(NoMemory)
  {
    hide Json.ParseQuoted, Json.NonQuotedText;
    Accept.KeyRead(key, tail, wide);
    if key.Quoted? {
      LongText(key, tail, wide, room);
    } else {
      Accept.BareStarts(key, tail);
      Accept.BareRead(key.letters, tail, []);
      assert [] + key.letters == key.letters;
    }
  }

  lemma {:induction false} ValueFails(t: Tree, tail: bytes, most: nat, wide: nat, limit: nat, room: nat)
    requires Good(t, most, wide) && !Good(t, limit, room) && limit <= most && room <= wide && Accept.MayFollow(t, tail)
    ensures var r := Json.ParseValue(Written(t) + tail, All, limit, room);
            r.Err? && Blames(r.code, !Good(t, limit, wide), !Good(t, most, room))
    decreases t, 0
  {
    hide Json.ParseQuoted, Json.ParseArray, Json.ParseObject;
    hide GoodItems, GoodPairs, WrittenItems, WrittenPairs;
    match t {
      case Words(words) => LongText(words, tail, wide, room);
      case Array(items) => ArrayFails(items, tail, most, wide, limit, room);
      case Object(pairs) => ObjectFails(pairs, tail, most, wide, limit, room);
      case _ =>
    }
  }

  lemma {:induction false} ArrayFails(items: Items, tail: bytes, most: nat, wide: nat, limit: nat, room: nat)
    requires most > 0 && GoodItems(items, most - 1, wide) && limit <= most && room <= wide
    requires limit > 0 ==> !GoodItems(items, limit - 1, room)
    ensures var s := Written(Array(items)) + tail;
            && s != [] && s[0] == 0x5B
            && var r := Json.ParseArray(s, All, limit, room);
               r.Err? && Blames(r.code, limit == 0 || !GoodItems(items, limit - 1, wide),
                                !GoodItems(items, most - 1, room))
    decreases items, 1
  {
    hide Json.ParseElems, Json.SkipSpaces;
    var s, end := Written(Array(items)) + tail, [0x5D] + tail;
    var inside := WrittenItems(items) + end;
    assert s[1..] == BeforeItems(items) + inside;
    if limit > 0 {
      Accept.ItemsStart(items, end, most - 1, wide);
      Accept.SpacesRead(BeforeItems(items), inside, true);
      ItemsFail([], items, tail, most - 1, wide, limit - 1, room);
      assert [] + inside == inside;
    }
  }

  lemma {:induction false} ItemsFail(ws: bytes, items: Items, tail: bytes, most: nat, wide: nat, limit: nat, room: nat)
    requires AllSpaces(ws) && GoodItems(items, most, wide) && !GoodItems(items, limit, room)
    requires limit <= most && room <= wide && !items.NoItem?
    ensures var r := Json.ParseElems(ws + (WrittenItems(items) + ([0x5D] + tail)), All, limit, room);
            r.Err? && Blames(r.code, !GoodItems(items, limit, wide), !GoodItems(items, most, room))
    decreases items, 0
  {
    hide Json.ParseElem, Json.Separator, Written, Good;
    var item, end := items.item, [0x5D] + tail;
    var value := Written(item.value);
    if items.OneItem? {
      Associates(value, item.after, end);
      Accept.SpacesMayFollow(item.value, item.after, 0x5D, tail);
      ItemFails(ws, item, item.after + end, most, wide, limit, room);
    } else {
      var next := BeforeItems(items.rest) + (WrittenItems(items.rest) + end);
      assert WrittenItems(items) + end == value + (item.after + ([0x2C] + next));
      Accept.SpacesMayFollow(item.value, item.after, 0x2C, next);
      if Good(item.value, limit, room) {
        Accept.ItemRead(ws, item, item.after + ([0x2C] + next), limit, room);
        Accept.SeparatorRead(item.after, next, 0x5D);
        Accept.ItemsStart(items.rest, end, most, wide);
        ItemsFail(BeforeItems(items.rest), items.rest, tail, most, wide, limit, room);
      } else {
        ItemFails(ws, item, item.after + ([0x2C] + next), most, wide, limit, room);
      }
    }
  }

  lemma {:induction false} ItemFails(ws: bytes, item: Item, tail: bytes, most: nat, wide: nat, limit: nat, room: nat)
    requires AllSpaces(ws) && GoodItem(item, most, wide) && !Good(item.value, limit, room)
    requires limit <= most && room <= wide && Accept.MayFollow(item.value, tail)
    ensures var r := Json.ParseElem(ws + (Written(item.value) + tail), All, limit, room);
            r.Err? && Blames(r.code, !Good(item.value, limit, wide), !Good(item.value, most, room))
    decreases item, 1
  {
    hide Json.SkipSpaces, Json.ParseValue;
    Accept.ValueStarts(item.value, most, wide);
    var s := Written(item.value) + tail;
    assert s[..1] == [s[0]];
    Accept.SpacesRead(ws, s, true);
    ValueFails(item.value, tail, most, wide, limit, room);
  }

  lemma {:induction false} ObjectFails(pairs: Pairs, tail: bytes, most: nat, wide: nat, limit: nat, room: nat)
    requires most > 0 && GoodPairs(pairs, most - 1, wide) && limit <= most && room <= wide
    requires limit > 0 ==> !GoodPairs(pairs, limit - 1, room)
    ensures var s := Written(Object(pairs)) + tail;
            && s != [] && s[0] == 0x7B
            && var r := Json.ParseObject(s, All, limit, room);
               r.Err? && Blames(r.code, limit == 0 || !GoodPairs(pairs, limit - 1, wide),
                                !GoodPairs(pairs, most - 1, room))
    decreases pairs, 1
  {
    hide Json.ParseMembers, Json.SkipSpaces;
    var s, end := Written(Object(pairs)) + tail, [0x7D] + tail;
    var inside := WrittenPairs(pairs) + end;
    assert s[1..] == BeforePairs(pairs) + inside;
    if limit > 0 {
      Accept.PairsStart(pairs, end, most - 1, wide);
      Accept.SpacesRead(BeforePairs(pairs), inside, true);
      PairsFail(pairs, tail, most - 1, wide, limit - 1, room);
    }
  }

  lemma {:induction false} PairFails(pair: Pair, tail: bytes, most: nat, wide: nat, limit: nat, room: nat)
    requires GoodPair(pair, most, wide) && !GoodPair(pair, limit, room) && limit <= most && room <= wide
    requires Accept.MayFollow(pair.item.value, pair.item.after + tail)
    ensures var r := Json.ParseMember(WrittenPair(pair) + tail, All, limit, room);
            r.Err? && Blames(r.code, !GoodPair(pair, limit, wide), !GoodPair(pair, most, room))
    decreases pair, 1
  {
    hide Json.ParseKey, Json.Colon, Json.ParseElem, Written, WrittenText, TextSaid, Good, GoodText;
    var item := pair.item;
    var value := item.before + (Written(item.value) + (item.after + tail));
    var rest := pair.near + ([0x3A] + value);
    Accept.Joined(pair, tail);
    Accept.ColonRead(pair.near, value);
    assert GoodItem(item, most, wide);
    if GoodText(pair.key, room) {
      Accept.KeyRead(pair.key, rest, room);
      assert !Good(item.value, limit, room);
      ItemFails(item.before, item, item.after + tail, most, wide, limit, room);
    } else {
      LongKey(pair.key, rest, wide, room);
    }
  }

  lemma {:induction false} PairsFail(pairs: Pairs, tail: bytes, most: nat, wide: nat, limit: nat, room: nat)
    requires GoodPairs(pairs, most, wide) && !GoodPairs(pairs, limit, room)
    requires limit <= most && room <= wide && !pairs.NoPair?
    ensures var r := Json.ParseMembers(WrittenPairs(pairs) + ([0x7D] + tail), All, limit, room);
            r.Err? && Blames(r.code, !GoodPairs(pairs, limit, wide), !GoodPairs(pairs, most, room))
    decreases pairs, 0
  {
    hide Json.ParseMember, Json.MemberSeparator, WrittenPair, GoodPair, MemberOf;
    var pair, end := pairs.pair, [0x7D] + tail;
    var after := pair.item.after;
    SpacesAfter(pair, most, wide);
    if pairs.OnePair? {
      Accept.SpacesMayFollow(pair.item.value, after, 0x7D, tail);
      PairFails(pair, end, most, wide, limit, room);
    } else {
      var more := WrittenPairs(pairs.rest) + end;
      var next := BeforePairs(pairs.rest) + more;
      assert WrittenPairs(pairs) + end == WrittenPair(pair) + ([0x2C] + next);
      Accept.SpacesMayFollow(pair.item.value, after, 0x2C, next);
      if GoodPair(pair, limit, room) {
        Accept.PairRead(pair, [0x2C] + next, limit, room);
        Accept.PairsStart(pairs.rest, end, most, wide);
        Accept.CommaRead(after, BeforePairs(pairs.rest), more);
        PairsFail(pairs.rest, tail, most, wide, limit, room);
      } else {
        PairFails(pair, [0x2C] + next, most, wide, limit, room);
      }
    }
  }

  lemma SpacesAfter(pair: Pair, limit: nat, room: nat)
    requires GoodPair(pair, limit, room)
    ensures AllSpaces(pair.item.after)
  {
    assert GoodItem(pair.item, limit, room);
  }

  /** A text that would be taken with at most most levels and strings of at most wide
      bytes: it is refused as too deep or for memory, and for nothing it keeps to. */
  lemma {:induction false} RefusedText(before: bytes, t: Tree, tail: bytes, most: nat, wide: nat, limit: nat, room: nat)
    requires AllSpaces(before) && Good(t, most, wide) && limit <= most && room <= wide && Accept.MayFollow(t, tail)
    ensures var r := Json.ParseVariant(before + (Written(t) + tail), false, All, limit, room);
            && (r.Ok? <==> Good(t, limit, room))
            && (!Good(t, limit, room) && Good(t, most, room) ==> r == Err(TooDeep))
            && (!Good(t, limit, room) && Good(t, limit, wide) ==> r == Err(NoMemory))
            && (r.Err? ==> r.code == TooDeep || r.code == NoMemory)
  {
    hide Json.SkipSpaces, Json.ParseValue;
    Accept.ValueStarts(t, most, wide);
    var s := Written(t) + tail;
    assert s[..1] == [s[0]];
    Accept.SpacesRead(before, s, false);
    if Good(t, limit, room) {
      Accept.ValueRead(t, tail, limit, room);
    } else {
      ValueFails(t, tail, most, wide, limit, room);
    }
  }

  // Where it is skipped.

  lemma NumberIsOver(after: bytes, c: byte, tail: bytes)
    requires AllSpaces(after) && c in {0x2C, 0x5D, 0x7D}
    ensures !Ascii.CanBeInNumber(Numbers.Head(after + ([c] + tail)))
  {
    if after != [] { assert (after + ([c] + tail))[0] == after[0]; }
  }

  lemma ItemSkipped(ws: bytes, item: Item, tail: bytes, limit: nat, room: nat)
    requires AllSpaces(ws) && GoodItem(item, limit, room) && !Ascii.CanBeInNumber(Numbers.Head(tail))
    ensures Json.SkipVariant(ws + (Written(item.value) + tail), true, limit) == Ok((), tail)
  {
    hide Json.ParseVariant, Json.SkipVariant;
    Accept.ItemRead(ws, item, tail, limit, room);
    Theorems.SkipFollowsParse(ws + (Written(item.value) + tail), true, All, limit, room);
  }

  lemma {:induction false} SkipFails(t: Tree, tail: bytes, most: nat, room: nat, limit: nat)
    requires Good(t, most, room) && !Good(t, limit, room) && limit <= most
    ensures Json.SkipValue(Written(t) + tail, limit) == Err(TooDeep)
    decreases t, 0
  {
    hide Json.SkipElems, Json.SkipMembers, Json.SkipSpaces, WrittenItems, WrittenPairs;
    var s := Written(t) + tail;
    if limit > 0 {
      match t {
        case Array(items) =>
          var end := [0x5D] + tail;
          assert s[1..] == BeforeItems(items) + (WrittenItems(items) + end);
          Accept.ItemsStart(items, end, most - 1, room);
          SkipItemsFail(BeforeItems(items), items, tail, most - 1, room, limit - 1);
        case Object(pairs) =>
          var end := [0x7D] + tail;
          assert s[1..] == BeforePairs(pairs) + (WrittenPairs(pairs) + end);
          Accept.PairsStart(pairs, end, most - 1, room);
          Accept.SpacesRead(BeforePairs(pairs), WrittenPairs(pairs) + end, true);
          SkipPairsFail(pairs, tail, most - 1, room, limit - 1);
        case _ =>
      }
    }
  }

  lemma {:induction false} SkipItemFails(ws: bytes, item: Item, tail: bytes, most: nat, room: nat, limit: nat)
    requires AllSpaces(ws) && GoodItem(item, most, room) && !Good(item.value, limit, room) && limit <= most
    ensures Json.SkipVariant(ws + (Written(item.value) + tail), true, limit) == Err(TooDeep)
    decreases item, 1
  {
    hide Json.SkipSpaces, Json.SkipValue;
    Accept.ValueStarts(item.value, most, room);
    var s := Written(item.value) + tail;
    assert s[..1] == [s[0]];
    Accept.SpacesRead(ws, s, true);
    SkipFails(item.value, tail, most, room, limit);
  }

  lemma {:induction false} SkipItemsFail(ws: bytes, items: Items, tail: bytes, most: nat, room: nat, limit: nat)
    requires AllSpaces(ws) && GoodItems(items, most, room) && !GoodItems(items, limit, room)
    requires limit <= most && !items.NoItem?
    ensures Json.SkipElems(ws + (WrittenItems(items) + ([0x5D] + tail)), limit) == Err(TooDeep)
    decreases items, 0
  {
    hide Json.SkipVariant, Json.Separator, Written, Good;
    var item, end := items.item, [0x5D] + tail;
    var value := Written(item.value);
    if items.OneItem? {
      Associates(value, item.after, end);
      SkipItemFails(ws, item, item.after + end, most, room, limit);
    } else {
      var next := BeforeItems(items.rest) + (WrittenItems(items.rest) + end);
      assert WrittenItems(items) + end == value + (item.after + ([0x2C] + next));
      NumberIsOver(item.after, 0x2C, next);
      if Good(item.value, limit, room) {
        ItemSkipped(ws, item, item.after + ([0x2C] + next), limit, room);
        Accept.SeparatorRead(item.after, next, 0x5D);
        Accept.ItemsStart(items.rest, end, most, room);
        SkipItemsFail(BeforeItems(items.rest), items.rest, tail, most, room, limit);
      } else {
        SkipItemFails(ws, item, item.after + ([0x2C] + next), most, room, limit);
      }
    }
  }

  /** The key of a pair and the colon behind it are stepped over. */
  lemma KeySkipped(pair: Pair, tail: bytes, limit: nat, room: nat) returns (s: bytes, t: bytes, u: bytes)
    requires GoodPair(pair, limit, room)
    ensures s == WrittenPair(pair) + tail
    ensures u == pair.item.before + (Written(pair.item.value) + (pair.item.after + tail))
    ensures Json.SkipKey(s) == Ok((), t) && Json.Colon(t) == Ok((), u)
  {
    hide Json.ParseKey, Json.Colon, Written, WrittenText, TextSaid, Good, GoodText;
    var item := pair.item;
    u := item.before + (Written(item.value) + (item.after + tail));
    t := pair.near + ([0x3A] + u);
    s := WrittenPair(pair) + tail;
    Accept.Joined(pair, tail);
    Accept.ColonRead(pair.near, u);
    Accept.KeyRead(pair.key, t, room);
    Theorems.KeySkipped(s, room);
  }

  lemma {:induction false} SkipPairsFail(pairs: Pairs, tail: bytes, most: nat, room: nat, limit: nat)
    requires GoodPairs(pairs, most, room) && !GoodPairs(pairs, limit, room) && limit <= most && !pairs.NoPair?
    ensures Json.SkipMembers(WrittenPairs(pairs) + ([0x7D] + tail), limit) == Err(TooDeep)
    decreases pairs, 0
  {
    hide Json.SkipKey, Json.Colon, Json.SkipVariant, Json.MemberSeparator, WrittenPair, Written, Good, GoodText;
    var pair, end := pairs.pair, [0x7D] + tail;
    var item := pair.item;
    assert GoodPair(pair, most, room) && GoodItem(item, most, room);
    var rest := if pairs.OnePair? then end else [0x2C] + (BeforePairs(pairs.rest) + (WrittenPairs(pairs.rest) + end));
    assert WrittenPairs(pairs) + end == WrittenPair(pair) + rest;
    var s, t, u := KeySkipped(pair, rest, most, room);
    if !Good(item.value, limit, room) {
      SkipItemFails(item.before, item, item.after + rest, most, room, limit);
    } else {
      assert GoodPair(pair, limit, room);
      var more := WrittenPairs(pairs.rest) + end;
      NumberIsOver(item.after, 0x2C, BeforePairs(pairs.rest) + more);
      ItemSkipped(item.before, item, item.after + rest, limit, room);
      Accept.PairsStart(pairs.rest, end, most, room);
      Accept.CommaRead(item.after, BeforePairs(pairs.rest), more);
      SkipPairsFail(pairs.rest, tail, most, room, limit);
    }
  }

  /** A text that is stepped over keeps to the limit too. */
  lemma {:induction false} SkippedText(before: bytes, t: Tree, tail: bytes, found: bool, most: nat, room: nat,
                                       limit: nat)
    requires AllSpaces(before) && Good(t, most, room) && limit <= most && !Ascii.CanBeInNumber(Numbers.Head(tail))
    ensures Json.SkipVariant(before + (Written(t) + tail), found, limit)
            == if Good(t, limit, room) then Ok((), tail) else Err(TooDeep)
  {
    hide Json.SkipSpaces, Json.SkipValue, Json.ParseValue;
    Accept.ValueStarts(t, most, room);
    var s := Written(t) + tail;
    assert s[..1] == [s[0]];
    Accept.SpacesRead(before, s, found);
    if Good(t, limit, room) {
      Accept.ValueRead(t, tail, limit, room);
      Theorems.SkipFollowsParse(before + s, found, All, limit, room);
    } else {
      SkipFails(t, tail, most, room, limit);
    }
  }
}
