/** What has been taken is taken again with more behind it, and with more room for
    strings. */
module JsonExtension {
  import opened Bytes
  import opened Document
  import opened JsonTexts
  import Ascii
  import Numbers
  import Filters
  import Json
  import Accept = JsonAcceptance
  import Sound = JsonSoundness

  const All := Filters.AllowAll

  lemma {:induction false} GoodWithMore(t: Tree, limit: nat, room: nat, more: nat)
    requires Good(t, limit, room) && room <= more
    ensures Good(t, limit, more)
    decreases t
  {
    match t {
      case Array(items) => ItemsWithMore(items, limit - 1, room, more);
      case Object(pairs) => PairsWithMore(pairs, limit - 1, room, more);
      case _ =>
    }
  }

  lemma {:induction false} ItemsWithMore(items: Items, limit: nat, room: nat, more: nat)
    requires GoodItems(items, limit, room) && room <= more
    ensures GoodItems(items, limit, more)
    decreases items
  {
    if !items.NoItem? {
      GoodWithMore(items.item.value, limit, room, more);
      if items.MoreItems? { ItemsWithMore(items.rest, limit, room, more); }
    }
  }

  lemma {:induction false} PairsWithMore(pairs: Pairs, limit: nat, room: nat, more: nat)
    requires GoodPairs(pairs, limit, room) && room <= more
    ensures GoodPairs(pairs, limit, more)
    decreases pairs
  {
    if !pairs.NoPair? {
      var item := pairs.pair.item;
      assert GoodPair(pairs.pair, limit, room) && GoodItem(item, limit, room);
      GoodWithMore(item.value, limit, room, more);
      if pairs.MorePairs? { PairsWithMore(pairs.rest, limit, room, more); }
    }
  }

  /** More that does not go on with a number that ends the input. */
  predicate Apart(rest: bytes, more: bytes) {
    rest != [] || more == [] || !IsNumeralChar(more[0])
  }

  lemma MoreMayFollow(t: Tree, rest: bytes, more: bytes)
    requires Accept.MayFollow(t, rest) && Apart(rest, more)
    ensures Accept.MayFollow(t, rest + more)
  {
    if rest != [] { assert (rest + more)[0] == rest[0]; } else { assert rest + more == more; }
  }

  lemma VariantExtends(s: bytes, found: bool, limit: nat, room: nat, wide: nat, more: bytes)
    requires Json.ParseVariant(s, found, All, limit, room).Ok? && room <= wide
    requires Apart(Json.ParseVariant(s, found, All, limit, room).rest, more)
    ensures var r := Json.ParseVariant(s, found, All, limit, room);
            Json.ParseVariant(s + more, found, All, limit, wide) == Ok(r.value, r.rest + more)
  {
    hide Json.ParseValue, Json.SkipSpaces, Good, Meaning, Written;
    var r := Json.ParseVariant(s, found, All, limit, room);
    var before, t := Sound.VariantFound(s, found, limit, room);
    GoodWithMore(t, limit, room, wide);
    MoreMayFollow(t, r.rest, more);
    var u := Written(t) + (r.rest + more);
    assert s + more == before + u;
    Accept.ValueStarts(t, limit, wide);
    assert u[..1] == [u[0]];
    Accept.SpacesRead(before, u, found);
    Accept.ValueRead(t, r.rest + more, limit, wide);
  }

  lemma ElemExtends(s: bytes, limit: nat, room: nat, wide: nat, more: bytes)
    requires Json.ParseElem(s, All, limit, room).Ok? && room <= wide
    requires Apart(Json.ParseElem(s, All, limit, room).rest, more)
    ensures var r := Json.ParseElem(s, All, limit, room);
            Json.ParseElem(s + more, All, limit, wide) == Ok(r.value, r.rest + more)
  {
    hide Json.ParseVariant;
    VariantExtends(s, true, limit, room, wide, more);
  }

  lemma SeparatorExtends(s: bytes, close: byte, more: bytes)
    requires Json.Separator(s, close).Ok? && close in {0x5D, 0x7D}
    ensures var r := Json.Separator(s, close); Json.Separator(s + more, close) == Ok(r.value, r.rest + more)
  {
    hide Json.Separator;
    var ws := Sound.SeparatorFound(s, close);
    var r := Json.Separator(s, close);
    var c := if r.value then close else 0x2C;
    assert s + more == ws + ([c] + (r.rest + more));
    Accept.SeparatorRead(ws, r.rest + more, close);
  }

  lemma MemberSeparatorExtends(s: bytes, more: bytes)
    requires Json.MemberSeparator(s).Ok?
    ensures var r := Json.MemberSeparator(s); Json.MemberSeparator(s + more) == Ok(r.value, r.rest + more)
  {
    hide Json.MemberSeparator;
    var r := Json.MemberSeparator(s);
    var ws, next := Sound.CommaFound(s);
    if r.value {
      assert s + more == ws + ([0x7D] + (r.rest + more));
      Accept.LastRead(ws, r.rest + more);
    } else {
      assert s + more == ws + ([0x2C] + (next + (r.rest + more)));
      assert (r.rest + more)[..1] == r.rest[..1];
      Accept.CommaRead(ws, next, r.rest + more);
    }
  }

  lemma KeyColonExtends(s: bytes, room: nat, wide: nat, more: bytes)
    requires Json.ParseKeyColon(s, room).Ok? && room <= wide
    ensures var r := Json.ParseKeyColon(s, room); Json.ParseKeyColon(s + more, wide) == Ok(r.value, r.rest + more)
  {
    hide Json.ParseKey, Json.Colon, WrittenText, TextSaid;
    var key := Sound.KeyFound(s, room);
    var t := Json.ParseKey(s, room).rest;
    var near := Sound.ColonFound(t);
    var rest := Json.Colon(t).rest + more;
    assert t + more == near + ([0x3A] + rest);
    Accept.ColonRead(near, rest);
    assert s + more == WrittenText(key) + (near + ([0x3A] + rest));
    Accept.KeyRead(key, near + ([0x3A] + rest), wide);
  }

  lemma MemberExtends(s: bytes, limit: nat, room: nat, wide: nat, more: bytes)
    requires Json.ParseMember(s, All, limit, room).Ok? && room <= wide
    requires Apart(Json.ParseMember(s, All, limit, room).rest, more)
    ensures var r := Json.ParseMember(s, All, limit, room);
            Json.ParseMember(s + more, All, limit, wide) == Ok(r.value, r.rest + more)
  {
    hide Json.ParseMember, WrittenPair, MemberOf, Good;
    var r := Json.ParseMember(s, All, limit, room);
    var pair := Sound.PairFound([], s, limit, room);
    PairsWithMore(OnePair(pair), limit, room, wide);
    assert GoodPair(pair, limit, wide) by { assert GoodPairs(OnePair(pair), limit, wide); }
    MoreMayFollow(pair.item.value, r.rest, more);
    assert [] + (r.rest + more) == r.rest + more;
    assert s + more == WrittenPair(pair) + (r.rest + more);
    Accept.PairRead(pair, r.rest + more, limit, wide);
  }
}
