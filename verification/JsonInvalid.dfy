/** An input reported as invalid stays invalid whatever follows; and an input is
    reported as empty when there is nothing in it but spaces. */
module JsonInvalid {
  import opened Bytes
  import opened Document
  import opened JsonTexts
  import Ascii
  import Numbers
  import Filters
  import Json
  import Accept = JsonAcceptance
  import Sound = JsonSoundness
  import opened JsonExtension
  import opened JsonIncomplete

  /** More that does not go on with the number, if the input ends in one. */
  predicate Loose(s: bytes, more: bytes) {
    s == [] || !IsNumeralChar(s[|s| - 1]) || more == [] || !IsNumeralChar(more[0])
  }

  lemma LooseBehind(s: bytes, rest: bytes, more: bytes)
    requires Loose(s, more) && |rest| <= |s| && rest == s[|s| - |rest|..]
    ensures rest != [] ==> Loose(rest, more)
  {
  }

  lemma {:induction false} WordStays(s: bytes, word: bytes, more: bytes)
    requires Json.Keyword(s, word) == Err(InvalidInput)
    ensures Json.Keyword(s + more, word) == Err(InvalidInput)
    decreases |s|
  {
    assert (s + more)[0] == s[0] && (s + more)[1..] == s[1..] + more;
    if s[0] == word[0] { WordStays(s[1..], word[1..], more); }
  }

  lemma {:induction false} HexStays(s: bytes, count: nat, value: nat, more: bytes)
    requires Json.ParseHex(s, count, value) == Err(InvalidInput)
    ensures Json.ParseHex(s + more, count, value) == Err(InvalidInput)
    decreases count
  {
    assert (s + more)[0] == s[0] && (s + more)[1..] == s[1..] + more;
    if Ascii.DecodeHex(s[0]) <= 0x0F {
      HexStays(s[1..], count - 1, (value * 0x10 + Ascii.DecodeHex(s[0])) % 0x1_0000, more);
    }
  }

  lemma EscapeStays(s: bytes, high: Half, more: bytes)
    requires Json.Escape(s, high) == Err(InvalidInput)
    ensures Json.Escape(s + more, high) == Err(InvalidInput)
  {
    assert (s + more)[0] == s[0] && (s + more)[1..] == s[1..] + more;
    if s[0] == 0x75 { HexStays(s[1..], 4, 0, more); }
  }

  lemma {:induction false} TextStays(s: bytes, quote: byte, high: Half, text: bytes, more: bytes)
    requires (quote == 0x22 || quote == 0x27) && Json.StringText(s, quote, high, text) == Err(InvalidInput)
    ensures Json.StringText(s + more, quote, high, text) == Err(InvalidInput)
    decreases |s|
  {
    hide Json.Escape;
    if s[0] != 0x5C {
      assert s + more == [s[0]] + (s[1..] + more);
      RawStep(s[0], s[1..] + more, quote, high, text);
      TextStays(s[1..], quote, high, text + [s[0]], more);
    } else {
      var e := Json.Escape(s[1..], high);
      assert s == [0x5C] + s[1..] && s + more == [0x5C] + (s[1..] + more);
      EscapeStep(s[1..], quote, high, text);
      EscapeStep(s[1..] + more, quote, high, text);
      if e.Err? {
        EscapeStays(s[1..], high, more);
      } else {
        EscapeExtends(s[1..], high, more);
        TextStays(e.rest, quote, e.value.1, text + e.value.0, more);
      }
    }
  }

  lemma QuotedStays(s: bytes, room: nat, more: bytes)
    requires s != [] && (s[0] == 0x22 || s[0] == 0x27) && Json.ParseQuoted(s, room) == Err(InvalidInput)
    ensures Json.ParseQuoted(s + more, room) == Err(InvalidInput)
  {
    hide Json.StringText;
    assert (s + more)[0] == s[0] && (s + more)[1..] == s[1..] + more;
    TextStays(s[1..], s[0], 0, [], more);
  }

  lemma KeyStays(s: bytes, room: nat, more: bytes)
    requires s != [] && Json.ParseKey(s, room) == Err(InvalidInput)
    ensures Json.ParseKey(s + more, room) == Err(InvalidInput)
  {
    hide Json.ParseQuoted, Json.NonQuotedText;
    assert (s + more)[0] == s[0];
    if s[0] == 0x22 || s[0] == 0x27 { QuotedStays(s, room, more); }
  }

  lemma ColonStays(s: bytes, more: bytes)
    requires 0 !in s && Json.Colon(s) == Err(InvalidInput)
    ensures Json.Colon(s + more) == Err(InvalidInput)
  {
    hide Json.SkipSpaces;
    FirstIsSolid(s, more);
  }

  lemma SeparatorStays(s: bytes, close: byte, more: bytes)
    requires 0 !in s && Json.Separator(s, close) == Err(InvalidInput)
    ensures Json.Separator(s + more, close) == Err(InvalidInput)
  {
    hide Json.SkipSpaces;
    FirstIsSolid(s, more);
  }

  /** Skipping spaces only fails at the end. */
  lemma {:induction false} SpacesNeverInvalid(s: bytes, found: bool)
    ensures Json.SkipSpaces(s, found) != Err(InvalidInput)
    ensures Json.SkipSpaces(s, found).Err? ==>
              Json.SkipSpaces(s, found).code == if found then IncompleteInput else EmptyInput
  {
    if s != [] { SpacesNeverInvalid(s[1..], found); }
  }

  lemma FirstIsSolid(s: bytes, more: bytes)
    ensures Json.SkipSpaces(s, true).Err? ==> Json.SkipSpaces(s, true).code == IncompleteInput
    ensures Json.SkipSpaces(s, true).Ok? ==>
              var t := Json.SkipSpaces(s, true).rest;
              t != [] && (t + more)[0] == t[0] && (t + more)[1..] == t[1..] + more
              && Json.SkipSpaces(s + more, true) == Ok((), t + more)
  {
    hide Json.SkipSpaces;
    SpacesNeverInvalid(s, true);
    if Json.SkipSpaces(s, true).Ok? {
      var ws := Sound.SpacesFound(s, true);
      var t := Json.SkipSpaces(s, true).rest;
      assert (t + more)[..1] == t[..1] && s + more == ws + (t + more);
      Accept.SpacesRead(ws, t + more, true);
    }
  }

  lemma MemberSeparatorStays(s: bytes, more: bytes)
    requires 0 !in s && Json.MemberSeparator(s) == Err(InvalidInput)
    ensures Json.MemberSeparator(s + more) == Err(InvalidInput)
  {
    hide Json.Separator, Json.SkipSpaces;
    var sep := Json.Separator(s, 0x7D);
    if sep.Err? {
      SeparatorStays(s, 0x7D, more);
    } else {
      SpacesNeverInvalid(sep.rest, true);
    }
  }

  lemma NumberStays(s: bytes, more: bytes)
    requires s != [] && Json.ParseNumeric(s) == Err(InvalidInput) && Loose(s, more)
    ensures Json.ParseNumeric(s + more) == Err(InvalidInput)
  {
    hide Numbers.ParseNumber, Json.NumberText;
    var text := Sound.NumeralFound(s, []);
    var rest := Json.NumberText(s, []).1;
    assert [] + text == text && s + more == text + (rest + more);
    if rest == [] { assert text == s && rest + more == more; } else { assert (rest + more)[0] == rest[0]; }
    Accept.NumeralRead(text, rest + more, []);
  }

  // Values.

  lemma {:induction false} VariantStays(s: bytes, found: bool, limit: nat, room: nat, more: bytes)
    requires 0 !in s && Loose(s, more) && Json.ParseVariant(s, found, All, limit, room) == Err(InvalidInput)
    ensures Json.ParseVariant(s + more, found, All, limit, room) == Err(InvalidInput)
    decreases |s|, 1
  {
    hide Json.SkipSpaces, Json.ParseValue;
    SpacesNeverInvalid(s, found);
    var ws := Sound.SpacesFound(s, found);
    var t := Json.SkipSpaces(s, found).rest;
    assert forall c <- t :: c in ws + t;
    assert t == s[|s| - |t|..];
    ValueStays(t, limit, room, more);
    assert (t + more)[..1] == t[..1] && s + more == ws + (t + more);
    Accept.SpacesRead(ws, t + more, found);
  }

  lemma {:induction false} ValueStays(s: bytes, limit: nat, room: nat, more: bytes)
    requires 0 !in s && s != [] && Loose(s, more) && Json.ParseValue(s, All, limit, room) == Err(InvalidInput)
    ensures Json.ParseValue(s + more, All, limit, room) == Err(InvalidInput)
    decreases |s|, 0
  {
    hide Json.ParseArray, Json.ParseObject, Json.ParseQuoted, Json.Keyword, Json.ParseNumeric;
    assert (s + more)[0] == s[0];
    if s[0] == 0x5B {
      ArrayStays(s, limit, room, more);
    } else if s[0] == 0x7B {
      ObjectStays(s, limit, room, more);
    } else if s[0] == 0x22 || s[0] == 0x27 {
      QuotedStays(s, room, more);
    } else if s[0] == 0x74 {
      WordStays(s, Ascii.TRUE, more);
    } else if s[0] == 0x66 {
      WordStays(s, Ascii.FALSE, more);
    } else if s[0] == 0x6E {
      WordStays(s, Ascii.NULL, more);
    } else {
      NumberStays(s, more);
    }
  }

  lemma {:induction false} ArrayStays(s: bytes, limit: nat, room: nat, more: bytes)
    requires 0 !in s && s != [] && s[0] == 0x5B && Loose(s, more)
    requires Json.ParseArray(s, All, limit, room) == Err(InvalidInput)
    ensures Json.ParseArray(s + more, All, limit, room) == Err(InvalidInput)
    decreases |s|, 0, 0
  {
    hide Json.SkipSpaces, Json.ParseElems;
    var inner := s[1..];
    assert (s + more)[1..] == inner + more && (s + more)[0] == s[0];
    FirstIsSolid(inner, more);
    var ws := Sound.SpacesFound(inner, true);
    var t := Json.SkipSpaces(inner, true).rest;
    assert forall c <- t :: c in ws + t;
    assert t == s[|s| - |t|..];
    ElemsStay(t, limit - 1, room, more);
  }

  lemma {:induction false} ElemsStay(s: bytes, limit: nat, room: nat, more: bytes)
    requires 0 !in s && Loose(s, more) && Json.ParseElems(s, All, limit, room) == Err(InvalidInput)
    ensures Json.ParseElems(s + more, All, limit, room) == Err(InvalidInput)
    decreases |s|, 3
  {
    hide Json.ParseVariant, Json.Separator;
    var first := Json.ParseElem(s, All, limit, room);
    if first.Err? {
      VariantStays(s, true, limit, room, more);
    } else {
      ElemIsSuffix(s, limit, room);
      var sep := Json.Separator(first.rest, 0x5D);
      assert first.rest != [] by { SeparatorNeeds(first.rest, 0x5D); }
      ElemExtends(s, limit, room, room, more);
      if sep.Err? {
        SeparatorStays(first.rest, 0x5D, more);
      } else {
        SeparatorIsSuffix(first.rest, 0x5D);
        SeparatorExtends(first.rest, 0x5D, more);
        ElemsRest(s, limit, room, more);
        ElemsStay(sep.rest, limit, room, more);
      }
    }
  }

  lemma SeparatorNeeds(s: bytes, close: byte)
    requires Json.Separator(s, close).Ok? || Json.Separator(s, close) == Err(InvalidInput)
    ensures s != []
  {
  }

  /** What is left behind a comma ends as the input does. */
  lemma ElemsRest(s: bytes, limit: nat, room: nat, more: bytes)
    requires Json.ParseElem(s, All, limit, room).Ok? && Loose(s, more)
    requires Json.Separator(Json.ParseElem(s, All, limit, room).rest, 0x5D).Ok?
    ensures Loose(Json.Separator(Json.ParseElem(s, All, limit, room).rest, 0x5D).rest, more)
  {
    hide Json.ParseElem, Json.Separator;
    var before, t := Sound.ElemFound(s, limit, room);
    var u := Json.ParseElem(s, All, limit, room).rest;
    var ws := Sound.SeparatorFound(u, 0x5D);
    var w := Json.Separator(u, 0x5D).rest;
    var c: byte := if Json.Separator(u, 0x5D).value then 0x5D else 0x2C;
    assert s == (before + Written(t)) + u && u == (ws + [c]) + w;
    SameEnd(s, before + Written(t), u);
    SameEnd(u, ws + [c], w);
  }

  lemma {:induction false} ObjectStays(s: bytes, limit: nat, room: nat, more: bytes)
    requires 0 !in s && s != [] && s[0] == 0x7B && Loose(s, more)
    requires Json.ParseObject(s, All, limit, room) == Err(InvalidInput)
    ensures Json.ParseObject(s + more, All, limit, room) == Err(InvalidInput)
    decreases |s|, 0, 0
  {
    hide Json.SkipSpaces, Json.ParseMembers;
    var inner := s[1..];
    assert (s + more)[1..] == inner + more && (s + more)[0] == s[0];
    FirstIsSolid(inner, more);
    var ws := Sound.SpacesFound(inner, true);
    var t := Json.SkipSpaces(inner, true).rest;
    assert forall c <- t :: c in ws + t;
    assert t == s[|s| - |t|..];
    MembersStay(t, limit - 1, room, more);
  }

  lemma {:induction false} BareEnds(s: bytes, before: bytes)
    ensures var rest := Json.NonQuotedText(s, before).1; rest != [] ==> !Accept.IsBare(rest[..1])
    decreases |s|
  {
    if Ascii.CanBeInNonQuotedString(Numbers.Head(s)) {
      BareEnds(s[1..], before + [s[0]]);
    } else if s != [] {
      assert s[..1][0] == s[0];
    }
  }

  lemma KeyExtends(s: bytes, room: nat, more: bytes)
    requires Json.ParseKey(s, room).Ok? && Json.ParseKey(s, room).rest != []
    ensures var r := Json.ParseKey(s, room); Json.ParseKey(s + more, room) == Ok(r.value, r.rest + more)
  {
    hide Json.ParseQuoted, Json.NonQuotedText, WrittenText, TextSaid;
    var rest := Json.ParseKey(s, room).rest;
    assert (s + more)[0] == s[0];
    if s[0] == 0x22 || s[0] == 0x27 {
      var t := Sound.QuotedFound(s, room);
      assert s + more == WrittenText(t) + (rest + more);
      Accept.QuotedRead(t, rest + more, room);
    } else {
      var letters := Sound.BareFound(s, []);
      BareEnds(s, []);
      assert (rest + more)[..1] == rest[..1];
      assert s + more == letters + (rest + more) && [] + letters == letters;
      Accept.BareRead(letters, rest + more, []);
    }
  }

  lemma KeyColonStays(s: bytes, room: nat, more: bytes)
    requires 0 !in s && s != [] && Json.ParseKeyColon(s, room) == Err(InvalidInput)
    ensures Json.ParseKeyColon(s + more, room) == Err(InvalidInput)
  {
    hide Json.ParseKey, Json.Colon, WrittenText, TextSaid;
    var key := Json.ParseKey(s, room);
    if key.Err? {
      KeyStays(s, room, more);
    } else {
      var k := Sound.KeyFound(s, room);
      assert forall c <- key.rest :: c in WrittenText(k) + key.rest;
      ColonNeeds(key.rest);
      ColonStays(key.rest, more);
      KeyExtends(s, room, more);
    }
  }

  lemma ColonNeeds(s: bytes)
    requires Json.Colon(s) == Err(InvalidInput)
    ensures s != []
  {
  }

  lemma MemberStays(s: bytes, limit: nat, room: nat, more: bytes)
    requires 0 !in s && s != [] && Loose(s, more) && Json.ParseMember(s, All, limit, room) == Err(InvalidInput)
    ensures Json.ParseMember(s + more, All, limit, room) == Err(InvalidInput)
    decreases |s|, 2
  {
    hide Json.ParseKeyColon, Json.ParseVariant;
    var key := Json.ParseKeyColon(s, room);
    if key.Err? {
      KeyColonStays(s, room, more);
    } else {
      KeyIsSuffix(s, room);
      KeyColonExtends(s, room, room, more);
      KeyLeaves(s, room, more);
      VariantStays(key.rest, true, limit, room, more);
    }
  }

  lemma KeyLeaves(s: bytes, room: nat, more: bytes)
    requires Json.ParseKeyColon(s, room).Ok? && Loose(s, more)
    ensures Loose(Json.ParseKeyColon(s, room).rest, more)
  {
    hide Json.ParseKey, Json.Colon, WrittenText, TextSaid;
    var k := Sound.KeyFound(s, room);
    var t := Json.ParseKey(s, room).rest;
    var near := Sound.ColonFound(t);
    var w := Json.Colon(t).rest;
    assert t == (near + [0x3A]) + w;
    SameEnd(s, WrittenText(k), t);
    SameEnd(t, near + [0x3A], w);
  }

  lemma SameEnd(s: bytes, before: bytes, rest: bytes)
    requires s == before + rest
    ensures rest != [] ==> rest[|rest| - 1] == s[|s| - 1]
  {
  }

  lemma NextSameEnd(u: bytes)
    requires Json.MemberSeparator(u).Ok?
    ensures var w := Json.MemberSeparator(u).rest; w != [] ==> u != [] && w[|w| - 1] == u[|u| - 1]
  {
    hide Json.MemberSeparator;
    var r := Json.MemberSeparator(u);
    var ws, next := Sound.CommaFound(u);
    if r.value {
      assert u == (ws + [0x7D]) + r.rest;
      SameEnd(u, ws + [0x7D], r.rest);
    } else {
      assert u == (ws + [0x2C] + next) + r.rest;
      SameEnd(u, ws + [0x2C] + next, r.rest);
    }
  }

  lemma MembersRest(s: bytes, limit: nat, room: nat, more: bytes)
    requires Json.ParseMember(s, All, limit, room).Ok? && Loose(s, more)
    requires Json.MemberSeparator(Json.ParseMember(s, All, limit, room).rest).Ok?
    ensures Loose(Json.MemberSeparator(Json.ParseMember(s, All, limit, room).rest).rest, more)
  {
    hide Json.ParseMember, Json.MemberSeparator, WrittenPair, MemberOf, GoodPair;
    var pair := Sound.PairFound([], s, limit, room);
    var u := Json.ParseMember(s, All, limit, room).rest;
    NextSameEnd(u);
    SameEnd(s, WrittenPair(pair), u);
  }

  lemma MemberSeparatorNeeds(s: bytes)
    requires Json.MemberSeparator(s).Ok? || Json.MemberSeparator(s) == Err(InvalidInput)
    ensures s != []
  {
  }

  lemma {:induction false} MembersStay(s: bytes, limit: nat, room: nat, more: bytes)
    requires 0 !in s && s != [] && Loose(s, more) && Json.ParseMembers(s, All, limit, room) == Err(InvalidInput)
    ensures Json.ParseMembers(s + more, All, limit, room) == Err(InvalidInput)
    decreases |s|, 3
  {
    hide Json.ParseMember, Json.MemberSeparator;
    var first := Json.ParseMember(s, All, limit, room);
    if first.Err? {
      MemberStays(s, limit, room, more);
    } else {
      MemberIsSuffix(s, limit, room);
      MemberSeparatorNeeds(first.rest);
      MemberExtends(s, limit, room, room, more);
      var sep := Json.MemberSeparator(first.rest);
      if sep.Err? {
        MemberSeparatorStays(first.rest, more);
      } else {
        NextIsSuffix(first.rest);
        MemberSeparatorExtends(first.rest, more);
        MembersRest(s, limit, room, more);
        MembersStay(sep.rest, limit, room, more);
      }
    }
  }

  // The whole input.

  lemma NumberEnds(s: bytes, limit: nat, room: nat, more: bytes)
    requires var r := Json.ParseVariant(s, false, All, limit, room);
             r.Ok? && Json.IsNumber(r.value) && Numbers.Head(r.rest) != 0
    ensures Json.Parse(s + more, All, limit, room) == Err(InvalidInput)
  {
    hide Json.ParseVariant;
    VariantExtends(s, false, limit, room, room, more);
  }

  /** What was reported as invalid stays so, whatever comes behind it. */
  lemma InvalidStays(s: bytes, limit: nat, room: nat, more: bytes)
    requires 0 !in s && Loose(s, more) && Json.Parse(s, All, limit, room) == Err(InvalidInput)
    ensures Json.Parse(s + more, All, limit, room) == Err(InvalidInput)
  {
    hide Json.ParseVariant;
    if Json.ParseVariant(s, false, All, limit, room).Ok? {
      NumberEnds(s, limit, room, more);
    } else {
      VariantStays(s, false, limit, room, more);
    }
  }

  // Which inputs are empty.

  lemma {:induction false} SpacesAreEmpty(s: bytes)
    requires AllSpaces(s)
    ensures Json.SkipSpaces(s, false) == Err(EmptyInput)
  {
    if s != [] {
      assert forall i | 0 <= i < |s[1..]| :: s[1..][i] == s[i + 1];
      SpacesAreEmpty(s[1..]);
    }
  }

  lemma {:induction false} HexNotEmpty(s: bytes, count: nat, value: nat)
    ensures Json.ParseHex(s, count, value) != Err(EmptyInput)
    decreases count
  {
    if count > 0 && s != [] {
      HexNotEmpty(s[1..], count - 1, (value * 0x10 + Ascii.DecodeHex(s[0])) % 0x1_0000);
    }
  }

  lemma {:induction false} TextNotEmpty(s: bytes, quote: byte, high: Half, text: bytes)
    ensures Json.StringText(s, quote, high, text) != Err(EmptyInput)
    decreases |s|
  {
    if s != [] && s[0] != quote {
      if s[0] != 0x5C {
        TextNotEmpty(s[1..], quote, high, text + [s[0]]);
      } else {
        var e := Json.Escape(s[1..], high);
        if |s| > 1 { HexNotEmpty(s[1..][1..], 4, 0); }
        if e.Ok? { TextNotEmpty(e.rest, quote, e.value.1, text + e.value.0); }
      }
    }
  }

  lemma {:induction false} WordNotEmpty(s: bytes, word: bytes)
    ensures Json.Keyword(s, word) != Err(EmptyInput)
    decreases |s|
  {
    if s != [] && word != [] { WordNotEmpty(s[1..], word[1..]); }
  }

  lemma PartsNotEmpty(s: bytes, close: byte, room: nat)
    ensures Json.Separator(s, close) != Err(EmptyInput) && Json.MemberSeparator(s) != Err(EmptyInput)
    ensures Json.ParseKeyColon(s, room) != Err(EmptyInput) && Json.ParseQuoted(s, room) != Err(EmptyInput)
  {
    hide Json.SkipSpaces, Json.StringText, Json.NonQuotedText;
    SpacesNeverInvalid(s, true);
    var sep := Json.Separator(s, 0x7D);
    if sep.Ok? { SpacesNeverInvalid(sep.rest, true); }
    TextNotEmpty(Numbers.Tail(s), Numbers.Head(s), 0, []);
    var key := Json.ParseKey(s, room);
    if key.Ok? { SpacesNeverInvalid(key.rest, true); }
  }

  lemma {:induction false} VariantNotEmpty(s: bytes, found: bool, limit: nat, room: nat)
    requires found || Json.SkipSpaces(s, found).Ok?
    ensures Json.ParseVariant(s, found, All, limit, room) != Err(EmptyInput)
    decreases |s|, 1
  {
    hide Json.SkipSpaces, Json.ParseValue;
    SpacesNeverInvalid(s, found);
    if Json.SkipSpaces(s, found).Ok? { ValueNotEmpty(Json.SkipSpaces(s, found).rest, limit, room); }
  }

  lemma {:induction false} ValueNotEmpty(s: bytes, limit: nat, room: nat)
    ensures Json.ParseValue(s, All, limit, room) != Err(EmptyInput)
    decreases |s|, 0
  {
    hide Json.Keyword, Json.ParseQuoted, Json.SkipSpaces, Json.ParseElems, Json.ParseMembers, Json.NumberText;
    hide Numbers.ParseNumber;
    WordNotEmpty(s, Ascii.TRUE);
    WordNotEmpty(s, Ascii.FALSE);
    WordNotEmpty(s, Ascii.NULL);
    PartsNotEmpty(s, 0, room);
    if s != [] && (s[0] == 0x5B || s[0] == 0x7B) && limit > 0 {
      SpacesNeverInvalid(s[1..], true);
      var r := Json.SkipSpaces(s[1..], true);
      if r.Ok? {
        ElemsNotEmpty(r.rest, limit - 1, room);
        MembersNotEmpty(r.rest, limit - 1, room);
      }
    }
  }

  lemma {:induction false} ElemsNotEmpty(s: bytes, limit: nat, room: nat)
    ensures Json.ParseElems(s, All, limit, room) != Err(EmptyInput)
    decreases |s|, 3
  {
    hide Json.ParseVariant, Json.Separator;
    VariantNotEmpty(s, true, limit, room);
    var first := Json.ParseElem(s, All, limit, room);
    if first.Ok? {
      PartsNotEmpty(first.rest, 0x5D, room);
      var sep := Json.Separator(first.rest, 0x5D);
      if sep.Ok? { ElemsNotEmpty(sep.rest, limit, room); }
    }
  }

  lemma MemberNotEmpty(s: bytes, limit: nat, room: nat)
    requires var key := Json.ParseKeyColon(s, room);
             key != Err(EmptyInput) && (key.Ok? ==> Json.ParseElem(key.rest, All, limit, room) != Err(EmptyInput))
    ensures Json.ParseMember(s, All, limit, room) != Err(EmptyInput)
  {
    hide Json.ParseKeyColon, Json.ParseElem;
  }

  lemma {:induction false} MembersNotEmpty(s: bytes, limit: nat, room: nat)
    ensures Json.ParseMembers(s, All, limit, room) != Err(EmptyInput)
    decreases |s|, 3
  {
    hide Json.ParseVariant, Json.ParseKeyColon, Json.MemberSeparator;
    PartsNotEmpty(s, 0x7D, room);
    var key := Json.ParseKeyColon(s, room);
    if key.Ok? {
      VariantNotEmpty(key.rest, true, limit, room);
      assert Json.ParseElem(key.rest, All, limit, room) != Err(EmptyInput);
    }
    MemberNotEmpty(s, limit, room);
    hide Json.ParseMember;
    var first := Json.ParseMember(s, All, limit, room);
    if first.Ok? {
      PartsNotEmpty(first.rest, 0x7D, room);
      var sep := Json.MemberSeparator(first.rest);
      if sep.Ok? { MembersNotEmpty(sep.rest, limit, room); }
    }
  }

  /** An input is empty if there are only spaces in it; it is incomplete only if it
      could go on and be taken; and it is invalid only if it stays so. */
  lemma {:induction false} ErrorsSay(s: bytes, limit: nat, room: nat) returns (t: bytes)
    requires 0 !in s
    ensures Json.Parse(s, All, limit, room) == Err(EmptyInput) <==> AllSpaces(s)
    ensures Json.Parse(s, All, limit, room) in {Err(EmptyInput), Err(IncompleteInput)} ==>
              Json.Parse(s + t, All, limit, room + |s| + |t|).Ok?
    ensures Json.Parse(s, All, limit, room) == Err(InvalidInput) ==>
              forall more | Loose(s, more) :: Json.Parse(s + more, All, limit, room) == Err(InvalidInput)
  {
    hide Json.ParseVariant, Json.SkipSpaces, AllSpaces, Loose;
    if AllSpaces(s) { SpacesSkipped(s, limit, room); }
    if Json.SkipSpaces(s, false).Ok? {
      VariantNotEmpty(s, false, limit, room);
    } else {
      OnlySpaces(s, false);
    }
    var r := Json.Parse(s, All, limit, room);
    t := [];
    if r == Err(EmptyInput) || r == Err(IncompleteInput) {
      t := IncompleteGoesOn(s, limit, room);
    } else if r == Err(InvalidInput) {
      forall more | Loose(s, more) ensures Json.Parse(s + more, All, limit, room) == Err(InvalidInput) {
        InvalidStays(s, limit, room, more);
      }
    }
  }

  lemma SpacesSkipped(s: bytes, limit: nat, room: nat)
    requires AllSpaces(s)
    ensures Json.SkipSpaces(s, false).Err? && Json.Parse(s, All, limit, room) == Err(EmptyInput)
  {
    SpacesAreEmpty(s);
  }
}
