/** An input that ends too early could go on, and then be taken. */
module JsonIncomplete {
  import opened Bytes
  import opened Document
  import opened JsonTexts
  import Ascii
  import Numbers
  import Filters
  import Json
  import Accept = JsonAcceptance
  import Sound = JsonSoundness
  import opened JsonExtension

  const NULL: bytes := [0x6E, 0x75, 0x6C, 0x6C]

  // The parts.

  lemma {:induction false} OnlySpaces(s: bytes, found: bool)
    requires 0 !in s && Json.SkipSpaces(s, found).Err?
    ensures AllSpaces(s)
  {
    if s != [] {
      OnlySpaces(s[1..], found);
      assert forall i | 1 <= i < |s| :: s[i] == s[1..][i - 1];
    }
  }

  lemma {:induction false} WordGoesOn(s: bytes, word: bytes) returns (t: bytes)
    requires 0 !in s && Json.Keyword(s, word) == Err(IncompleteInput)
    ensures s + t == word
  {
    if s == [] {
      t := word;
    } else {
      t := WordGoesOn(s[1..], word[1..]);
      assert s == [s[0]] + s[1..] && word == [word[0]] + word[1..];
    }
  }

  lemma {:induction false} Zeros(count: nat, value: nat, tail: bytes)
    ensures var r := Json.ParseHex(seq(count, _ => 0x30) + tail, count, value); r.Ok? && r.rest == tail
    decreases count
  {
    var zeros: bytes := seq(count, _ => 0x30);
    if count == 0 {
      assert zeros + tail == tail;
    } else {
      assert (zeros + tail)[1..] == seq(count - 1, _ => 0x30) + tail;
      Zeros(count - 1, value * 0x10 % 0x1_0000, tail);
    }
  }

  lemma {:induction false} HexGoesOn(s: bytes, count: nat, value: nat, tail: bytes) returns (t: bytes)
    requires 0 !in s && Json.ParseHex(s, count, value) == Err(IncompleteInput)
    ensures var r := Json.ParseHex(s + t + tail, count, value); r.Ok? && r.rest == tail
    decreases count
  {
    if s == [] {
      t := seq(count, _ => 0x30);
      Zeros(count, value, tail);
      assert s + t == t;
    } else {
      t := HexGoesOn(s[1..], count - 1, (value * 0x10 + Ascii.DecodeHex(s[0])) % 0x1_0000, tail);
      assert (s + t + tail)[1..] == s[1..] + t + tail;
    }
  }

  lemma {:induction false} HexExtends(s: bytes, count: nat, value: nat, more: bytes)
    requires Json.ParseHex(s, count, value).Ok?
    ensures var r := Json.ParseHex(s, count, value); Json.ParseHex(s + more, count, value) == Ok(r.value, r.rest + more)
    decreases count
  {
    if count > 0 {
      assert (s + more)[1..] == s[1..] + more;
      HexExtends(s[1..], count - 1, (value * 0x10 + Ascii.DecodeHex(s[0])) % 0x1_0000, more);
    }
  }

  lemma EscapeExtends(s: bytes, high: Half, more: bytes)
    requires Json.Escape(s, high).Ok?
    ensures var r := Json.Escape(s, high); Json.Escape(s + more, high) == Ok(r.value, r.rest + more)
  {
    assert (s + more)[1..] == s[1..] + more && (s + more)[0] == s[0];
    if s[0] == 0x75 { HexExtends(s[1..], 4, 0, more); }
  }

  /** An escape that ends too early, and the quote behind it. */
  lemma EscapeGoesOn(s: bytes, high: Half, tail: bytes) returns (t: bytes)
    requires 0 !in s && Json.Escape(s, high) == Err(IncompleteInput)
    ensures var r := Json.Escape(s + t + tail, high); r.Ok? && r.rest == tail
  {
    if s == [] {
      t := [0x6E];
      assert (s + t + tail)[1..] == tail && (s + t + tail)[0] == 0x6E;
    } else {
      t := HexGoesOn(s[1..], 4, 0, tail);
      assert (s + t + tail)[1..] == s[1..] + t + tail && (s + t + tail)[0] == 0x75;
    }
  }

  lemma TextEnds(quote: byte, high: Half, text: bytes, tail: bytes)
    ensures Json.StringText([quote] + tail, quote, high, text) == Ok(text, tail)
  {
    assert ([quote] + tail)[1..] == tail;
  }

  lemma RawStep(c: byte, s: bytes, quote: byte, high: Half, text: bytes)
    requires c != quote && c != 0 && c != 0x5C
    ensures Json.StringText([c] + s, quote, high, text) == Json.StringText(s, quote, high, text + [c])
  {
    assert ([c] + s)[1..] == s;
  }

  lemma EscapeStep(s: bytes, quote: byte, high: Half, text: bytes)
    requires quote != 0x5C
    ensures var r := Json.Escape(s, high);
            Json.StringText([0x5C] + s, quote, high, text)
            == if r.Err? then Err(r.code) else Json.StringText(r.rest, quote, r.value.1, text + r.value.0)
  {
    assert ([0x5C] + s)[1..] == s;
  }

  lemma {:induction false} TextGoesOn(s: bytes, quote: byte, high: Half, text: bytes, tail: bytes) returns (t: bytes)
    requires 0 !in s && (quote == 0x22 || quote == 0x27)
    requires Json.StringText(s, quote, high, text) == Err(IncompleteInput)
    ensures var r := Json.StringText(s + t + tail, quote, high, text); r.Ok? && r.rest == tail
    decreases |s|
  {
    if s == [] {
      t := [quote];
      assert s + t + tail == [quote] + tail;
      TextEnds(quote, high, text, tail);
    } else if s[0] != 0x5C {
      t := TextGoesOn(s[1..], quote, high, text + [s[0]], tail);
      assert s + t + tail == [s[0]] + (s[1..] + t + tail);
      RawStep(s[0], s[1..] + t + tail, quote, high, text);
    } else {
      assert s == [0x5C] + s[1..];
      EscapeStep(s[1..], quote, high, text);
      t := EscapedGoesOn(s[1..], quote, high, text, tail);
      assert s + t + tail == [0x5C] + (s[1..] + t + tail);
    }
  }

  lemma {:induction false} EscapedGoesOn(s: bytes, quote: byte, high: Half, text: bytes, tail: bytes) returns (t: bytes)
    requires 0 !in s && (quote == 0x22 || quote == 0x27)
    requires Json.StringText([0x5C] + s, quote, high, text) == Err(IncompleteInput)
    ensures var r := Json.StringText([0x5C] + (s + t + tail), quote, high, text); r.Ok? && r.rest == tail
    decreases |s|
  {
    hide Json.StringText, Json.Escape;
    EscapeStep(s, quote, high, text);
    var e := Json.Escape(s, high);
    if e.Err? {
      var end := [quote] + tail;
      var d := EscapeGoesOn(s, high, end);
      t := d + [quote];
      assert s + t + tail == s + d + end;
      var f := Json.Escape(s + d + end, high);
      EscapeStep(s + d + end, quote, high, text);
      TextEnds(quote, f.value.1, text + f.value.0, tail);
    } else {
      EscapeIsSuffix(s, high);
      t := TextGoesOn(e.rest, quote, e.value.1, text + e.value.0, tail);
      EscapeExtends(s, high, t + tail);
      assert s + t + tail == s + (t + tail) && e.rest + (t + tail) == e.rest + t + tail;
      EscapeStep(s + (t + tail), quote, high, text);
    }
  }

  lemma {:induction false} HexIsSuffix(s: bytes, count: nat, value: nat)
    requires Json.ParseHex(s, count, value).Ok?
    ensures forall c <- Json.ParseHex(s, count, value).rest :: c in s
    decreases count
  {
    if count > 0 { HexIsSuffix(s[1..], count - 1, (value * 0x10 + Ascii.DecodeHex(s[0])) % 0x1_0000); }
  }

  lemma EscapeIsSuffix(s: bytes, high: Half)
    requires Json.Escape(s, high).Ok?
    ensures forall c <- Json.Escape(s, high).rest :: c in s
  {
    if s[0] == 0x75 { HexIsSuffix(s[1..], 4, 0); }
  }

  /** The text of a string is no longer than what it is written in. */
  lemma {:induction false} TextIsShort(s: bytes, quote: byte, high: Half, text: bytes)
    requires Json.StringText(s, quote, high, text).Ok?
    ensures |Json.StringText(s, quote, high, text).value| <= |text| + |s|
    decreases |s|
  {
    if Numbers.Head(s) != quote {
      if s[0] != 0x5C {
        TextIsShort(s[1..], quote, high, text + [s[0]]);
      } else {
        var e := Json.Escape(s[1..], high);
        EscapeIsShort(s[1..], high);
        TextIsShort(e.rest, quote, e.value.1, text + e.value.0);
      }
    }
  }

  lemma EscapeIsShort(s: bytes, high: Half)
    requires Json.Escape(s, high).Ok?
    ensures var r := Json.Escape(s, high); |r.value.0| + |r.rest| <= |s|
  {
    if s[0] == 0x75 { Sound.HexFound(s[1..]); }
  }

  lemma QuotedGoesOn(s: bytes, room: nat, tail: bytes) returns (t: bytes)
    requires 0 !in s && s != [] && (s[0] == 0x22 || s[0] == 0x27)
    requires Json.ParseQuoted(s, room) == Err(IncompleteInput)
    ensures forall wide: nat | wide >= |s| + |t| + |tail| ::
              Json.ParseQuoted(s + t + tail, wide).Ok? && Json.ParseQuoted(s + t + tail, wide).rest == tail
  {
    hide Json.StringText;
    t := TextGoesOn(s[1..], s[0], 0, [], tail);
    assert (s + t + tail)[1..] == s[1..] + t + tail && (s + t + tail)[0] == s[0];
    TextIsShort(s[1..] + t + tail, s[0], 0, []);
  }

  // Values. With enough room for strings the whole input is taken.

  ghost predicate ValueEnds(s: bytes, limit: nat, room: nat) {
    forall wide: nat | wide >= room ::
      var r := Json.ParseValue(s, All, limit, wide); r.Ok? && r.rest == []
  }

  ghost predicate VariantEnds(s: bytes, found: bool, limit: nat, room: nat) {
    forall wide: nat | wide >= room ::
      var r := Json.ParseVariant(s, found, All, limit, wide); r.Ok? && r.rest == []
  }

  ghost predicate ElemsEnd(s: bytes, limit: nat, room: nat) {
    forall wide: nat | wide >= room ::
      var r := Json.ParseElems(s, All, limit, wide); r.Ok? && r.rest == []
  }

  ghost predicate MembersEnd(s: bytes, limit: nat, room: nat) {
    forall wide: nat | wide >= room ::
      var r := Json.ParseMembers(s, All, limit, wide); r.Ok? && r.rest == []
  }

  ghost predicate KeyColonEnds(s: bytes, room: nat) {
    forall wide: nat | wide >= room ::
      var r := Json.ParseKeyColon(s, wide); r.Ok? && r.rest == []
  }

  function Room(s: bytes, t: bytes, room: nat): nat {
    room + |s| + |t|
  }

  lemma NullRead(before: bytes, tail: bytes, found: bool, limit: nat, room: nat)
    requires AllSpaces(before) && (tail == [] || !IsNumeralChar(tail[0]))
    ensures Json.ParseVariant(before + (NULL + tail), found, All, limit, room) == Ok(Null, tail)
  {
    hide Json.ParseValue, Json.SkipSpaces;
    var s := NULL + tail;
    assert s[..1] == [s[0]];
    Accept.SpacesRead(before, s, found);
    Accept.ValueRead(NullWord, tail, limit, room);
  }

  lemma {:induction false} VariantGoesOn(s: bytes, found: bool, limit: nat, room: nat) returns (t: bytes)
    requires 0 !in s
    requires Json.SkipSpaces(s, found).Err? || Json.ParseVariant(s, found, All, limit, room) == Err(IncompleteInput)
    ensures VariantEnds(s + t, found, limit, Room(s, t, room))
    decreases |s|, 1
  {
    hide Json.SkipSpaces, Json.ParseValue;
    var r := Json.SkipSpaces(s, found);
    if r.Err? {
      OnlySpaces(s, found);
      t := NULL;
      forall wide: nat ensures Json.ParseVariant(s + t, found, All, limit, wide) == Ok(Null, []) {
        NullRead(s, [], found, limit, wide);
        assert NULL + [] == NULL;
      }
    } else {
      var ws := Sound.SpacesFound(s, found);
      var u := r.rest;
      assert forall c <- u :: c in ws + u;
      t := ValueGoesOn(u, limit, room);
      assert (u + t)[..1] == u[..1];
      Accept.SpacesRead(ws, u + t, found);
      assert s + t == ws + (u + t);
      forall wide: nat | wide >= Room(s, t, room)
        ensures var r := Json.ParseVariant(s + t, found, All, limit, wide); r.Ok? && r.rest == []
      {
        assert wide >= Room(u, t, room);
      }
    }
  }

  lemma {:induction false} ValueGoesOn(s: bytes, limit: nat, room: nat) returns (t: bytes)
    requires 0 !in s && s != [] && Json.ParseValue(s, All, limit, room) == Err(IncompleteInput)
    ensures ValueEnds(s + t, limit, Room(s, t, room))
    decreases |s|, 0
  {
    hide Json.ParseArray, Json.ParseObject, Json.ParseQuoted, Json.Keyword;
    if s[0] == 0x5B {
      t := ArrayGoesOn(s, limit, room);
    } else if s[0] == 0x7B {
      t := ObjectGoesOn(s, limit, room);
    } else if s[0] == 0x22 || s[0] == 0x27 {
      t := QuotedGoesOn(s, room, []);
      assert s + t + [] == s + t;
    } else {
      var word := if s[0] == 0x74 then Ascii.TRUE else if s[0] == 0x66 then Ascii.FALSE else Ascii.NULL;
      t := WordGoesOn(s, word);
      Accept.WordRead(word, []);
      assert word + [] == word;
    }
    assert (s + t)[0] == s[0];
    forall wide: nat | wide >= Room(s, t, room)
      ensures var r := Json.ParseValue(s + t, All, limit, wide); r.Ok? && r.rest == []
    {
    }
  }

  lemma {:induction false} ArrayGoesOn(s: bytes, limit: nat, room: nat) returns (t: bytes)
    requires 0 !in s && s != [] && s[0] == 0x5B && Json.ParseArray(s, All, limit, room) == Err(IncompleteInput)
    ensures forall wide: nat | wide >= Room(s, t, room) ::
              var r := Json.ParseArray(s + t, All, limit, wide); r.Ok? && r.rest == []
    decreases |s|, 0, 0
  {
    hide Json.SkipSpaces, Json.ParseElems;
    var inner := s[1..];
    var r := Json.SkipSpaces(inner, true);
    if r.Err? {
      OnlySpaces(inner, true);
      t := [0x5D];
      assert (s + t)[1..] == inner + t && t[..1] == t;
      Accept.SpacesRead(inner, t, true);
    } else {
      var ws := Sound.SpacesFound(inner, true);
      var u := r.rest;
      assert forall c <- u :: c in ws + u;
      t := ElemsGoOn(u, limit - 1, room);
      assert (s + t)[1..] == ws + (u + t) && (u + t)[..1] == u[..1];
      Accept.SpacesRead(ws, u + t, true);
    }
  }

  lemma ClosedArray(s: bytes, limit: nat, wide: nat, u: bytes)
    requires AllSpaces(u) && Json.ParseElem(s, All, limit, wide).Ok?
    requires Json.ParseElem(s, All, limit, wide).rest == u + [0x5D]
    ensures var r := Json.ParseElems(s, All, limit, wide); r.Ok? && r.rest == []
  {
    hide Json.ParseElem, Json.Separator;
    Accept.SeparatorRead(u, [], 0x5D);
    assert [0x5D] + [] == [0x5D];
  }

  lemma {:induction false} ElemsGoOn(s: bytes, limit: nat, room: nat) returns (t: bytes)
    requires 0 !in s && Json.ParseElems(s, All, limit, room) == Err(IncompleteInput)
    ensures ElemsEnd(s + t, limit, Room(s, t, room))
    decreases |s|, 3
  {
    hide Json.ParseVariant, Json.Separator;
    var first := Json.ParseElem(s, All, limit, room);
    if first.Err? {
      var d := VariantGoesOn(s, true, limit, room);
      t := d + [0x5D];
      forall wide: nat | wide >= Room(s, t, room)
        ensures var r := Json.ParseElems(s + t, All, limit, wide); r.Ok? && r.rest == []
      {
        ElemExtends(s + d, limit, wide, wide, [0x5D]);
        assert s + t == s + d + [0x5D] && [] + [0x5D] == [0x5D];
        ClosedArray(s + t, limit, wide, []);
      }
    } else {
      var sep := Json.Separator(first.rest, 0x5D);
      ElemIsSuffix(s, limit, room);
      if sep.Err? {
        SeparatorEndsEarly(first.rest, 0x5D);
        t := [0x5D];
        forall wide: nat | wide >= Room(s, t, room)
          ensures var r := Json.ParseElems(s + t, All, limit, wide); r.Ok? && r.rest == []
        {
          ElemExtends(s, limit, room, wide, t);
          ClosedArray(s + t, limit, wide, first.rest);
        }
      } else {
        SeparatorIsSuffix(first.rest, 0x5D);
        t := ElemsGoOn(sep.rest, limit, room);
        SeparatorExtends(first.rest, 0x5D, t);
        forall wide: nat | wide >= Room(s, t, room)
          ensures var r := Json.ParseElems(s + t, All, limit, wide); r.Ok? && r.rest == []
        {
          ElemExtends(s, limit, room, wide, t);
        }
      }
    }
  }

  lemma SeparatorEndsEarly(s: bytes, close: byte)
    requires 0 !in s && Json.Separator(s, close) == Err(IncompleteInput)
    ensures AllSpaces(s)
  {
    OnlySpaces(s, true);
  }

  lemma ElemIsSuffix(s: bytes, limit: nat, room: nat)
    requires Json.ParseElem(s, All, limit, room).Ok?
    ensures forall c <- Json.ParseElem(s, All, limit, room).rest :: c in s
  {
    hide Json.ParseElem;
    var before, t := Sound.ElemFound(s, limit, room);
  }

  lemma SeparatorIsSuffix(s: bytes, close: byte)
    requires Json.Separator(s, close).Ok? && close in {0x5D, 0x7D}
    ensures forall c <- Json.Separator(s, close).rest :: c in s
  {
    hide Json.Separator;
    var ws := Sound.SeparatorFound(s, close);
  }

  lemma {:induction false} ObjectGoesOn(s: bytes, limit: nat, room: nat) returns (t: bytes)
    requires 0 !in s && s != [] && s[0] == 0x7B && Json.ParseObject(s, All, limit, room) == Err(IncompleteInput)
    ensures forall wide: nat | wide >= Room(s, t, room) ::
              var r := Json.ParseObject(s + t, All, limit, wide); r.Ok? && r.rest == []
    decreases |s|, 0, 0
  {
    hide Json.SkipSpaces, Json.ParseMembers;
    var inner := s[1..];
    var r := Json.SkipSpaces(inner, true);
    if r.Err? {
      OnlySpaces(inner, true);
      t := [0x7D];
      assert (s + t)[1..] == inner + t && t[..1] == t;
      Accept.SpacesRead(inner, t, true);
    } else {
      var ws := Sound.SpacesFound(inner, true);
      var u := r.rest;
      assert forall c <- u :: c in ws + u;
      t := MembersGoOn(u, limit - 1, room);
      assert (s + t)[1..] == ws + (u + t) && (u + t)[..1] == u[..1];
      Accept.SpacesRead(ws, u + t, true);
    }
  }

  lemma {:induction false} KeyColonGoesOn(s: bytes, room: nat) returns (t: bytes)
    requires 0 !in s && s != [] && Json.ParseKeyColon(s, room) == Err(IncompleteInput)
    ensures KeyColonEnds(s + t, Room(s, t, room))
  {
    hide Json.ParseQuoted, Json.NonQuotedText, Json.Colon, WrittenText, TextSaid;
    var key := Json.ParseKey(s, room);
    if key.Err? {
      var d := QuotedGoesOn(s, room, [0x3A]);
      t := d + [0x3A];
      assert s + t == s + d + [0x3A];
      Accept.ColonRead([], []);
      assert [] + ([0x3A] + []) == [0x3A];
    } else {
      var k := Sound.KeyFound(s, room);
      ColonEndsEarly(key.rest);
      t := [0x3A];
      Accept.ColonRead(key.rest, []);
      assert [0x3A] + [] == t;
      assert s + t == WrittenText(k) + (key.rest + t);
      forall wide: nat | wide >= Room(s, t, room)
        ensures Json.ParseKey(s + t, wide) == Ok(TextSaid(k), key.rest + t)
      {
        Accept.KeyRead(k, key.rest + t, wide);
      }
    }
  }

  lemma ColonEndsEarly(s: bytes)
    requires 0 !in s && Json.Colon(s) == Err(IncompleteInput)
    ensures AllSpaces(s)
  {
    OnlySpaces(s, true);
  }

  lemma ClosedObject(s: bytes, limit: nat, wide: nat, u: bytes)
    requires AllSpaces(u) && Json.ParseMember(s, All, limit, wide).Ok?
    requires Json.ParseMember(s, All, limit, wide).rest == u + [0x7D]
    ensures var r := Json.ParseMembers(s, All, limit, wide); r.Ok? && r.rest == []
  {
    hide Json.ParseMember, Json.MemberSeparator;
    Accept.LastRead(u, []);
    assert [0x7D] + [] == [0x7D];
  }

  lemma MemberIs(s: bytes, limit: nat, wide: nat, t: bytes)
    requires Json.ParseKeyColon(s, wide).Ok? && Json.ParseKeyColon(s, wide).rest == t
    requires Json.ParseElem(t, All, limit, wide).Ok?
    ensures var r := Json.ParseMember(s, All, limit, wide);
            r.Ok? && r.rest == Json.ParseElem(t, All, limit, wide).rest
  {
    hide Json.ParseKeyColon, Json.ParseElem;
  }

  /** A member that ends too early. */
  lemma {:induction false} MemberGoesOn(s: bytes, limit: nat, room: nat) returns (t: bytes)
    requires 0 !in s && s != [] && Json.ParseMember(s, All, limit, room) == Err(IncompleteInput)
    ensures MembersEnd(s + t, limit, Room(s, t, room))
    decreases |s|, 2
  {
    hide Json.ParseKeyColon, Json.ParseVariant, Json.ParseMembers;
    var kc := Json.ParseKeyColon(s, room);
    if kc.Err? {
      var d := KeyColonGoesOn(s, room);
      var rest := NULL + [0x7D];
      t := d + rest;
      forall wide: nat | wide >= Room(s, t, room)
        ensures var r := Json.ParseMembers(s + t, All, limit, wide); r.Ok? && r.rest == []
      {
        assert Json.ParseKeyColon(s + d, wide).Ok? && Json.ParseKeyColon(s + d, wide).rest == [];
        KeyColonExtends(s + d, wide, wide, rest);
        assert s + d + rest == s + t && [] + rest == rest && [] + [0x7D] == [0x7D];
        NullRead([], [0x7D], true, limit, wide);
        MemberIs(s + t, limit, wide, rest);
        ClosedObject(s + t, limit, wide, []);
      }
    } else {
      var d := ValueBehindKey(s, limit, room);
      t := d + [0x7D];
      forall wide: nat | wide >= Room(s, t, room)
        ensures var r := Json.ParseMembers(s + t, All, limit, wide); r.Ok? && r.rest == []
      {
        KeyColonExtends(s, room, wide, t);
        ElemExtends(kc.rest + d, limit, wide, wide, [0x7D]);
        assert kc.rest + d + [0x7D] == kc.rest + t && [] + [0x7D] == [0x7D];
        MemberIs(s + t, limit, wide, kc.rest + t);
        ClosedObject(s + t, limit, wide, []);
      }
    }
  }

  lemma {:induction false} ValueBehindKey(s: bytes, limit: nat, room: nat) returns (t: bytes)
    requires 0 !in s && Json.ParseKeyColon(s, room).Ok?
    requires Json.ParseMember(s, All, limit, room) == Err(IncompleteInput)
    ensures VariantEnds(Json.ParseKeyColon(s, room).rest + t, true, limit, Room(s, t, room))
    decreases |s|, 1
  {
    hide Json.ParseKeyColon, Json.ParseVariant;
    var kc := Json.ParseKeyColon(s, room);
    KeyIsSuffix(s, room);
    t := VariantGoesOn(kc.rest, true, limit, room);
  }

  lemma KeyIsSuffix(s: bytes, room: nat)
    requires Json.ParseKeyColon(s, room).Ok?
    ensures forall c <- Json.ParseKeyColon(s, room).rest :: c in s
  {
    hide Json.ParseKey, Json.Colon, WrittenText, TextSaid;
    var key := Sound.KeyFound(s, room);
    var near := Sound.ColonFound(Json.ParseKey(s, room).rest);
  }

  const LAST: bytes := [0x61, 0x3A, 0x6E, 0x75, 0x6C, 0x6C, 0x7D]

  lemma LastMember(limit: nat, wide: nat)
    requires wide >= 1
    ensures var r := Json.ParseMembers(LAST, All, limit, wide); r.Ok? && r.rest == []
  {
    hide Json.ParseMembers;
    var item := Item([], NullWord, []);
    var pairs := OnePair(Pair([], Bare([0x61]), [], item));
    assert Good(NullWord, limit, wide) && GoodItem(item, limit, wide) && GoodPair(pairs.pair, limit, wide);
    assert WrittenPairs(pairs) + ([0x7D] + []) == LAST;
    Accept.PairsRead(pairs, [], limit, wide);
  }

  /** The end of the members, or one more, behind a member. */
  lemma SeparatorGoesOn(s: bytes) returns (t: bytes)
    requires 0 !in s && Json.MemberSeparator(s) == Err(IncompleteInput)
    ensures (AllSpaces(s) && t == [0x7D]) || (t == LAST && Json.MemberSeparator(s + t) == Ok(false, LAST))
  {
    hide Json.Separator, Json.SkipSpaces;
    var sep := Json.Separator(s, 0x7D);
    if sep.Err? {
      SeparatorEndsEarly(s, 0x7D);
      t := [0x7D];
    } else {
      var ws := Sound.SeparatorFound(s, 0x7D);
      SeparatorIsSuffix(s, 0x7D);
      OnlySpaces(sep.rest, true);
      t := LAST;
      assert LAST[..1] == [0x61];
      Accept.CommaRead(ws, sep.rest, LAST);
      assert s + t == ws + ([0x2C] + (sep.rest + LAST));
    }
  }

  lemma MemberIsSuffix(s: bytes, limit: nat, room: nat)
    requires Json.ParseMember(s, All, limit, room).Ok?
    ensures forall c <- Json.ParseMember(s, All, limit, room).rest :: c in s
  {
    hide Json.ParseMember;
    var pair := Sound.PairFound([], s, limit, room);
  }

  lemma NextIsSuffix(s: bytes)
    requires Json.MemberSeparator(s).Ok?
    ensures forall c <- Json.MemberSeparator(s).rest :: c in s
    ensures !Json.MemberSeparator(s).value ==> Json.MemberSeparator(s).rest != []
  {
    hide Json.MemberSeparator;
    var ws, next := Sound.CommaFound(s);
  }

  lemma {:induction false} MembersGoOn(s: bytes, limit: nat, room: nat) returns (t: bytes)
    requires 0 !in s && s != [] && Json.ParseMembers(s, All, limit, room) == Err(IncompleteInput)
    ensures MembersEnd(s + t, limit, Room(s, t, room))
    decreases |s|, 3
  {
    hide Json.ParseMember, Json.MemberSeparator;
    var first := Json.ParseMember(s, All, limit, room);
    if first.Err? {
      t := MemberGoesOn(s, limit, room);
    } else {
      MemberIsSuffix(s, limit, room);
      var sep := Json.MemberSeparator(first.rest);
      if sep.Err? {
        t := SeparatorGoesOn(first.rest);
        forall wide: nat | wide >= Room(s, t, room)
          ensures var r := Json.ParseMembers(s + t, All, limit, wide); r.Ok? && r.rest == []
        {
          MemberExtends(s, limit, room, wide, t);
          LastMember(limit, wide);
          if t != LAST { ClosedObject(s + t, limit, wide, first.rest); }
        }
      } else {
        NextIsSuffix(first.rest);
        t := MembersGoOn(sep.rest, limit, room);
        MemberSeparatorExtends(first.rest, t);
        forall wide: nat | wide >= Room(s, t, room)
          ensures var r := Json.ParseMembers(s + t, All, limit, wide); r.Ok? && r.rest == []
        {
          MemberExtends(s, limit, room, wide, t);
        }
      }
    }
  }

  /** Whatever was reported as incomplete, or as empty, could have gone on: with
      these bytes behind it, and room for its strings, it is taken. */
  lemma IncompleteGoesOn(s: bytes, limit: nat, room: nat) returns (t: bytes)
    requires 0 !in s
    requires Json.SkipSpaces(s, false).Err? || Json.ParseVariant(s, false, All, limit, room) == Err(IncompleteInput)
    ensures Json.Parse(s + t, All, limit, Room(s, t, room)).Ok?
  {
    hide Json.ParseVariant;
    t := VariantGoesOn(s, false, limit, room);
  }
}
