/** Skipping follows parsing, and a filtered parse is a projection. */
module JsonTheorems {
  import opened Bytes
  import opened Document
  import opened Ascii
  import opened Unicode
  import opened Numbers
  import opened Filters
  import opened Json

  /** No digit was left behind, as the 63-character buffer could do. */
  predicate NumberEnded(v: Value, rest: bytes) {
    IsNumber(v) ==> !CanBeInNumber(Head(rest))
  }

  lemma {:induction false} HexSkipped(s: bytes, count: nat, value: nat, stop: byte)
    requires IsQuote(stop)
    requires ParseHex(s, count, value).Ok?
    ensures SkipString(s, stop) == SkipString(ParseHex(s, count, value).rest, stop)
  {
    if count > 0 {
      assert s[0] != stop && s[0] != BACKSLASH;
      HexSkipped(s[1..], count - 1, (value * 0x10 + DecodeHex(s[0])) % 0x1_0000, stop);
    }
  }

  lemma {:induction false} StringSkipped(s: bytes, stop: byte, high: nat, text: bytes)
    requires IsQuote(stop) && high < 0x400
    requires StringText(s, stop, high, text).Ok?
    ensures SkipString(s, stop) == Ok((), StringText(s, stop, high, text).rest)
    decreases |s|
  {
    if Head(s) != stop {
      var t := s[1..];
      if s[0] != BACKSLASH {
        StringSkipped(t, stop, high, text + [s[0]]);
      } else {
        assert s[2..] == t[1..];
        var r := Escape(t, high);
        if t[0] == 0x75 { HexSkipped(t[1..], 4, 0, stop); }
        StringSkipped(r.rest, stop, r.value.1, text + r.value.0);
      }
    }
  }

  lemma {:induction false} NonQuotedSkipped(s: bytes, text: bytes)
    ensures SkipNonQuoted(s) == NonQuotedText(s, text).1
    decreases |s|
  {
    if CanBeInNonQuotedString(Head(s)) { NonQuotedSkipped(s[1..], text + [s[0]]); }
  }

  lemma KeySkipped(s: bytes, maxString: nat)
    requires ParseKey(s, maxString).Ok?
    ensures SkipKey(s) == Ok((), ParseKey(s, maxString).rest)
  {
    if IsQuote(Head(s)) {
      StringSkipped(Tail(s), Head(s), 0, []);
    } else {
      NonQuotedSkipped(s, []);
    }
  }

  lemma {:induction false} NumberSkipped(s: bytes, buffer: bytes)
    requires !CanBeInNumber(Head(NumberText(s, buffer).1))
    ensures SkipNumeric(s) == NumberText(s, buffer).1
    decreases |s|
  {
    if |buffer| < NUMBER_ROOM && CanBeInNumber(Head(s)) {
      NumberSkipped(s[1..], buffer + [s[0]]);
    }
  }

  lemma SpacesSkippedOnce(s: bytes, found: bool)
    requires SkipSpaces(s, found).Ok?
    ensures SkipSpaces(SkipSpaces(s, found).rest, true) == Ok((), SkipSpaces(s, found).rest)
  {
  }

  lemma SeparatorEndsNumber(s: bytes, close: byte)
    requires close == CLOSE_ARRAY || close == CLOSE_OBJECT
    requires Separator(s, close).Ok?
    ensures !CanBeInNumber(Head(s))
  {
  }

  // ----- skipping follows parsing -----

  /** Where a parse accepts, under any filter, the skip accepts and stops at
      the same place. */
  lemma {:induction false} SkipFollowsParse(s: bytes, found: bool, f: Filter, limit: nat, maxString: nat)
    requires
      var r := ParseVariant(s, found, f, limit, maxString);
      r.Ok? && NumberEnded(r.value, r.rest)
    ensures SkipVariant(s, found, limit) == Ok((), ParseVariant(s, found, f, limit, maxString).rest)
    decreases |s|, 1
  {
    SkipFollowsValue(SkipSpaces(s, found).rest, f, limit, maxString);
  }

  lemma {:induction false} SkipFollowsValue(s: bytes, f: Filter, limit: nat, maxString: nat)
    requires
      var r := ParseValue(s, f, limit, maxString);
      r.Ok? && NumberEnded(r.value, r.rest)
    ensures SkipValue(s, limit) == Ok((), ParseValue(s, f, limit, maxString).rest)
    decreases |s|, 0
  {
    var c := Head(s);
    if c == OPEN_ARRAY && f.AllowArray() {
      SkipFollowsArray(s, f, limit, maxString);
    } else if c == OPEN_OBJECT && f.AllowObject() {
      var t := SkipSpaces(s[1..], true).rest;
      if t[0] != CLOSE_OBJECT {
        SkipFollowsMembers(t, f, limit - 1, maxString);
      }
    } else if IsQuote(c) && f.AllowValue() {
      StringSkipped(Tail(s), c, 0, []);
    } else if c !in {OPEN_ARRAY, OPEN_OBJECT, QUOTE, APOSTROPHE, TRUE[0], FALSE[0], NULL[0]} && f.AllowValue() {
      NumberSkipped(s, []);
    }
  }

  lemma {:induction false} SkipFollowsArray(s: bytes, f: Filter, limit: nat, maxString: nat)
    requires Head(s) == OPEN_ARRAY && ParseArray(s, f, limit, maxString).Ok?
    ensures SkipElems(s[1..], limit - 1) == Ok((), ParseArray(s, f, limit, maxString).rest)
    decreases |s|, 0, 0
  {
    SpacesSkippedOnce(s[1..], true);
    var t := SkipSpaces(s[1..], true).rest;
    assert SkipVariant(s[1..], true, limit - 1) == SkipValue(t, limit - 1) == SkipVariant(t, true, limit - 1);
    if t[0] == CLOSE_ARRAY {
      assert SkipValue(t, limit - 1) == Ok((), t);
    } else {
      SkipFollowsElems(t, f.AtElement(), limit - 1, maxString);
    }
  }

  lemma {:induction false} SkipFollowsElem(s: bytes, f: Filter, limit: nat, maxString: nat, close: byte)
    requires close == CLOSE_ARRAY || close == CLOSE_OBJECT
    requires ParseElem(s, f, limit, maxString).Ok?
    requires Separator(ParseElem(s, f, limit, maxString).rest, close).Ok?
    ensures SkipVariant(s, true, limit) == Ok((), ParseElem(s, f, limit, maxString).rest)
    decreases |s|, 2
  {
    SeparatorEndsNumber(ParseElem(s, f, limit, maxString).rest, close);
    if f.Allow() {
      SkipFollowsParse(s, true, f, limit, maxString);
    }
  }

  lemma {:induction false} SkipFollowsElems(s: bytes, f: Filter, limit: nat, maxString: nat)
    requires ParseElems(s, f, limit, maxString).Ok?
    ensures SkipElems(s, limit) == Ok((), ParseElems(s, f, limit, maxString).rest)
    decreases |s|, 3
  {
    SkipFollowsElem(s, f, limit, maxString, CLOSE_ARRAY);
    var sep := Separator(ParseElem(s, f, limit, maxString).rest, CLOSE_ARRAY);
    if !sep.value {
      SkipFollowsElems(sep.rest, f, limit, maxString);
    }
  }

  lemma {:induction false} SkipFollowsMembers(s: bytes, f: Filter, limit: nat, maxString: nat)
    requires ParseMembers(s, f, limit, maxString).Ok?
    ensures SkipMembers(s, limit) == Ok((), ParseMembers(s, f, limit, maxString).rest)
    decreases |s|, 3
  {
    KeySkipped(s, maxString);
    var key := ParseKeyColon(s, maxString);
    SkipFollowsElem(key.rest, f.AtKey(key.value), limit, maxString, CLOSE_OBJECT);
    var sep := MemberSeparator(ParseMember(s, f, limit, maxString).rest);
    if !sep.value {
      SkipFollowsMembers(sep.rest, f, limit, maxString);
    }
  }

  // ----- filters -----

  lemma {:induction false} ProjectPut(ms: seq<Member>, m: Member, f: Filter)
    ensures
      var inner := f.AtKey(m.key);
      ProjectMembers(PutMember(ms, m), f)
      == if inner.Allow() then PutMember(ProjectMembers(ms, f), Member(m.key, Project(m.value, inner)))
         else ProjectMembers(ms, f)
  {
    if ms == [] {
      assert [m][1..] == [];
    } else if ms[0].key == m.key {
      assert ([m] + ms[1..])[1..] == ms[1..];
    } else {
      ProjectPut(ms[1..], m, f);
      assert ([ms[0]] + PutMember(ms[1..], m))[1..] == PutMember(ms[1..], m);
      if f.AtKey(ms[0].key).Allow() {
        var first := Member(ms[0].key, Project(ms[0].value, f.AtKey(ms[0].key)));
        assert ProjectMembers(ms, f)[1..] == ProjectMembers(ms[1..], f);
      }
    }
  }

  lemma {:induction false} ProjectPutAll(ms: seq<Member>, added: seq<Member>, f: Filter)
    ensures ProjectMembers(PutAll(ms, added), f) == PutAll(ProjectMembers(ms, f), ProjectMembers(added, f))
    decreases added
  {
    if added != [] {
      ProjectPut(ms, added[0], f);
      ProjectPutAll(PutMember(ms, added[0]), added[1..], f);
      if f.AtKey(added[0].key).Allow() {
        assert ProjectMembers(added, f)[1..] == ProjectMembers(added[1..], f);
      }
    }
  }

  lemma {:induction false} ProjectVariant(s: bytes, found: bool, f: Filter, limit: nat, maxString: nat)
    requires
      var r := ParseVariant(s, found, AllowAll, limit, maxString);
      r.Ok? && NumberEnded(r.value, r.rest)
    ensures
      var r := ParseVariant(s, found, AllowAll, limit, maxString);
      ParseVariant(s, found, f, limit, maxString) == Ok(Project(r.value, f), r.rest)
    decreases |s|, 1
  {
    ProjectValue(SkipSpaces(s, found).rest, f, limit, maxString);
  }

  lemma {:induction false} ProjectValue(s: bytes, f: Filter, limit: nat, maxString: nat)
    requires
      var r := ParseValue(s, AllowAll, limit, maxString);
      r.Ok? && NumberEnded(r.value, r.rest)
    ensures
      var r := ParseValue(s, AllowAll, limit, maxString);
      ParseValue(s, f, limit, maxString) == Ok(Project(r.value, f), r.rest)
    decreases |s|, 0
  {
    SkipFollowsValue(s, AllowAll, limit, maxString);
    var c := Head(s);
    if c == OPEN_ARRAY && f.AllowArray() {
      ProjectArray(s, f, limit, maxString);
    } else if c == OPEN_OBJECT && f.AllowObject() {
      ProjectObject(s, f, limit, maxString);
    }
  }

  lemma {:induction false} ProjectArray(s: bytes, f: Filter, limit: nat, maxString: nat)
    requires Head(s) == OPEN_ARRAY && f.AllowArray()
    requires ParseArray(s, AllowAll, limit, maxString).Ok?
    ensures
      var r := ParseArray(s, AllowAll, limit, maxString);
      ParseArray(s, f, limit, maxString) == Ok(Project(r.value, f), r.rest)
    decreases |s|, 0, 0
  {
    var t := SkipSpaces(s[1..], true).rest;
    if t[0] != CLOSE_ARRAY {
      ProjectTheElems(t, f.AtElement(), limit - 1, maxString);
    }
  }

  lemma {:induction false} ProjectObject(s: bytes, f: Filter, limit: nat, maxString: nat)
    requires Head(s) == OPEN_OBJECT && f.AllowObject()
    requires ParseObject(s, AllowAll, limit, maxString).Ok?
    ensures
      var r := ParseObject(s, AllowAll, limit, maxString);
      ParseObject(s, f, limit, maxString) == Ok(Project(r.value, f), r.rest)
    decreases |s|, 0, 0
  {
    var t := SkipSpaces(s[1..], true).rest;
    if t[0] != CLOSE_OBJECT {
      var raw, kept := ProjectBraces(t, f, limit - 1, maxString);
      ObjectStep(s, t, AllowAll, raw, limit, maxString);
      ObjectStep(s, t, f, kept, limit, maxString);
    }
  }

  lemma {:induction false} ProjectBraces(t: bytes, f: Filter, limit: nat, maxString: nat)
    returns (raw: Result<seq<Member>>, kept: Result<seq<Member>>)
    requires f.AllowObject()
    requires ParseMembers(t, AllowAll, limit, maxString).Ok?
    ensures raw == ParseMembers(t, AllowAll, limit, maxString) && raw.Ok?
    ensures kept == ParseMembers(t, f, limit, maxString)
    ensures ObjectFrom(kept) == Ok(Project(ObjectFrom(raw).value, f), raw.rest)
    decreases |t|, 4
  {
    raw := ParseMembers(t, AllowAll, limit, maxString);
    kept := ParseMembers(t, f, limit, maxString);
    ProjectTheMembers(t, f, limit, maxString);
    ProjectPutAll([], raw.value, f);
  }

  /** The object behind an opening brace is made of the members read there. */
  lemma ObjectStep(s: bytes, t: bytes, f: Filter, r: Result<seq<Member>>, limit: nat, maxString: nat)
    requires Head(s) == OPEN_OBJECT && limit > 0 && f.AllowObject()
    requires SkipSpaces(s[1..], true) == Ok((), t) && t[0] != CLOSE_OBJECT
    requires ParseMembers(t, f, limit - 1, maxString) == r
    ensures ParseValue(s, f, limit, maxString) == ParseObject(s, f, limit, maxString) == ObjectFrom(r)
  {
  }

  lemma {:induction false} ProjectElem(s: bytes, f: Filter, limit: nat, maxString: nat, close: byte)
    requires close == CLOSE_ARRAY || close == CLOSE_OBJECT
    requires
      var r := ParseElem(s, AllowAll, limit, maxString);
      r.Ok? && Separator(r.rest, close).Ok?
    ensures
      var r := ParseElem(s, AllowAll, limit, maxString);
      && |r.value| == 1
      && ParseElem(s, f, limit, maxString)
         == Ok(if f.Allow() then [Project(r.value[0], f)] else [], r.rest)
    decreases |s|, 2
  {
    SeparatorEndsNumber(ParseElem(s, AllowAll, limit, maxString).rest, close);
    if f.Allow() {
      ProjectVariant(s, true, f, limit, maxString);
    } else {
      SkipFollowsElem(s, AllowAll, limit, maxString, close);
    }
  }

  lemma OneProjected(v: Value, vs: seq<Value>, f: Filter)
    ensures ProjectElems([v] + vs, f) == if f.Allow() then [Project(v, f)] + ProjectElems(vs, f) else []
    ensures !f.Allow() ==> ProjectElems(vs, f) == []
    ensures [v] + [] == [v] && [Project(v, f)] + [] == [Project(v, f)]
  {
    assert ([v] + vs)[1..] == vs;
  }

  lemma OneMemberProjected(m: Member, ms: seq<Member>, f: Filter)
    ensures
      var inner := f.AtKey(m.key);
      ProjectMembers([m] + ms, f)
      == if inner.Allow() then [Member(m.key, Project(m.value, inner))] + ProjectMembers(ms, f)
         else ProjectMembers(ms, f)
    ensures [m] + [] == [m]
    ensures ProjectMembers([m], f) == ProjectMembers([m] + [], f)
  {
    assert ([m] + ms)[1..] == ms;
  }

  lemma {:induction false} ProjectTheElems(s: bytes, f: Filter, limit: nat, maxString: nat)
    requires ParseElems(s, AllowAll, limit, maxString).Ok?
    ensures
      var r := ParseElems(s, AllowAll, limit, maxString);
      ParseElems(s, f, limit, maxString) == Ok(ProjectElems(r.value, f), r.rest)
    decreases |s|, 3
  {
    ProjectElem(s, f, limit, maxString, CLOSE_ARRAY);
    var first := ParseElem(s, AllowAll, limit, maxString);
    var sep := Separator(first.rest, CLOSE_ARRAY);
    var v := first.value[0];
    if sep.value {
      OneProjected(v, [], f);
    } else {
      ProjectTheElems(sep.rest, f, limit, maxString);
      OneProjected(v, ParseElems(sep.rest, AllowAll, limit, maxString).value, f);
      PrependNothing(ParseElems(sep.rest, f, limit, maxString));
    }
  }

  lemma {:induction false} ProjectTheMembers(s: bytes, f: Filter, limit: nat, maxString: nat)
    requires ParseMembers(s, AllowAll, limit, maxString).Ok?
    ensures
      var r := ParseMembers(s, AllowAll, limit, maxString);
      ParseMembers(s, f, limit, maxString) == Ok(ProjectMembers(r.value, f), r.rest)
    decreases |s|, 3
  {
    var key := ParseKeyColon(s, maxString);
    ProjectElem(key.rest, f.AtKey(key.value), limit, maxString, CLOSE_OBJECT);
    var first := ParseMember(s, AllowAll, limit, maxString);
    assert AllowAll.AtKey(key.value) == AllowAll;
    var sep := MemberSeparator(first.rest);
    var m := first.value[0];
    if sep.value {
      assert first.value == [m];
      OneMemberProjected(m, [], f);
      var inner := f.AtKey(m.key);
      assert ProjectMembers([m], f) == if inner.Allow() then [Member(m.key, Project(m.value, inner))] else [];
    } else {
      ProjectTheMembers(sep.rest, f, limit, maxString);
      OneMemberProjected(m, ParseMembers(sep.rest, AllowAll, limit, maxString).value, f);
      PrependNothing(ParseMembers(sep.rest, f, limit, maxString));
    }
  }

  /** For every input the unfiltered parse accepts and every filter, the
      filtered parse accepts too, stops at the same place, and keeps the
      projection of the unfiltered document. */
  lemma FilteredParseProjects(s: bytes, f: Filter, limit: nat, maxString: nat)
    requires Parse(s, AllowAll, limit, maxString).Ok?
    ensures
      var r := Parse(s, AllowAll, limit, maxString);
      Parse(s, f, limit, maxString) == Ok(Project(r.value, f), r.rest)
  {
    ProjectVariant(s, false, f, limit, maxString);
  }
}
