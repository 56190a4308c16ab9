/** What is printed is parsed back, exactly within the nesting limit, and the
    two layouts differ in white space only. */
module PrinterTheorems {
  import opened Bytes
  import opened Document
  import opened Ascii
  import opened Unicode
  import opened Numbers
  import opened Filters
  import opened Json
  import opened JsonTheorems
  import opened Printer

  predicate White(s: bytes) {
    forall i :: 0 <= i < |s| ==> IsSpace(s[i])
  }

  lemma LayoutIsWhite(style: Style, depth: nat)
    ensures White(Newline(style)) && White(Indent(style, depth))
  {
    TabsAreWhite(depth % 0x100);
  }

  lemma {:induction false} TabsAreWhite(n: nat)
    ensures White(Tabs(n))
  {
    if n > 0 { TabsAreWhite(n - 1); }
  }

  lemma {:induction false} WhiteSkipped(w: bytes, s: bytes, found: bool)
    requires White(w)
    requires Head(s) != NUL && !IsSpace(Head(s))
    ensures SkipSpaces(w + s, found) == Ok((), s)
  {
    if w == [] {
      assert w + s == s;
    } else {
      assert (w + s)[1..] == w[1..] + s;
      WhiteSkipped(w[1..], s, found);
    }
  }

  // ----- scalars -----

  lemma NulRead(tail: bytes)
    ensures ParseHex(NUL_TEXT[2..] + tail, 4, 0) == Ok(0, tail)
  {
    var s := NUL_TEXT[2..] + tail;
    assert s == [0x30, 0x30, 0x30, 0x30] + tail;
    assert s[1..] == [0x30, 0x30, 0x30] + tail;
    assert s[1..][1..] == [0x30, 0x30] + tail;
    assert s[1..][1..][1..] == [0x30] + tail;
    assert s[1..][1..][1..][1..] == tail;
    assert ParseHex(tail, 0, 0) == Ok(0, tail);
    assert ParseHex(s[1..][1..][1..], 1, 0) == Ok(0, tail);
    assert ParseHex(s[1..][1..], 2, 0) == Ok(0, tail);
    assert ParseHex(s[1..], 3, 0) == Ok(0, tail);
  }

  lemma CharRead(c: byte, s: bytes, high: nat, before: bytes)
    requires high < 0x400
    ensures StringText(CharText(c) + s, QUOTE, high, before) == StringText(s, QUOTE, high, before + [c])
  {
    var t := CharText(c) + s;
    if EscapeChar(c) != 0 {
      assert t[1..][0] == EscapeChar(c) && t[1..][1..] == s;
    } else if c != NUL {
      assert t[1..] == s;
    } else {
      NulRead(s);
      assert t[1..][1..] == NUL_TEXT[2..] + s;
    }
  }

  lemma {:induction false} EscapedRead(text: bytes, s: bytes, high: nat, before: bytes)
    requires high < 0x400
    ensures StringText(Escaped(text) + s, QUOTE, high, before) == StringText(s, QUOTE, high, before + text)
    decreases text
  {
    if text == [] {
      assert Escaped(text) + s == s && before + text == before;
    } else {
      var more := Escaped(text[1..]);
      Associates(CharText(text[0]), more, s);
      CharRead(text[0], more + s, high, before);
      EscapedRead(text[1..], s, high, before + [text[0]]);
      Associates(before, [text[0]], text[1..]);
      assert [text[0]] + text[1..] == text;
    }
  }

  lemma QuotedRead(text: bytes, tail: bytes, maxString: nat)
    requires |text| <= maxString
    ensures ParseQuoted(Quoted(text) + tail, maxString) == Ok(text, tail)
    ensures Head(Quoted(text) + tail) == QUOTE
  {
    var s := [QUOTE] + tail;
    assert (Quoted(text) + tail)[1..] == Escaped(text) + s;
    EscapedRead(text, s, 0, []);
    assert s[1..] == tail;
    assert [] + text == text;
  }

  lemma {:induction false} NumberTextOf(text: bytes, tail: bytes, buffer: bytes)
    requires forall c <- text :: CanBeInNumber(c)
    requires |buffer| + |text| <= NUMBER_ROOM && !CanBeInNumber(Head(tail))
    ensures NumberText(text + tail, buffer) == (buffer + text, tail)
    decreases text
  {
    if text == [] {
      assert text + tail == tail && buffer + text == buffer;
    } else {
      assert (text + tail)[1..] == text[1..] + tail;
      NumberTextOf(text[1..], tail, buffer + [text[0]]);
      assert buffer + [text[0]] + text[1..] == buffer + text;
    }
  }

  lemma IntegerRead(i: int, tail: bytes)
    requires INT_MIN <= i <= UINT_MAX
    requires !CanBeInNumber(Head(tail))
    ensures ParseNumeric(IntegerText(i) + tail) == Ok(Int(i), tail)
    ensures CanBeInNumber(Head(IntegerText(i) + tail)) && IntegerText(i) != []
  {
    var text := IntegerText(i);
    var n := if i < 0 then -i else i;
    assert PowerOf10(10) == 10_000_000_000;
    assert PowerOf10(15) == 1_000_000_000_000_000;
    assert PowerOf10(20) == 100_000_000_000_000_000_000;
    DigitsLength(n, 20, 100_000_000_000_000_000_000);
    IntegerTextRead(i);
    NumberTextOf(text, tail, []);
    assert [] + text == text;
    assert text[0] in text;
  }

  lemma KeywordRead(word: bytes, tail: bytes)
    requires word == TRUE || word == FALSE || word == NULL
    ensures Keyword(word + tail, word) == Ok((), tail)
  {
    KeywordSuffixRead(word, tail);
  }

  lemma {:induction false} KeywordSuffixRead(word: bytes, tail: bytes)
    requires NUL !in word
    ensures Keyword(word + tail, word) == Ok((), tail)
  {
    if word == [] {
      assert word + tail == tail;
    } else {
      assert (word + tail)[1..] == word[1..] + tail;
      KeywordSuffixRead(word[1..], tail);
    }
  }

  // ----- the round trip -----

  /** Printed members have distinct keys, so each is put at the end. */
  lemma {:induction false} PutNew(ms: seq<Member>, m: Member)
    requires forall i :: 0 <= i < |ms| ==> ms[i].key != m.key
    ensures PutMember(ms, m) == ms + [m]
  {
    if ms != [] { PutNew(ms[1..], m); }
  }

  lemma {:induction false} PutAllNew(ms: seq<Member>, added: seq<Member>)
    requires UniqueKeys(ms + added)
    ensures PutAll(ms, added) == ms + added
    decreases added
  {
    if added == [] {
      assert ms + added == ms;
    } else {
      forall i | 0 <= i < |ms| ensures ms[i].key != added[0].key {
        assert (ms + added)[i] == ms[i] && (ms + added)[|ms|] == added[0];
      }
      PutNew(ms, added[0]);
      assert ms + [added[0]] + added[1..] == ms + added;
      PutAllNew(ms + [added[0]], added[1..]);
    }
  }

  lemma RenderStart(v: Value, style: Style, depth: nat)
    requires Plain(v)
    ensures Render(v, style, depth) != []
    ensures
      var c := Render(v, style, depth)[0];
      && c != NUL && !IsSpace(c) && c != CLOSE_ARRAY && c != CLOSE_OBJECT
  {
    if v.Int? {
      var n := if v.i < 0 then -v.i else v.i;
      assert Digits(n)[0] in Digits(n);
    }
  }

  lemma OpenedText(open: byte, newline: bytes, indent: bytes, text: bytes, outdent: bytes, close: byte, tail: bytes)
    ensures ([open] + newline + (indent + text) + outdent + [close] + tail)[1..]
            == (newline + indent) + (text + (outdent + ([close] + tail)))
  {
    Regroups([open], newline, indent + text, outdent, [close]);
    Associates(indent, text, outdent + ([close] + tail));
    Associates(newline, indent, text + (outdent + ([close] + tail)));
    var s := [open] + newline + (indent + text) + outdent + [close] + tail;
    assert s == [open] + (newline + ((indent + text) + (outdent + ([close] + tail))));
  }

  /** The text of the last element, and of one with more behind it. */
  lemma LastText(first: bytes, newline: bytes, w: bytes, end: bytes)
    ensures first + [] + newline + [] + (w + end) == first + ((newline + w) + end)
  {
  }

  lemma NextText(first: bytes, newline: bytes, indent: bytes, more: bytes, end: bytes)
    ensures first + [COMMA] + newline + (indent + more) + end
            == first + ([COMMA] + ((newline + indent) + (more + end)))
  {
    Regroups(first, [COMMA], newline, indent + more, end);
    Associates(indent, more, end);
    Associates(newline, indent, more + end);
  }

  lemma SeparatorRead(w: bytes, c: byte, rest: bytes, close: byte)
    requires White(w) && (c == COMMA || c == close)
    requires close == CLOSE_ARRAY || close == CLOSE_OBJECT
    ensures Separator(w + ([c] + rest), close) == Ok(c == close, rest)
    ensures !CanBeInNumber(Head(w + ([c] + rest)))
  {
    WhiteSkipped(w, [c] + rest, true);
    assert ([c] + rest)[1..] == rest;
    SeparatorEndsNumber(w + ([c] + rest), close);
  }

  lemma ElemsBehindSpaces(w: bytes, s: bytes, limit: nat, maxString: nat)
    requires White(w) && Head(s) != NUL && !IsSpace(Head(s))
    ensures ParseElems(w + s, AllowAll, limit, maxString) == ParseElems(s, AllowAll, limit, maxString)
  {
    WhiteSkipped(w, s, true);
    assert ParseVariant(w + s, true, AllowAll, limit, maxString)
        == ParseVariant(s, true, AllowAll, limit, maxString);
    assert ParseElem(w + s, AllowAll, limit, maxString) == ParseElem(s, AllowAll, limit, maxString);
  }

  lemma ValueRead(w: bytes, v: Value, s: bytes, rest: bytes, limit: nat, maxString: nat)
    requires White(w) && Head(s) != NUL && !IsSpace(Head(s))
    requires ParseValue(s, AllowAll, limit, maxString)
             == if Nesting(v) <= limit then Ok(v, rest) else Err(TooDeep)
    ensures ParseElem(w + s, AllowAll, limit, maxString)
            == if Nesting(v) <= limit then Ok([v], rest) else Err(TooDeep)
  {
    WhiteSkipped(w, s, true);
  }

  lemma ElemsStep(v: Value, first: bytes, rest: bytes, limit: nat, maxString: nat)
    requires first != [] && Head(first) != NUL && !IsSpace(Head(first))
    requires ParseValue(first + rest, AllowAll, limit, maxString)
             == if Nesting(v) <= limit then Ok(v, rest) else Err(TooDeep)
    requires Separator(rest, CLOSE_ARRAY).Ok?
    ensures ParseElems(first + rest, AllowAll, limit, maxString)
            == if Nesting(v) > limit then Err(TooDeep)
               else if Separator(rest, CLOSE_ARRAY).value then Ok([v], Separator(rest, CLOSE_ARRAY).rest)
               else Prepend([v], ParseElems(Separator(rest, CLOSE_ARRAY).rest, AllowAll, limit, maxString))
  {
    ValueRead([], v, first + rest, rest, limit, maxString);
    assert [] + (first + rest) == first + rest;
  }

  /** Whatever the layout, parsing printed text followed by anything that does
      not continue a number gives the document back and stops behind it,
      exactly when the nesting limit covers the document. */
  lemma {:induction false} PrintedIsParsed(v: Value, style: Style, depth: nat, tail: bytes, limit: nat, maxString: nat)
    requires Plain(v) && Parsable(v, maxString)
    requires !CanBeInNumber(Head(tail))
    ensures ParseValue(Render(v, style, depth) + tail, AllowAll, limit, maxString)
            == if Nesting(v) <= limit then Ok(v, tail) else Err(TooDeep)
    decreases v, 2
  {
    match v {
      case Null => KeywordRead(NULL, tail);
      case Bool(b) => KeywordRead(if b then TRUE else FALSE, tail);
      case Int(i) => IntegerRead(i, tail);
      case Str(s) => QuotedRead(s, tail, maxString);
      case Arr(elems) => ArrayIsParsed(elems, style, depth, tail, limit, maxString);
      case Obj(members) => ObjectIsParsed(members, style, depth, tail, limit, maxString);
    }
  }

  lemma LimitReached(s: bytes, maxString: nat)
    requires Head(s) == OPEN_ARRAY || Head(s) == OPEN_OBJECT
    ensures ParseValue(s, AllowAll, 0, maxString) == Err(TooDeep)
  {
  }

  lemma ArrayText(vs: seq<Value>, style: Style, depth: nat, tail: bytes) returns (w: bytes, t: bytes)
    requires vs != [] && PlainElems(vs)
    ensures
      var s := Render(Arr(vs), style, depth) + tail;
      s[0] == OPEN_ARRAY && s[1..] == w + t
    ensures t != [] && White(w) && t[0] != NUL && !IsSpace(t[0]) && t[0] != CLOSE_ARRAY
    ensures t == ElemsText(vs, style, depth + 1) + (Indent(style, depth) + ([CLOSE_ARRAY] + tail))
  {
    LayoutIsWhite(style, depth + 1);
    RenderStart(vs[0], style, depth + 1);
    var text := ElemsText(vs, style, depth + 1);
    w := Newline(style) + Indent(style, depth + 1);
    t := text + (Indent(style, depth) + ([CLOSE_ARRAY] + tail));
    assert text[0] == Render(vs[0], style, depth + 1)[0];
    OpenedText(OPEN_ARRAY, Newline(style), Indent(style, depth + 1), text, Indent(style, depth), CLOSE_ARRAY, tail);
  }

  lemma {:induction false} ArrayIsParsed(vs: seq<Value>, style: Style, depth: nat, tail: bytes, limit: nat,
                                         maxString: nat)
    requires PlainElems(vs) && ParsableElems(vs, maxString)
    ensures ParseValue(Render(Arr(vs), style, depth) + tail, AllowAll, limit, maxString)
            == if Nesting(Arr(vs)) <= limit then Ok(Arr(vs), tail) else Err(TooDeep)
    decreases vs, 1
  {
    hide ParseValue, ParseElems, PlainElems, ParsableElems;
    var s := Render(Arr(vs), style, depth) + tail;
    if vs == [] {
      EmptyArrayRead(s, tail, limit, maxString);
    } else {
      var w, t := ArrayText(vs, style, depth, tail);
      if limit == 0 {
        LimitReached(s, maxString);
      } else {
        BracketsRead(s, w, t, limit, maxString);
        LayoutIsWhite(style, depth);
        ElemsAreParsed(vs, style, depth + 1, Indent(style, depth), tail, limit - 1, maxString);
      }
    }
  }

  lemma EmptyArrayRead(s: bytes, tail: bytes, limit: nat, maxString: nat)
    requires s == [OPEN_ARRAY, CLOSE_ARRAY] + tail
    ensures ParseValue(s, AllowAll, limit, maxString) == if 1 <= limit then Ok(Arr([]), tail) else Err(TooDeep)
  {
    assert s[0] == OPEN_ARRAY && s[1..] == [CLOSE_ARRAY] + tail && s[1..][1..] == tail;
  }

  lemma BracketsRead(s: bytes, w: bytes, t: bytes, limit: nat, maxString: nat)
    requires Head(s) == OPEN_ARRAY && s[1..] == w + t && limit > 0
    requires White(w) && t != [] && t[0] != NUL && !IsSpace(t[0]) && t[0] != CLOSE_ARRAY
    ensures
      var r := ParseElems(t, AllowAll, limit - 1, maxString);
      ParseValue(s, AllowAll, limit, maxString)
      == if r.Ok? then Ok(Arr(r.value), r.rest) else Err(r.code)
  {
    WhiteSkipped(w, t, true);
    ArrayStep(s, t, limit, maxString);
  }

  lemma ArrayStep(s: bytes, t: bytes, limit: nat, maxString: nat)
    requires Head(s) == OPEN_ARRAY && limit > 0
    requires SkipSpaces(s[1..], true) == Ok((), t) && t[0] != CLOSE_ARRAY
    ensures
      var r := ParseElems(t, AllowAll, limit - 1, maxString);
      ParseValue(s, AllowAll, limit, maxString)
      == if r.Ok? then Ok(Arr(r.value), r.rest) else Err(r.code)
  {
  }

  /** What follows the first element: the end, or a comma and the next one. */
  lemma BehindElem(vs: seq<Value>, style: Style, depth: nat, w: bytes, tail: bytes)
    returns (rest: bytes, gap: bytes, next: bytes)
    requires vs != [] && PlainElems(vs) && White(w)
    ensures ElemsText(vs, style, depth) + (w + ([CLOSE_ARRAY] + tail)) == Render(vs[0], style, depth) + rest
    ensures !CanBeInNumber(Head(rest))
    ensures Separator(rest, CLOSE_ARRAY) == if |vs| == 1 then Ok(true, tail) else Ok(false, gap + next)
    ensures |vs| > 1 ==>
      && White(gap) && Head(next) != NUL && !IsSpace(Head(next))
      && next == ElemsText(vs[1..], style, depth) + (w + ([CLOSE_ARRAY] + tail))
  {
    var first := Render(vs[0], style, depth);
    LayoutIsWhite(style, depth);
    gap, next := Newline(style) + Indent(style, depth), [];
    if |vs| == 1 {
      rest := (Newline(style) + w) + ([CLOSE_ARRAY] + tail);
      assert ElemsText(vs, style, depth) == first + [] + Newline(style) + [];
      LastText(first, Newline(style), w, [CLOSE_ARRAY] + tail);
      SeparatorRead(Newline(style) + w, CLOSE_ARRAY, tail, CLOSE_ARRAY);
    } else {
      var end := w + ([CLOSE_ARRAY] + tail);
      next := ElemsText(vs[1..], style, depth) + end;
      rest := [COMMA] + (gap + next);
      NextText(first, Newline(style), Indent(style, depth), ElemsText(vs[1..], style, depth), end);
      SeparatorRead([], COMMA, gap + next, CLOSE_ARRAY);
      assert [] + rest == rest;
      RenderStart(vs[1], style, depth);
      assert next[0] == Render(vs[1], style, depth)[0];
    }
  }

  lemma {:induction false} ElemsAreParsed(vs: seq<Value>, style: Style, depth: nat, w: bytes, tail: bytes, limit: nat,
                                          maxString: nat)
    requires vs != [] && PlainElems(vs) && ParsableElems(vs, maxString)
    requires White(w)
    ensures ParseElems(ElemsText(vs, style, depth) + (w + ([CLOSE_ARRAY] + tail)), AllowAll, limit, maxString)
            == if NestingOfElems(vs) <= limit then Ok(vs, tail) else Err(TooDeep)
    decreases vs, 0
  {
    hide ParseValue, ParseElems, ElemsText, White;
    var rest, gap, next := BehindElem(vs, style, depth, w, tail);
    RenderStart(vs[0], style, depth);
    PrintedIsParsed(vs[0], style, depth, rest, limit, maxString);
    ElemsStep(vs[0], Render(vs[0], style, depth), rest, limit, maxString);
    assert vs == [vs[0]] + vs[1..];
    if |vs| > 1 {
      ElemsBehindSpaces(gap, next, limit, maxString);
      ElemsAreParsed(vs[1..], style, depth, w, tail, limit, maxString);
    } else {
      assert vs[1..] == [] && vs == [vs[0]];
      assert NestingOfElems(vs) == Nesting(vs[0]);
    }
  }

  lemma ObjectText(ms: seq<Member>, style: Style, depth: nat, tail: bytes) returns (w: bytes, t: bytes)
    requires ms != [] && PlainMembers(ms)
    ensures
      var s := Render(Obj(ms), style, depth) + tail;
      s[0] == OPEN_OBJECT && s[1..] == w + t
    ensures t != [] && White(w) && t[0] == QUOTE
    ensures t == MembersText(ms, style, depth + 1) + (Indent(style, depth) + ([CLOSE_OBJECT] + tail))
  {
    LayoutIsWhite(style, depth + 1);
    MembersStart(ms, style, depth + 1);
    var text := MembersText(ms, style, depth + 1);
    w := Newline(style) + Indent(style, depth + 1);
    t := text + (Indent(style, depth) + ([CLOSE_OBJECT] + tail));
    OpenedText(OPEN_OBJECT, Newline(style), Indent(style, depth + 1), text, Indent(style, depth), CLOSE_OBJECT, tail);
  }

  lemma {:induction false} ObjectIsParsed(ms: seq<Member>, style: Style, depth: nat, tail: bytes, limit: nat,
                                          maxString: nat)
    requires PlainMembers(ms) && ParsableMembers(ms, maxString) && UniqueKeys(ms)
    ensures ParseValue(Render(Obj(ms), style, depth) + tail, AllowAll, limit, maxString)
            == if Nesting(Obj(ms)) <= limit then Ok(Obj(ms), tail) else Err(TooDeep)
    decreases ms, 1
  {
    hide ParseValue, ParseMembers, PlainMembers, ParsableMembers, UniqueKeys;
    var s := Render(Obj(ms), style, depth) + tail;
    if ms == [] {
      EmptyObjectRead(s, tail, limit, maxString);
    } else {
      var w, t := ObjectText(ms, style, depth, tail);
      if limit == 0 {
        LimitReached(s, maxString);
      } else {
        var r := BracesAreParsed(ms, style, depth, t, tail, limit - 1, maxString);
        BracesRead(s, w, t, r, limit, maxString);
      }
    }
  }

  lemma BracesRead(s: bytes, w: bytes, t: bytes, r: Result<seq<Member>>, limit: nat, maxString: nat)
    requires Head(s) == OPEN_OBJECT && s[1..] == w + t && limit > 0
    requires White(w) && t != [] && t[0] == QUOTE
    requires r == ParseMembers(t, AllowAll, limit - 1, maxString)
    ensures ParseValue(s, AllowAll, limit, maxString) == ObjectFrom(r)
  {
    WhiteSkipped(w, t, true);
    ObjectStep(s, t, AllowAll, r, limit, maxString);
  }

  lemma {:induction false} BracesAreParsed(ms: seq<Member>, style: Style, depth: nat, t: bytes, tail: bytes,
                                           limit: nat, maxString: nat)
    returns (r: Result<seq<Member>>)
    requires ms != [] && PlainMembers(ms) && ParsableMembers(ms, maxString) && UniqueKeys(ms)
    requires t == MembersText(ms, style, depth + 1) + (Indent(style, depth) + ([CLOSE_OBJECT] + tail))
    ensures r == ParseMembers(t, AllowAll, limit, maxString)
    ensures ObjectFrom(r) == if NestingOfMembers(ms) <= limit then Ok(Obj(ms), tail) else Err(TooDeep)
    decreases ms, 1, 0
  {
    r := ParseMembers(t, AllowAll, limit, maxString);
    LayoutIsWhite(style, depth);
    MembersAreParsed(ms, style, depth + 1, Indent(style, depth), tail, limit, maxString);
    assert [] + ms == ms;
    PutAllNew([], ms);
  }

  lemma EmptyObjectRead(s: bytes, tail: bytes, limit: nat, maxString: nat)
    requires s == [OPEN_OBJECT, CLOSE_OBJECT] + tail
    ensures ParseValue(s, AllowAll, limit, maxString) == if 1 <= limit then Ok(Obj([]), tail) else Err(TooDeep)
  {
    assert s[0] == OPEN_OBJECT && s[1..] == [CLOSE_OBJECT] + tail && s[1..][1..] == tail;
  }

  lemma {:induction false} KeyIsCut(key: bytes)
    ensures CString(key) == key <==> 0 !in key
  {
    if key == [] {
    } else {
      KeyIsCut(key[1..]);
      assert key == [key[0]] + key[1..];
    }
  }

  /** A key is read back up to its first NUL: as it was exactly when it has none. */
  lemma {:induction false} KeyColonRead(key: bytes, s: bytes, maxString: nat)
    requires |key| <= maxString
    ensures ParseKeyColon(Quoted(key) + ([COLON] + s), maxString) == Ok(CString(key), s)
    ensures CString(key) == key <==> 0 !in key
  {
    KeyIsCut(key);
    QuotedRead(key, [COLON] + s, maxString);
    assert ([COLON] + s)[1..] == s;
  }

  lemma MembersStart(ms: seq<Member>, style: Style, depth: nat)
    requires ms != [] && PlainMembers(ms)
    ensures MembersText(ms, style, depth) != [] && MembersText(ms, style, depth)[0] == QUOTE
  {
    assert Quoted(ms[0].key)[0] == QUOTE;
    assert MemberText(ms[0], style, depth)[0] == QUOTE;
  }

  lemma MemberBytes(key: bytes, style: Style, text: bytes, rest: bytes) returns (space: bytes)
    ensures White(space)
    ensures Quoted(key) + (ColonText(style) + text) + rest == Quoted(key) + ([COLON] + (space + (text + rest)))
  {
    space := if style.Pretty? then [SPACE] else [];
    assert ColonText(style) + text + rest == [COLON] + (space + (text + rest));
    Associates(Quoted(key), ColonText(style) + text, rest);
  }

  lemma MemberRead(m: Member, style: Style, depth: nat, rest: bytes, limit: nat, maxString: nat)
    requires 0 !in m.key && |m.key| <= maxString && Plain(m.value)
    requires ParseValue(Render(m.value, style, depth) + rest, AllowAll, limit, maxString)
             == if Nesting(m.value) <= limit then Ok(m.value, rest) else Err(TooDeep)
    ensures ParseMember(MemberText(m, style, depth) + rest, AllowAll, limit, maxString)
            == if Nesting(m.value) <= limit then Ok([m], rest) else Err(TooDeep)
  {
    var text := Render(m.value, style, depth);
    var space := MemberBytes(m.key, style, text, rest);
    RenderStart(m.value, style, depth);
    ValueRead(space, m.value, text + rest, rest, limit, maxString);
    KeyColonRead(m.key, space + (text + rest), maxString);
  }

  lemma MembersStep(m: Member, first: bytes, rest: bytes, limit: nat, maxString: nat)
    requires ParseMember(first + rest, AllowAll, limit, maxString)
             == if Nesting(m.value) <= limit then Ok([m], rest) else Err(TooDeep)
    requires MemberSeparator(rest).Ok?
    ensures ParseMembers(first + rest, AllowAll, limit, maxString)
            == if Nesting(m.value) > limit then Err(TooDeep)
               else if MemberSeparator(rest).value then Ok([m], MemberSeparator(rest).rest)
               else Prepend([m], ParseMembers(MemberSeparator(rest).rest, AllowAll, limit, maxString))
  {
  }

  /** What follows the first member: the end, or a comma and the next one. */
  lemma BehindMember(ms: seq<Member>, style: Style, depth: nat, w: bytes, tail: bytes)
    returns (rest: bytes, next: bytes)
    requires ms != [] && PlainMembers(ms) && White(w)
    ensures MembersText(ms, style, depth) + (w + ([CLOSE_OBJECT] + tail)) == MemberText(ms[0], style, depth) + rest
    ensures !CanBeInNumber(Head(rest))
    ensures MemberSeparator(rest) == if |ms| == 1 then Ok(true, tail) else Ok(false, next)
    ensures |ms| > 1 ==> next == MembersText(ms[1..], style, depth) + (w + ([CLOSE_OBJECT] + tail))
  {
    var first := MemberText(ms[0], style, depth);
    LayoutIsWhite(style, depth);
    next := [];
    if |ms| == 1 {
      rest := (Newline(style) + w) + ([CLOSE_OBJECT] + tail);
      assert MembersText(ms, style, depth) == first + [] + Newline(style) + [];
      LastText(first, Newline(style), w, [CLOSE_OBJECT] + tail);
      SeparatorRead(Newline(style) + w, CLOSE_OBJECT, tail, CLOSE_OBJECT);
    } else {
      var end := w + ([CLOSE_OBJECT] + tail);
      var gap := Newline(style) + Indent(style, depth);
      next := MembersText(ms[1..], style, depth) + end;
      rest := [COMMA] + (gap + next);
      NextText(first, Newline(style), Indent(style, depth), MembersText(ms[1..], style, depth), end);
      SeparatorRead([], COMMA, gap + next, CLOSE_OBJECT);
      assert [] + rest == rest;
      MembersStart(ms[1..], style, depth);
      assert next[0] == QUOTE;
      WhiteSkipped(gap, next, true);
    }
  }

  lemma {:induction false} MembersAreParsed(ms: seq<Member>, style: Style, depth: nat, w: bytes, tail: bytes,
                                            limit: nat, maxString: nat)
    requires ms != [] && PlainMembers(ms) && ParsableMembers(ms, maxString)
    requires White(w)
    ensures ParseMembers(MembersText(ms, style, depth) + (w + ([CLOSE_OBJECT] + tail)), AllowAll, limit, maxString)
            == if NestingOfMembers(ms) <= limit then Ok(ms, tail) else Err(TooDeep)
    decreases ms, 0
  {
    hide ParseValue, ParseMembers, ParseMember, MembersText, MemberText, Render, White;
    var rest, next := BehindMember(ms, style, depth, w, tail);
    PrintedIsParsed(ms[0].value, style, depth, rest, limit, maxString);
    MemberRead(ms[0], style, depth, rest, limit, maxString);
    MembersStep(ms[0], MemberText(ms[0], style, depth), rest, limit, maxString);
    assert ms == [ms[0]] + ms[1..];
    if |ms| > 1 {
      MembersAreParsed(ms[1..], style, depth, w, tail, limit, maxString);
    } else {
      assert ms[1..] == [] && ms == [ms[0]];
      assert NestingOfMembers(ms) == Nesting(ms[0].value);
    }
  }

  /** Both serializers are undone by the parser, exactly within the limit. */
  lemma RoundTrip(v: Value, style: Style, limit: nat, maxString: nat)
    requires Plain(v) && Parsable(v, maxString)
    ensures Parse(Render(v, style, 0), AllowAll, limit, maxString)
            == if Nesting(v) <= limit then Ok(v, []) else Err(TooDeep)
  {
    var s := Render(v, style, 0);
    RenderStart(v, style, 0);
    WhiteSkipped([], s, false);
    assert [] + s == s && s + [] == s;
    PrintedIsParsed(v, style, 0, [], limit, maxString);
  }
}
