/** The indented text is laid out from the minified one by a scanner that knows
    nothing of documents: where a line ends, and how many spaces begin the next. */
module PrettyTheorems {
  import opened Bytes
  import opened Document
  import opened Ascii
  import opened Numbers
  import opened Printer

  function Blanks(n: nat): bytes {
    seq(n, _ => 0x20)
  }

  /** A new line, two spaces in for each level, of which 256 look like none. */
  function Line(depth: nat): bytes {
    [0x0D, 0x0A] + Blanks(2 * (depth % 256))
  }

  /** The text from inside some levels on. A bracket opens a level unless it is
      closed at once; commas and brackets end lines; a colon has a space behind it. */
  function Spread(s: bytes, depth: nat, quoted: bool): bytes {
    if s == [] then []
    else if quoted then
      if s[0] == 0x5C && |s| > 1 then [s[0], s[1]] + Spread(s[2..], depth, true)
      else [s[0]] + Spread(s[1..], depth, s[0] != 0x22)
    else if s[0] == 0x5B || s[0] == 0x7B then
      if |s| > 1 && (s[1] == 0x5D || s[1] == 0x7D) then [s[0], s[1]] + Spread(s[2..], depth, false)
      else [s[0]] + Line(depth + 1) + Spread(s[1..], depth + 1, false)
    else if s[0] == 0x5D || s[0] == 0x7D then
      var less := if depth > 0 then depth - 1 else 0;
      Line(less) + [s[0]] + Spread(s[1..], less, false)
    else if s[0] == 0x2C then [0x2C] + Line(depth) + Spread(s[1..], depth, false)
    else if s[0] == 0x3A then [0x3A, 0x20] + Spread(s[1..], depth, false)
    else [s[0]] + Spread(s[1..], depth, s[0] == 0x22)
  }

  lemma {:induction false} TabsAreBlanks(n: nat)
    ensures Tabs(n) == Blanks(2 * n)
  {
    if n > 0 { TabsAreBlanks(n - 1); }
  }

  lemma IndentIsBlanks(depth: nat)
    ensures NEWLINE + Indent(Pretty, depth) == Line(depth)
  {
    TabsAreBlanks(depth % 0x100);
  }

  // Texts without brackets.

  predicate Solid(s: bytes) {
    forall i | 0 <= i < |s| :: s[i] !in {0x22, 0x2C, 0x3A, 0x5B, 0x5D, 0x7B, 0x7D}
  }

  lemma {:induction false} SpreadSolid(x: bytes, t: bytes, depth: nat)
    requires Solid(x)
    ensures Spread(x + t, depth, false) == x + Spread(t, depth, false)
  {
    if x == [] {
      assert x + t == t;
    } else {
      assert (x + t)[1..] == x[1..] + t;
      SpreadSolid(x[1..], t, depth);
    }
  }

  lemma SpreadPair(a: byte, b: byte, t: bytes, depth: nat)
    requires a == 0x5C
    ensures Spread([a, b] + t, depth, true) == [a, b] + Spread(t, depth, true)
  {
    assert ([a, b] + t)[2..] == t;
  }

  lemma {:induction false} SpreadRaw(x: bytes, t: bytes, depth: nat)
    requires forall i | 0 <= i < |x| :: x[i] != 0x5C && x[i] != 0x22
    ensures Spread(x + t, depth, true) == x + Spread(t, depth, true)
  {
    if x == [] {
      assert x + t == t;
    } else {
      assert (x + t)[1..] == x[1..] + t;
      SpreadRaw(x[1..], t, depth);
    }
  }

  lemma SpreadChar(c: byte, t: bytes, depth: nat)
    ensures Spread(CharText(c) + t, depth, true) == CharText(c) + Spread(t, depth, true)
  {
    if EscapeChar(c) != 0 {
      SpreadPair(BACKSLASH, EscapeChar(c), t, depth);
    } else if c != NUL {
      SpreadRaw([c], t, depth);
    } else {
      var u: bytes := [0x30, 0x30, 0x30, 0x30];
      assert NUL_TEXT + t == [BACKSLASH, 0x75] + (u + t);
      SpreadPair(BACKSLASH, 0x75, u + t, depth);
      SpreadRaw(u, t, depth);
    }
  }

  lemma {:induction false} SpreadEscaped(text: bytes, t: bytes, depth: nat)
    ensures Spread(Escaped(text) + t, depth, true) == Escaped(text) + Spread(t, depth, true)
  {
    hide CharText, Spread;
    if text == [] {
      assert Escaped(text) + t == t;
    } else {
      var more := Escaped(text[1..]);
      Associates(CharText(text[0]), more, t);
      SpreadChar(text[0], more + t, depth);
      SpreadEscaped(text[1..], t, depth);
    }
  }

  lemma SpreadQuoted(text: bytes, t: bytes, depth: nat)
    ensures Spread(Quoted(text) + t, depth, false) == Quoted(text) + Spread(t, depth, false)
  {
    var s := Escaped(text) + ([QUOTE] + t);
    assert Quoted(text) + t == [QUOTE] + s && ([QUOTE] + s)[1..] == s;
    SpreadEscaped(text, [QUOTE] + t, depth);
    assert ([QUOTE] + t)[1..] == t;
    assert Spread([QUOTE] + t, depth, true) == [QUOTE] + Spread(t, depth, false);
  }

  // Brackets, commas and colons.

  lemma SpreadEmpty(open: byte, close: byte, t: bytes, depth: nat)
    requires (open, close) == (0x5B, 0x5D) || (open, close) == (0x7B, 0x7D)
    ensures Spread([open, close] + t, depth, false) == [open, close] + Spread(t, depth, false)
  {
    assert ([open, close] + t)[2..] == t;
  }

  lemma SpreadOpen(open: byte, s: bytes, depth: nat)
    requires (open == 0x5B || open == 0x7B) && s != [] && s[0] != 0x5D && s[0] != 0x7D
    ensures Spread([open] + s, depth, false) == [open] + Line(depth + 1) + Spread(s, depth + 1, false)
  {
    assert ([open] + s)[1..] == s;
  }

  lemma SpreadClose(close: byte, t: bytes, depth: nat)
    requires close == 0x5D || close == 0x7D
    ensures Spread([close] + t, depth + 1, false) == Line(depth) + [close] + Spread(t, depth, false)
  {
    assert ([close] + t)[1..] == t;
  }

  lemma SpreadMark(t: bytes, depth: nat)
    ensures Spread([0x2C] + t, depth, false) == [0x2C] + Line(depth) + Spread(t, depth, false)
    ensures Spread([0x3A] + t, depth, false) == [0x3A, 0x20] + Spread(t, depth, false)
  {
    assert ([0x2C] + t)[1..] == t && ([0x3A] + t)[1..] == t;
  }

  // Documents.

  lemma Starts(v: Value, depth: nat)
    requires Plain(v)
    ensures Render(v, Minified, depth) != [] && Render(v, Minified, depth)[0] !in {0x5D, 0x7D}
  {
    if v.Int? {
      var d := Digits(if v.i < 0 then -v.i else v.i);
      assert d[0] in d;
    }
  }

  lemma DigitsSolid(i: int)
    ensures Solid(IntegerText(i))
  {
    var d := Digits(if i < 0 then -i else i);
    forall k | 0 <= k < |d| ensures IsDigit(d[k]) { assert d[k] in d; }
  }

  lemma {:induction false} SpreadRender(v: Value, depth: nat, t: bytes)
    requires Plain(v)
    ensures Spread(Render(v, Minified, depth) + t, depth, false) == Render(v, Pretty, depth) + Spread(t, depth, false)
    decreases v, 2
  {
    hide Spread, Quoted, IntegerText, ElemsText, MembersText;
    match v {
      case Null => SpreadSolid(NULL, t, depth);
      case Bool(b) => SpreadSolid(if b then TRUE else FALSE, t, depth);
      case Int(i) => DigitsSolid(i); SpreadSolid(IntegerText(i), t, depth);
      case Str(s) => SpreadQuoted(s, t, depth);
      case Arr(vs) =>
        if vs == [] {
          SpreadEmpty(OPEN_ARRAY, CLOSE_ARRAY, t, depth);
        } else {
          ElemsStart(vs, depth + 1);
          SpreadElems(vs, CLOSE_ARRAY, depth, t);
          Bracketed(OPEN_ARRAY, ElemsText(vs, Minified, depth + 1), ElemsText(vs, Pretty, depth + 1), CLOSE_ARRAY,
                    depth, t);
        }
      case Obj(ms) =>
        if ms == [] {
          SpreadEmpty(OPEN_OBJECT, CLOSE_OBJECT, t, depth);
        } else {
          MembersStart(ms, depth + 1);
          SpreadMembers(ms, CLOSE_OBJECT, depth, t);
          Bracketed(OPEN_OBJECT, MembersText(ms, Minified, depth + 1), MembersText(ms, Pretty, depth + 1), CLOSE_OBJECT,
                    depth, t);
        }
    }
  }

  lemma ElemsStart(vs: seq<Value>, depth: nat)
    requires vs != [] && PlainElems(vs)
    ensures var s := ElemsText(vs, Minified, depth); s != [] && s[0] !in {0x5D, 0x7D}
  {
    Starts(vs[0], depth);
  }

  lemma MembersStart(ms: seq<Member>, depth: nat)
    requires ms != [] && PlainMembers(ms)
    ensures var s := MembersText(ms, Minified, depth); s != [] && s[0] !in {0x5D, 0x7D}
  {
    assert MemberText(ms[0], Minified, depth)[0] == QUOTE;
  }

  /** What stands between the brackets, with what follows. */
  lemma {:induction false} Bracketed(open: byte, bare: bytes, full: bytes, close: byte, depth: nat, t: bytes)
    requires (open, close) == (0x5B, 0x5D) || (open, close) == (0x7B, 0x7D)
    requires bare != [] && bare[0] !in {0x5D, 0x7D}
    requires Spread(bare + ([close] + t), depth + 1, false)
             == full + (Indent(Pretty, depth) + ([close] + Spread(t, depth, false)))
    ensures Spread([open] + [] + ([] + bare) + [] + [close] + t, depth, false)
            == [open] + NEWLINE + (Indent(Pretty, depth + 1) + full) + Indent(Pretty, depth) + [close]
               + Spread(t, depth, false)
  {
    hide Spread;
    var s := bare + ([close] + t);
    assert [open] + [] + ([] + bare) + [] + [close] + t == [open] + s;
    SpreadOpen(open, s, depth);
    IndentIsBlanks(depth + 1);
    Pieces([open], NEWLINE, Indent(Pretty, depth + 1), full, Indent(Pretty, depth), [close], Spread(t, depth, false));
  }

  lemma {:induction false} Pieces(a: bytes, b: bytes, c: bytes, d: bytes, e: bytes, f: bytes, g: bytes)
    ensures a + b + (c + d) + e + f + g == a + (b + c) + (d + (e + (f + g)))
  {
  }

  lemma {:induction false} SpreadElems(vs: seq<Value>, close: byte, depth: nat, t: bytes)
    requires vs != [] && PlainElems(vs) && (close == 0x5D || close == 0x7D)
    ensures Spread(ElemsText(vs, Minified, depth + 1) + ([close] + t), depth + 1, false)
            == ElemsText(vs, Pretty, depth + 1) + (Indent(Pretty, depth) + ([close] + Spread(t, depth, false)))
    decreases vs, 0
  {
    hide Spread, Render;
    var bare, full := Render(vs[0], Minified, depth + 1), Render(vs[0], Pretty, depth + 1);
    var end := Indent(Pretty, depth) + ([close] + Spread(t, depth, false));
    if |vs| == 1 {
      assert ElemsText(vs, Minified, depth + 1) + ([close] + t) == bare + ([close] + t);
      SpreadRender(vs[0], depth + 1, [close] + t);
      LastSpread(full, close, depth, t);
    } else {
      var more := ElemsText(vs[1..], Minified, depth + 1) + ([close] + t);
      assert ElemsText(vs, Minified, depth + 1) + ([close] + t) == bare + ([0x2C] + more);
      SpreadRender(vs[0], depth + 1, [0x2C] + more);
      SpreadElems(vs[1..], close, depth, t);
      NextSpread(full, more, ElemsText(vs[1..], Pretty, depth + 1), end, depth + 1);
    }
  }

  lemma LastSpread(full: bytes, close: byte, depth: nat, t: bytes)
    requires close == 0x5D || close == 0x7D
    ensures full + Spread([close] + t, depth + 1, false)
            == full + [] + NEWLINE + [] + (Indent(Pretty, depth) + ([close] + Spread(t, depth, false)))
  {
    hide Spread;
    SpreadClose(close, t, depth);
    IndentIsBlanks(depth);
    Pieces(full, [], [], NEWLINE, Indent(Pretty, depth), [close], Spread(t, depth, false));
  }

  lemma NextSpread(full: bytes, more: bytes, next: bytes, end: bytes, depth: nat)
    requires Spread(more, depth, false) == next + end
    ensures full + Spread([0x2C] + more, depth, false)
            == full + [0x2C] + NEWLINE + (Indent(Pretty, depth) + next) + end
  {
    hide Spread;
    SpreadMark(more, depth);
    IndentIsBlanks(depth);
    assert full + ([0x2C] + Line(depth) + (next + end))
           == full + [0x2C] + NEWLINE + (Indent(Pretty, depth) + next) + end by {
      hide Line, Indent;
      Joined(full, [0x2C], NEWLINE, Indent(Pretty, depth), next, end);
    }
  }

  lemma Joined(a: bytes, b: bytes, c: bytes, d: bytes, e: bytes, f: bytes)
    ensures a + (b + (c + d) + (e + f)) == a + b + c + (d + e) + f
  {
  }

  lemma {:induction false} SpreadMember(m: Member, depth: nat, t: bytes)
    requires Plain(m.value)
    ensures Spread(MemberText(m, Minified, depth) + t, depth, false)
            == MemberText(m, Pretty, depth) + Spread(t, depth, false)
    decreases m, 3
  {
    hide Spread, Render, Quoted;
    var bare, full := Render(m.value, Minified, depth), Render(m.value, Pretty, depth);
    assert MemberText(m, Minified, depth) + t == Quoted(m.key) + ([0x3A] + (bare + t));
    SpreadQuoted(m.key, [0x3A] + (bare + t), depth);
    SpreadMark(bare + t, depth);
    SpreadRender(m.value, depth, t);
    assert Quoted(m.key) + ([0x3A, 0x20] + (full + Spread(t, depth, false)))
           == MemberText(m, Pretty, depth) + Spread(t, depth, false);
  }

  lemma {:induction false} SpreadMembers(ms: seq<Member>, close: byte, depth: nat, t: bytes)
    requires ms != [] && PlainMembers(ms) && (close == 0x5D || close == 0x7D)
    ensures Spread(MembersText(ms, Minified, depth + 1) + ([close] + t), depth + 1, false)
            == MembersText(ms, Pretty, depth + 1) + (Indent(Pretty, depth) + ([close] + Spread(t, depth, false)))
    decreases ms, 0
  {
    hide Spread, MemberText;
    var bare, full := MemberText(ms[0], Minified, depth + 1), MemberText(ms[0], Pretty, depth + 1);
    var end := Indent(Pretty, depth) + ([close] + Spread(t, depth, false));
    if |ms| == 1 {
      assert MembersText(ms, Minified, depth + 1) + ([close] + t) == bare + ([close] + t);
      SpreadMember(ms[0], depth + 1, [close] + t);
      LastSpread(full, close, depth, t);
    } else {
      var more := MembersText(ms[1..], Minified, depth + 1) + ([close] + t);
      assert MembersText(ms, Minified, depth + 1) + ([close] + t) == bare + ([0x2C] + more);
      SpreadMember(ms[0], depth + 1, [0x2C] + more);
      SpreadMembers(ms[1..], close, depth, t);
      NextSpread(full, more, MembersText(ms[1..], Pretty, depth + 1), end, depth + 1);
    }
  }

  /** The indented text of a document is its minified text, laid out. */
  lemma PrettyIsLaidOut(v: Value)
    requires Plain(v)
    ensures Render(v, Pretty, 0) == Spread(Render(v, Minified, 0), 0, false)
  {
    SpreadRender(v, 0, []);
    var s := Render(v, Minified, 0);
    assert s + [] == s;
  }
}
