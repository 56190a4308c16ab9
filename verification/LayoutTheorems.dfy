/** The indented text is the minified text plus white space outside strings. */
module LayoutTheorems {
  import opened Bytes
  import opened Document
  import opened Ascii
  import opened Numbers
  import opened Printer

  /** Drops the white space that stands outside quoted strings. */
  function Strip(s: bytes, quoted: bool): bytes {
    if s == [] then []
    else if !quoted then
      if IsSpace(s[0]) then Strip(s[1..], false) else [s[0]] + Strip(s[1..], s[0] == QUOTE)
    else if s[0] == BACKSLASH && |s| > 1 then [s[0], s[1]] + Strip(s[2..], true)
    else [s[0]] + Strip(s[1..], s[0] != QUOTE)
  }

  predicate Solid(s: bytes) {
    forall i :: 0 <= i < |s| ==> !IsSpace(s[i]) && s[i] != QUOTE
  }

  lemma {:induction false} StripWhite(w: bytes, t: bytes)
    requires forall i :: 0 <= i < |w| ==> IsSpace(w[i])
    ensures Strip(w + t, false) == Strip(t, false)
  {
    if w == [] {
      assert w + t == t;
    } else {
      assert (w + t)[1..] == w[1..] + t;
      StripWhite(w[1..], t);
    }
  }

  lemma {:induction false} StripSolid(x: bytes, t: bytes)
    requires Solid(x)
    ensures Strip(x + t, false) == x + Strip(t, false)
  {
    if x == [] {
      assert x + t == t;
    } else {
      assert (x + t)[1..] == x[1..] + t;
      StripSolid(x[1..], t);
    }
  }

  lemma StripChar(c: byte, t: bytes)
    ensures Strip(CharText(c) + t, true) == CharText(c) + Strip(t, true)
  {
    var x := CharText(c);
    if EscapeChar(c) != 0 {
      assert (x + t)[2..] == t;
    } else if c != NUL {
      assert (x + t)[1..] == t;
    } else {
      var u := [0x30, 0x30, 0x30, 0x30] + t;
      assert (x + t)[2..] == u;
      assert u[1..] == [0x30, 0x30, 0x30] + t;
      assert u[1..][1..] == [0x30, 0x30] + t;
      assert u[1..][1..][1..] == [0x30] + t;
      assert u[1..][1..][1..][1..] == t;
      assert Strip(u[1..][1..][1..], true) == [0x30] + Strip(t, true);
      assert Strip(u[1..][1..], true) == [0x30, 0x30] + Strip(t, true);
      assert Strip(u, true) == [0x30, 0x30, 0x30, 0x30] + Strip(t, true);
    }
  }

  lemma {:induction false} StripEscaped(text: bytes, t: bytes)
    ensures Strip(Escaped(text) + t, true) == Escaped(text) + Strip(t, true)
  {
    if text == [] {
      assert Escaped(text) + t == t;
    } else {
      var more := Escaped(text[1..]);
      Associates(CharText(text[0]), more, t);
      StripChar(text[0], more + t);
      StripEscaped(text[1..], t);
    }
  }

  lemma StripQuoted(text: bytes, t: bytes)
    ensures Strip(Quoted(text) + t, false) == Quoted(text) + Strip(t, false)
  {
    var s := Escaped(text) + ([QUOTE] + t);
    assert Quoted(text) + t == [QUOTE] + s && ([QUOTE] + s)[1..] == s;
    StripEscaped(text, [QUOTE] + t);
    assert ([QUOTE] + t)[1..] == t;
    assert Strip([QUOTE] + t, true) == [QUOTE] + Strip(t, false);
  }

  lemma {:induction false} StripTabs(n: nat, t: bytes)
    ensures Strip(Tabs(n) + t, false) == Strip(t, false)
  {
    if n == 0 {
      assert Tabs(n) + t == t;
    } else {
      Associates([SPACE, SPACE], Tabs(n - 1), t);
      StripWhite([SPACE, SPACE], Tabs(n - 1) + t);
      StripTabs(n - 1, t);
    }
  }

  lemma StripLayout(depth: nat, t: bytes)
    ensures Strip(Indent(Pretty, depth) + t, false) == Strip(t, false)
    ensures Strip(NEWLINE + t, false) == Strip(t, false)
    ensures Strip(ColonText(Pretty) + t, false) == ColonText(Minified) + Strip(t, false)
    ensures forall last: bool :: Strip(Comma(last) + t, false) == Comma(last) + Strip(t, false)
  {
    StripTabs(depth % 0x100, t);
    StripWhite(NEWLINE, t);
    assert ColonText(Pretty) + t == [COLON] + ([SPACE] + t);
    StripSolid([COLON], [SPACE] + t);
    StripWhite([SPACE], t);
    forall last: bool { StripSolid(Comma(last), t); }
  }

  lemma FivePieces(a: bytes, b: bytes, c: bytes, d: bytes, e: bytes, t: bytes)
    ensures a + b + c + d + e + t == a + (b + (c + (d + (e + t))))
  {
    Regroups(a, b, c, d, e);
    Associates(a, b + (c + (d + e)), t);
    Associates(b, c + (d + e), t);
    Associates(c, d + e, t);
    Associates(d, e, t);
  }

  lemma Empties(a: bytes, b: bytes, c: bytes)
    ensures a + [] + b + [] + c == a + b + c
    ensures [] + (a + b + [] + c) == a + b + c
  {
  }

  /** The text of a collection, in pieces, with what follows it. */
  lemma BracketsStripped(open: byte, full: bytes, bare: bytes, depth: nat, close: byte, t: bytes)
    requires (open, close) == (OPEN_ARRAY, CLOSE_ARRAY) || (open, close) == (OPEN_OBJECT, CLOSE_OBJECT)
    requires
      var end := Indent(Pretty, depth) + ([close] + t);
      Strip(full + end, false) == bare + Strip(end, false)
    ensures Strip([open] + NEWLINE + full + Indent(Pretty, depth) + [close] + t, false)
            == [open] + [] + bare + [] + [close] + Strip(t, false)
  {
    var end := Indent(Pretty, depth) + ([close] + t);
    FivePieces([open], NEWLINE, full, Indent(Pretty, depth), [close], t);
    StripSolid([open], NEWLINE + (full + end));
    StripLayout(depth, full + end);
    StripLayout(depth, [close] + t);
    StripSolid([close], t);
    Empties([open], bare, [close]);
    Associates([open], bare, [close] + Strip(t, false));
    Associates([open] + bare, [close], Strip(t, false));
  }

  lemma DigitsSolid(i: int)
    ensures Solid(IntegerText(i))
  {
    var d := Digits(if i < 0 then -i else i);
    forall k | 0 <= k < |d| ensures IsDigit(d[k]) { assert d[k] in d; }
  }

  lemma {:induction false} StripRender(v: Value, depth: nat, t: bytes)
    requires Plain(v)
    ensures Strip(Render(v, Pretty, depth) + t, false) == Render(v, Minified, depth) + Strip(t, false)
    decreases v, 2
  {
    match v {
      case Null => StripSolid(NULL, t);
      case Bool(b) => StripSolid(if b then TRUE else FALSE, t);
      case Int(i) => DigitsSolid(i); StripSolid(IntegerText(i), t);
      case Str(s) => StripQuoted(s, t);
      case Arr(vs) =>
        if vs == [] {
          StripSolid([OPEN_ARRAY, CLOSE_ARRAY], t);
        } else {
          StripElems(vs, depth + 1, Indent(Pretty, depth) + ([CLOSE_ARRAY] + t));
          BracketsStripped(OPEN_ARRAY, RenderElems(vs, Pretty, depth + 1), RenderElems(vs, Minified, depth + 1),
                           depth, CLOSE_ARRAY, t);
        }
      case Obj(ms) =>
        if ms == [] {
          StripSolid([OPEN_OBJECT, CLOSE_OBJECT], t);
        } else {
          StripMembers(ms, depth + 1, Indent(Pretty, depth) + ([CLOSE_OBJECT] + t));
          BracketsStripped(OPEN_OBJECT, RenderMembers(ms, Pretty, depth + 1), RenderMembers(ms, Minified, depth + 1),
                           depth, CLOSE_OBJECT, t);
        }
    }
  }

  /** One element with its indentation, comma and line end. */
  lemma LineStripped(full: bytes, bare: bytes, depth: nat, last: bool, more: bytes, bareMore: bytes, t: bytes)
    requires
      var rest := Comma(last) + (NEWLINE + (more + t));
      Strip(full + rest, false) == bare + Strip(rest, false)
    requires Strip(more + t, false) == bareMore + Strip(t, false)
    ensures Strip(Indent(Pretty, depth) + (full + Comma(last) + NEWLINE + more) + t, false)
            == [] + (bare + Comma(last) + [] + bareMore) + Strip(t, false)
  {
    var rest := Comma(last) + (NEWLINE + (more + t));
    Regroups(full, Comma(last), NEWLINE, more, t);
    Associates(Indent(Pretty, depth), full + Comma(last) + NEWLINE + more, t);
    StripLayout(depth, full + rest);
    StripLayout(depth, NEWLINE + (more + t));
    StripLayout(depth, more + t);
    Empties(bare, Comma(last), bareMore);
    Associates(bare, Comma(last), bareMore + Strip(t, false));
    Associates(bare + Comma(last), bareMore, Strip(t, false));
  }

  lemma {:induction false} StripElems(vs: seq<Value>, depth: nat, t: bytes)
    requires PlainElems(vs)
    ensures Strip(RenderElems(vs, Pretty, depth) + t, false) == RenderElems(vs, Minified, depth) + Strip(t, false)
    decreases vs, 0
  {
    if vs == [] {
      StripSolid([], t);
    } else {
      var more := RenderElems(vs[1..], Pretty, depth);
      var last := |vs| == 1;
      StripRender(vs[0], depth, Comma(last) + (NEWLINE + (more + t)));
      StripElems(vs[1..], depth, t);
      LineStripped(Render(vs[0], Pretty, depth), Render(vs[0], Minified, depth), depth, last,
                   more, RenderElems(vs[1..], Minified, depth), t);
    }
  }

  lemma {:induction false} StripMember(m: Member, depth: nat, t: bytes)
    requires Plain(m.value)
    ensures Strip(MemberText(m, Pretty, depth) + t, false) == MemberText(m, Minified, depth) + Strip(t, false)
    decreases m, 3
  {
    var value := Render(m.value, Pretty, depth);
    assert MemberText(m, Pretty, depth) + t == Quoted(m.key) + (ColonText(Pretty) + (value + t));
    StripQuoted(m.key, ColonText(Pretty) + (value + t));
    StripLayout(depth, value + t);
    StripRender(m.value, depth, t);
  }

  lemma {:induction false} StripMembers(ms: seq<Member>, depth: nat, t: bytes)
    requires PlainMembers(ms)
    ensures Strip(RenderMembers(ms, Pretty, depth) + t, false) == RenderMembers(ms, Minified, depth) + Strip(t, false)
    decreases ms, 0
  {
    if ms == [] {
      StripSolid([], t);
    } else {
      var more := RenderMembers(ms[1..], Pretty, depth);
      var last := |ms| == 1;
      StripMember(ms[0], depth, Comma(last) + (NEWLINE + (more + t)));
      StripMembers(ms[1..], depth, t);
      LineStripped(MemberText(ms[0], Pretty, depth), MemberText(ms[0], Minified, depth), depth, last,
                   more, RenderMembers(ms[1..], Minified, depth), t);
    }
  }

  /** Stripping the indented text of a document gives its minified text. */
  lemma PrettyIsMinifiedAndSpaces(v: Value)
    requires Plain(v)
    ensures Strip(Render(v, Pretty, 0), false) == Render(v, Minified, 0)
  {
    StripRender(v, 0, []);
    var s := Render(v, Pretty, 0);
    assert s + [] == s;
  }
}
